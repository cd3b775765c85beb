/** The on-demand price lookup for a managed database instance type.

    The lookup sends three exact-match filters (instance type, database
    engine, location) to the pricing service, then scans the price records it
    gets back. A record is a multi-AZ one exactly when its usage type contains
    "Multi-AZUsage"; records of the other deployment mode are skipped, and the
    price of every surviving record overwrites the previous one, so the result
    is the price of the LAST matching record, or None when nothing matched.
 */
module OnDemandPrice {
  import opened FilterBuilder

  datatype Option<T> = None | Some(value: T)

  /** A `pricePerUnit` map (currency code to decimal string), in insertion
      order; the decimal strings are passed through untouched. */
  type PricePerUnit = seq<(string, string)>

  /** One price dimension of a term. */
  datatype Dimension = Dimension(pricePerUnit: PricePerUnit)

  /** One OnDemand term; its price dimensions in insertion order. */
  datatype Term = Term(priceDimensions: seq<Dimension>)

  /** One already-decoded record of the service's price list: the product's
      `usagetype` attribute and its OnDemand terms in insertion order. */
  datatype Record = Record(usagetype: string, onDemand: seq<Term>)

  /** The usage-type fragment that marks multi-AZ billing. */
  const MultiAzUsage: string := "Multi-AZUsage"

  // ---------------------------------------------------------------------
  // Substring test (Python's `pat in s` on strings)
  // ---------------------------------------------------------------------

  /** `pat` occurs in `s` starting at position `i`. */
  ghost predicate OccursAt(pat: string, s: string, i: int) {
    0 <= i && i + |pat| <= |s| && s[i..i + |pat|] == pat
  }

  /** Dropping the first character of `s` shifts every occurrence by one. */
  lemma OccursAtTail(pat: string, s: string)
    requires |s| > 0
    ensures forall i :: 0 <= i ==> (OccursAt(pat, s[1..], i) <==> OccursAt(pat, s, i + 1))
  {
  }

  /** True exactly when `pat` is a substring of `s`. */
  function Contains(s: string, pat: string): (r: bool)
    ensures r <==> exists i :: OccursAt(pat, s, i)
    decreases |s|
  {
    if |s| < |pat| then
      false
    else if s[..|pat|] == pat then
      assert OccursAt(pat, s, 0);
      true
    else
      OccursAtTail(pat, s);
      assert !OccursAt(pat, s, 0);
      assert forall i :: OccursAt(pat, s, i) ==> OccursAt(pat, s[1..], i - 1);
      Contains(s[1..], pat)
  }

  /** A string in which the first character of `pat` never appears does not
      contain `pat`. */
  lemma AbsentFirstChar(s: string, pat: string)
    requires |pat| > 0 && pat[0] !in s
    ensures !Contains(s, pat)
  {
  }

  // ---------------------------------------------------------------------
  // Classification of a record
  // ---------------------------------------------------------------------

  /** The multi-AZ classification: a function of the usage-type string
      alone, true exactly when "Multi-AZUsage" occurs in it. */
  function IsMultiAzUsage(usagetype: string): (r: bool)
    ensures r <==> exists i :: OccursAt(MultiAzUsage, usagetype, i)
  {
    Contains(usagetype, MultiAzUsage)
  }

  /** The record's deployment mode is the requested one. */
  predicate Matches(rec: Record, multiAz: bool) {
    IsMultiAzUsage(rec.usagetype) == multiAz
  }

  /** The record has a first OnDemand term with a first price dimension. */
  predicate HasOnDemandPrice(rec: Record) {
    |rec.onDemand| > 0 && |rec.onDemand[0].priceDimensions| > 0
  }

  /** First OnDemand term, first price dimension, its `pricePerUnit`. */
  function FirstPrice(rec: Record): PricePerUnit
    requires HasOnDemandPrice(rec)
  {
    rec.onDemand[0].priceDimensions[0].pricePerUnit
  }

  /** Every record of the requested mode can be priced; records of the other
      mode are skipped before any indexing and may be of any shape. */
  predicate Priceable(records: seq<Record>, multiAz: bool) {
    forall i :: 0 <= i < |records| && Matches(records[i], multiAz) ==> HasOnDemandPrice(records[i])
  }

  // ---------------------------------------------------------------------
  // The selection rule
  // ---------------------------------------------------------------------

  /** The price chosen from `records`: that of the last record of the
      requested mode, or None when there is no such record. */
  function SelectPrice(records: seq<Record>, multiAz: bool): (r: Option<PricePerUnit>)
    requires Priceable(records, multiAz)
    ensures r == None <==> forall i :: 0 <= i < |records| ==> !Matches(records[i], multiAz)
    decreases |records|
  {
    if records == [] then
      None
    else
      var n := |records| - 1;
      if Matches(records[n], multiAz) then
        Some(FirstPrice(records[n]))
      else
        assert forall i :: 0 <= i < n ==> records[..n][i] == records[i];
        SelectPrice(records[..n], multiAz)
  }

  /** A selected price is the price of a record of the requested mode that
      no later record of that mode follows. */
  lemma {:induction false} SelectPriceSomeIsLastMatch(records: seq<Record>, multiAz: bool)
    requires Priceable(records, multiAz)
    requires SelectPrice(records, multiAz) != None
    ensures exists k :: (0 <= k < |records| && Matches(records[k], multiAz) &&
                         SelectPrice(records, multiAz) == Some(FirstPrice(records[k])) &&
                         forall j :: k < j < |records| ==> !Matches(records[j], multiAz))
    decreases |records|
  {
    var n := |records| - 1;
    if Matches(records[n], multiAz) {
      assert SelectPrice(records, multiAz) == Some(FirstPrice(records[n]));
    } else {
      var prefix := records[..n];
      assert forall i :: 0 <= i < n ==> prefix[i] == records[i];
      SelectPriceSomeIsLastMatch(prefix, multiAz);
      var k :| 0 <= k < n && Matches(prefix[k], multiAz) &&
        SelectPrice(prefix, multiAz) == Some(FirstPrice(prefix[k])) &&
        forall j :: k < j < n ==> !Matches(prefix[j], multiAz);
      assert records[k] == prefix[k];
    }
  }

  /** Conversely: the price of a record of the requested mode that no later
      record of that mode follows is the selected price. */
  lemma {:induction false} SelectPriceIsLastMatch(records: seq<Record>, multiAz: bool, k: int)
    requires Priceable(records, multiAz)
    requires 0 <= k < |records| && Matches(records[k], multiAz)
    requires forall j :: k < j < |records| ==> !Matches(records[j], multiAz)
    ensures SelectPrice(records, multiAz) == Some(FirstPrice(records[k]))
    decreases |records|
  {
    var n := |records| - 1;
    if k < n {
      var prefix := records[..n];
      assert forall i :: 0 <= i < n ==> prefix[i] == records[i];
      SelectPriceIsLastMatch(prefix, multiAz, k);
    }
  }

  /** The result on a concatenation: the later part decides when it holds a
      record of the requested mode, the earlier part otherwise. */
  lemma {:induction false} SelectPriceAppend(a: seq<Record>, b: seq<Record>, multiAz: bool)
    requires Priceable(a, multiAz) && Priceable(b, multiAz)
    ensures Priceable(a + b, multiAz)
    ensures SelectPrice(a + b, multiAz) ==
      if SelectPrice(b, multiAz) != None then SelectPrice(b, multiAz) else SelectPrice(a, multiAz)
    decreases |b|
  {
    assert forall i :: 0 <= i < |a| ==> (a + b)[i] == a[i];
    assert forall i :: |a| <= i < |a + b| ==> (a + b)[i] == b[i - |a|];
    if b == [] {
      assert a + b == a;
    } else {
      var n := |b| - 1;
      if !Matches(b[n], multiAz) {
        assert forall i :: 0 <= i < n ==> b[..n][i] == b[i];
        SelectPriceAppend(a, b[..n], multiAz);
        assert (a + b)[..|a + b| - 1] == a + b[..n];
      }
    }
  }

  /** A record of the other deployment mode never influences the result:
      inserting it anywhere, or removing it, leaves the price unchanged. */
  lemma SelectPriceIgnoresOtherMode(a: seq<Record>, x: Record, b: seq<Record>, multiAz: bool)
    requires Priceable(a, multiAz) && Priceable(b, multiAz)
    requires !Matches(x, multiAz)
    ensures Priceable(a + [x] + b, multiAz) && Priceable(a + b, multiAz)
    ensures SelectPrice(a + [x] + b, multiAz) == SelectPrice(a + b, multiAz)
  {
    SelectPriceAppend(a, [x], multiAz);
    SelectPriceAppend(a + [x], b, multiAz);
    SelectPriceAppend(a, b, multiAz);
  }

  /** The records of the requested mode, in their original order. */
  function Matching(records: seq<Record>, multiAz: bool): (m: seq<Record>)
    ensures |m| <= |records|
    ensures forall i :: 0 <= i < |m| ==> Matches(m[i], multiAz)
    decreases |records|
  {
    if records == [] then
      []
    else
      var n := |records| - 1;
      var m := Matching(records[..n], multiAz);
      if Matches(records[n], multiAz) then m + [records[n]] else m
  }

  /** The filtering keeps a record exactly when it is of the requested mode. */
  lemma {:induction false} MatchingMembers(records: seq<Record>, multiAz: bool)
    ensures forall rec :: rec in Matching(records, multiAz) <==> rec in records && Matches(rec, multiAz)
    decreases |records|
  {
    if records != [] {
      var n := |records| - 1;
      MatchingMembers(records[..n], multiAz);
      assert records == records[..n] + [records[n]];
    }
  }

  /** Every record that survives the filtering can be priced. */
  lemma MatchingPriceable(records: seq<Record>, multiAz: bool)
    requires Priceable(records, multiAz)
    ensures Priceable(Matching(records, multiAz), multiAz)
  {
    MatchingMembers(records, multiAz);
  }

  /** Reference form of the rule: drop every record of the other mode, then
      take the price of the last record left, if any. */
  lemma {:induction false} SelectPriceIsLastOfMatching(records: seq<Record>, multiAz: bool)
    requires Priceable(records, multiAz)
    ensures Priceable(Matching(records, multiAz), multiAz)
    ensures var m := Matching(records, multiAz);
      SelectPrice(records, multiAz) == if m == [] then None else Some(FirstPrice(m[|m| - 1]))
    decreases |records|
  {
    MatchingPriceable(records, multiAz);
    if records != [] {
      var n := |records| - 1;
      var prefix := records[..n];
      assert forall i :: 0 <= i < n ==> prefix[i] == records[i];
      SelectPriceIsLastOfMatching(prefix, multiAz);
      var mp := Matching(prefix, multiAz);
      var m := Matching(records, multiAz);
      if Matches(records[n], multiAz) {
        assert m == mp + [records[n]];
        assert m[|m| - 1] == records[n];
        assert SelectPrice(records, multiAz) == Some(FirstPrice(records[n]));
      } else {
        assert m == mp;
        assert SelectPrice(records, multiAz) == SelectPrice(prefix, multiAz);
      }
    }
  }

  // ---------------------------------------------------------------------
  // The lookup
  // ---------------------------------------------------------------------

  /** The filters the lookup sends, in the order it adds them. */
  function QueryFilters(instanceType: string, databaseEngine: string, location: string): seq<Field> {
    [Field("instanceType", instanceType, TermMatch),
     Field("databaseEngine", databaseEngine, TermMatch),
     Field("location", location, TermMatch)]
  }

  /** Builds the filters, asks the pricing service (`getProducts`) for the
      matching price list and scans it. `location` is the region's long name,
      already resolved. Returns the filters sent and the price found. */
  method GetOnDemandPrice(instanceType: string, databaseEngine: string, location: string,
                          getProducts: seq<Field> -> seq<Record>, multiAz: bool := false)
    returns (sent: seq<Field>, price: Option<PricePerUnit>)
    requires Priceable(getProducts(QueryFilters(instanceType, databaseEngine, location)), multiAz)
    ensures sent == QueryFilters(instanceType, databaseEngine, location)
    ensures price == SelectPrice(getProducts(sent), multiAz)
  {
    var filters := new Filters();
    filters.AddField("instanceType", instanceType);
    filters.AddField("databaseEngine", databaseEngine);
    filters.AddField("location", location);
    sent := filters.Itens();
    assert sent == QueryFilters(instanceType, databaseEngine, location);
    var products := getProducts(sent);
    price := None;
    assert Priceable(products, multiAz);
    for n := 0 to |products|
      invariant Priceable(products[..n], multiAz)
      invariant price == SelectPrice(products[..n], multiAz)
    {
      assert products[..n + 1][..n] == products[..n];
      var data := products[n];
      var usageTypeMultiAz := IsMultiAzUsage(data.usagetype);
      if multiAz && !usageTypeMultiAz {
        continue;
      }
      if !multiAz && usageTypeMultiAz {
        continue;
      }
      assert Matches(data, multiAz);
      var terms := data.onDemand;
      var priceDimensions := terms[0].priceDimensions;
      price := Some(priceDimensions[0].pricePerUnit);
    }
    assert products[..|products|] == products;
  }

  // ---------------------------------------------------------------------
  // Worked examples
  // ---------------------------------------------------------------------

  /** A one-record price list yields that record's price or None. */
  lemma SelectPriceOfOne(records: seq<Record>, multiAz: bool)
    requires |records| == 1
    requires Matches(records[0], multiAz) ==> HasOnDemandPrice(records[0])
    ensures Priceable(records, multiAz)
    ensures SelectPrice(records, multiAz) ==
      if Matches(records[0], multiAz) then Some(FirstPrice(records[0])) else None
  {
  }

  /** A single-instance db.m5.4xlarge record priced at 1.424 USD per hour
      is chosen for a single-AZ request, and skipped, giving None, for a
      multi-AZ request. */
  lemma SingleAzExample(usagetype: string, price: PricePerUnit, records: seq<Record>)
    requires usagetype == "InstanceUsage:db.m5.4xl" && price == [("USD", "1.4240000000")]
    requires records == [Record(usagetype, [Term([Dimension(price)])])]
    ensures Priceable(records, false) && Priceable(records, true)
    ensures SelectPrice(records, false) == Some(price)
    ensures SelectPrice(records, true) == None
  {
    AbsentFirstChar(usagetype, MultiAzUsage);
    SelectPriceOfOne(records, false);
    SelectPriceOfOne(records, true);
  }

  /** With several records of the requested mode, the last one wins. */
  lemma LastMatchWinsExample(multi: string, single: string, first: PricePerUnit, last: PricePerUnit,
                             records: seq<Record>)
    requires multi == "Multi-AZUsage:db.r5" && single == "InstanceUsage:db.r5"
    requires records == [Record(multi, [Term([Dimension(first)])]),
                         Record(single, []),
                         Record(multi, [Term([Dimension(last)])])]
    ensures Priceable(records, true) && SelectPrice(records, true) == Some(last)
  {
    assert OccursAt(MultiAzUsage, multi, 0);
    AbsentFirstChar(single, MultiAzUsage);
  }
}
