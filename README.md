# On-demand RDS price lookup — Dafny model

This project models the core logic of `rdspricing.py`, a script that asks the
cloud pricing service for the on-demand hourly price of a managed database
instance type. There are two parts:

- **`FilterBuilder`** (`Filters.dfy`) models the `Filters` class. This small object
  holds a list of `{Field, Value, Type}` entries and appends to it in place.
  The model is a Dafny `class` with a `seq<Field>` field. `AddField` appends
  one entry, with the match type `TERM_MATCH` as its default. `Itens` returns
  the list.
- **`OnDemandPrice`** (`OnDemandPrice.dfy`) models the body of
  `get_on_demand_price`:
  - it builds the three exact-match filters (`instanceType`, `databaseEngine`,
    `location`) with a real `Filters` object;
  - it passes them to the pricing service, modelled as a function parameter
    `getProducts` from filters to a price list;
  - it scans the returned records with a `for` loop that has the same two
    `continue` branches as the source.
  
  A record is multi-AZ exactly when its `usagetype` contains `"Multi-AZUsage"`.
  Records of the other deployment mode are skipped. Each remaining record
  overwrites the accumulator, so the result is the price of the **last**
  matching record, or `None` when no record matches.
  - The pure specification of that rule is `SelectPrice`, written over
    `seq<Record>`.
  - The loop invariant `price == SelectPrice(products[..n], multiAz)` ties the
    method to the specification.
  - The lemmas then state what the rule means: it picks the last match, and
    records of the other mode have no effect on the result.

The records are taken as already decoded. Both Python dicts in the record's
path to a price (the OnDemand terms and the price dimensions) become sequences
in insertion order, so `list(d.values())[0]` is "the first element".
The `pricePerUnit` map stays an opaque list of (currency, decimal string)
pairs.

When several records match, the code applies no explicit tie-break: the last
match wins. An explicit policy (earliest effective date, or an error on
ambiguity) may look more natural, but the model keeps the code's behaviour.

## Model

| member | source | states |
|---|---|---|
| `FilterBuilder.Filters.constructor` | rdspricing.py:23-24 | A fresh builder holds no filter entries. |
| `FilterBuilder.Filters.AddField` | rdspricing.py:26-28 | The new list is the old list with exactly one `Field(name, value, type)` entry appended at the end, so earlier entries are unchanged. The type defaults to `TERM_MATCH`. |
| `FilterBuilder.Filters.Itens` | rdspricing.py:30-31 | Returns the entries exactly as they are held, in the order they were added. |
| `OnDemandPrice.Contains` | rdspricing.py:150-151 | Python's substring test `pat in s`: true if and only if `pat` occurs at some position of `s` (the empty pattern occurs everywhere). |
| `OnDemandPrice.IsMultiAzUsage` | rdspricing.py:149-151 | The classification depends only on the usage-type string. It is true if and only if `"Multi-AZUsage"` occurs in that string. |
| `OnDemandPrice.SelectPrice` | rdspricing.py:146-169 | The selection rule. The result is `None` if and only if no record's classification equals `multi_az`, so an empty list gives `None`. Only matching records need a first OnDemand term with a first price dimension. |
| `OnDemandPrice.SelectPriceSomeIsLastMatch` | rdspricing.py:147-168 | When a price is selected, it is the first term's first dimension's `pricePerUnit` of a matching record that no later matching record follows. |
| `OnDemandPrice.SelectPriceIsLastMatch` | rdspricing.py:147-168 | The converse: the price of the last matching record is the selected price (last match wins, no other tie-break). |
| `OnDemandPrice.SelectPriceAppend` | rdspricing.py:146-169 | On a concatenated price list, the later part decides when it has a match, and the earlier part decides otherwise. |
| `OnDemandPrice.SelectPriceIgnoresOtherMode` | rdspricing.py:155-163 | Inserting or removing a record of the other deployment mode anywhere in the list leaves the result unchanged. |
| `OnDemandPrice.MatchingMembers` | rdspricing.py:150-163 | The records that pass the two skip tests are exactly the records whose classification equals `multi_az`. |
| `OnDemandPrice.SelectPriceIsLastOfMatching` | rdspricing.py:146-169 | Reference form of the scan: drop every record of the other mode and take the price of the last record left, or `None` if none is left. |
| `OnDemandPrice.GetOnDemandPrice` | rdspricing.py:135-169 | The filters sent are exactly three `TERM_MATCH` filters, in the order `instanceType`, `databaseEngine`, `location`, carrying the given values. The returned price is `SelectPrice` of the price list the service returns for those filters. |
| `OnDemandPrice.SelectPriceOfOne` | rdspricing.py:146-169 | A one-record list yields that record's price if its classification matches, and `None` otherwise. |
| `OnDemandPrice.SingleAzExample` | rdspricing.py:114-169 | The single-instance `db.m5.4xlarge` record priced `{"USD": "1.4240000000"}` is returned for a single-AZ request. A multi-AZ request for the same list gets `None`. |
| `OnDemandPrice.LastMatchWinsExample` | rdspricing.py:146-168 | In a list with two multi-AZ records and one single-instance record, a multi-AZ request returns the price of the later multi-AZ record. The single-instance record has no terms. |

## Left out

- The pricing service client and its `get_products` call (rdspricing.py:17, 144-145) are network I/O. They are the function parameter `getProducts`, and the region long name is the string parameter `location`.
- `get_region_long_name` (rdspricing.py:105-111) is a parameter-store lookup over the network. Its not-found error is therefore not modelled.
- `get_rds_service_metadata` and `list_regions` (rdspricing.py:86-102) are pass-through API calls with no logic.
- `json.loads` decoding (rdspricing.py:148, 166) is left out: records arrive decoded as `Record` values. The errors it raises on malformed JSON are not modelled. Neither are a missing `product`, `attributes`, `usagetype`, `terms` or `pricePerUnit` key, because the datatypes always carry those fields.
- `logging.info` calls (rdspricing.py:156, 162) are I/O with no effect on the result.
- `main`, `EXAMPLES` and the printed output (rdspricing.py:172-227) are a demo driver with stdout I/O. Their single-AZ and multi-AZ cases appear, on a one-record price list, in `SingleAzExample`.
- `Filters.__str__` (rdspricing.py:33-34) is a string rendering for display only.
- FilterBuilder.Filters.AddField: does not model the `None` defaults of `name` and `value`, because every caller in the source passes both.
- FilterBuilder.Filters.Itens: returns the entries as a value. The Python method returns the list object itself, so a caller could mutate the builder through it. That aliasing is not modelled.
- The numeric meaning of the `pricePerUnit` decimal strings is not modelled: the code passes them through unchanged.
