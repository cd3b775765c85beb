/** The filter builder handed to the pricing service's product query.

    A filter is a (Field, Value, Type) triple; the builder keeps them in a
    list that it only ever appends to, and hands that list out as is.
 */
module FilterBuilder {

  /** The match type every filter of this program uses: exact equality. */
  const TermMatch: string := "TERM_MATCH"

  /** One `{Field, Value, Type}` entry of the filter list. */
  datatype Field = Field(name: string, value: string, matchType: string)

  /** A builder that accumulates filter entries in the order they are added. */
  class Filters {
    var fields: seq<Field>

    /** A fresh builder holds no entries. */
    constructor ()
      ensures fields == []
    {
      fields := [];
    }

    /** Appends exactly one entry at the end; the entries already present stay
        where and as they were. The match type defaults to `TERM_MATCH`. */
    method AddField(name: string, value: string, matchType: string := TermMatch)
      modifies this
      ensures fields == old(fields) + [Field(name, value, matchType)]
    {
      fields := fields + [Field(name, value, matchType)];
    }

    /** The entries, in exactly the order they were added. */
    method Itens() returns (r: seq<Field>)
      ensures r == fields
    {
      r := fields;
    }
  }
}
