/** Metadata values as the tools receive them: a JSON string or a JSON list of
    strings, stored in an insertion-ordered dict. */
module Metadata {
  import opened Strings
  import opened Dicts

  datatype Value = Text(text: string) | Items(items: seq<string>)

  /** A metadata dict, in insertion order. */
  type Meta = Dict<Value>

  /** `repr` of a string, for the plain strings the tools handle (single-quoted). */
  function Quote(s: string): string {
    "'" + s + "'"
  }

  function QuoteAll(xs: seq<string>): (r: seq<string>)
    ensures |r| == |xs|
    ensures forall i :: 0 <= i < |xs| ==> r[i] == Quote(xs[i])
  {
    seq(|xs|, i requires 0 <= i < |xs| => Quote(xs[i]))
  }

  /** `str(v)`, which is what an f-string writes for a value: a string as it is,
      a list as `['a', 'b']`. */
  function Str(v: Value): string {
    match v
    case Text(s) => s
    case Items(xs) => "[" + Join(", ", QuoteAll(xs)) + "]"
  }

  /** `str()` of a list is bracketed, `[]` when empty, and `['x']` for one item. */
  lemma StrItems(xs: seq<string>)
    ensures "[" <= Str(Items(xs)) && EndsWith(Str(Items(xs)), "]")
    ensures xs == [] ==> Str(Items(xs)) == "[]"
    ensures |xs| == 1 ==> Str(Items(xs)) == "['" + xs[0] + "']"
  {
    var inner := Join(", ", QuoteAll(xs));
    EndsWithConcat("[" + inner, "]");
    PrefixExtended("[", "[", inner);
    PrefixExtended("[", "[" + inner, "]");
  }
}
