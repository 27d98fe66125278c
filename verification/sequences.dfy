/** Order-preserving sub-lists: what `Array.prototype.filter` leaves of a
    list. */
module Sequences {

  /** `r` is `s` with some elements left out, the rest in their order. */
  predicate Sublist<T(==)>(r: seq<T>, s: seq<T>)
    decreases |s|
  {
    if r == [] then true
    else if s == [] then false
    else (r[0] == s[0] && Sublist(r[1..], s[1..])) || Sublist(r, s[1..])
  }
}
