/** Sequence helpers shared by the provider, the export and the UpSet modules. */
module Seqs {

  /** `indexOf`: the first position of `x`, or -1. */
  function IndexOf<X(==)>(s: seq<X>, x: X): (i: int)
    ensures -1 <= i < |s|
    ensures i == -1 <==> x !in s
    ensures 0 <= i ==> s[i] == x && x !in s[..i]
  {
    if s == [] then -1
    else if s[0] == x then 0
    else
      var j := IndexOf(s[1..], x);
      assert s[1..][..if j < 0 then 0 else j] == s[1..if j < 0 then 1 else j + 1];
      if j < 0 then -1 else j + 1
  }

  /** The set of elements of a sequence. */
  function Elements<X>(s: seq<X>): set<X>
  {
    set x | x in s
  }
}
