/** Sequence helpers shared by the catalog and the ledger. */
module Seqs {

  /** The sequence read back to front; `ORDER BY created_at DESC` over rows
      kept in insertion order. */
  function Reverse<T>(s: seq<T>): (r: seq<T>)
    ensures |r| == |s|
    ensures forall i :: 0 <= i < |s| ==> r[i] == s[|s| - 1 - i]
  {
    if s == [] then [] else Reverse(s[1..]) + [s[0]]
  }

  lemma ReverseMembership<T>(s: seq<T>, x: T)
    ensures x in Reverse(s) <==> x in s
  {
    var r := Reverse(s);
    if x in s {
      var i :| 0 <= i < |s| && s[i] == x;
      assert r[|s| - 1 - i] == x;
    }
    if x in r {
      var j :| 0 <= j < |r| && r[j] == x;
      assert s[|s| - 1 - j] == x;
    }
  }
}
