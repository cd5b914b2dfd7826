/** Insertion and deletion in sequences. */
module Sequences {

  function Insert<T>(s: seq<T>, i: nat, x: T): seq<T>
    requires i <= |s|
  {
    s[..i] + [x] + s[i..]
  }

  function Delete<T>(s: seq<T>, i: nat): seq<T>
    requires i < |s|
  {
    s[..i] + s[i + 1..]
  }

  lemma DeleteInsert<T>(s: seq<T>, i: nat)
    requires i < |s|
    ensures Insert(Delete(s, i), i, s[i]) == s
    ensures |Delete(s, i)| == |s| - 1
    ensures forall k | 0 <= k < |s| - 1 :: Delete(s, i)[k] == s[if k < i then k else k + 1]
  {
  }
}
