/** Positional insertion and deletion on sequences: the abstract effect of
    shifting the live prefix of the task array right (to open a gap) or left
    (to close one).
 */
module Sequences {

  /** `s` with `x` placed at position `k`; everything from `k` on moves up by one. */
  function InsertAt<T>(s: seq<T>, k: nat, x: T): (r: seq<T>)
    requires k <= |s|
    ensures |r| == |s| + 1 && r[k] == x
    ensures forall j {:trigger r[j]} :: 0 <= j < k ==> r[j] == s[j]
    ensures forall j :: k < j < |r| ==> r[j] == s[j - 1]
  {
    s[..k] + [x] + s[k..]
  }

  /** `s` without its element at position `k`; the others keep their relative order. */
  function Delete<T>(s: seq<T>, k: nat): (r: seq<T>)
    requires k < |s|
    ensures |r| == |s| - 1
    ensures forall j {:trigger r[j]} :: 0 <= j < k ==> r[j] == s[j]
    ensures forall j :: k <= j < |r| ==> r[j] == s[j + 1]
  {
    s[..k] + s[k + 1..]
  }

  /** Inserting adds exactly one occurrence of `x` and loses nothing. */
  lemma InsertAtMultiset<T>(s: seq<T>, k: nat, x: T)
    requires k <= |s|
    ensures multiset(InsertAt(s, k, x)) == multiset(s) + multiset{x}
  {
    assert s == s[..k] + s[k..];
  }

  /** Deleting removes exactly one occurrence of the deleted element. */
  lemma DeleteMultiset<T>(s: seq<T>, k: nat)
    requires k < |s|
    ensures multiset(Delete(s, k)) + multiset{s[k]} == multiset(s)
  {
    assert s == s[..k] + [s[k]] + s[k + 1..];
  }

  /** Deleting what was just inserted gives back the original sequence. */
  lemma DeleteInsertAt<T>(s: seq<T>, k: nat, x: T)
    requires k <= |s|
    ensures Delete(InsertAt(s, k, x), k) == s
  {
  }

  /** Re-inserting a deleted element where it was gives back the original sequence. */
  lemma InsertAtDelete<T>(s: seq<T>, k: nat)
    requires k < |s|
    ensures InsertAt(Delete(s, k), k, s[k]) == s
  {
  }
}
