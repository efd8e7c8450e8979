/** Overwriting part of a sequence. */
module Slices {

  /** s with the elements d stored from position a on. */
  function Patch<T>(s: seq<T>, a: nat, d: seq<T>): (r: seq<T>)
    requires a + |d| <= |s|
    ensures |r| == |s|
  {
    s[..a] + d + s[a + |d|..]
  }

  /** A patch, element by element. */
  lemma PatchIs<T>(s: seq<T>, a: nat, d: seq<T>, r: seq<T>)
    requires a + |d| <= |s| == |r|
    requires forall j :: 0 <= j < |s| ==> r[j] == if a <= j < a + |d| then d[j - a] else s[j]
    ensures r == Patch(s, a, d)
  {
  }

  lemma PatchTwice<T>(s: seq<T>, a: nat, d: seq<T>, e: seq<T>)
    requires a + |d| + |e| <= |s|
    ensures Patch(s, a, d + e) == Patch(Patch(s, a, d), a + |d|, e)
  {
  }

  lemma PatchBefore<T>(s: seq<T>, a: nat, d: seq<T>, e: seq<T>)
    requires a + |d| + |e| <= |s|
    ensures Patch(Patch(s, a + |d|, e), a, d) == Patch(s, a, d + e)
  {
  }

  lemma PatchNothing<T>(s: seq<T>, a: nat)
    requires a <= |s|
    ensures Patch(s, a, []) == s
  {
  }

  lemma PatchOver<T>(s: seq<T>, a: nat, d: seq<T>, e: seq<T>)
    requires |d| == |e| && a + |e| <= |s|
    ensures Patch(Patch(s, a, d), a, e) == Patch(s, a, e)
  {
  }

  /** n copies of d. */
  function Repeat<T>(d: seq<T>, n: nat): (r: seq<T>)
    ensures |r| == n * |d|
  {
    if n == 0 then [] else Repeat(d, n - 1) + d
  }

  /** Element j of copy c. */
  lemma {:induction false} RepeatAt<T>(d: seq<T>, n: nat, c: nat, j: nat)
    requires c < n && j < |d|
    ensures 0 <= c * |d| && c * |d| + j < |Repeat(d, n)| && Repeat(d, n)[c * |d| + j] == d[j]
    decreases n
  {
    assert |Repeat(d, n - 1)| == (n - 1) * |d|;
    assert (n - 1) * |d| + |d| == n * |d|;
    if c < n - 1 {
      RepeatAt(d, n - 1, c, j);
    }
  }
}
