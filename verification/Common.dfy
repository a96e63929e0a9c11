/** Types and facts about byte sequences that several modules use. */
module Common {

  datatype Option<T> = None | Some(value: T)

  type byte = x: int | 0 <= x < 256

  /** c is one of the n characters from first on, at place k. */
  predicate From(c: byte, first: char, n: nat, k: int) { 0 <= k < n && c == first as int + k }

  // Slices of slices

  lemma TakeOfAppend(a: seq<byte>, b: seq<byte>, i: nat, j: nat)
    requires i <= j <= |a|
    ensures (a + b)[i..j] == a[i..j] && (a + b)[..j] == a[..j]
  {
  }

  lemma DropOfAppend(a: seq<byte>, b: seq<byte>, k: nat)
    requires k <= |a|
    ensures (a + b)[k..] == a[k..] + b
  {
  }

  lemma SliceOfSlice(s: seq<byte>, k: nat, i: nat, j: nat)
    requires k <= |s| && i <= j <= |s| - k
    ensures s[k..][i..] == s[k + i..] && s[k..][i..j] == s[k + i..k + j] && s[k..][..j] == s[k..k + j]
  {
  }

  lemma DropHead(a: seq<byte>, b: seq<byte>)
    ensures (a + b)[|a|..] == b && (a + b)[..|a|] == a
  {
  }

  lemma AppendThree(a: seq<byte>, b: seq<byte>, c: seq<byte>)
    ensures a + b + c == a + (b + c)
  {
  }

  /** A stretch of an array, cut in two. */
  lemma CutSlice(a: array<byte>, i: nat, j: nat, k: nat)
    requires i <= j <= k <= a.Length
    ensures a[i..k] == a[i..j] + a[j..k] && a[i..k][..j - i] == a[i..j] && a[i..k][j - i..] == a[j..k]
  {
  }
}
