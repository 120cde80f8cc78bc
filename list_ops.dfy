/** The two `Array.prototype` operations the to-do list uses to delete an
    entry, `indexOf` and `splice`, with the semantics ECMAScript gives them. */
module ListOps {

  /** `s.indexOf(x)`: the position of the first element equal to `x`
      (for objects: the same object), or -1 when there is none. */
  function IndexOf<T(==)>(s: seq<T>, x: T): (r: int)
    ensures -1 <= r < |s|
    ensures r == -1 <==> x !in s
    ensures 0 <= r ==> s[r] == x && x !in s[..r]
  {
    if s == [] then -1
    else if s[0] == x then 0
    else
      var k := IndexOf(s[1..], x);
      assert s[1..][..(if k < 0 then 0 else k)] == s[1..(if k < 0 then 1 else k + 1)];
      if k < 0 then -1 else k + 1
  }

  /** The list left behind by `s.splice(start, deleteCount)`: a negative
      `start` counts from the end (and is clamped at 0), a `start` past the
      end is clamped to the length, and the count is clamped to what is left. */
  function Splice<T>(s: seq<T>, start: int, deleteCount: int): (r: seq<T>)
    ensures |s| - Clamp(deleteCount, |s|) <= |r| <= |s|
    ensures multiset(r) <= multiset(s)
    ensures 0 <= start < |s| && deleteCount == 1 ==> r == s[..start] + s[start + 1..]
    ensures start == -1 && deleteCount == 1 ==> r == if s == [] then [] else s[..|s| - 1]
  {
    var from := if start < 0 then Clamp(|s| + start, |s|) else Clamp(start, |s|);
    var count := Clamp(deleteCount, |s| - from);
    CutOut(s, from, from + count);
    s[..from] + s[from + count..]
  }

  /** `Math.min(Math.max(n, 0), hi)`. */
  function Clamp(n: int, hi: nat): (r: nat)
    ensures r <= hi
  {
    if n < 0 then 0 else if n > hi then hi else n
  }

  lemma CutOut<T>(s: seq<T>, i: nat, j: nat)
    requires i <= j <= |s|
    ensures multiset(s[..i] + s[j..]) <= multiset(s)
  {
    assert s == s[..i] + s[i..j] + s[j..];
  }
}
