// Rolling windows: the last n elements of a history.
module Windows {

  function LastN<T>(s: seq<T>, n: nat): (r: seq<T>)
    ensures |r| == if |s| <= n then |s| else n
    ensures r != [] ==> r[|r| - 1] == s[|s| - 1]
  {
    if |s| <= n then s else s[|s| - n..]
  }

  /** The window is the end of the history. */
  lemma LastNEnds<T>(s: seq<T>, n: nat, k: nat)
    requires k < |LastN(s, n)|
    ensures |LastN(s, n)| <= n && |LastN(s, n)| <= |s| && (|LastN(s, n)| == n || |LastN(s, n)| == |s|)
    ensures LastN(s, n)[|LastN(s, n)| - 1 - k] == s[|s| - 1 - k]
  {
  }

  /** Appending and dropping the front when full keeps the last n elements. */
  lemma LastNPush<T>(s: seq<T>, x: T, n: nat)
    requires n > 0
    ensures LastN(s + [x], n) == (if |LastN(s, n)| == n then LastN(s, n)[1..] else LastN(s, n)) + [x]
  {
  }

  /** Appending first and then dropping the front when too long does the same, for n = 0 too. */
  lemma LastNAppend<T>(s: seq<T>, x: T, n: nat)
    ensures var r := LastN(s, n) + [x];
      LastN(s + [x], n) == if |r| > n then r[1..] else r
  {
  }
}
