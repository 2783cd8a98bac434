/** The C library's memcpy and memsetw: loops that move forward one unit at a time. */
module MemoryCopy {

  /** Units `0..n` from `src` copied to `dest`, in ascending order, each read after the writes before it. */
  function ForwardCopy<T>(s: seq<T>, dest: nat, src: nat, n: nat): (s': seq<T>)
    requires dest + n <= |s| && src + n <= |s|
    ensures |s'| == |s|
  {
    if n == 0 then s
    else
      var s1 := ForwardCopy(s, dest, src, n - 1);
      s1[dest + n - 1 := s1[src + n - 1]]
  }

  /** The same range moved, as if read before anything is written. */
  function Moved<T>(s: seq<T>, dest: nat, src: nat, n: nat): (s': seq<T>)
    requires dest + n <= |s| && src + n <= |s|
    ensures |s'| == |s|
  {
    s[..dest] + s[src..src + n] + s[dest + n..]
  }

  /** Copying down, or between ranges apart, is a move. */
  lemma {:induction false} CopyDownMoves<T>(s: seq<T>, dest: nat, src: nat, n: nat)
    requires dest + n <= |s| && src + n <= |s|
    requires dest <= src || src + n <= dest
    ensures ForwardCopy(s, dest, src, n) == Moved(s, dest, src, n)
  {
    if n > 0 { CopyDownMoves(s, dest, src, n - 1); }
  }

  /** A forward copy is a move, whatever the contents, exactly when it does not copy up into its own
      source. */
  lemma CopyMovesExactly(size: nat, dest: nat, src: nat, n: nat)
    requires dest + n <= size && src + n <= size
    ensures (forall s: seq<int> | |s| == size :: ForwardCopy(s, dest, src, n) == Moved(s, dest, src, n))
      <==> dest <= src || src + n <= dest
  {
    hide ForwardCopy, Moved;
    if dest <= src || src + n <= dest {
      forall s: seq<int> | |s| == size
        ensures ForwardCopy(s, dest, src, n) == Moved(s, dest, src, n)
      {
        CopyDownMoves(s, dest, src, n);
      }
    } else {
      var s: seq<int> := seq(size, i => i);
      CopyUpSmears(s, dest, src, n);
      assert |s| == size && ForwardCopy(s, dest, src, n) != Moved(s, dest, src, n);
    }
  }

  /** Copying up by less than the length repeats the beginning. */
  lemma CopyUpSmears(s: seq<int>, dest: nat, src: nat, n: nat)
    requires dest + n <= |s| && src + n <= |s| && src < dest < src + n
    requires forall i | 0 <= i < |s| :: s[i] == i
    ensures ForwardCopy(s, dest, src, n) != Moved(s, dest, src, n)
  {
    var d := dest - src;
    SmearedAt(s, dest, src, d + 1);
    LaterCopiesKeep(s, dest, src, d + 1, n);
    assert Moved(s, dest, src, n)[dest + d] == s[dest];
  }

  lemma SmearedAt(s: seq<int>, dest: nat, src: nat, n: nat)
    requires src < dest && n == dest - src + 1 && dest + n <= |s|
    ensures ForwardCopy(s, dest, src, n)[dest + n - 1] == s[src]
  {
    CopyDownPrefix(s, dest, src, n - 1);
  }

  /** Until the copy reaches its own output it is a move. */
  lemma CopyDownPrefix(s: seq<int>, dest: nat, src: nat, n: nat)
    requires src < dest && n <= dest - src && dest + n <= |s|
    ensures ForwardCopy(s, dest, src, n) == Moved(s, dest, src, n)
  {
    CopyDownMoves(s, dest, src, n);
  }

  lemma {:induction false} LaterCopiesKeep(s: seq<int>, dest: nat, src: nat, m: nat, n: nat)
    requires 0 < m <= n && dest + n <= |s| && src + n <= |s|
    ensures ForwardCopy(s, dest, src, n)[dest + m - 1] == ForwardCopy(s, dest, src, m)[dest + m - 1]
    decreases n
  {
    if m < n { LaterCopiesKeep(s, dest, src, m, n - 1); }
  }

  method Memcpy<T>(a: array<T>, dest: nat, src: nat, count: nat)
    requires dest + count <= a.Length && src + count <= a.Length
    modifies a
    ensures a[..] == ForwardCopy(old(a[..]), dest, src, count)
  {
    var i := 0;
    while i < count
      invariant i <= count && a[..] == ForwardCopy(old(a[..]), dest, src, i)
    {
      a[dest + i] := a[src + i];
      i := i + 1;
    }
  }
}
