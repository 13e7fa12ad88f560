/** basic.c: the per-thread temporary allocator, which starts over at the front when it reaches the end. */
module TempAlloc {
  import opened Views

  const TEMP_BUFFER_CAP: nat := 4 * 1024

  function Align(size: nat): (r: nat)
    ensures r % 8 == 0 && size <= r < size + 8
  {
    if size % 8 == 0 then size else size + (8 - size % 8)
  }

  /** Where the next block goes when `used` bytes are taken. */
  function Place(capacity: nat, used: nat, size: nat): nat {
    if used + size >= capacity then 0 else used
  }

  /** The start of block k, for blocks of these aligned sizes allocated one after another on an empty buffer. */
  function Start(capacity: nat, sizes: seq<nat>, k: nat): nat
    requires k < |sizes|
  {
    if k == 0 then 0
    else Place(capacity, Start(capacity, sizes, k - 1) + sizes[k - 1], sizes[k])
  }

  predicate Fit(capacity: nat, sizes: seq<nat>) {
    forall k :: 0 <= k < |sizes| ==> sizes[k] <= capacity
  }

  lemma {:induction false} StartPrefix(capacity: nat, a: seq<nat>, b: seq<nat>, k: nat)
    requires k < |a|
    ensures Start(capacity, a + b, k) == Start(capacity, a, k)
  {
    if k > 0 {
      StartPrefix(capacity, a, b, k - 1);
    }
  }

  /** Every block lies in the buffer. */
  lemma {:induction false} InsideBuffer(capacity: nat, sizes: seq<nat>, k: nat)
    requires Fit(capacity, sizes) && k < |sizes|
    ensures Start(capacity, sizes, k) + sizes[k] <= capacity
  {
    assert sizes[k] <= capacity;
  }

  // ---- windows of consecutive allocations ----

  function Total(sizes: seq<nat>, i: nat, j: nat): nat
    requires i <= j <= |sizes|
  {
    if i == j then 0 else Total(sizes, i, j - 1) + sizes[j - 1]
  }

  lemma {:induction false} TotalSplits(sizes: seq<nat>, i: nat, k: nat, j: nat)
    requires i <= k <= j <= |sizes|
    ensures Total(sizes, i, j) == Total(sizes, i, k) + Total(sizes, k, j)
  {
    if k < j {
      TotalSplits(sizes, i, k, j - 1);
    }
  }

  /** Blocks i to j - 1 follow each other without a wrap. */
  ghost predicate Straight(capacity: nat, sizes: seq<nat>, i: nat, j: nat)
    requires i < j <= |sizes|
  {
    forall k :: i <= k < j ==> Start(capacity, sizes, k) == Start(capacity, sizes, i) + Total(sizes, i, k)
  }

  /** Block w of the window is the one that goes back to the front. */
  ghost predicate WrapsAt(capacity: nat, sizes: seq<nat>, i: nat, w: nat, j: nat)
    requires i < w < j <= |sizes|
  {
    && Straight(capacity, sizes, i, w)
    && Start(capacity, sizes, i) + Total(sizes, i, w) + sizes[w] >= capacity
    && (forall k :: w <= k < j ==> Start(capacity, sizes, k) == Total(sizes, w, k))
  }

  /** The aligned total of the window plus any one of its later sizes is at most the capacity. */
  predicate Modest(capacity: nat, sizes: seq<nat>, i: nat, j: nat)
    requires i < j <= |sizes|
  {
    Total(sizes, i, j) <= capacity && forall k :: i < k < j ==> Total(sizes, i, j) + sizes[k] <= capacity
  }

  /** A modest window wraps at most once. */
  lemma {:induction false} OneWrap(capacity: nat, sizes: seq<nat>, i: nat, j: nat)
    requires Fit(capacity, sizes) && capacity > 0 && i < j <= |sizes| && Modest(capacity, sizes, i, j)
    ensures Straight(capacity, sizes, i, j) || exists w :: i < w < j && WrapsAt(capacity, sizes, i, w, j)
  {
    var k := j - 1;
    if i < k {
      assert Total(sizes, i, k) <= Total(sizes, i, j);
      OneWrap(capacity, sizes, i, k);
      if Straight(capacity, sizes, i, k) {
        StraightOn(capacity, sizes, i, k);
      } else {
        var w :| i < w < k && WrapsAt(capacity, sizes, i, w, k);
        WrappedOn(capacity, sizes, i, w, k);
      }
    }
  }

  lemma StraightOn(capacity: nat, sizes: seq<nat>, i: nat, k: nat)
    requires i < k < |sizes| && Straight(capacity, sizes, i, k)
    ensures Straight(capacity, sizes, i, k + 1) || WrapsAt(capacity, sizes, i, k, k + 1)
  {
    assert Start(capacity, sizes, k - 1) + sizes[k - 1] == Start(capacity, sizes, i) + Total(sizes, i, k);
  }

  /** After the wrap there is room for all that is left of the window. */
  lemma WrappedOn(capacity: nat, sizes: seq<nat>, i: nat, w: nat, k: nat)
    requires i < w < k < |sizes| && WrapsAt(capacity, sizes, i, w, k)
    requires Modest(capacity, sizes, i, k + 1) && capacity > 0
    ensures WrapsAt(capacity, sizes, i, w, k + 1)
  {
    assert Start(capacity, sizes, k - 1) == Total(sizes, w, k - 1);
    assert Start(capacity, sizes, k - 1) + sizes[k - 1] == Total(sizes, w, k);
    TotalSplits(sizes, i, w, k);
    assert Total(sizes, i, k + 1) == Total(sizes, i, k) + sizes[k];
    assert Total(sizes, i, k + 1) + sizes[w] <= capacity;
    assert Total(sizes, i, k + 1) + sizes[k] <= capacity;
  }

  predicate Disjoint(capacity: nat, sizes: seq<nat>, a: nat, b: nat)
    requires a < |sizes| && b < |sizes|
  {
    || Start(capacity, sizes, a) + sizes[a] <= Start(capacity, sizes, b)
    || Start(capacity, sizes, b) + sizes[b] <= Start(capacity, sizes, a)
  }

  /** Blocks of a modest window never overlap, even across a wrap. */
  lemma WindowIsSafe(capacity: nat, sizes: seq<nat>, i: nat, j: nat, a: nat, b: nat)
    requires Fit(capacity, sizes) && capacity > 0 && i <= a < b < j <= |sizes| && Modest(capacity, sizes, i, j)
    ensures Disjoint(capacity, sizes, a, b)
  {
    OneWrap(capacity, sizes, i, j);
    if Straight(capacity, sizes, i, j) {
      InOrder(sizes, i, a, b);
    } else {
      var w :| i < w < j && WrapsAt(capacity, sizes, i, w, j);
      if b < w {
        InOrder(sizes, i, a, b);
      } else if w <= a {
        InOrder(sizes, w, a, b);
      } else {
        AcrossWrap(capacity, sizes, i, w, j, a, b);
      }
    }
  }

  lemma AcrossWrap(capacity: nat, sizes: seq<nat>, i: nat, w: nat, j: nat, a: nat, b: nat)
    requires i <= a < w <= b < j <= |sizes| && Modest(capacity, sizes, i, j) && WrapsAt(capacity, sizes, i, w, j)
    ensures Start(capacity, sizes, b) + sizes[b] <= Start(capacity, sizes, a)
  {
    hide Start;
    TotalSplits(sizes, w, b + 1, j);
    TotalSplits(sizes, i, w, j);
    assert Start(capacity, sizes, b) + sizes[b] == Total(sizes, w, b + 1);
    assert Start(capacity, sizes, i) <= Start(capacity, sizes, a);
    assert Total(sizes, i, j) + sizes[w] <= capacity;
  }

  lemma InOrder(sizes: seq<nat>, i: nat, a: nat, b: nat)
    requires i <= a < b < |sizes|
    ensures Total(sizes, i, a) + sizes[a] <= Total(sizes, i, b)
  {
    TotalSplits(sizes, i, a + 1, b);
  }

  /** So any window that totals at most half the buffer is safe. */
  lemma HalfIsSafe(capacity: nat, sizes: seq<nat>, i: nat, j: nat, a: nat, b: nat)
    requires Fit(capacity, sizes) && capacity > 0 && i <= a < b < j <= |sizes| && 2 * Total(sizes, i, j) <= capacity
    ensures Disjoint(capacity, sizes, a, b)
  {
    forall k | i < k < j ensures Total(sizes, i, j) + sizes[k] <= capacity {
      TotalSplits(sizes, i, k, j);
      TotalSplits(sizes, k, k + 1, j);
    }
    WindowIsSafe(capacity, sizes, i, j, a, b);
  }

  /** The bound is tight: eight bytes more, for any later size, and two blocks can share bytes. */
  lemma BoundIsTight(capacity: nat, s: nat, sizes: seq<nat>)
    requires capacity % 8 == 0 && s % 8 == 0 && 8 <= s && 2 * s <= capacity
    requires |sizes| == 3 && sizes[0] == s - 8 && sizes[1] == capacity + 8 - 2 * s && sizes[2] == s
    ensures Fit(capacity, sizes) && sizes[0] % 8 == sizes[1] % 8 == 0
    ensures Total(sizes, 1, 3) + sizes[2] == capacity + 8
    ensures !Disjoint(capacity, sizes, 1, 2)
  {
    assert Total(sizes, 1, 2) == sizes[1];
    assert Start(capacity, sizes, 1) == s - 8;
    assert Start(capacity, sizes, 2) == 0;
  }

  class TempBuffer {
    const capacity: nat
    var used: nat
    /** Aligned sizes handed out since the last reset. */
    ghost var sizes: seq<nat>

    ghost predicate Valid()
      reads this
    {
      && capacity > 0 && Fit(capacity, sizes)
      && used == if sizes == [] then 0 else Start(capacity, sizes, |sizes| - 1) + sizes[|sizes| - 1]
    }

    constructor ()
      ensures Valid() && capacity == TEMP_BUFFER_CAP && sizes == []
    {
      capacity, used, sizes := TEMP_BUFFER_CAP, 0, [];
    }

    /** The precondition is the assertion of talloc. */
    method Talloc(n: nat) returns (start: nat)
      requires Valid() && Align(n) <= capacity
      modifies this
      ensures Valid() && sizes == old(sizes) + [Align(n)]
      ensures start == Start(capacity, sizes, |old(sizes)|)
      ensures start + Align(n) <= capacity
    {
      var size := Align(n);
      if used + size >= capacity {
        used := 0;
      }
      start := used;
      used := used + size;
      if sizes != [] {
        StartPrefix(capacity, sizes, [size], |sizes| - 1);
      }
      sizes := sizes + [size];
      InsideBuffer(capacity, sizes, |sizes| - 1);
    }

    method Treset()
      modifies this
      requires Valid()
      ensures Valid() && sizes == []
    {
      used, sizes := 0, [];
    }
  }

  // ---- tprintf("%.*s") ----

  /** The format stops at a NUL. */
  function UpToNul(s: string): string {
    if s == "" || s[0] == '\0' then "" else [s[0]] + UpToNul(s[1..])
  }

  predicate NulFree(s: string) {
    '\0' !in s
  }

  lemma {:induction false} UpToNulId(s: string)
    requires NulFree(s)
    ensures UpToNul(s) == s
  {
    if s != "" {
      UpToNulId(s[1..]);
      assert s == [s[0]] + s[1..];
    }
  }

  /** Nothing from the first NUL on is printed. */
  lemma {:induction false} UpToNulCut(a: string, b: string)
    requires NulFree(a)
    ensures UpToNul(a + "\0" + b) == a
  {
    if a != "" {
      assert (a + "\0" + b)[1..] == a[1..] + "\0" + b;
      UpToNulCut(a[1..], b);
      assert a == [a[0]] + a[1..];
    }
  }

  method CutAtNul(s: string) returns (r: string)
    ensures r == UpToNul(s)
  {
    var i := 0;
    assert s[0..] == s;
    while i < |s| && s[i] != '\0'
      invariant 0 <= i <= |s| && UpToNul(s) == s[..i] + UpToNul(s[i..])
    {
      assert s[i..][1..] == s[i + 1..] && s[..i + 1] == s[..i] + [s[i]];
      i := i + 1;
    }
    r := s[..i];
  }

  /** Something is printed, and it fits the buffer with its NUL: the assertions of tprintf and talloc. */
  predicate Formats(s: string) {
    UpToNul(s) != "" && Align(|UpToNul(s)| + 1) <= TEMP_BUFFER_CAP
  }

  /** For NUL-free text that is a matter of length. */
  lemma FormatsExactly(s: string)
    requires NulFree(s)
    ensures Formats(s) <==> 1 <= |s| < TEMP_BUFFER_CAP
  {
    UpToNulId(s);
  }

  method Tprintf(s: string) returns (r: string, holds: bool)
    ensures r == UpToNul(s) && (holds <==> Formats(s))
  {
    r := CutAtNul(s);
    holds := r != "" && Align(|r| + 1) <= TEMP_BUFFER_CAP;
  }
}
