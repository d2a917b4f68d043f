/** The in-place heapsort of common/heapsort.c.  The C code walks an array of
    `nmemb` objects of `size` bytes by byte offset; here the array holds the
    objects and every dereference of `base + offset` goes through `CallCompar`
    or `CallSwap`, whose preconditions ask for an in-range multiple of `size`. */
module Heapsort {
  import opened Arith

  // ----- comparator -----

  ghost predicate TotalPreorder<T(!new)>(compar: (T, T) -> int) {
    && (forall x, y :: compar(x, y) >= 0 <==> compar(y, x) <= 0)
    && (forall x, y, z :: compar(x, y) >= 0 && compar(y, z) >= 0 ==> compar(x, z) >= 0)
  }

  lemma Reflexive<T(!new)>(compar: (T, T) -> int, x: T)
    requires TotalPreorder(compar)
    ensures compar(x, x) == 0
  {
  }

  ghost predicate SortedBy<T>(s: seq<T>, compar: (T, T) -> int) {
    forall i, j :: 0 <= i < j < |s| ==> compar(s[i], s[j]) <= 0
  }

  // ----- permutations of a range -----

  /** `t` is `s` with the elements of [lo, hi) permuted and nothing else changed. */
  ghost predicate PermutedWithin<T>(s: seq<T>, t: seq<T>, lo: nat, hi: nat)
    requires lo <= hi <= |s|
  {
    && |t| == |s|
    && t[..lo] == s[..lo]
    && t[hi..] == s[hi..]
    && multiset(t[lo..hi]) == multiset(s[lo..hi])
  }

  function Swapped<T>(s: seq<T>, i: nat, j: nat): seq<T>
    requires i < |s| && j < |s|
  {
    s[i := s[j]][j := s[i]]
  }

  lemma SwapPermutes<T>(s: seq<T>, i: nat, j: nat, lo: nat, hi: nat)
    requires lo <= i < hi <= |s| && lo <= j < hi
    ensures PermutedWithin(s, Swapped(s, i, j), lo, hi)
  {
    var t := Swapped(s, i, j);
    assert t[lo..hi] == s[lo..hi][i - lo := s[j]][j - lo := s[i]];
  }

  lemma PermutedReflexive<T>(s: seq<T>, lo: nat, hi: nat)
    requires lo <= hi <= |s|
    ensures PermutedWithin(s, s, lo, hi)
  {
  }

  lemma PermutedTransitive<T>(s: seq<T>, t: seq<T>, u: seq<T>, lo: nat, hi: nat)
    requires lo <= hi <= |s|
    requires PermutedWithin(s, t, lo, hi) && PermutedWithin(t, u, lo, hi)
    ensures PermutedWithin(s, u, lo, hi)
  {
  }

  /** A permutation of a range is one of every larger range. */
  lemma PermutedWiden<T>(s: seq<T>, t: seq<T>, lo: nat, hi: nat, hi': nat)
    requires lo <= hi <= hi' <= |s|
    requires PermutedWithin(s, t, lo, hi)
    ensures PermutedWithin(s, t, 0, hi')
  {
    assert s[0..hi'] == s[..lo] + s[lo..hi] + s[hi..][..hi' - hi];
    assert t[0..hi'] == t[..lo] + t[lo..hi] + t[hi..][..hi' - hi];
    assert s[hi'..] == s[hi..][hi' - hi..];
    assert t[hi'..] == t[hi..][hi' - hi..];
  }

  lemma PermutedMember<T>(s: seq<T>, t: seq<T>, lo: nat, hi: nat, i: nat) returns (j: nat)
    requires lo <= hi <= |s|
    requires PermutedWithin(s, t, lo, hi) && lo <= i < hi
    ensures lo <= j < hi && t[i] == s[j]
  {
    assert t[lo..hi][i - lo] in multiset(t[lo..hi]);
    assert t[i] in s[lo..hi];
    var k :| 0 <= k < hi - lo && s[lo..hi][k] == t[i];
    j := lo + k;
  }

  // ----- heaps -----

  function Parent(c: int): int { (c - 1) / 2 }

  /** Every child below `hi` whose parent is at or above `lo` is no larger than its parent. */
  ghost predicate HeapFrom<T>(s: seq<T>, compar: (T, T) -> int, lo: int, hi: int)
    requires 0 <= lo && hi <= |s|
  {
    forall c :: 1 <= c < hi && lo <= Parent(c) ==> compar(s[Parent(c)], s[c]) >= 0
  }

  /** As `HeapFrom`, except that `root` may be smaller than its children. */
  ghost predicate HeapExcept<T>(s: seq<T>, compar: (T, T) -> int, lo: int, hi: int, root: int)
    requires 0 <= lo <= root && hi <= |s|
  {
    && (forall c :: 1 <= c < hi && lo <= Parent(c) && Parent(c) != root ==> compar(s[Parent(c)], s[c]) >= 0)
    && (forall c :: 1 <= c < hi && Parent(c) == root && 0 < root && lo <= Parent(root) ==>
         compar(s[Parent(root)], s[c]) >= 0)
  }

  /** `child` is a largest child of `root` below `hi`. */
  ghost predicate LargestChild<T>(s: seq<T>, compar: (T, T) -> int, hi: int, root: int, child: int)
    requires 0 <= root && hi <= |s|
  {
    && 1 <= child < hi
    && Parent(child) == root
    && (forall c :: 1 <= c < hi && Parent(c) == root ==> compar(s[child], s[c]) >= 0)
  }

  lemma SiftStart<T>(s: seq<T>, compar: (T, T) -> int, lo: int, hi: int)
    requires 0 <= lo && hi <= |s|
    requires HeapFrom(s, compar, lo + 1, hi)
    ensures HeapExcept(s, compar, lo, hi, lo)
  {
  }

  lemma SiftStep<T(!new)>(s: seq<T>, compar: (T, T) -> int, lo: int, hi: int, root: int, child: int)
    requires TotalPreorder(compar)
    requires 0 <= lo <= root < hi <= |s|
    requires HeapExcept(s, compar, lo, hi, root)
    requires LargestChild(s, compar, hi, root, child)
    requires compar(s[root], s[child]) < 0
    ensures HeapExcept(Swapped(s, root, child), compar, lo, hi, child)
  {
    var t := Swapped(s, root, child);
    assert root < child;
    forall c | 1 <= c < hi && lo <= Parent(c) && Parent(c) != child
      ensures compar(t[Parent(c)], t[c]) >= 0
    {
      if Parent(c) == root {
        assert compar(s[child], s[c]) >= 0;
      } else if c == root {
        assert compar(s[Parent(root)], s[child]) >= 0;
      }
    }
  }

  lemma SiftDone<T(!new)>(s: seq<T>, compar: (T, T) -> int, lo: int, hi: int, root: int)
    requires TotalPreorder(compar)
    requires 0 <= lo <= root && hi <= |s|
    requires HeapExcept(s, compar, lo, hi, root)
    requires 2 * root + 1 >= hi ||
             exists child :: LargestChild(s, compar, hi, root, child) && compar(s[root], s[child]) >= 0
    ensures HeapFrom(s, compar, lo, hi)
  {
    forall c | 1 <= c < hi && lo <= Parent(c)
      ensures compar(s[Parent(c)], s[c]) >= 0
    {
      if Parent(c) == root {
        var child :| LargestChild(s, compar, hi, root, child) && compar(s[root], s[child]) >= 0;
        assert compar(s[child], s[c]) >= 0;
      }
    }
  }

  lemma {:induction false} RootIsLargest<T(!new)>(s: seq<T>, compar: (T, T) -> int, hi: int, i: int)
    requires TotalPreorder(compar)
    requires 0 <= i < hi <= |s|
    requires HeapFrom(s, compar, 0, hi)
    ensures compar(s[0], s[i]) >= 0
  {
    if i == 0 {
      Reflexive(compar, s[0]);
    } else {
      RootIsLargest(s, compar, hi, Parent(i));
      assert compar(s[Parent(i)], s[i]) >= 0;
    }
  }

  // ----- byte offsets -----

  /** `base + off` is the address of one of the first `n` objects. */
  predicate ValidOffset(off: int, size: int, n: int)
    requires size > 0
  {
    0 <= off && off % size == 0 && off / size < n
  }

  /** The byte offset of object `k`. */
  function Offset(k: int, size: int): int { k * size }

  lemma OffsetOf(k: int, size: int)
    requires size > 0
    ensures Offset(k, size) / size == k && Offset(k, size) % size == 0
    ensures 0 <= Offset(k, size) <==> 0 <= k
  {
    DivModUnique(k * size, size, k, 0);
    MulOrder(-1, k, size);
    MulSign(k, size);
  }

  lemma OffsetOrder(i: int, j: int, size: int)
    requires size > 0
    ensures Offset(i, size) < Offset(j, size) <==> i < j
    ensures Offset(0, size) == 0 && Offset(j, size) - size == Offset(j - 1, size)
  {
    MulOrder(i, j, size);
  }

  /** The children of object `r` are at byte offsets `2 * root + size` and one object further. */
  lemma ChildOffset(r: int, hi: int, size: int)
    requires size > 0
    ensures Offset(2 * r + 1, size) == Offset(r, size) * 2 + size
    ensures Offset(2 * r + 2, size) == Offset(r, size) * 2 + size + size
    ensures Offset(r, size) * 2 + size < Offset(hi, size) <==> 2 * r + 1 < hi
    ensures Offset(r, size) * 2 + size + size < Offset(hi, size) <==> 2 * r + 2 < hi
  {
    MulOrder(2 * r + 1, hi, size);
    MulOrder(2 * r + 2, hi, size);
  }

  /** compar(), on two of the first `n` objects. */
  method CallCompar<T>(base: array<T>, size: int, compar: (T, T) -> int, l: int, r: int, ghost n: int)
    returns (c: int)
    requires size > 0 && n <= base.Length
    requires ValidOffset(l, size, n) && ValidOffset(r, size, n)
    ensures c == compar(base[l / size], base[r / size])
  {
    c := compar(base[l / size], base[r / size]);
  }

  /** swap(), of two of the first `n` objects. */
  method CallSwap<T>(base: array<T>, size: int, l: int, r: int, ghost n: int)
    requires size > 0 && n <= base.Length
    requires ValidOffset(l, size, n) && ValidOffset(r, size, n)
    modifies base
    ensures base[..] == Swapped(old(base[..]), l / size, r / size)
  {
    var tmp := base[l / size];
    base[l / size] := base[r / size];
    base[r / size] := tmp;
  }

  /** Sums of two longs, which must be longs again. */
  method LongAdd(a: int, b: int, ghost longMax: int) returns (c: int)
    requires -longMax <= a + b <= longMax
    ensures c == a + b
  {
    c := a + b;
  }

  method FirstChild(root: int, size: int, ghost longMax: int) returns (child: int)
    requires 0 <= root && 0 < size && root * 2 + size <= longMax
    ensures child == root * 2 + size
  {
    child := LongAdd(root, root, longMax);
    child := LongAdd(child, size, longMax);
  }

  /** The larger child of `root`: the branch at lines 14-16. */
  method PickChild<T(!new)>(base: array<T>, size: int, compar: (T, T) -> int, first: int, stop: int,
                      ghost r: int, ghost hi: int, ghost longMax: int)
    returns (child: int, ghost c: int)
    requires size > 0 && first == Offset(r, size) * 2 + size && stop == Offset(hi, size)
    requires 0 <= first && first + size <= longMax
    requires 0 <= r && 2 * r + 1 < hi <= base.Length
    ensures child == Offset(c, size) && (c == 2 * r + 1 || c == 2 * r + 2) && c < hi
    ensures TotalPreorder(compar) ==> LargestChild(base[..], compar, hi, r, c)
  {
    c := 2 * r + 1;
    child := first;
    ChildOffset(r, hi, size);
    OffsetOf(c, size);
    OffsetOf(c + 1, size);
    var second := LongAdd(child, size, longMax);
    if second < stop {
      var order := CallCompar(base, size, compar, child, second, hi);
      if order < 0 {
        child := second;
        c := c + 1;
      }
    }
    if TotalPreorder(compar) {
      forall k | 1 <= k < hi && Parent(k) == r
        ensures compar(base[..][c], base[..][k]) >= 0
      {
        assert k == 2 * r + 1 || k == 2 * r + 2;
      }
    }
  }

  /** siftdown() of the objects from `lo` up to `hi`. All sums of offsets are formed by
      `LongAdd` and `FirstChild`, so that none overflows a long; all calls of the
      callbacks are for objects below `hi`. */
  method SiftDown<T(!new)>(base: array<T>, size: int, compar: (T, T) -> int, start: int, stop: int,
                     ghost lo: int, ghost hi: int, ghost longMax: int)
    requires size > 0 && start == Offset(lo, size) && stop == Offset(hi, size)
    requires 0 <= lo && hi <= base.Length && lo <= hi
    requires 2 * stop + size <= longMax
    modifies base
    ensures PermutedWithin(old(base[..]), base[..], lo, hi)
    ensures TotalPreorder(compar) && old(HeapFrom(base[..], compar, lo + 1, hi)) ==> HeapFrom(base[..], compar, lo, hi)
  {
    hide PermutedWithin, HeapFrom, HeapExcept, LargestChild, TotalPreorder, Offset;
    ghost var sane := TotalPreorder(compar) && HeapFrom(base[..], compar, lo + 1, hi);
    if sane {
      SiftStart(base[..], compar, lo, hi);
    }
    PermutedReflexive(base[..], lo, hi);
    OffsetOf(hi, size);
    OffsetOrder(lo, hi, size);
    var root := start;
    ghost var r := lo;
    ChildOffset(r, hi, size);
    OffsetOf(lo, size);
    OffsetOrder(hi, lo, size);
    var first := FirstChild(root, size, longMax);
    while first < stop
      invariant root == Offset(r, size) && lo <= r && 0 <= root && first == root * 2 + size
      invariant 2 * r + 1 < hi <==> first < stop
      invariant root == start || root < stop
      invariant PermutedWithin(old(base[..]), base[..], lo, hi)
      invariant sane ==> HeapExcept(base[..], compar, lo, hi, r)
      decreases hi - r
    {
      var child; ghost var c;
      child, c := PickChild(base, size, compar, first, stop, r, hi, longMax);
      ghost var before := base[..];
      OffsetOf(r, size);
      OffsetOf(c, size);
      var order := CallCompar(base, size, compar, root, child, hi);
      if order >= 0 {
        if sane {
          SiftDone(base[..], compar, lo, hi, r);
        }
        return;
      }
      CallSwap(base, size, root, child, hi);
      SwapPermutes(before, r, c, lo, hi);
      PermutedTransitive(old(base[..]), before, base[..], lo, hi);
      if sane {
        SiftStep(before, compar, lo, hi, r, c);
      }
      root := child;
      r := c;
      ChildOffset(r, hi, size);
      OffsetOrder(c, hi, size);
      first := FirstChild(root, size, longMax);
    }
    if sane {
      SiftDone(base[..], compar, lo, hi, r);
    }
  }

  // ----- the sort -----

  /** Conversion of an unsigned word to the signed `long` of the same width. */
  function ToLong(x: int, modulus: int): int
    requires modulus > 0
  {
    var w := x % modulus;
    if w < modulus / 2 then w else w - modulus
  }

  function TotalBytes(nmemb: nat, size: int, modulus: int): int
    requires modulus > 0
  {
    ToLong(size * nmemb, modulus)
  }

  function FirstIndex(nmemb: nat, size: int, modulus: int): int
    requires modulus > 0
  {
    ToLong(((nmemb / 2 - 1) % modulus) * size, modulus)
  }

  /** `(nmemb/2 - 1) * size` is computed in size_t, where it wraps for fewer than
      two objects, and then becomes the negative long that skips the first loop. */
  lemma FirstIndexIs(nmemb: nat, size: int, modulus: int)
    requires size > 0 && modulus > 0 && modulus % 2 == 0
    requires 2 * Offset(nmemb, size) + size < modulus / 2
    ensures TotalBytes(nmemb, size, modulus) == Offset(nmemb, size)
    ensures FirstIndex(nmemb, size, modulus) == Offset(nmemb / 2 - 1, size)
  {
    var k := nmemb / 2 - 1;
    MulNonNegative(nmemb, size);
    SmallWord(nmemb * size, modulus);
    if k >= 0 {
      MulNonNegative(k, size);
      MulNonNegative(k, size - 1);
      assert k * (size - 1) == k * size - k;
      assert (nmemb - k) * size == nmemb * size - k * size;
      MulNonNegative(nmemb - k, size);
      SmallWord(k, modulus);
      SmallWord(k * size, modulus);
    } else {
      DivModUnique(k, modulus, -1, modulus - 1);
      assert (modulus - 1) * size == (size - 1) * modulus + (modulus - size);
      DivModUnique((modulus - 1) * size, modulus, size - 1, modulus - size);
    }
  }

  lemma SmallWord(x: int, modulus: int)
    requires modulus > 0 && 0 <= x < modulus / 2
    ensures x % modulus == x && ToLong(x, modulus) == x
  {
    DivModUnique(x, modulus, 0, x);
  }

  /** The elements from `hi` on are in order and no smaller than any element before. */
  ghost predicate TailSorted<T>(s: seq<T>, compar: (T, T) -> int, hi: int, n: int)
    requires n <= |s| && 0 <= hi
  {
    forall i, j :: 0 <= i < j < n && hi <= j ==> compar(s[i], s[j]) <= 0
  }

  /** Moving the root of a heap of `hi + 1` elements to slot `hi` extends the sorted tail. */
  lemma TailGrows<T(!new)>(s: seq<T>, t: seq<T>, u: seq<T>, compar: (T, T) -> int, hi: int, n: int)
    requires TotalPreorder(compar)
    requires 0 < hi < n <= |s|
    requires HeapFrom(s, compar, 0, hi + 1) && TailSorted(s, compar, hi + 1, n)
    requires t == Swapped(s, 0, hi)
    requires PermutedWithin(t, u, 0, hi)
    ensures TailSorted(u, compar, hi, n)
  {
    forall i, j | 0 <= i < j < n && hi <= j
      ensures compar(u[i], u[j]) <= 0
    {
      assert u[j] == t[hi..][j - hi] == t[j];
      var i' := i;
      if i < hi {
        i' := PermutedMember(t, u, 0, hi, i);
      } else {
        assert u[i] == t[hi..][i - hi];
      }
      assert u[i] == t[i'];
      var k := if i' == 0 then hi else if i' == hi then 0 else i';
      assert t[i'] == s[k];
      if j == hi {
        RootIsLargest(s, compar, hi + 1, k);
      }
    }
  }

  /** No object from nmemb / 2 on has a child. */
  lemma HeapOfLeaves<T>(s: seq<T>, compar: (T, T) -> int, n: nat)
    requires n <= |s|
    ensures HeapFrom(s, compar, n / 2, n)
  {
  }

  /** The first loop: sift every inner node down, last one first. */
  method Heapify<T(!new)>(base: array<T>, nmemb: nat, size: int, compar: (T, T) -> int, first: int, total: int,
                          ghost longMax: int)
    requires size > 0 && nmemb <= base.Length
    requires first == Offset(nmemb / 2 - 1, size) && total == Offset(nmemb, size) && 2 * total + size <= longMax
    modifies base
    ensures PermutedWithin(old(base[..]), base[..], 0, nmemb)
    ensures TotalPreorder(compar) ==> HeapFrom(base[..], compar, 0, nmemb)
  {
    hide PermutedWithin, HeapFrom, TotalPreorder, Offset;
    ghost var input := base[..];
    HeapOfLeaves(input, compar, nmemb);
    PermutedReflexive(input, 0, nmemb);
    var idx := first;
    ghost var k := nmemb / 2 - 1;
    OffsetOf(k, size);
    OffsetOf(nmemb, size);
    while idx >= 0
      invariant idx == Offset(k, size) && -1 <= k < nmemb && (idx >= 0 <==> k >= 0)
      invariant PermutedWithin(input, base[..], 0, nmemb)
      invariant TotalPreorder(compar) ==> HeapFrom(base[..], compar, k + 1, nmemb)
      decreases k
    {
      ghost var before := base[..];
      OffsetOrder(0, k, size);
      OffsetOrder(k, nmemb, size);
      SiftDown(base, size, compar, idx, total, k, nmemb, longMax);
      PermutedWiden(before, base[..], k, nmemb, nmemb);
      PermutedTransitive(input, before, base[..], 0, nmemb);
      idx := LongAdd(idx, -size, longMax);
      k := k - 1;
      OffsetOf(k, size);
    }
  }

  /** Taking the root and the last leaf away leaves a heap without its root. */
  lemma RootSwapped<T>(s: seq<T>, compar: (T, T) -> int, k: nat)
    requires 0 < k < |s| && HeapFrom(s, compar, 0, k + 1)
    ensures HeapFrom(Swapped(s, 0, k), compar, 1, k)
  {
  }

  /** The body of the second loop: the root of a heap of `k + 1` goes to slot `k`. */
  method ExtractRoot<T(!new)>(base: array<T>, size: int, compar: (T, T) -> int, idx: int,
                              ghost k: nat, ghost n: nat, ghost longMax: int)
    requires size > 0 && 0 < k < n <= base.Length
    requires idx == Offset(k, size) && 2 * idx + size <= longMax
    requires TotalPreorder(compar) ==> HeapFrom(base[..], compar, 0, k + 1) && TailSorted(base[..], compar, k + 1, n)
    modifies base
    ensures PermutedWithin(old(base[..]), base[..], 0, n)
    ensures TotalPreorder(compar) ==> HeapFrom(base[..], compar, 0, k) && TailSorted(base[..], compar, k, n)
  {
    hide HeapFrom, TailSorted, TotalPreorder, PermutedWithin, Offset;
    ghost var s := base[..];
    OffsetOf(0, size);
    OffsetOf(k, size);
    OffsetOrder(0, k, size);
    CallSwap(base, size, 0, idx, n);
    ghost var t := base[..];
    SwapPermutes(s, 0, k, 0, n);
    if TotalPreorder(compar) {
      RootSwapped(s, compar, k);
    }
    SiftDown(base, size, compar, 0, idx, 0, k, longMax);
    PermutedWiden(t, base[..], 0, k, n);
    PermutedTransitive(s, t, base[..], 0, n);
    if TotalPreorder(compar) {
      TailGrows(s, t, base[..], compar, k, n);
    }
  }

  method Heapsort<T(!new)>(base: array<T>, nmemb: nat, size: int, compar: (T, T) -> int, modulus: int)
    requires size > 0 && nmemb <= base.Length
    requires modulus > 0 && modulus % 2 == 0
    requires 2 * Offset(nmemb, size) + size < modulus / 2
    modifies base
    ensures base[nmemb..] == old(base[nmemb..])
    ensures multiset(base[..nmemb]) == multiset(old(base[..nmemb]))
    ensures TotalPreorder(compar) ==> SortedBy(base[..nmemb], compar)
  {
    hide PermutedWithin, HeapFrom, TailSorted, TotalPreorder, SortedBy, TotalBytes, FirstIndex, Offset;
    ghost var input := base[..];
    ghost var longMax := modulus / 2 - 1;
    FirstIndexIs(nmemb, size, modulus);
    var total := TotalBytes(nmemb, size, modulus);
    var idx := FirstIndex(nmemb, size, modulus);
    Heapify(base, nmemb, size, compar, idx, total, longMax);
    NothingSortedYet(base[..], compar, nmemb);
    OffsetOf(nmemb, size);
    idx := LongAdd(total, -size, longMax);
    ghost var k := nmemb - 1;
    OffsetOrder(0, k, size);
    OffsetOrder(k, nmemb, size);
    while idx > 0
      invariant idx == Offset(k, size) && k < nmemb && (0 <= k || nmemb == 0) && (idx > 0 <==> k > 0)
      invariant idx <= total
      invariant PermutedWithin(input, base[..], 0, nmemb)
      invariant TotalPreorder(compar) && nmemb > 0 ==>
                  HeapFrom(base[..], compar, 0, k + 1) && TailSorted(base[..], compar, k + 1, nmemb)
      decreases k
    {
      ghost var s := base[..];
      OffsetOrder(0, k, size);
      ExtractRoot(base, size, compar, idx, k, nmemb, longMax);
      PermutedTransitive(input, s, base[..], 0, nmemb);
      idx := LongAdd(idx, -size, longMax);
      k := k - 1;
      OffsetOrder(0, k, size);
    }
    SortDone(input, base[..], compar, nmemb);
    assert base[..nmemb] == base[..][..nmemb] && input[..nmemb] == old(base[..nmemb]);
    assert base[nmemb..] == base[..][nmemb..];
  }

  lemma NothingSortedYet<T>(s: seq<T>, compar: (T, T) -> int, n: nat)
    requires n <= |s|
    ensures TailSorted(s, compar, n, n)
  {
  }

  lemma SortDone<T(!new)>(s: seq<T>, t: seq<T>, compar: (T, T) -> int, n: nat)
    requires n <= |s| && PermutedWithin(s, t, 0, n)
    requires TotalPreorder(compar) && n > 0 ==> TailSorted(t, compar, 1, n)
    ensures t[n..] == s[n..] && multiset(t[..n]) == multiset(s[..n])
    ensures TotalPreorder(compar) ==> SortedBy(t[..n], compar)
  {
    assert t[0..n] == t[..n] && s[0..n] == s[..n];
  }
}
