// rqsort of cutils.c: three-way quicksort with a fixed stack, a cut-over to heapsort when
// the recursion gets deep, and insertion sort for short runs.
module Sorting {

  type Compare<!T> = (T, T) -> int

  // A comparison function of a total preorder.
  ghost predicate TotalPreorder<T(!new)>(cmp: Compare<T>) {
    && (forall x, y {:trigger cmp(x, y)} :: cmp(x, y) < 0 <==> cmp(y, x) > 0)
    && (forall x, y, z {:trigger cmp(x, y), cmp(y, z)} :: cmp(x, y) <= 0 && cmp(y, z) <= 0 ==> cmp(x, z) <= 0)
  }

  predicate SortedRange<T>(s: seq<T>, cmp: Compare<T>, lo: int, hi: int)
    requires 0 <= lo <= hi <= |s|
  {
    forall i, j :: lo <= i < j < hi ==> cmp(s[i], s[j]) <= 0
  }

  // t is s with the elements between lo and hi rearranged.
  ghost predicate Rearranged<T>(s: seq<T>, t: seq<T>, lo: int, hi: int)
    requires 0 <= lo <= hi <= |s|
  {
    |t| == |s| && t[..lo] == s[..lo] && t[hi..] == s[hi..] && multiset(t) == multiset(s)
  }

  lemma {:induction false} RearrangedTrans<T>(s: seq<T>, t: seq<T>, u: seq<T>, lo: int, hi: int)
    requires 0 <= lo <= hi <= |s| && Rearranged(s, t, lo, hi) && Rearranged(t, u, lo, hi)
    ensures Rearranged(s, u, lo, hi)
  {
  }

  lemma {:induction false} RearrangedLength<T>(s: seq<T>, t: seq<T>, lo: int, hi: int)
    requires 0 <= lo <= hi <= |s| && Rearranged(s, t, lo, hi)
    ensures |t| == |s|
  {
  }

  // A rearrangement of a part is one of a larger part.
  lemma {:induction false} RearrangedWiden<T>(s: seq<T>, t: seq<T>, lo: int, hi: int, lo': int, hi': int)
    requires 0 <= lo' <= lo <= hi <= hi' <= |s| && Rearranged(s, t, lo, hi)
    ensures Rearranged(s, t, lo', hi')
  {
    assert t[..lo'] == t[..lo][..lo'] && s[..lo'] == s[..lo][..lo'];
    assert t[hi'..] == t[hi..][hi' - hi..] && s[hi'..] == s[hi..][hi' - hi..];
  }

  lemma {:induction false} RearrangedOutside<T>(s: seq<T>, t: seq<T>, lo: int, hi: int, k: int)
    requires 0 <= lo <= hi <= |s| && Rearranged(s, t, lo, hi) && 0 <= k < |s| && !(lo <= k < hi)
    ensures t[k] == s[k]
  {
    if k < lo {
      assert t[..lo][k] == s[..lo][k];
    } else {
      assert t[hi..][k - hi] == s[hi..][k - hi];
    }
  }

  lemma {:induction false} SplitMultiset<T>(s: seq<T>, lo: int, hi: int)
    requires 0 <= lo <= hi <= |s|
    ensures multiset(s) == multiset(s[..lo]) + multiset(s[lo..hi]) + multiset(s[hi..])
  {
    assert s == s[..lo] + s[lo..hi] + s[hi..];
  }

  lemma {:induction false} MultisetCancel<T>(a: multiset<T>, b: multiset<T>, b': multiset<T>, c: multiset<T>)
    requires a + b + c == a + b' + c
    ensures b == b'
  {
    forall x: T
      ensures b[x] == b'[x]
    {
      assert (a + b + c)[x] == (a + b' + c)[x];
    }
  }

  // Every element of the rearranged part comes from the part.
  lemma {:induction false} RearrangedInside<T>(s: seq<T>, t: seq<T>, lo: int, hi: int, k: int) returns (j: int)
    requires 0 <= lo <= hi <= |s| && Rearranged(s, t, lo, hi) && lo <= k < hi
    ensures lo <= j < hi && s[j] == t[k]
  {
    SplitMultiset(s, lo, hi);
    SplitMultiset(t, lo, hi);
    MultisetCancel(multiset(s[..lo]), multiset(s[lo..hi]), multiset(t[lo..hi]), multiset(s[hi..]));
    assert t[k] == t[lo..hi][k - lo];
    assert t[k] in multiset(t[lo..hi]);
    assert t[k] in s[lo..hi];
    var i :| 0 <= i < |s[lo..hi]| && s[lo..hi][i] == t[k];
    j := lo + i;
  }

  // ---------------------------------------------------------------------------
  // Exchanges

  function Swapped<T>(s: seq<T>, i: int, j: int): (t: seq<T>)
    requires 0 <= i < |s| && 0 <= j < |s|
    ensures |t| == |s|
  {
    s[i := s[j]][j := s[i]]
  }

  lemma {:induction false} SwappedRearranged<T>(s: seq<T>, i: int, j: int, lo: int, hi: int)
    requires 0 <= lo <= i < hi <= |s| && lo <= j < hi
    ensures Rearranged(s, Swapped(s, i, j), lo, hi)
  {
  }

  method Exchange<T>(a: array<T>, i: int, j: int)
    requires 0 <= i < a.Length && 0 <= j < a.Length
    modifies a
    ensures a[..] == Swapped(old(a[..]), i, j)
  {
    a[i], a[j] := a[j], a[i];
  }

  // The source of element k when n elements from i and from j on have been exchanged.
  function Partner(i: int, j: int, n: int, k: int): (l: int) {
    if i <= k < i + n then k + (j - i) else if j <= k < j + n then k - (j - i) else k
  }

  ghost predicate BlocksSwapped<T>(s: seq<T>, t: seq<T>, i: int, j: int, n: int)
    requires 0 <= i && 0 <= n && i + n <= j && j + n <= |s|
  {
    |t| == |s| && forall k :: 0 <= k < |s| ==> t[k] == s[Partner(i, j, n, k)]
  }

  lemma {:induction false} BlocksSwappedNone<T>(s: seq<T>, i: int, j: int)
    requires 0 <= i <= j <= |s|
    ensures BlocksSwapped(s, s, i, j, 0)
  {
  }

  lemma {:induction false} BlocksSwappedStep<T>(s: seq<T>, t: seq<T>, i: int, j: int, n: int)
    requires 0 <= i && 0 <= n && i + n + 1 <= j && j + n + 1 <= |s| && BlocksSwapped(s, t, i, j, n)
    ensures BlocksSwapped(s, Swapped(t, i + n, j + n), i, j, n + 1)
  {
  }

  // Exchange two blocks that do not overlap.
  method ExchangeBlocks<T>(a: array<T>, i: int, j: int, span: nat, ghost lo: int, ghost hi: int)
    requires 0 <= lo <= i && i + span <= j && j + span <= hi <= a.Length
    modifies a
    ensures Rearranged(old(a[..]), a[..], lo, hi)
    ensures BlocksSwapped(old(a[..]), a[..], i, j, span)
  {
    hide Rearranged, BlocksSwapped, Swapped;
    RearrangedSelf(a[..], lo, hi);
    BlocksSwappedNone(a[..], i, j);
    var n := 0;
    while n < span
      invariant 0 <= n <= span
      invariant Rearranged(old(a[..]), a[..], lo, hi)
      invariant BlocksSwapped(old(a[..]), a[..], i, j, n)
    {
      ghost var s := a[..];
      Exchange(a, i + n, j + n);
      SwappedRearranged(s, i + n, j + n, lo, hi);
      RearrangedTrans(old(a[..]), s, a[..], lo, hi);
      BlocksSwappedStep(old(a[..]), s, i, j, n);
      n := n + 1;
    }
  }

  lemma {:induction false} RearrangedSelf<T>(s: seq<T>, lo: int, hi: int)
    requires 0 <= lo <= hi <= |s|
    ensures Rearranged(s, s, lo, hi)
  {
  }

  // ---------------------------------------------------------------------------
  // Insertion sort

  // The elements from lo to i are sorted, except that the one at j may be too small.
  predicate Inserting<T>(s: seq<T>, cmp: Compare<T>, lo: int, i: int, j: int)
    requires 0 <= lo <= j <= i < |s|
  {
    forall k, l :: lo <= k < l <= i && l != j ==> cmp(s[k], s[l]) <= 0
  }

  lemma {:induction false} InsertStep<T(!new)>(s: seq<T>, cmp: Compare<T>, lo: int, i: int, j: int)
    requires TotalPreorder(cmp) && 0 <= lo < j <= i < |s| && Inserting(s, cmp, lo, i, j) && cmp(s[j - 1], s[j]) > 0
    ensures Inserting(Swapped(s, j, j - 1), cmp, lo, i, j - 1)
  {
    var t := Swapped(s, j, j - 1);
    forall k, l | lo <= k < l <= i && l != j - 1
      ensures cmp(t[k], t[l]) <= 0
    {
      if k == j - 1 && l == j {
      } else if l == j {
        assert t[l] == s[j - 1] && t[k] == s[k];
      } else if k == j - 1 {
        assert t[k] == s[j] && t[l] == s[l];
      } else if k == j {
        assert t[k] == s[j - 1] && t[l] == s[l];
      }
    }
  }

  lemma {:induction false} InsertDone<T(!new)>(s: seq<T>, cmp: Compare<T>, lo: int, i: int, j: int)
    requires TotalPreorder(cmp) && 0 <= lo <= j <= i < |s| && Inserting(s, cmp, lo, i, j)
    requires j > lo ==> cmp(s[j - 1], s[j]) <= 0
    ensures SortedRange(s, cmp, lo, i + 1)
  {
    forall k, l | lo <= k < l < i + 1
      ensures cmp(s[k], s[l]) <= 0
    {
      if l == j && k < j - 1 {
        assert cmp(s[k], s[j - 1]) <= 0 && cmp(s[j - 1], s[j]) <= 0;
      }
    }
  }

  lemma {:induction false} InsertStart<T>(s: seq<T>, cmp: Compare<T>, lo: int, i: int)
    requires 0 <= lo < i < |s| && SortedRange(s, cmp, lo, i)
    ensures Inserting(s, cmp, lo, i, i)
  {
  }

  // The inner loop: move the element at i down to its place.
  method Insert<T(!new)>(a: array<T>, lo: int, i: int, cmp: Compare<T>)
    requires 0 <= lo < i < a.Length && TotalPreorder(cmp) && SortedRange(a[..], cmp, lo, i)
    modifies a
    ensures Rearranged(old(a[..]), a[..], lo, i + 1)
    ensures SortedRange(a[..], cmp, lo, i + 1)
  {
    hide Rearranged, TotalPreorder, Swapped, Inserting, SortedRange;
    RearrangedSelf(a[..], lo, i + 1);
    InsertStart(a[..], cmp, lo, i);
    var j := i;
    while j > lo && cmp(a[j - 1], a[j]) > 0
      invariant lo <= j <= i
      invariant Rearranged(old(a[..]), a[..], lo, i + 1)
      invariant Inserting(a[..], cmp, lo, i, j)
    {
      ghost var s := a[..];
      Exchange(a, j, j - 1);
      SwappedRearranged(s, j, j - 1, lo, i + 1);
      RearrangedTrans(old(a[..]), s, a[..], lo, i + 1);
      InsertStep(s, cmp, lo, i, j);
      j := j - 1;
    }
    InsertDone(a[..], cmp, lo, i, j);
  }

  method InsertionSort<T(!new)>(a: array<T>, lo: int, n: int, cmp: Compare<T>)
    requires 0 <= lo <= lo + n <= a.Length && TotalPreorder(cmp)
    modifies a
    ensures Rearranged(old(a[..]), a[..], lo, lo + n)
    ensures SortedRange(a[..], cmp, lo, lo + n)
  {
    hide Rearranged, TotalPreorder;
    RearrangedSelf(a[..], lo, lo + n);
    var i := lo + 1;
    while i < lo + n
      invariant n > 0 ==> lo < i <= lo + n
      invariant Rearranged(old(a[..]), a[..], lo, lo + n)
      invariant n > 0 ==> SortedRange(a[..], cmp, lo, i)
    {
      ghost var s := a[..];
      Insert(a, lo, i, cmp);
      RearrangedWiden(s, a[..], lo, i + 1, lo, lo + n);
      RearrangedTrans(old(a[..]), s, a[..], lo, lo + n);
      i := i + 1;
    }
  }

  // ---------------------------------------------------------------------------
  // Heapsort

  // Heap positions count from lo; c is a child of r.
  predicate IsChild(r: int, c: int) {
    c == 2 * r + 1 || c == 2 * r + 2
  }

  // Every parent from "first" on, except the one at "hole", is not smaller than its children
  // below n.
  predicate HeapBut<T>(s: seq<T>, cmp: Compare<T>, lo: int, first: int, n: int, hole: int)
    requires 0 <= lo && lo + n <= |s|
  {
    forall r, c :: 0 <= first <= r < c < n && IsChild(r, c) && r != hole ==> cmp(s[lo + c], s[lo + r]) <= 0
  }

  // The parent of the hole is not smaller than the children of the hole either.
  predicate HoleBelow<T>(s: seq<T>, cmp: Compare<T>, lo: int, first: int, n: int, hole: int)
    requires 0 <= lo && lo + n <= |s|
  {
    forall p, c :: 0 <= first <= p < hole < c < n && IsChild(p, hole) && IsChild(hole, c) ==> cmp(s[lo + c], s[lo + p]) <= 0
  }

  // The parents from "first" on are not smaller than their children below n.
  predicate HeapFrom<T>(s: seq<T>, cmp: Compare<T>, lo: int, first: int, n: int)
    requires 0 <= lo && lo + n <= |s|
  {
    HeapBut(s, cmp, lo, first, n, -1)
  }

  // c is the child of r the sift continues with: not smaller than its sibling.
  predicate LargerChild<T>(s: seq<T>, cmp: Compare<T>, lo: int, n: int, r: int, c: int)
    requires 0 <= lo && lo + n <= |s|
  {
    0 <= r < c < n && IsChild(r, c) && forall d :: r < d < n && IsChild(r, d) ==> cmp(s[lo + d], s[lo + c]) <= 0
  }

  lemma {:induction false} SiftStep<T(!new)>(s: seq<T>, cmp: Compare<T>, lo: int, first: int, n: int, r: int, c: int)
    requires TotalPreorder(cmp) && 0 <= lo && lo + n <= |s| && 0 <= first <= r
    requires HeapBut(s, cmp, lo, first, n, r) && HoleBelow(s, cmp, lo, first, n, r)
    requires LargerChild(s, cmp, lo, n, r, c) && cmp(s[lo + r], s[lo + c]) <= 0
    ensures HeapBut(Swapped(s, lo + r, lo + c), cmp, lo, first, n, c)
    ensures HoleBelow(Swapped(s, lo + r, lo + c), cmp, lo, first, n, c)
  {
    var t := Swapped(s, lo + r, lo + c);
    forall p, d | 0 <= first <= p < d < n && IsChild(p, d) && p != c
      ensures cmp(t[lo + d], t[lo + p]) <= 0
    {
      if p == r {
        assert d == c || t[lo + d] == s[lo + d];
      } else if d == r {
        assert cmp(s[lo + c], s[lo + p]) <= 0;
      } else {
        assert d != c;
      }
    }
  }

  lemma {:induction false} SiftDone<T(!new)>(s: seq<T>, cmp: Compare<T>, lo: int, first: int, n: int, r: int)
    requires TotalPreorder(cmp) && 0 <= lo && lo + n <= |s| && 0 <= first <= r
    requires HeapBut(s, cmp, lo, first, n, r)
    requires 2 * r + 1 >= n || exists c {:trigger LargerChild(s, cmp, lo, n, r, c)} ::
               LargerChild(s, cmp, lo, n, r, c) && cmp(s[lo + r], s[lo + c]) > 0
    ensures HeapFrom(s, cmp, lo, first, n)
  {
    if 2 * r + 1 < n {
      var c :| LargerChild(s, cmp, lo, n, r, c) && cmp(s[lo + r], s[lo + c]) > 0;
      forall d | r < d < n && IsChild(r, d)
        ensures cmp(s[lo + d], s[lo + r]) <= 0
      {
        assert cmp(s[lo + d], s[lo + c]) <= 0 && cmp(s[lo + c], s[lo + r]) <= 0;
      }
    }
  }

  // The hole has no parent yet.
  lemma {:induction false} NothingAbove<T>(s: seq<T>, cmp: Compare<T>, lo: int, start: int, n: int)
    requires 0 <= lo && lo + n <= |s|
    ensures HoleBelow(s, cmp, lo, start, n, start)
  {
  }

  // The inner loop of heapsortx: sift the element at r down until it is a heap again.
  method SiftDown<T(!new)>(a: array<T>, lo: int, start: int, n: int, cmp: Compare<T>)
    requires 0 <= lo && lo + n <= a.Length && TotalPreorder(cmp) && 0 <= start < n
    requires HeapBut(a[..], cmp, lo, start, n, start)
    modifies a
    ensures Rearranged(old(a[..]), a[..], lo, lo + n)
    ensures HeapFrom(a[..], cmp, lo, start, n)
  {
    hide Rearranged, TotalPreorder, Swapped, HeapFrom, HeapBut, HoleBelow, LargerChild;
    ghost var s0 := a[..];
    RearrangedSelf(s0, lo, lo + n);
    var r := start;
    NothingAbove(s0, cmp, lo, start, n);
    while 2 * r + 1 < n
      invariant start <= r < n
      invariant Rearranged(s0, a[..], lo, lo + n)
      invariant HeapBut(a[..], cmp, lo, start, n, r) && HoleBelow(a[..], cmp, lo, start, n, r)
    {
      ghost var s := a[..];
      var c := 2 * r + 1;
      if c < n - 1 && cmp(a[lo + c], a[lo + c + 1]) <= 0 {
        c := c + 1;
      }
      LargerIs(s, cmp, lo, n, r, c);
      if cmp(a[lo + r], a[lo + c]) > 0 {
        break;
      }
      Exchange(a, lo + r, lo + c);
      SwapSifts(s0, s, cmp, lo, start, n, r, c);
      r := c;
    }
    SiftDone(a[..], cmp, lo, start, n, r);
  }

  lemma {:induction false} SwapSifts<T(!new)>(s0: seq<T>, s: seq<T>, cmp: Compare<T>, lo: int, first: int, n: int, r: int, c: int)
    requires TotalPreorder(cmp) && 0 <= lo && lo + n <= |s| == |s0| && 0 <= first <= r < c < n && Rearranged(s0, s, lo, lo + n)
    requires HeapBut(s, cmp, lo, first, n, r) && HoleBelow(s, cmp, lo, first, n, r)
    requires LargerChild(s, cmp, lo, n, r, c) && cmp(s[lo + r], s[lo + c]) <= 0
    ensures var t := Swapped(s, lo + r, lo + c);
            Rearranged(s0, t, lo, lo + n) && HeapBut(t, cmp, lo, first, n, c) && HoleBelow(t, cmp, lo, first, n, c)
  {
    hide Rearranged, TotalPreorder, HeapBut, HoleBelow, LargerChild;
    SwappedRearranged(s, lo + r, lo + c, lo, lo + n);
    RearrangedTrans(s0, s, Swapped(s, lo + r, lo + c), lo, lo + n);
    SiftStep(s, cmp, lo, first, n, r, c);
  }

  lemma {:induction false} LargerIs<T(!new)>(s: seq<T>, cmp: Compare<T>, lo: int, n: int, r: int, c: int)
    requires TotalPreorder(cmp) && 0 <= lo && lo + n <= |s| && 0 <= r && 2 * r + 1 < n
    requires var left := 2 * r + 1;
             c == if left < n - 1 && cmp(s[lo + left], s[lo + left + 1]) <= 0 then left + 1 else left
    ensures LargerChild(s, cmp, lo, n, r, c)
  {
    assert cmp(s[lo + c], s[lo + c]) <= 0;
  }

  lemma {:induction false} RootIsLargest<T(!new)>(s: seq<T>, cmp: Compare<T>, lo: int, n: int, k: int)
    requires TotalPreorder(cmp) && 0 <= lo && lo + n <= |s| && HeapFrom(s, cmp, lo, 0, n) && 0 <= k < n
    ensures cmp(s[lo + k], s[lo]) <= 0
    decreases k
  {
    if k == 0 {
      assert cmp(s[lo], s[lo]) <= 0;
    } else {
      var p := (k - 1) / 2;
      assert IsChild(p, k);
      RootIsLargest(s, cmp, lo, n, p);
      assert cmp(s[lo + k], s[lo + p]) <= 0 && cmp(s[lo + p], s[lo]) <= 0;
    }
  }

  // The elements from mid on are in their final place: sorted, and none before them is larger.
  predicate SettledFrom<T>(s: seq<T>, cmp: Compare<T>, lo: int, mid: int, hi: int)
    requires 0 <= lo && hi <= |s|
  {
    forall j, k :: lo <= j < k < hi && mid <= k ==> cmp(s[j], s[k]) <= 0
  }

  // Moving the root behind the heap settles one more place and leaves a hole at the root.
  lemma {:induction false} RootSettles<T(!new)>(s: seq<T>, cmp: Compare<T>, lo: int, i: int, n: int)
    requires TotalPreorder(cmp) && 0 <= lo && lo + n <= |s| && 0 < i < n
    requires HeapFrom(s, cmp, lo, 0, i + 1) && SettledFrom(s, cmp, lo, lo + i + 1, lo + n)
    ensures SettledFrom(Swapped(s, lo, lo + i), cmp, lo, lo + i, lo + n)
    ensures HeapBut(Swapped(s, lo, lo + i), cmp, lo, 0, i, 0)
  {
    var t := Swapped(s, lo, lo + i);
    forall j, k | lo <= j < k < lo + n && lo + i <= k
      ensures cmp(t[j], t[k]) <= 0
    {
      if k == lo + i {
        RootIsLargest(s, cmp, lo, i + 1, if j == lo then i else j - lo);
        assert lo + (j - lo) == j;
      } else {
        var j' := if j == lo then lo + i else if j == lo + i then lo else j;
        assert t[k] == s[k] && t[j] == s[j'];
      }
    }
    forall r, c | 0 <= 0 <= r < c < i && IsChild(r, c) && r != 0
      ensures cmp(t[lo + c], t[lo + r]) <= 0
    {
    }
  }

  // Rearranging the elements before mid keeps the settled ones settled.
  lemma {:induction false} SettledKept<T(!new)>(s: seq<T>, t: seq<T>, cmp: Compare<T>, lo: int, mid: int, hi: int)
    requires 0 <= lo <= mid <= hi <= |s| && Rearranged(s, t, lo, mid) && SettledFrom(s, cmp, lo, mid, hi)
    ensures |t| == |s| && SettledFrom(t, cmp, lo, mid, hi)
  {
    hide Rearranged;
    LengthKept(s, t, lo, mid);
    forall j, k | lo <= j < k < hi && mid <= k
      ensures cmp(t[j], t[k]) <= 0
    {
      RearrangedOutside(s, t, lo, mid, k);
      if j < mid {
        var l := RearrangedInside(s, t, lo, mid, j);
      } else {
        RearrangedOutside(s, t, lo, mid, j);
      }
    }
  }

  lemma {:induction false} LengthKept<T>(s: seq<T>, t: seq<T>, lo: int, hi: int)
    requires 0 <= lo <= hi <= |s| && Rearranged(s, t, lo, hi)
    ensures |t| == |s|
  {
  }

  // heapsortx
  method HeapSort<T(!new)>(a: array<T>, lo: int, n: int, cmp: Compare<T>)
    requires 0 <= lo <= lo + n <= a.Length && TotalPreorder(cmp)
    modifies a
    ensures Rearranged(old(a[..]), a[..], lo, lo + n)
    ensures SortedRange(a[..], cmp, lo, lo + n)
  {
    hide Rearranged, TotalPreorder, Swapped, HeapBut, SettledFrom, HeapFrom;
    RearrangedSelf(a[..], lo, lo + n);
    if n > 1 {
      var i := n / 2;
      HeapAboveHalf(a[..], cmp, lo, i, n);
      while i > 0
        invariant 0 <= i <= n / 2
        invariant Rearranged(old(a[..]), a[..], lo, lo + n)
        invariant HeapFrom(a[..], cmp, lo, i, n)
      {
        i := i - 1;
        ghost var s := a[..];
        HoleAt(s, cmp, lo, i, n);
        SiftDown(a, lo, i, n, cmp);
        RearrangedTrans(old(a[..]), s, a[..], lo, lo + n);
      }
      i := n - 1;
      NothingSettled(a[..], cmp, lo, n);
      while i > 0
        invariant 0 <= i < n
        invariant Rearranged(old(a[..]), a[..], lo, lo + n)
        invariant HeapFrom(a[..], cmp, lo, 0, i + 1)
        invariant SettledFrom(a[..], cmp, lo, lo + i + 1, lo + n)
      {
        ghost var s := a[..];
        RootSettles(s, cmp, lo, i, n);
        Exchange(a, lo, lo + i);
        SwappedRearranged(s, lo, lo + i, lo, lo + n);
        RearrangedTrans(old(a[..]), s, a[..], lo, lo + n);
        ghost var t := a[..];
        SiftDown(a, lo, 0, i, cmp);
        SettledKept(t, a[..], cmp, lo, lo + i, lo + n);
        RearrangedWiden(t, a[..], lo, lo + i, lo, lo + n);
        RearrangedTrans(old(a[..]), t, a[..], lo, lo + n);
        i := i - 1;
      }
      SettledSorted(a[..], cmp, lo, n);
    }
  }

  lemma {:induction false} HeapAboveHalf<T>(s: seq<T>, cmp: Compare<T>, lo: int, i: int, n: int)
    requires 0 <= lo && lo + n <= |s| && i == n / 2 && n > 1
    ensures HeapFrom(s, cmp, lo, i, n)
  {
  }

  lemma {:induction false} HoleAt<T>(s: seq<T>, cmp: Compare<T>, lo: int, i: int, n: int)
    requires 0 <= lo && lo + n <= |s| && 0 <= i && HeapFrom(s, cmp, lo, i + 1, n)
    ensures HeapBut(s, cmp, lo, i, n, i)
  {
  }

  lemma {:induction false} NothingSettled<T>(s: seq<T>, cmp: Compare<T>, lo: int, n: int)
    requires 0 <= lo && lo + n <= |s|
    ensures SettledFrom(s, cmp, lo, lo + n, lo + n)
  {
  }

  lemma {:induction false} SettledSorted<T>(s: seq<T>, cmp: Compare<T>, lo: int, n: int)
    requires 0 <= lo && 0 < n && lo + n <= |s| && SettledFrom(s, cmp, lo, lo + 1, lo + n)
    ensures SortedRange(s, cmp, lo, lo + n)
  {
  }

  // ---------------------------------------------------------------------------
  // Median of three

  function Med3<T>(s: seq<T>, a: int, b: int, c: int, cmp: Compare<T>): (m: int)
    requires 0 <= a < |s| && 0 <= b < |s| && 0 <= c < |s|
    ensures m == a || m == b || m == c
  {
    if cmp(s[a], s[b]) < 0 then
      (if cmp(s[b], s[c]) < 0 then b else if cmp(s[a], s[c]) < 0 then c else a)
    else
      (if cmp(s[b], s[c]) > 0 then b else if cmp(s[a], s[c]) < 0 then a else c)
  }

  predicate Between<T>(s: seq<T>, x: int, m: int, y: int, cmp: Compare<T>)
    requires 0 <= x < |s| && 0 <= m < |s| && 0 <= y < |s|
  {
    cmp(s[x], s[m]) <= 0 && cmp(s[m], s[y]) <= 0
  }

  // med3 picks an element that lies between the two others.
  lemma {:induction false} Med3IsMedian<T(!new)>(s: seq<T>, a: int, b: int, c: int, cmp: Compare<T>)
    requires 0 <= a < |s| && 0 <= b < |s| && 0 <= c < |s| && TotalPreorder(cmp)
    ensures var m := Med3(s, a, b, c, cmp);
            || (m == a && (Between(s, b, m, c, cmp) || Between(s, c, m, b, cmp)))
            || (m == b && (Between(s, a, m, c, cmp) || Between(s, c, m, a, cmp)))
            || (m == c && (Between(s, a, m, b, cmp) || Between(s, b, m, a, cmp)))
  {
    assert cmp(s[a], s[b]) < 0 <==> cmp(s[b], s[a]) > 0;
    assert cmp(s[b], s[c]) < 0 <==> cmp(s[c], s[b]) > 0;
    assert cmp(s[a], s[c]) < 0 <==> cmp(s[c], s[a]) > 0;
  }

  // ---------------------------------------------------------------------------
  // Three-way partition

  function Sign(c: int): (g: int) {
    if c < 0 then -1 else if c == 0 then 0 else 1
  }

  // The pivot p compares in the same way with all elements from lo to hi.
  predicate AllSign<T>(s: seq<T>, cmp: Compare<T>, p: T, lo: int, hi: int, sign: int)
    requires 0 <= lo && hi <= |s|
  {
    forall k :: lo <= k < hi ==> Sign(cmp(p, s[k])) == sign
  }

  // The loop's four known parts: equal, smaller, not yet seen, greater, equal.
  predicate Parts<T>(s: seq<T>, cmp: Compare<T>, p: T, lo: int, lt: int, i: int, j: int, gt: int, hi: int)
    requires 0 <= lo <= lt <= i && i <= j <= gt <= hi <= |s|
  {
    AllSign(s, cmp, p, lo, lt, 0) && AllSign(s, cmp, p, lt, i, 1)
    && AllSign(s, cmp, p, j, gt, -1) && AllSign(s, cmp, p, gt, hi, 0)
  }

  lemma {:induction false} EqualLeft<T>(s: seq<T>, cmp: Compare<T>, p: T, lo: int, lt: int, i: int, j: int, gt: int, hi: int)
    requires 0 <= lo <= lt <= i < j <= gt <= hi <= |s| && Parts(s, cmp, p, lo, lt, i, j, gt, hi) && cmp(p, s[i]) == 0
    ensures Parts(Swapped(s, lt, i), cmp, p, lo, lt + 1, i + 1, j, gt, hi)
  {
  }

  lemma {:induction false} EqualRight<T>(s: seq<T>, cmp: Compare<T>, p: T, lo: int, lt: int, i: int, j: int, gt: int, hi: int)
    requires 0 <= lo <= lt <= i <= j < gt <= hi <= |s| && Parts(s, cmp, p, lo, lt, i, j + 1, gt, hi) && cmp(p, s[j]) == 0
    ensures Parts(Swapped(s, gt - 1, j), cmp, p, lo, lt, i, j, gt - 1, hi)
  {
  }

  lemma {:induction false} Cross<T>(s: seq<T>, cmp: Compare<T>, p: T, lo: int, lt: int, i: int, j: int, gt: int, hi: int)
    requires 0 <= lo <= lt <= i < j < gt <= hi <= |s| && Parts(s, cmp, p, lo, lt, i, j + 1, gt, hi)
    requires cmp(p, s[i]) < 0 && cmp(p, s[j]) > 0
    ensures Parts(Swapped(s, i, j), cmp, p, lo, lt, i + 1, j, gt, hi)
  {
  }

  // Two adjacent parts change places when the shorter one is exchanged with the far end
  // of the other.
  lemma {:induction false} PartsFlip<T>(s: seq<T>, t: seq<T>, cmp: Compare<T>, p: T, lo: int, mid: int, hi: int, span: int,
                                        sign: int, sign': int)
    requires 0 <= lo <= mid <= hi <= |s| && span == (if mid - lo > hi - mid then hi - mid else mid - lo)
    requires BlocksSwapped(s, t, lo, hi - span, span)
    requires AllSign(s, cmp, p, lo, mid, sign) && AllSign(s, cmp, p, mid, hi, sign')
    ensures AllSign(t, cmp, p, lo, lo + (hi - mid), sign') && AllSign(t, cmp, p, lo + (hi - mid), hi, sign)
    ensures forall k :: 0 <= k < |s| && !(lo <= k < hi) ==> t[k] == s[k]
  {
  }

  lemma {:induction false} AllSignKept<T>(s: seq<T>, t: seq<T>, cmp: Compare<T>, p: T, lo: int, hi: int, lo': int, hi': int, sign: int)
    requires |t| == |s| && 0 <= lo <= hi <= |s| && 0 <= lo' && hi' <= |s| && (hi' <= lo || hi <= lo')
    requires forall k :: 0 <= k < |s| && !(lo <= k < hi) ==> t[k] == s[k]
    requires AllSign(s, cmp, p, lo', hi', sign)
    ensures AllSign(t, cmp, p, lo', hi', sign)
  {
  }

  // The outcome: smaller elements, elements equal to the pivot, greater elements.
  predicate ThreeWay<T>(s: seq<T>, cmp: Compare<T>, p: T, lo: int, lt: int, gt: int, hi: int)
    requires 0 <= lo && hi <= |s| && lo <= lt <= hi && lo <= gt <= hi
  {
    AllSign(s, cmp, p, lo, lt, 1) && AllSign(s, cmp, p, lt, gt, 0) && AllSign(s, cmp, p, gt, hi, -1)
  }

  // The scan of rqsort: on return the parts are lo..lt equal, lt..i smaller, i..gt greater,
  // gt..hi equal.
  method Scan<T(!new)>(a: array<T>, lo: int, hi: int, cmp: Compare<T>, ghost p: T)
    returns (lt: int, i: int, gt: int)
    requires 0 <= lo < hi <= a.Length && a[lo] == p && TotalPreorder(cmp)
    modifies a
    ensures Rearranged(old(a[..]), a[..], lo, hi)
    ensures lo < lt <= i <= gt <= hi && Parts(a[..], cmp, p, lo, lt, i, i, gt, hi)
  {
    hide Rearranged, TotalPreorder, Swapped, AllSign;
    RearrangedSelf(a[..], lo, hi);
    i, lt, gt := lo + 1, lo + 1, hi;
    var j := hi;
    StartParts(a[..], cmp, p, lo, hi);
    while true
      invariant lo < lt <= i <= j <= gt <= hi && a[lo] == p
      invariant Rearranged(old(a[..]), a[..], lo, hi)
      invariant Parts(a[..], cmp, p, lo, lt, i, j, gt, hi)
      decreases j - i
    {
      hide Parts;
      lt, i := ScanUp(a, lo, lt, i, j, gt, hi, cmp, p, old(a[..]));
      j, gt := ScanDown(a, lo, lt, i, j, gt, hi, cmp, p, old(a[..]));
      if i >= j {
        ClosedParts(a[..], cmp, p, lo, lt, i, j, gt, hi);
        break;
      }
      ghost var s := a[..];
      Cross(s, cmp, p, lo, lt, i, j, gt, hi);
      SwappedAt(s, i, j, lo);
      Exchange(a, i, j);
      SwappedRearranged(s, i, j, lo, hi);
      RearrangedTrans(old(a[..]), s, a[..], lo, hi);
      i := i + 1;
    }
  }

  lemma {:induction false} SwappedAt<T>(s: seq<T>, i: int, j: int, k: int)
    requires 0 <= i < |s| && 0 <= j < |s| && 0 <= k < |s| && k != i && k != j
    ensures Swapped(s, i, j)[k] == s[k]
  {
  }

  lemma {:induction false} StartParts<T(!new)>(s: seq<T>, cmp: Compare<T>, p: T, lo: int, hi: int)
    requires 0 <= lo < hi <= |s| && s[lo] == p && TotalPreorder(cmp)
    ensures Parts(s, cmp, p, lo, lo + 1, lo + 1, hi, hi, hi)
  {
    assert cmp(p, p) < 0 <==> cmp(p, p) > 0;
  }

  lemma {:induction false} ClosedParts<T>(s: seq<T>, cmp: Compare<T>, p: T, lo: int, lt: int, i: int, j: int, gt: int, hi: int)
    requires 0 <= lo <= lt <= i <= j + 1 <= gt <= hi <= |s| && Parts(s, cmp, p, lo, lt, i, j + 1, gt, hi)
    requires i >= j && (i == j ==> cmp(p, s[i]) < 0)
    ensures i <= gt && Parts(s, cmp, p, lo, lt, i, i, gt, hi)
  {
  }

  // The upward loop: stops at j or at an element greater than the pivot.
  method ScanUp<T(!new)>(a: array<T>, lo: int, lt0: int, i0: int, j: int, gt: int, hi: int, cmp: Compare<T>, ghost p: T, ghost s0: seq<T>)
    returns (lt: int, i: int)
    requires 0 <= lo < lt0 <= i0 <= j <= gt <= hi <= a.Length && a[lo] == p && |s0| == a.Length
    requires Rearranged(s0, a[..], lo, hi) && Parts(a[..], cmp, p, lo, lt0, i0, j, gt, hi)
    modifies a
    ensures lo < lt <= i <= j && i0 <= i && a[lo] == p
    ensures Rearranged(s0, a[..], lo, hi) && Parts(a[..], cmp, p, lo, lt, i, j, gt, hi)
    ensures i < j ==> cmp(p, a[i]) < 0
  {
    hide Rearranged, Swapped, Parts;
    lt, i := lt0, i0;
    while i < j && cmp(a[lo], a[i]) >= 0
      invariant lo < lt <= i <= j && i0 <= i && a[lo] == p
      invariant Rearranged(s0, a[..], lo, hi)
      invariant Parts(a[..], cmp, p, lo, lt, i, j, gt, hi)
    {
      ghost var s := a[..];
      if cmp(a[lo], a[i]) == 0 {
        EqualLeft(s, cmp, p, lo, lt, i, j, gt, hi);
        SwappedAt(s, lt, i, lo);
        Exchange(a, lt, i);
        SwappedRearranged(s, lt, i, lo, hi);
        RearrangedTrans(s0, s, a[..], lo, hi);
        lt := lt + 1;
      } else {
        SmallerLeft(s, cmp, p, lo, lt, i, j, gt, hi);
      }
      i := i + 1;
    }
  }

  lemma {:induction false} SmallerLeft<T>(s: seq<T>, cmp: Compare<T>, p: T, lo: int, lt: int, i: int, j: int, gt: int, hi: int)
    requires 0 <= lo <= lt <= i < j <= gt <= hi <= |s| && Parts(s, cmp, p, lo, lt, i, j, gt, hi) && cmp(p, s[i]) > 0
    ensures Parts(s, cmp, p, lo, lt, i + 1, j, gt, hi)
  {
  }

  lemma {:induction false} GreaterRight<T>(s: seq<T>, cmp: Compare<T>, p: T, lo: int, lt: int, i: int, j: int, gt: int, hi: int)
    requires 0 <= lo <= lt <= i <= j < gt <= hi <= |s| && Parts(s, cmp, p, lo, lt, i, j + 1, gt, hi) && cmp(p, s[j]) < 0
    ensures Parts(s, cmp, p, lo, lt, i, j, gt, hi)
  {
  }

  // The downward loop: j is decremented before every test.
  method ScanDown<T(!new)>(a: array<T>, lo: int, lt: int, i: int, j0: int, gt0: int, hi: int, cmp: Compare<T>, ghost p: T, ghost s0: seq<T>)
    returns (j: int, gt: int)
    requires 0 <= lo < lt <= i <= j0 <= gt0 <= hi <= a.Length && a[lo] == p && |s0| == a.Length
    requires Rearranged(s0, a[..], lo, hi) && Parts(a[..], cmp, p, lo, lt, i, j0, gt0, hi)
    requires i < j0 ==> cmp(p, a[i]) < 0
    modifies a
    ensures i <= j + 1 <= gt <= hi && j < j0 && a[lo] == p
    ensures Rearranged(s0, a[..], lo, hi) && Parts(a[..], cmp, p, lo, lt, i, j + 1, gt, hi)
    ensures i <= j ==> cmp(p, a[i]) < 0
    ensures i < j ==> cmp(p, a[j]) > 0
  {
    hide Rearranged, Swapped, Parts;
    j, gt := j0 - 1, gt0;
    while i < j && cmp(a[lo], a[j]) <= 0
      invariant i <= j + 1 <= gt <= hi && j < j0 && a[lo] == p
      invariant Rearranged(s0, a[..], lo, hi)
      invariant Parts(a[..], cmp, p, lo, lt, i, j + 1, gt, hi)
      invariant i <= j ==> cmp(p, a[i]) < 0
    {
      ghost var s := a[..];
      if cmp(a[lo], a[j]) == 0 {
        gt := gt - 1;
        EqualRight(s, cmp, p, lo, lt, i, j, gt + 1, hi);
        SwappedAt(s, gt, j, lo);
        SwappedAt(s, gt, j, i);
        Exchange(a, gt, j);
        SwappedRearranged(s, gt, j, lo, hi);
        RearrangedTrans(s0, s, a[..], lo, hi);
      } else {
        GreaterRight(s, cmp, p, lo, lt, i, j, gt, hi);
      }
      j := j - 1;
    }
  }

  // Exchange two adjacent parts, moving only as many elements as the shorter one has.
  method Flip<T>(a: array<T>, lo: int, mid: int, hi: int, cmp: Compare<T>, ghost p: T, ghost sign: int, ghost sign': int,
                 ghost lo': int, ghost hi': int)
    requires 0 <= lo' <= lo <= mid <= hi <= hi' <= a.Length
    requires AllSign(a[..], cmp, p, lo, mid, sign) && AllSign(a[..], cmp, p, mid, hi, sign')
    modifies a
    ensures Rearranged(old(a[..]), a[..], lo', hi')
    ensures AllSign(a[..], cmp, p, lo, lo + (hi - mid), sign') && AllSign(a[..], cmp, p, lo + (hi - mid), hi, sign)
    ensures forall k :: 0 <= k < a.Length && !(lo <= k < hi) ==> a[..][k] == old(a[..])[k]
  {
    hide Rearranged, AllSign, BlocksSwapped;
    ghost var s := a[..];
    var span := if mid - lo > hi - mid then hi - mid else mid - lo;
    ExchangeBlocks(a, lo, hi - span, span, lo', hi');
    PartsFlip(s, a[..], cmp, p, lo, mid, hi, span, sign, sign');
  }

  // One partition step of rqsort on the elements from lo to hi.
  method Partition<T(!new)>(a: array<T>, lo: int, hi: int, cmp: Compare<T>) returns (lt: int, gt: int, ghost p: T)
    requires 0 <= lo && lo + 6 < hi <= a.Length && TotalPreorder(cmp)
    modifies a
    ensures Rearranged(old(a[..]), a[..], lo, hi)
    ensures lo <= lt < gt <= hi && ThreeWay(a[..], cmp, p, lo, lt, gt, hi)
  {
    hide Rearranged, TotalPreorder, Swapped, AllSign;
    var m4 := (hi - lo) / 4;
    var m := Med3(a[..], lo + m4, lo + 2 * m4, lo + 3 * m4, cmp);
    ghost var s := a[..];
    p := a[m];
    Exchange(a, lo, m);
    SwappedRearranged(s, lo, m, lo, hi);
    SwappedFirst(s, lo, m);
    ghost var t := a[..];
    var eq, i, ge := Scan(a, lo, hi, cmp, p);
    RearrangedTrans(s, t, a[..], lo, hi);
    lt, gt := lo + (i - eq), hi - (ge - i);
    MoveEqual(a, lo, eq, i, ge, hi, cmp, p, s);
  }

  // Move the elements equal to the pivot from both ends to the middle.
  method MoveEqual<T(!new)>(a: array<T>, lo: int, eq: int, i: int, ge: int, hi: int, cmp: Compare<T>, ghost p: T, ghost s: seq<T>)
    requires 0 <= lo < eq <= i <= ge <= hi <= a.Length == |s| && Parts(a[..], cmp, p, lo, eq, i, i, ge, hi)
    requires Rearranged(s, a[..], lo, hi)
    modifies a
    ensures Rearranged(s, a[..], lo, hi)
    ensures ThreeWay(a[..], cmp, p, lo, lo + (i - eq), hi - (ge - i), hi)
  {
    hide Rearranged, AllSign;
    // equal elements on the left go next to the middle
    ghost var u := a[..];
    Flip(a, lo, eq, i, cmp, p, 0, 1, lo, hi);
    RearrangedTrans(s, u, a[..], lo, hi);
    AllSignKept(u, a[..], cmp, p, lo, i, i, ge, -1);
    AllSignKept(u, a[..], cmp, p, lo, i, ge, hi, 0);

    // equal elements on the right too
    ghost var v := a[..];
    Flip(a, i, ge, hi, cmp, p, -1, 0, lo, hi);
    RearrangedTrans(s, v, a[..], lo, hi);
    AllSignKept(v, a[..], cmp, p, i, hi, lo, lo + (i - eq), 1);
    AllSignKept(v, a[..], cmp, p, i, hi, lo + (i - eq), i, 0);
    AllSignJoin(a[..], cmp, p, lo + (i - eq), i, hi - (ge - i), 0);
  }

  lemma {:induction false} SwappedFirst<T>(s: seq<T>, i: int, j: int)
    requires 0 <= i < |s| && 0 <= j < |s|
    ensures Swapped(s, i, j)[i] == s[j]
  {
  }

  lemma {:induction false} AllSignJoin<T>(s: seq<T>, cmp: Compare<T>, p: T, lo: int, mid: int, hi: int, sign: int)
    requires 0 <= lo <= mid <= hi <= |s| && AllSign(s, cmp, p, lo, mid, sign) && AllSign(s, cmp, p, mid, hi, sign)
    ensures AllSign(s, cmp, p, lo, hi, sign)
  {
  }

  // ---------------------------------------------------------------------------
  // The segment stack

  const STACK_SIZE := 50

  datatype Segment = Segment(base: int, count: int, depth: int)

  predicate Inside(g: Segment, k: int) {
    g.base <= k < g.base + g.count
  }

  // The segments lie in an array of n elements and do not overlap.
  predicate Apart(segs: seq<Segment>, n: int) {
    && (forall k :: 0 <= k < |segs| ==> 0 <= segs[k].base && 0 <= segs[k].count && segs[k].base + segs[k].count <= n)
    && (forall k, l :: 0 <= k < l < |segs| ==>
          segs[k].base + segs[k].count <= segs[l].base || segs[l].base + segs[l].count <= segs[k].base)
  }

  // Two positions still belong to the same unsorted segment.
  predicate Together(segs: seq<Segment>, i: int, j: int) {
    exists k :: 0 <= k < |segs| && Inside(segs[k], i) && Inside(segs[k], j)
  }

  // Elements that share no unsorted segment are in order.
  predicate Settled<T>(s: seq<T>, cmp: Compare<T>, segs: seq<Segment>) {
    forall i, j :: 0 <= i < j < |s| && !Together(segs, i, j) ==> cmp(s[i], s[j]) <= 0
  }

  // The depths on the stack strictly increase, starting from at least "first", up to "last".
  predicate Deepening(segs: seq<Segment>, first: int, last: int) {
    && (forall k :: 0 <= k < |segs| ==> first <= segs[k].depth <= last)
    && (forall k, l :: 0 <= k < l < |segs| ==> segs[k].depth < segs[l].depth)
  }

  // Strictly increasing depths bound the number of used slots.
  lemma {:induction false} DeepeningBound(segs: seq<Segment>, first: int, last: int)
    requires Deepening(segs, first, last) && segs != []
    ensures |segs| <= last - first + 1
  {
    if |segs| > 1 {
      DeepeningBound(segs[..|segs| - 1], first, segs[|segs| - 1].depth - 1);
    }
  }

  function Weight(segs: seq<Segment>): (w: int) {
    if segs == [] then 0 else Weight(segs[..|segs| - 1]) + segs[|segs| - 1].count + 1
  }

  lemma {:induction false} WeightNonNegative(segs: seq<Segment>, n: int)
    requires Apart(segs, n)
    ensures Weight(segs) >= 0
  {
    if segs != [] {
      WeightNonNegative(segs[..|segs| - 1], n);
    }
  }

  lemma {:induction false} WeightPush(segs: seq<Segment>, g: Segment)
    ensures Weight(segs + [g]) == Weight(segs) + g.count + 1
  {
    assert (segs + [g])[..|segs|] == segs;
  }

  lemma {:induction false} OnlyTogether(segs: seq<Segment>, n: int, m: int, i: int, j: int)
    requires Apart(segs, n) && 0 <= m < |segs| && Inside(segs[m], i) && !Inside(segs[m], j)
    ensures !Together(segs, i, j) && !Together(segs, j, i)
  {
  }

  // Rearranging one segment moves no element across the others.
  lemma {:induction false} RearrangedSettled<T>(s: seq<T>, t: seq<T>, cmp: Compare<T>, segs: seq<Segment>, m: int)
    requires Apart(segs, |s|) && 0 <= m < |segs| && Settled(s, cmp, segs)
    requires Rearranged(s, t, segs[m].base, segs[m].base + segs[m].count)
    ensures Settled(t, cmp, segs)
  {
    var lo, hi := segs[m].base, segs[m].base + segs[m].count;
    forall i, j | 0 <= i < j < |t| && !Together(segs, i, j)
      ensures cmp(t[i], t[j]) <= 0
    {
      RearrangedPair(s, t, cmp, segs, m, i, j);
    }
  }

  lemma {:induction false} RearrangedPair<T>(s: seq<T>, t: seq<T>, cmp: Compare<T>, segs: seq<Segment>, m: int, i: int, j: int)
    requires Apart(segs, |s|) && 0 <= m < |segs| && Settled(s, cmp, segs)
    requires Rearranged(s, t, segs[m].base, segs[m].base + segs[m].count)
    requires 0 <= i < j < |t| && !Together(segs, i, j)
    ensures cmp(t[i], t[j]) <= 0
  {
    hide Rearranged;
    var lo, hi := segs[m].base, segs[m].base + segs[m].count;
    RearrangedLength(s, t, lo, hi);
    if Inside(segs[m], i) {
      assert !Inside(segs[m], j);
      var i' := RearrangedInside(s, t, lo, hi, i);
      RearrangedOutside(s, t, lo, hi, j);
      OnlyTogether(segs, |s|, m, i', j);
    } else if Inside(segs[m], j) {
      var j' := RearrangedInside(s, t, lo, hi, j);
      RearrangedOutside(s, t, lo, hi, i);
      OnlyTogether(segs, |s|, m, j', i);
    } else {
      RearrangedOutside(s, t, lo, hi, i);
      RearrangedOutside(s, t, lo, hi, j);
    }
  }

  lemma {:induction false} TogetherPush(segs: seq<Segment>, g: Segment, i: int, j: int)
    ensures Together(segs + [g], i, j) <==> Together(segs, i, j) || (Inside(g, i) && Inside(g, j))
  {
    var all := segs + [g];
    assert all[|segs|] == g && forall k :: 0 <= k < |segs| ==> all[k] == segs[k];
  }

  // A sorted segment needs no more work.
  lemma {:induction false} SegmentSorted<T>(s: seq<T>, cmp: Compare<T>, segs: seq<Segment>, g: Segment)
    requires Apart(segs + [g], |s|) && Settled(s, cmp, segs + [g])
    requires 0 <= g.base <= g.base + g.count <= |s| && SortedRange(s, cmp, g.base, g.base + g.count)
    ensures Settled(s, cmp, segs)
  {
    forall i, j | 0 <= i < j < |s| && !Together(segs, i, j)
      ensures cmp(s[i], s[j]) <= 0
    {
      if Together(segs + [g], i, j) {
        TogetherPush(segs, g, i, j);
      }
    }
  }

  // After a three-way partition only the two outer parts of the segment need more work.
  lemma {:induction false} SegmentSplit<T(!new)>(s: seq<T>, cmp: Compare<T>, segs: seq<Segment>, g: Segment, x: Segment, y: Segment,
                                                 p: T, lt: int, gt: int)
    requires TotalPreorder(cmp) && Apart(segs + [g], |s|) && Settled(s, cmp, segs + [g])
    requires 0 <= g.base <= lt < gt <= g.base + g.count <= |s|
    requires ThreeWay(s, cmp, p, g.base, lt, gt, g.base + g.count)
    requires (x.base == g.base && x.count == lt - g.base && y.base == gt && y.count == g.base + g.count - gt)
          || (y.base == g.base && y.count == lt - g.base && x.base == gt && x.count == g.base + g.count - gt)
    ensures Settled(s, cmp, segs + [x] + [y]) && Apart(segs + [x] + [y], |s|)
  {
    SplitApart(segs, g, x, y, |s|);
    forall i, j | 0 <= i < j < |s| && !Together(segs + [x] + [y], i, j)
      ensures cmp(s[i], s[j]) <= 0
    {
      if Together(segs + [g], i, j) {
        TogetherPush(segs, g, i, j);
        TogetherPush(segs, x, i, j);
        TogetherPush(segs + [x], y, i, j);
        ThreeWayPair(s, cmp, p, g.base, lt, gt, g.base + g.count, i, j);
      }
    }
  }

  lemma {:induction false} SplitApart(segs: seq<Segment>, g: Segment, x: Segment, y: Segment, n: int)
    requires Apart(segs + [g], n)
    requires g.base <= x.base && 0 <= x.count && x.base + x.count <= g.base + g.count
    requires g.base <= y.base && 0 <= y.count && y.base + y.count <= g.base + g.count
    requires x.base + x.count <= y.base || y.base + y.count <= x.base
    ensures Apart(segs + [x] + [y], n)
  {
    var all := segs + [g];
    assert all[|segs|] == g;
    forall k | 0 <= k < |segs|
      ensures segs[k].base + segs[k].count <= g.base || g.base + g.count <= segs[k].base
      ensures 0 <= segs[k].base && 0 <= segs[k].count && segs[k].base + segs[k].count <= n
    {
      assert all[k] == segs[k];
    }
    forall k, l | 0 <= k < l < |segs|
      ensures segs[k].base + segs[k].count <= segs[l].base || segs[l].base + segs[l].count <= segs[k].base
    {
      assert all[k] == segs[k] && all[l] == segs[l];
    }
  }

  lemma {:induction false} ThreeWayPair<T(!new)>(s: seq<T>, cmp: Compare<T>, p: T, lo: int, lt: int, gt: int, hi: int, i: int, j: int)
    requires TotalPreorder(cmp) && 0 <= lo <= lt < gt <= hi <= |s| && ThreeWay(s, cmp, p, lo, lt, gt, hi)
    requires lo <= i < j < hi && !(j < lt) && !(gt <= i)
    ensures cmp(s[i], s[j]) <= 0
  {
    assert Sign(cmp(p, s[i])) >= 0 && Sign(cmp(p, s[j])) <= 0;
    assert cmp(s[i], p) <= 0 by {
      assert cmp(s[i], p) > 0 <==> cmp(p, s[i]) < 0 by {
        assert cmp(p, s[i]) < 0 <==> cmp(s[i], p) > 0;
      }
    }
    assert cmp(p, s[j]) <= 0;
  }

  lemma {:induction false} PrefixApart(segs: seq<Segment>, g: Segment, n: int)
    requires Apart(segs + [g], n)
    ensures Apart(segs, n)
  {
    forall k | 0 <= k < |segs|
      ensures (segs + [g])[k] == segs[k]
    {
    }
  }

  // Insertion sort or heapsort finishes the current segment.
  lemma {:induction false} Finish<T>(s: seq<T>, t: seq<T>, cmp: Compare<T>, segs: seq<Segment>, g: Segment)
    requires 0 <= g.base <= g.base + g.count <= |s| && Apart(segs + [g], |s|) && Settled(s, cmp, segs + [g])
    requires Rearranged(s, t, g.base, g.base + g.count) && SortedRange(t, cmp, g.base, g.base + g.count)
    ensures Settled(t, cmp, segs)
  {
    hide Settled, SortedRange, Apart;
    assert (segs + [g])[|segs|] == g;
    RearrangedSettled(s, t, cmp, segs + [g], |segs|);
    SegmentSorted(t, cmp, segs, g);
  }

  // One partition step replaces the current segment by its two outer parts.
  lemma {:induction false} Split<T(!new)>(s: seq<T>, t: seq<T>, cmp: Compare<T>, segs: seq<Segment>, g: Segment, x: Segment, y: Segment,
                                          p: T, lt: int, gt: int)
    requires TotalPreorder(cmp) && Apart(segs + [g], |s|) && Settled(s, cmp, segs + [g])
    requires 0 <= g.base <= lt < gt <= g.base + g.count <= |s|
    requires Rearranged(s, t, g.base, g.base + g.count) && ThreeWay(t, cmp, p, g.base, lt, gt, g.base + g.count)
    requires (x.base == g.base && x.count == lt - g.base && y.base == gt && y.count == g.base + g.count - gt)
          || (y.base == g.base && y.count == lt - g.base && x.base == gt && x.count == g.base + g.count - gt)
    ensures Settled(t, cmp, segs + [x] + [y]) && Apart(segs + [x] + [y], |s|)
  {
    hide Settled, ThreeWay, Apart, TotalPreorder;
    assert (segs + [g])[|segs|] == g;
    RearrangedSettled(s, t, cmp, segs + [g], |segs|);
    SegmentSplit(t, cmp, segs, g, x, y, p, lt, gt);
  }

  // Partition the current segment, push the larger outer part and go on with the smaller one.
  method SplitSegment<T(!new)>(a: array<T>, cmp: Compare<T>, stack: array<Segment>, sp0: int, ptr0: int, n0: int, depth: int)
    returns (sp: int, ptr: int, n: int)
    requires (stack as object) != (a as object)
    requires TotalPreorder(cmp) && stack.Length == STACK_SIZE && 0 <= sp0 <= STACK_SIZE && 1 <= depth <= STACK_SIZE
    requires 0 <= ptr0 && 6 < n0 && ptr0 + n0 <= a.Length
    requires Apart(stack[..sp0] + [Segment(ptr0, n0, depth - 1)], a.Length)
    requires Settled(a[..], cmp, stack[..sp0] + [Segment(ptr0, n0, depth - 1)])
    requires Deepening(stack[..sp0], 1, depth - 1)
    modifies a, stack
    ensures sp == sp0 + 1 <= STACK_SIZE && 0 <= ptr && 0 <= n < n0 && ptr + n <= a.Length
    ensures Rearranged(old(a[..]), a[..], 0, a.Length)
    ensures Apart(stack[..sp] + [Segment(ptr, n, depth)], a.Length)
    ensures Settled(a[..], cmp, stack[..sp] + [Segment(ptr, n, depth)])
    ensures Deepening(stack[..sp], 1, depth)
    ensures Weight(stack[..sp]) + n + 1 <= Weight(old(stack[..sp0])) + n0 + 1
    ensures stack[sp0].count >= n
  {
    hide Settled, Apart, Deepening, Weight, Rearranged, SortedRange, ThreeWay, TotalPreorder;
    ghost var s, segs, cur := a[..], stack[..sp0], Segment(ptr0, n0, depth - 1);
    var lt, gt, p := Partition(a, ptr0, ptr0 + n0, cmp);
    RearrangedWiden(s, a[..], ptr0, ptr0 + n0, 0, a.Length);
    if segs != [] {
      DeepeningBound(segs, 1, depth - 1);
    }
    sp := sp0 + 1;
    var larger: Segment;
    if lt - ptr0 > ptr0 + n0 - gt {
      larger := Segment(ptr0, lt - ptr0, depth);
      ptr, n := gt, ptr0 + n0 - gt;
    } else {
      larger := Segment(gt, ptr0 + n0 - gt, depth);
      ptr, n := ptr0, lt - ptr0;
    }
    stack[sp0] := larger;
    assert stack[..sp] == segs + [larger];
    Split(s, a[..], cmp, segs, cur, larger, Segment(ptr, n, depth), p, lt, gt);
    WeightPush(segs, larger);
    DeepeningPush(segs, larger);
  }

  // Pop one segment and work on it until it is sorted, pushing the larger part of every split.
  // It returns with the elements settled up to the segments left on the stack.
  method SortSegment<T(!new)>(a: array<T>, cmp: Compare<T>, stack: array<Segment>, sp0: int) returns (sp: int)
    requires (stack as object) != (a as object)
    requires TotalPreorder(cmp) && stack.Length == STACK_SIZE && 0 < sp0 <= STACK_SIZE
    requires Apart(stack[..sp0], a.Length) && Settled(a[..], cmp, stack[..sp0])
    requires Deepening(stack[..sp0], if sp0 == 1 then 0 else 1, STACK_SIZE)
    modifies a, stack
    ensures 0 <= sp <= STACK_SIZE
    ensures Rearranged(old(a[..]), a[..], 0, a.Length)
    ensures Apart(stack[..sp], a.Length) && Settled(a[..], cmp, stack[..sp])
    ensures Deepening(stack[..sp], 1, STACK_SIZE)
    ensures 0 <= Weight(stack[..sp]) < Weight(old(stack[..sp0]))
  {
    hide Settled, Apart, Deepening, Weight, Rearranged, SortedRange, ThreeWay, TotalPreorder;
    ghost var segs0 := stack[..sp0];
    sp := sp0 - 1;
    var ptr, n, depth := stack[sp].base, stack[sp].count, stack[sp].depth;
    ghost var g := stack[sp];
    assert stack[..sp] + [g] == segs0;
    WeightPush(stack[..sp], g);
    DeepeningPop(stack[..sp], g);
    RearrangedSelf(a[..], 0, a.Length);
    LastWithin(stack[..sp], g, a.Length);
    while n > 6
      invariant 0 <= sp <= STACK_SIZE && 0 <= ptr && 0 <= n && ptr + n <= a.Length && 0 <= depth <= STACK_SIZE
      invariant Rearranged(old(a[..]), a[..], 0, a.Length)
      invariant Apart(stack[..sp] + [Segment(ptr, n, depth)], a.Length)
      invariant Settled(a[..], cmp, stack[..sp] + [Segment(ptr, n, depth)])
      invariant Deepening(stack[..sp], 1, depth)
      invariant Weight(stack[..sp]) + n + 1 <= Weight(segs0)
      decreases n
    {
      ghost var s, segs, cur := a[..], stack[..sp], Segment(ptr, n, depth);
      depth := depth + 1;
      if depth > 50 {
        HeapSort(a, ptr, n, cmp);
        RearrangedWiden(s, a[..], ptr, ptr + n, 0, a.Length);
        RearrangedTrans(old(a[..]), s, a[..], 0, a.Length);
        Finish(s, a[..], cmp, segs, cur);
        assert stack[..sp] == segs;
        PrefixApart(segs, cur, a.Length);
        WeightNonNegative(segs, a.Length);
        DeepeningWiden(segs, 1, depth - 1, STACK_SIZE);
        return;
      }
      sp, ptr, n := SplitSegment(a, cmp, stack, sp, ptr, n, depth);
      RearrangedTrans(old(a[..]), s, a[..], 0, a.Length);
    }
    ghost var s, segs, cur := a[..], stack[..sp], Segment(ptr, n, depth);
    InsertionSort(a, ptr, n, cmp);
    RearrangedWiden(s, a[..], ptr, ptr + n, 0, a.Length);
    RearrangedTrans(old(a[..]), s, a[..], 0, a.Length);
    Finish(s, a[..], cmp, segs, cur);
    PrefixApart(segs, cur, a.Length);
    WeightNonNegative(segs, a.Length);
    DeepeningWiden(segs, 1, depth, STACK_SIZE);
    assert stack[..sp] == segs;
  }

  lemma {:induction false} LastWithin(segs: seq<Segment>, g: Segment, n: int)
    requires Apart(segs + [g], n)
    ensures 0 <= g.base && 0 <= g.count && g.base + g.count <= n
  {
    assert (segs + [g])[|segs|] == g;
  }

  lemma {:induction false} DeepeningPop(segs: seq<Segment>, g: Segment)
    requires Deepening(segs + [g], if segs == [] then 0 else 1, STACK_SIZE)
    ensures Deepening(segs, 1, g.depth) && 0 <= g.depth <= STACK_SIZE
  {
    var all := segs + [g];
    assert all[|segs|] == g && forall k :: 0 <= k < |segs| ==> all[k] == segs[k];
  }

  lemma {:induction false} DeepeningPush(segs: seq<Segment>, g: Segment)
    requires Deepening(segs, 1, g.depth - 1) && g.depth >= 1
    ensures Deepening(segs + [g], 1, g.depth)
  {
  }

  lemma {:induction false} DeepeningWiden(segs: seq<Segment>, first: int, last: int, last': int)
    requires Deepening(segs, first, last) && last <= last'
    ensures Deepening(segs, first, last')
  {
  }

  // rqsort: for every array and every total preorder the result is a sorted rearrangement,
  // and the stack never needs more than its 50 slots.
  method Rqsort<T(!new)>(a: array<T>, cmp: Compare<T>)
    requires TotalPreorder(cmp)
    modifies a
    ensures SortedRange(a[..], cmp, 0, a.Length)
    ensures multiset(a[..]) == multiset(old(a[..]))
  {
    hide Settled, Apart, Deepening, Weight;
    if a.Length < 2 {
      return;
    }
    var stack := new Segment[STACK_SIZE](_ => Segment(0, 0, 0));
    stack[0] := Segment(0, a.Length, 0);
    var sp := 1;
    StartStack(a[..], stack[..sp], cmp);
    while sp > 0
      invariant 0 <= sp <= STACK_SIZE
      invariant multiset(a[..]) == multiset(old(a[..]))
      invariant Apart(stack[..sp], a.Length) && Settled(a[..], cmp, stack[..sp])
      invariant Deepening(stack[..sp], if sp == 1 then 0 else 1, STACK_SIZE)
      decreases Weight(stack[..sp])
    {
      sp := SortSegment(a, cmp, stack, sp);
      DeepeningWeaken(stack[..sp]);
    }
    EmptyStack(a[..], stack[..sp], cmp);
  }

  lemma {:induction false} StartStack<T>(s: seq<T>, segs: seq<Segment>, cmp: Compare<T>)
    requires segs == [Segment(0, |s|, 0)]
    ensures Apart(segs, |s|) && Settled(s, cmp, segs) && Deepening(segs, 0, STACK_SIZE)
  {
    forall i, j | 0 <= i < j < |s|
      ensures Together(segs, i, j)
    {
      assert Inside(segs[0], i) && Inside(segs[0], j);
    }
  }

  lemma {:induction false} DeepeningWeaken(segs: seq<Segment>)
    requires Deepening(segs, 1, STACK_SIZE)
    ensures Deepening(segs, 0, STACK_SIZE)
  {
  }

  lemma {:induction false} EmptyStack<T>(s: seq<T>, segs: seq<Segment>, cmp: Compare<T>)
    requires segs == [] && Settled(s, cmp, segs)
    ensures SortedRange(s, cmp, 0, |s|)
  {
  }
}
