/**
 The arrays that coro/minheap.c sifts, as values.

 A heap of n entries is a sequence; slot i (1 <= i <= n) is element i-1, so that the parent of
 slot i is slot i/2, as in the source.  `Down` takes the number of slots it looks at: the source
 compares a child index with `<` against a 1-based size, so it looks at size-1 slots, while a
 binary heap needs it to look at all of them.  Both are instances of the same function.
 */
module HeapSpec {

  datatype Entry<T> = Entry(item: T, key: int)

  function Key<T>(h: seq<Entry<T>>, i: nat): int
    requires 1 <= i <= |h|
  {
    h[i-1].key
  }

  function Swap<T>(h: seq<Entry<T>>, i: nat, j: nat): (r: seq<Entry<T>>)
    requires 1 <= i <= |h| && 1 <= j <= |h|
    ensures |r| == |h|
  {
    h[i-1 := h[j-1]][j-1 := h[i-1]]
  }

  /** Sift the entry in slot i towards the root. */
  function Up<T>(h: seq<Entry<T>>, i: nat): (r: seq<Entry<T>>)
    requires i <= |h|
    ensures |r| == |h|
    decreases i
  {
    if i/2 != 0 && Key(h, i) < Key(h, i/2) then Up(Swap(h, i, i/2), i/2) else h
  }

  /** The child of slot i that `Down` exchanges it with, among the first lim slots; i itself if none. */
  function Preferred<T>(h: seq<Entry<T>>, i: nat, lim: nat): (m: nat)
    requires 1 <= i <= |h| && lim <= |h|
    ensures m == i || (m <= lim && m/2 == i)
  {
    var m := if 2*i <= lim && Key(h, 2*i) < Key(h, i) then 2*i else i;
    if 2*i+1 <= lim && Key(h, 2*i+1) < Key(h, m) then 2*i+1 else m
  }

  /** Sift the entry in slot i away from the root, looking at the first lim slots only. */
  function Down<T>(h: seq<Entry<T>>, i: nat, lim: nat): (r: seq<Entry<T>>)
    requires 1 <= i <= |h| && lim <= |h|
    ensures |r| == |h|
    decreases |h| - i
  {
    var m := Preferred(h, i, lim);
    if m == i then h else Down(Swap(h, i, m), m, lim)
  }

  // ---------- The operations ----------

  /** How many of n slots `Down` looks at: all of them, or all but the last as the source does. */
  function Limit(whole: bool, n: nat): nat {
    if whole || n == 0 then n else n-1
  }

  function Insert<T>(h: seq<Entry<T>>, e: Entry<T>): (r: seq<Entry<T>>)
    ensures |r| == |h| + 1
  {
    Up(h + [e], |h| + 1)
  }

  /** Slot 1 replaced by the last slot, which goes. */
  function Behead<T>(h: seq<Entry<T>>): (r: seq<Entry<T>>)
    requires h != []
    ensures |r| == |h| - 1
  {
    if |h| == 1 then [] else [h[|h|-1]] + h[1..|h|-1]
  }

  function Pop<T>(h: seq<Entry<T>>, whole: bool): (r: seq<Entry<T>>)
    requires h != []
    ensures |r| == |h| - 1
  {
    var g := Behead(h);
    if g == [] then g else Down(g, 1, Limit(whole, |g|))
  }

  function Change<T>(h: seq<Entry<T>>, i: nat, whole: bool): (r: seq<Entry<T>>)
    requires 1 <= i <= |h|
    ensures |r| == |h|
  {
    Up(Down(h, i, Limit(whole, |h|)), i)
  }

  function InsertAll<T>(h: seq<Entry<T>>, es: seq<Entry<T>>): (r: seq<Entry<T>>)
    ensures |r| == |h| + |es|
    decreases |es|
  {
    if es == [] then h else InsertAll(Insert(h, es[0]), es[1..])
  }

  /** The first n entries but those of x, in their order. */
  function Without<T(==)>(h: seq<Entry<T>>, n: nat, x: T): (r: seq<Entry<T>>)
    requires n <= |h|
    ensures |r| <= n
  {
    if n == 0 then []
    else if h[n-1].item == x then Without(h, n-1, x)
    else Without(h, n-1, x) + [h[n-1]]
  }

  function Remove<T(==)>(h: seq<Entry<T>>, x: T): seq<Entry<T>> {
    InsertAll([], Without(h, |h|, x))
  }

  /** Pop until empty. */
  function Drain<T>(h: seq<Entry<T>>, whole: bool): (r: seq<Entry<T>>)
    ensures |r| == |h|
    decreases |h|
  {
    if h == [] then [] else [h[0]] + Drain(Pop(h, whole), whole)
  }

  // ---------- The arrays ----------

  // Slots count from 1, but the source allocates data for slots 0 to maxSize-1, and back in
  // minheap_remove for slots 0 to size-2.  roomy are arrays that are long enough.

  function Slots(roomy: bool, maxSize: nat): nat {
    if roomy then maxSize + 1 else maxSize
  }

  function BackSlots(roomy: bool, size: nat): nat {
    if roomy then size + 1 else if size == 0 then 0 else size - 1
  }

  /** The slot after size is inside data. */
  predicate InsertFits(roomy: bool, maxSize: nat, size: nat) {
    size + 1 < Slots(roomy, maxSize)
  }

  /** The elements that stay, which go to slots 1 and after, are inside back. */
  predicate RemoveFits(roomy: bool, size: nat, others: nat) {
    others == 0 || others < BackSlots(roomy, size)
  }

  /** As written, an insertion stays inside unless it fills the heap. */
  lemma InsertFitsIff(maxSize: nat, size: nat)
    requires size < maxSize
    ensures InsertFits(true, maxSize, size)
    ensures InsertFits(false, maxSize, size) <==> size + 1 < maxSize
  {
  }

  /** As written, taking out a member stays inside only if there is no other; a non-member, only if the heap is empty. */
  lemma RemoveFitsIff(size: nat, others: nat)
    requires others == size || others == size - 1
    ensures RemoveFits(true, size, others)
    ensures RemoveFits(false, size, others) <==> others == 0
  {
  }

  // ---------- Heap order ----------

  /** Slot i is not below its parent. */
  ghost predicate AboveParent<T>(h: seq<Entry<T>>, i: nat) {
    2 <= i <= |h| ==> Key(h, i/2) <= Key(h, i)
  }

  ghost predicate Ordered<T>(h: seq<Entry<T>>) {
    forall i :: 2 <= i <= |h| ==> AboveParent(h, i)
  }

  /** Neither child of slot i has a key below k. */
  ghost predicate ChildrenAtLeast<T>(h: seq<Entry<T>>, i: nat, k: int)
    requires i >= 1
  {
    && (2*i <= |h| ==> k <= Key(h, 2*i))
    && (2*i+1 <= |h| ==> k <= Key(h, 2*i+1))
  }

  /** Heap order wherever slot i is neither the parent nor the child; and i's children are not below i's parent. */
  ghost predicate OrderedAround<T>(h: seq<Entry<T>>, i: nat)
    requires 1 <= i <= |h|
  {
    && (forall j :: 2 <= j <= |h| && j != i && j/2 != i ==> AboveParent(h, j))
    && (i >= 2 ==> ChildrenAtLeast(h, i, Key(h, i/2)))
  }

  ghost predicate Sorted<T>(s: seq<Entry<T>>) {
    forall i, j :: 0 <= i < j < |s| ==> s[i].key <= s[j].key
  }

  /** Slot c would be the one exchanged with a parent of key x: below x and ahead of its sibling. */
  predicate Wins<T>(h: seq<Entry<T>>, c: nat, x: int)
    requires 2 <= c <= |h|
  {
    && Key(h, c) < x
    && (c % 2 == 1 ==> Key(h, c) < Key(h, c-1))
    && (c % 2 == 0 && c < |h| ==> Key(h, c) <= Key(h, c+1))
  }

  /** Every slot from c up to, but not including, its ancestor i wins against x. */
  predicate WinsUpTo<T>(h: seq<Entry<T>>, c: nat, i: nat, x: int)
    requires 1 <= i && c <= |h|
    decreases c
  {
    c == i || (c > i && Wins(h, c, x) && WinsUpTo(h, c/2, i, x))
  }

  /** The last slot lies below slot i and every slot on the way to it wins against slot i's entry. */
  predicate LastSlotWins<T>(h: seq<Entry<T>>, i: nat)
    requires 1 <= i <= |h|
  {
    i < |h| && WinsUpTo(h, |h|, i, Key(h, i))
  }

  // ---------- Contents ----------

  lemma SwapContents<T>(h: seq<Entry<T>>, i: nat, j: nat)
    requires 1 <= i <= |h| && 1 <= j <= |h|
    ensures multiset(Swap(h, i, j)) == multiset(h)
  {
  }

  lemma {:induction false} UpContents<T>(h: seq<Entry<T>>, i: nat)
    requires i <= |h|
    ensures multiset(Up(h, i)) == multiset(h)
    decreases i
  {
    if i/2 != 0 && Key(h, i) < Key(h, i/2) {
      UpContents(Swap(h, i, i/2), i/2);
    }
  }

  lemma {:induction false} DownContents<T>(h: seq<Entry<T>>, i: nat, lim: nat)
    requires 1 <= i <= |h| && lim <= |h|
    ensures multiset(Down(h, i, lim)) == multiset(h)
    decreases |h| - i
  {
    var m := Preferred(h, i, lim);
    if m != i {
      SwapContents(h, i, m);
      DownContents(Swap(h, i, m), m, lim);
    }
  }

  lemma BeheadContents<T>(h: seq<Entry<T>>)
    requires h != []
    ensures multiset(h) == multiset{h[0]} + multiset(Behead(h))
  {
    if |h| == 1 {
      assert h == [h[0]];
    } else {
      assert h == [h[0]] + (h[1..|h|-1] + [h[|h|-1]]);
    }
  }

  lemma InsertContents<T>(h: seq<Entry<T>>, e: Entry<T>)
    ensures multiset(Insert(h, e)) == multiset(h) + multiset{e}
  {
    UpContents(h + [e], |h| + 1);
  }

  lemma PopContents<T>(h: seq<Entry<T>>, whole: bool)
    requires h != []
    ensures multiset(h) == multiset{h[0]} + multiset(Pop(h, whole))
  {
    BeheadContents(h);
    var g := Behead(h);
    if g != [] {
      DownContents(g, 1, Limit(whole, |g|));
    }
  }

  lemma ChangeContents<T>(h: seq<Entry<T>>, i: nat, whole: bool)
    requires 1 <= i <= |h|
    ensures multiset(Change(h, i, whole)) == multiset(h)
  {
    DownContents(h, i, Limit(whole, |h|));
    UpContents(Down(h, i, Limit(whole, |h|)), i);
  }

  lemma {:induction false} InsertAllContents<T>(h: seq<Entry<T>>, es: seq<Entry<T>>)
    ensures multiset(InsertAll(h, es)) == multiset(h) + multiset(es)
    decreases |es|
  {
    if es != [] {
      InsertContents(h, es[0]);
      InsertAllContents(Insert(h, es[0]), es[1..]);
      assert es == [es[0]] + es[1..];
    }
  }

  // ---------- Order after sifting up ----------

  lemma UpStep<T>(h: seq<Entry<T>>, i: nat, p: nat)
    requires 1 <= p == i/2 && i <= |h| && Key(h, i) < Key(h, p)
    requires OrderedAround(h, i) && ChildrenAtLeast(h, i, Key(h, i))
    ensures OrderedAround(Swap(h, i, p), p) && ChildrenAtLeast(Swap(h, i, p), p, Key(h, i))
  {
    var g := Swap(h, i, p);
    forall j | 2 <= j <= |g| && j != p && j/2 != p ensures AboveParent(g, j) {
      if j/2 != i { assert AboveParent(h, j); }
    }
    var sibling := if i == 2*p then i+1 else i-1;
    assert sibling <= |h| ==> AboveParent(h, sibling);
    assert p >= 2 ==> AboveParent(h, p);
  }

  lemma {:induction false} UpOrdered<T>(h: seq<Entry<T>>, i: nat)
    requires 1 <= i <= |h|
    requires OrderedAround(h, i) && ChildrenAtLeast(h, i, Key(h, i))
    ensures Ordered(Up(h, i))
    decreases i
  {
    var p := i/2;
    if p != 0 && Key(h, i) < Key(h, p) {
      var g := Swap(h, i, p);
      UpStep(h, i, p);
      UpOrdered(g, p);
    } else {
      forall j | 2 <= j <= |h| ensures AboveParent(h, j) {
      }
    }
  }

  lemma InsertOrdered<T>(h: seq<Entry<T>>, e: Entry<T>)
    requires Ordered(h)
    ensures Ordered(Insert(h, e))
  {
    var g := h + [e];
    forall j | 2 <= j < |g| ensures AboveParent(g, j) {
      assert AboveParent(h, j);
    }
    UpOrdered(g, |g|);
  }

  /** A rebuild by repeated insertion is in heap order whatever the arrangement it starts from. */
  lemma {:induction false} InsertAllOrdered<T>(h: seq<Entry<T>>, es: seq<Entry<T>>)
    requires Ordered(h)
    ensures Ordered(InsertAll(h, es))
    decreases |es|
  {
    if es != [] {
      InsertOrdered(h, es[0]);
      InsertAllOrdered(Insert(h, es[0]), es[1..]);
    }
  }

  // ---------- Order after sifting down ----------

  /** A winning path from c up to i begins, seen from i, with the child of i that `Down` prefers. */
  lemma {:induction false} PathFromTop<T>(h: seq<Entry<T>>, c: nat, i: nat)
    requires 1 <= i < c <= |h|
    ensures WinsUpTo(h, c, i, Key(h, i)) <==>
            var m := Preferred(h, i, |h|); m != i && WinsUpTo(h, c, m, Key(h, i))
    decreases c
  {
    if c/2 > i {
      PathFromTop(h, c/2, i);
    }
  }

  /** Paths below m do not notice that m was exchanged with its parent. */
  lemma {:induction false} PathAfterSwap<T>(h: seq<Entry<T>>, c: nat, i: nat, m: nat, x: int)
    requires 1 <= i < m <= c <= |h| && m/2 == i
    ensures WinsUpTo(h, c, m, x) <==> WinsUpTo(Swap(h, i, m), c, m, x)
    decreases c
  {
    if c/2 >= m {
      PathAfterSwap(h, c/2, i, m, x);
    }
  }

  lemma DownStops<T>(h: seq<Entry<T>>, i: nat, lim: nat)
    requires 1 <= i <= |h| < 2*i && lim <= |h|
    ensures Down(h, i, lim) == h
  {
  }

  lemma DownAtRest<T>(h: seq<Entry<T>>, i: nat)
    requires 1 <= i <= |h| && Preferred(h, i, |h|) == i
    requires OrderedAround(h, i) && AboveParent(h, i)
    ensures Ordered(h)
  {
    forall j | 2 <= j <= |h| ensures AboveParent(h, j) {
    }
  }

  /** One exchange with the preferred child moves the slot in question down to it. */
  lemma DownStep<T>(h: seq<Entry<T>>, i: nat, m: nat)
    requires 1 <= i <= |h| && m == Preferred(h, i, |h|) != i
    requires OrderedAround(h, i) && AboveParent(h, i)
    ensures OrderedAround(Swap(h, i, m), m) && AboveParent(Swap(h, i, m), m)
  {
    var g := Swap(h, i, m);
    forall j | 2 <= j <= |g| && j != m && j/2 != m ensures AboveParent(g, j) {
      if j != i && j/2 != i { assert AboveParent(h, j); }
    }
    assert 2*m <= |h| ==> AboveParent(h, 2*m);
    assert 2*m+1 <= |h| ==> AboveParent(h, 2*m+1);
  }

  /** Looking at every slot, `Down` repairs the one slot that may be out of order. */
  lemma {:induction false} DownOrdered<T>(h: seq<Entry<T>>, i: nat)
    requires 1 <= i <= |h|
    requires OrderedAround(h, i) && AboveParent(h, i)
    ensures Ordered(Down(h, i, |h|))
    decreases |h| - i
  {
    var m := Preferred(h, i, |h|);
    if m == i {
      DownAtRest(h, i);
    } else {
      DownStep(h, i, m);
      DownOrdered(Swap(h, i, m), m);
    }
  }

  lemma DownShortAtParent<T>(h: seq<Entry<T>>, i: nat)
    requires 1 <= i < |h| && |h|/2 == i
    requires OrderedAround(h, i) && AboveParent(h, i)
    ensures Ordered(Down(h, i, |h|-1)) <==> !LastSlotWins(h, i)
  {
    var n := |h|;
    var m := Preferred(h, i, n-1);
    var d := if m == i then h else Swap(h, i, m);
    if m != i {
      DownStops(d, m, n-1);
    }
    assert Down(h, i, n-1) == d;
    assert WinsUpTo(h, n/2, i, Key(h, i));
    assert LastSlotWins(h, i) <==> !AboveParent(d, n);
    forall j | 2 <= j < n ensures AboveParent(d, j) {
      if j != i && j/2 != i { assert AboveParent(h, j); }
    }
  }

  lemma PreferredAway<T>(h: seq<Entry<T>>, i: nat)
    requires 1 <= i <= |h| && |h|/2 != i
    ensures Preferred(h, i, |h|-1) == Preferred(h, i, |h|)
  {
  }

  /** Whether the last slot wins is settled at the next slot on the way down. */
  lemma PathOnward<T>(h: seq<Entry<T>>, i: nat)
    requires 1 <= i <= |h| && (|h|/2 == i ==> i == |h|)
    ensures var m := Preferred(h, i, |h|);
            if m == i then !LastSlotWins(h, i) else LastSlotWins(h, i) <==> LastSlotWins(Swap(h, i, m), m)
  {
    var m := Preferred(h, i, |h|);
    if i < |h| {
      PathFromTop(h, |h|, i);
      if m != i {
        PathAfterSwap(h, |h|, i, m, Key(h, i));
      }
    }
  }

  /** Looking at every slot but the last, it does so exactly when the last slot does not win. */
  lemma {:induction false} DownShortOrdered<T>(h: seq<Entry<T>>, i: nat)
    requires 1 <= i <= |h|
    requires OrderedAround(h, i) && AboveParent(h, i)
    ensures Ordered(Down(h, i, |h|-1)) <==> !LastSlotWins(h, i)
    decreases |h| - i
  {
    var n := |h|;
    if n/2 == i && i < n {
      DownShortAtParent(h, i);
    } else {
      PreferredAway(h, i);
      var m := Preferred(h, i, n);
      PathOnward(h, i);
      if m == i {
        DownAtRest(h, i);
      } else {
        DownStep(h, i, m);
        DownShortOrdered(Swap(h, i, m), m);
      }
    }
  }
}
