/**
 What coro/minheap.c's operations keep, on every heap: order, contents, and the exact condition
 under which the comparison against a 1-based size leaves the heap out of order.
 */
module HeapProperties {
  import opened HeapSpec

  lemma {:induction false} RootIsLeast<T>(h: seq<Entry<T>>, i: nat)
    requires Ordered(h) && 1 <= i <= |h|
    ensures Key(h, 1) <= Key(h, i)
    decreases i
  {
    if i > 1 {
      assert AboveParent(h, i);
      RootIsLeast(h, i/2);
    }
  }

  lemma BeheadBySwap<T>(h: seq<Entry<T>>)
    requires h != []
    ensures Swap(h, 1, |h|)[..|h|-1] == Behead(h)
  {
  }

  lemma BeheadAround<T>(h: seq<Entry<T>>)
    requires |h| >= 2 && Ordered(h[..|h|-1])
    ensures OrderedAround(Behead(h), 1)
  {
    var g := Behead(h);
    forall j | 2 <= j <= |g| && j != 1 && j/2 != 1 ensures AboveParent(g, j) {
      assert AboveParent(h[..|h|-1], j);
    }
  }

  lemma PrefixOrdered<T>(h: seq<Entry<T>>, n: nat)
    requires Ordered(h) && n <= |h|
    ensures Ordered(h[..n])
  {
    forall j | 2 <= j <= n ensures AboveParent(h[..n], j) {
      assert AboveParent(h, j);
    }
  }

  /** Popping, sifting over every slot, keeps the order. */
  lemma PopOrdered<T>(h: seq<Entry<T>>)
    requires Ordered(h) && h != []
    ensures Ordered(Pop(h, true))
  {
    if |h| >= 2 {
      PrefixOrdered(h, |h|-1);
      BeheadAround(h);
      DownOrdered(Behead(h), 1);
    }
  }

  /** Popping as written keeps the order exactly when the entry moved to the root would not sink to the last slot. */
  lemma PopAsWrittenOrdered<T>(h: seq<Entry<T>>)
    requires Ordered(h) && |h| >= 2
    ensures Ordered(Pop(h, false)) <==> !LastSlotWins(Behead(h), 1)
  {
    PrefixOrdered(h, |h|-1);
    BeheadAround(h);
    DownShortOrdered(Behead(h), 1);
  }

  /** Popping as written from the keys 1, 2, 3 leaves 3 above 2. */
  lemma PopAsWrittenCounterexample()
    ensures var h := [Entry(0, 1), Entry(1, 2), Entry(2, 3)];
            Ordered(h) && Pop(h, false) == [Entry(2, 3), Entry(1, 2)] && !Ordered(Pop(h, false))
  {
    var h := [Entry(0, 1), Entry(1, 2), Entry(2, 3)];
    var g := Behead(h);
    assert g == [Entry(2, 3), Entry(1, 2)];
    assert Preferred(g, 1, 1) == 1;
    assert !AboveParent(g, 2);
    assert AboveParent(h, 2) && AboveParent(h, 3);
  }

  lemma {:induction false} DownFrame<T>(h: seq<Entry<T>>, i: nat, lim: nat, j: nat)
    requires 1 <= i <= |h| && lim <= |h| && 1 <= j < i
    ensures Down(h, i, lim)[j-1] == h[j-1]
    decreases |h| - i
  {
    var m := Preferred(h, i, lim);
    if m != i {
      DownFrame(Swap(h, i, m), m, lim, j);
    }
  }

  /** After sinking from i, sifting up from i has nothing to do. */
  lemma UpAfterDown<T>(h: seq<Entry<T>>, i: nat, lim: nat)
    requires 1 <= i <= |h| && lim <= |h|
    requires OrderedAround(h, i) && AboveParent(h, i)
    ensures Up(Down(h, i, lim), i) == Down(h, i, lim)
  {
    var m := Preferred(h, i, lim);
    var d := Down(h, i, lim);
    if i > 1 {
      DownFrame(h, i, lim, i/2);
      if m != i {
        DownFrame(Swap(h, i, m), m, lim, i);
        assert Key(d, i) == Key(h, m);
      }
      assert AboveParent(d, i);
    }
  }

  lemma BelowParentStays<T>(h: seq<Entry<T>>, i: nat)
    requires 1 <= i <= |h|
    requires OrderedAround(h, i) && !AboveParent(h, i)
    ensures Down(h, i, |h|) == h && Down(h, i, |h|-1) == h && ChildrenAtLeast(h, i, Key(h, i)) && !LastSlotWins(h, i)
  {
    assert ChildrenAtLeast(h, i, Key(h, i));
    StaysPut(h, i, |h|);
    StaysPut(h, i, |h|-1);
    if i < |h| {
      PathFromTop(h, |h|, i);
    }
  }

  lemma StaysPut<T>(h: seq<Entry<T>>, i: nat, lim: nat)
    requires 1 <= i <= |h| && lim <= |h| && ChildrenAtLeast(h, i, Key(h, i))
    ensures Preferred(h, i, lim) == i && Down(h, i, lim) == h
  {
  }

  lemma ChangedKeyAround<T>(h: seq<Entry<T>>, i: nat, k: int)
    requires Ordered(h) && 1 <= i <= |h|
    ensures OrderedAround(h[i-1 := h[i-1].(key := k)], i)
  {
    var g := h[i-1 := h[i-1].(key := k)];
    forall j | 2 <= j <= |h| && j != i && j/2 != i ensures AboveParent(g, j) {
      assert AboveParent(h, j);
    }
    assert AboveParent(h, i);
    assert 2*i <= |h| ==> AboveParent(h, 2*i);
    assert 2*i+1 <= |h| ==> AboveParent(h, 2*i+1);
  }

  /**
   A heap whose entry in slot i got another key is back in order after `Change`: always when every
   slot is looked at, and as written exactly when the last slot does not win against that entry.
   */
  lemma ChangeOrdered<T>(h: seq<Entry<T>>, i: nat, k: int)
    requires Ordered(h) && 1 <= i <= |h|
    ensures var g := h[i-1 := h[i-1].(key := k)];
            Ordered(Change(g, i, true)) && (Ordered(Change(g, i, false)) <==> !LastSlotWins(g, i))
  {
    var g := h[i-1 := h[i-1].(key := k)];
    ChangedKeyAround(h, i, k);
    if AboveParent(g, i) {
      UpAfterDown(g, i, |g|);
      UpAfterDown(g, i, |g|-1);
      DownOrdered(g, i);
      DownShortOrdered(g, i);
    } else {
      BelowParentStays(g, i);
      UpOrdered(g, i);
    }
  }

  // ---------- Removal by rebuilding ----------

  ghost predicate OccursOnlyAt<T>(h: seq<Entry<T>>, x: T, i: nat)
    requires i < |h|
  {
    forall j :: 0 <= j < |h| ==> (h[j].item == x <==> j == i)
  }

  lemma {:induction false} WithoutAbsent<T>(h: seq<Entry<T>>, n: nat, x: T)
    requires n <= |h| && forall j :: 0 <= j < n ==> h[j].item != x
    ensures Without(h, n, x) == h[..n]
    decreases n
  {
    if n != 0 {
      WithoutAbsent(h, n-1, x);
    }
  }

  lemma {:induction false} WithoutOne<T>(h: seq<Entry<T>>, n: nat, x: T, i: nat)
    requires i < n <= |h| && OccursOnlyAt(h, x, i)
    ensures Without(h, n, x) == h[..i] + h[i+1..n]
    decreases n
  {
    if i == n-1 {
      WithoutAbsent(h, n-1, x);
    } else {
      WithoutOne(h, n-1, x, i);
    }
  }

  function Items<T(==)>(h: seq<Entry<T>>): set<T> {
    set e | e in h :: e.item
  }

  ghost predicate Distinct<T>(h: seq<Entry<T>>) {
    forall i, j :: 0 <= i < j < |h| ==> h[i].item != h[j].item
  }

  lemma {:induction false} WithoutItems<T>(h: seq<Entry<T>>, n: nat, x: T)
    requires n <= |h| && Distinct(h)
    ensures var w := Without(h, n, x); Distinct(w) && Items(w) == Items(h[..n]) - {x}
    ensures forall e :: e in Without(h, n, x) ==> e in h[..n]
    decreases n
  {
    if n != 0 {
      var w, e := Without(h, n-1, x), h[n-1];
      WithoutItems(h, n-1, x);
      assert h[..n] == h[..n-1] + [e];
      assert Items(h[..n]) == Items(h[..n-1]) + {e.item};
      if e.item != x {
        assert Items(w + [e]) == Items(w) + {e.item};
      }
    }
  }

  /** Removal takes exactly x's entry out and leaves a heap, whatever order the slots were in. */
  lemma RemoveRebuilds<T>(h: seq<Entry<T>>, x: T, i: nat)
    requires i < |h| && OccursOnlyAt(h, x, i)
    ensures Ordered(Remove(h, x)) && multiset(h) == multiset(Remove(h, x)) + multiset{h[i]}
  {
    InsertAllOrdered([], Without(h, |h|, x));
    InsertAllContents([], Without(h, |h|, x));
    WithoutOne(h, |h|, x, i);
    AroundOne(h, i);
  }

  lemma AroundOne<T>(h: seq<T>, i: nat)
    requires i < |h|
    ensures multiset(h) == multiset(h[..i] + h[i+1..|h|]) + multiset{h[i]}
  {
    assert h == h[..i] + [h[i]] + h[i+1..|h|];
    assert multiset([h[i]]) == multiset{h[i]};
  }

  /** Asked to remove what it does not hold, it rebuilds the same contents. */
  lemma RemoveAbsent<T>(h: seq<Entry<T>>, x: T)
    requires forall j :: 0 <= j < |h| ==> h[j].item != x
    ensures Ordered(Remove(h, x)) && multiset(Remove(h, x)) == multiset(h)
  {
    InsertAllOrdered([], Without(h, |h|, x));
    InsertAllContents([], Without(h, |h|, x));
    WithoutAbsent(h, |h|, x);
    assert h[..|h|] == h;
  }

  // ---------- Whole runs ----------

  lemma {:induction false} DrainContents<T>(h: seq<Entry<T>>, whole: bool)
    ensures multiset(Drain(h, whole)) == multiset(h)
    decreases |h|
  {
    if h != [] {
      PopContents(h, whole);
      DrainContents(Pop(h, whole), whole);
    }
  }

  ghost predicate AtLeast<T>(es: multiset<Entry<T>>, k: int) {
    forall x :: x in es ==> k <= x.key
  }

  lemma SortedFront<T>(e: Entry<T>, s: seq<Entry<T>>)
    ensures Sorted([e] + s) <==> Sorted(s) && AtLeast(multiset(s), e.key)
  {
    var t := [e] + s;
    if Sorted(t) {
      forall i, j | 0 <= i < j < |s| ensures s[i].key <= s[j].key {
        assert t[i+1].key <= t[j+1].key;
      }
      forall x | x in multiset(s) ensures e.key <= x.key {
        assert x in s;
        var j :| 0 <= j < |s| && s[j] == x;
        assert t[0].key <= t[j+1].key;
      }
    }
    if Sorted(s) && AtLeast(multiset(s), e.key) {
      forall i, j | 0 <= i < j < |t| ensures t[i].key <= t[j].key {
        assert t[j] == s[j-1];
        assert s[j-1] in multiset(s);
      }
    }
  }

  lemma LeastOfContents<T>(h: seq<Entry<T>>, k: int)
    ensures (forall i :: 1 <= i <= |h| ==> k <= Key(h, i)) <==> AtLeast(multiset(h), k)
  {
    if forall i :: 1 <= i <= |h| ==> k <= Key(h, i) {
      forall x | x in multiset(h) ensures k <= x.key {
        var i :| 0 <= i < |h| && h[i] == x;
        assert Key(h, i+1) == x.key;
      }
    }
    if AtLeast(multiset(h), k) {
      forall i | 1 <= i <= |h| ensures k <= Key(h, i) {
        assert h[i-1] in multiset(h);
      }
    }
  }

  lemma AtLeastItself<T>(e: Entry<T>, es: multiset<Entry<T>>)
    ensures AtLeast(multiset{e} + es, e.key) <==> AtLeast(es, e.key)
  {
  }

  /** The first entry popped is the least exactly when the rest comes out in order after it. */
  lemma DrainSortedStep<T>(h: seq<Entry<T>>, whole: bool)
    requires h != []
    ensures Sorted(Drain(h, whole)) <==>
            Sorted(Drain(Pop(h, whole), whole)) && forall i :: 1 <= i <= |h| ==> Key(h, 1) <= Key(h, i)
  {
    DrainContents(Pop(h, whole), whole);
    PopContents(h, whole);
    SortedFront(h[0], Drain(Pop(h, whole), whole));
    AtLeastItself(h[0], multiset(Pop(h, whole)));
    LeastOfContents(h, h[0].key);
  }

  /** Inserting any collection and popping until empty sorts it. */
  lemma HeapSorts<T>(es: seq<Entry<T>>)
    ensures var out := Drain(InsertAll([], es), true);
            Sorted(out) && multiset(out) == multiset(es)
  {
    var h := InsertAll([], es);
    InsertAllOrdered([], es);
    InsertAllContents([], es);
    DrainContents(h, true);
    DrainSorted(h);
  }

  lemma {:induction false} DrainSorted<T>(h: seq<Entry<T>>)
    requires Ordered(h)
    ensures Sorted(Drain(h, true))
    decreases |h|
  {
    if h != [] {
      PopOrdered(h);
      DrainSorted(Pop(h, true));
      forall i | 1 <= i <= |h| ensures Key(h, 1) <= Key(h, i) {
        RootIsLeast(h, i);
      }
      DrainSortedStep(h, true);
    }
  }

  // As written, a pop can leave only the last slot out of order, and the next pop moves that slot
  // to the root.  So the wrong entry comes out only when the last slot is a child of the root.

  /** Heap order among all slots but the last, which is at least not below its grandparent. */
  ghost predicate Loose<T>(h: seq<Entry<T>>) {
    && (h != [] ==> Ordered(h[..|h|-1]))
    && (|h| >= 4 ==> Key(h, |h|/2/2) <= Key(h, |h|))
  }

  lemma {:induction false} DownPrefix<T>(h: seq<Entry<T>>, i: nat, n: nat)
    requires 1 <= i <= n <= |h|
    ensures Down(h, i, n)[..n] == Down(h[..n], i, n) && Down(h, i, n)[n..] == h[n..]
    decreases n - i
  {
    var m := Preferred(h, i, n);
    if m != i {
      assert Swap(h, i, m)[..n] == Swap(h[..n], i, m);
      DownPrefix(Swap(h, i, m), m, n);
    }
  }

  lemma PreferredIsLeast<T>(h: seq<Entry<T>>, i: nat, c: nat)
    requires 2 <= c <= |h| && i == c/2
    ensures Key(h, Preferred(h, i, |h|)) <= Key(h, c) && Preferred(h, i, |h|) <= |h|
    ensures Preferred(h, i, |h|) == i ==> Key(h, i) <= Key(h, c)
  {
  }

  lemma DownBelowGrandparent<T>(h: seq<Entry<T>>, i: nat, q: nat)
    requires 1 <= q < i < |h| && |h| >= 4 && q == |h|/2/2
    requires OrderedAround(h, i) && AboveParent(h, i)
    ensures Key(Down(h, i, |h|-1), q) <= Key(h, |h|)
  {
    var n, p := |h|, |h|/2;
    DownFrame(h, i, n-1, q);
    if p != i {
      assert AboveParent(h, p) && AboveParent(h, n);
    }
  }

  /** Sinking from i leaves the last slot's grandparent q with at most the last slot's key. */
  lemma {:induction false} DownLoose<T>(h: seq<Entry<T>>, i: nat, q: nat)
    requires 1 <= i < |h| && |h| >= 4 && q == |h|/2/2
    requires OrderedAround(h, i) && AboveParent(h, i)
    ensures Key(Down(h, i, |h|-1), q) <= Key(h, |h|)
    decreases |h| - i
  {
    if q < i {
      DownBelowGrandparent(h, i, q);
    } else {
      assert |h|/2 != i;
      assert AboveParent(h, |h|);
      PreferredAway(h, i);
      var m := Preferred(h, i, |h|);
      if q == i {
        DownAtGrandparent(h, i);
      } else if m == i {
        assert AboveParent(h, |h|/2);
      } else {
        DownStep(h, i, m);
        NotTheLast(h, i, m);
        DownLoose(Swap(h, i, m), m, q);
      }
    }
  }

  lemma NotTheLast<T>(h: seq<Entry<T>>, i: nat, m: nat)
    requires 1 <= i < |h|/2/2 && m/2 == i && m <= |h|
    ensures m < |h| && Key(Swap(h, i, m), |h|) == Key(h, |h|)
  {
  }

  lemma DownAtGrandparent<T>(h: seq<Entry<T>>, i: nat)
    requires |h| >= 4 && i == |h|/2/2 && Key(h, |h|/2) <= Key(h, |h|)
    ensures Key(Down(h, i, |h|-1), i) <= Key(h, |h|)
  {
    PreferredAway(h, i);
    PreferredIsLeast(h, i, |h|/2);
    var m := Preferred(h, i, |h|);
    if m != i {
      DownFrame(Swap(h, i, m), m, |h|-1, i);
    }
  }

  lemma AroundPrefix<T>(h: seq<Entry<T>>, n: nat)
    requires 1 <= n <= |h| && OrderedAround(h, 1)
    ensures OrderedAround(h[..n], 1)
  {
    forall j | 2 <= j <= n && j != 1 && j/2 != 1 ensures AboveParent(h[..n], j) {
      assert AboveParent(h, j);
    }
  }

  lemma SunkLoose<T>(g: seq<Entry<T>>)
    requires |g| >= 2 && OrderedAround(g, 1)
    ensures Loose(Down(g, 1, |g|-1))
  {
    var n := |g|-1;
    DownPrefix(g, 1, n);
    AroundPrefix(g, n);
    DownOrdered(g[..n], 1);
    if |g| >= 4 { DownLoose(g, 1, |g|/2/2); }
  }

  lemma PopLoose<T>(h: seq<Entry<T>>)
    requires Loose(h) && |h| >= 2
    ensures Loose(Pop(h, false))
    ensures Ordered(Pop(h, false)) <==> !LastSlotWins(Behead(h), 1)
  {
    var g := Behead(h);
    BeheadAround(h);
    DownShortOrdered(g, 1);
    if |g| >= 2 { SunkLoose(g); }
  }

  lemma LooseRoot<T>(h: seq<Entry<T>>)
    requires Loose(h) && h != []
    ensures (forall i :: 1 <= i <= |h| ==> Key(h, 1) <= Key(h, i)) <==> (|h| == 2 || |h| == 3 ==> Ordered(h))
  {
    var g := h[..|h|-1];
    forall i | 1 <= i < |h| ensures Key(h, 1) <= Key(h, i) {
      RootIsLeast(g, i);
    }
    if |h| == 2 || |h| == 3 {
      assert |h| == 3 ==> AboveParent(g, 2);
      assert AboveParent(h, |h|) <==> Key(h, 1) <= Key(h, |h|);
      forall j | 2 <= j < |h| ensures AboveParent(h, j) {
        assert AboveParent(g, j);
      }
    }
  }

  /** The pops, among those still to come, that leave two or three entries keep them in order. */
  predicate LastPopsKeepOrder<T>(h: seq<Entry<T>>)
    decreases |h|
  {
    |h| <= 2 || ((|h| <= 4 ==> !LastSlotWins(Behead(h), 1)) && LastPopsKeepOrder(Pop(h, false)))
  }

  /** As written, a heap is drained in order exactly when the pops leaving three and two entries keep the order. */
  lemma {:induction false} DrainAsWrittenSorted<T>(h: seq<Entry<T>>)
    requires Loose(h) && (|h| == 2 || |h| == 3 ==> Ordered(h))
    ensures Sorted(Drain(h, false)) <==> LastPopsKeepOrder(h)
    decreases |h|
  {
    if h != [] {
      LooseRoot(h);
      DrainSortedStep(h, false);
      var t := Pop(h, false);
      if |h| <= 2 {
        assert |t| <= 1;
        assert t != [] ==> Drain(t, false) == [t[0]];
      } else {
        PopLoose(h);
        if Ordered(t) || |t| > 3 {
          DrainAsWrittenSorted(t);
        } else {
          LooseRoot(t);
          DrainSortedStep(t, false);
        }
      }
    }
  }

  lemma OrderedIsLoose<T>(h: seq<Entry<T>>)
    requires Ordered(h)
    ensures Loose(h)
  {
    if h != [] { PrefixOrdered(h, |h|-1); }
    if |h| >= 4 {
      assert AboveParent(h, |h|) && AboveParent(h, |h|/2);
    }
  }

  /** A heap, popped until empty as written, comes out sorted exactly when those last pops keep the order. */
  lemma HeapAsWrittenSorts<T>(h: seq<Entry<T>>)
    requires Ordered(h)
    ensures Sorted(Drain(h, false)) <==> LastPopsKeepOrder(h)
  {
    OrderedIsLoose(h);
    DrainAsWrittenSorted(h);
  }

  /** The last of three entries not above the second; four in order from the second on. */
  predicate FewInOrder<T>(h: seq<Entry<T>>) {
    && (|h| == 3 ==> Key(h, 3) <= Key(h, 2))
    && (|h| == 4 ==> Key(h, 2) <= Key(h, 3) <= Key(h, 4))
  }

  lemma FewKeepOrder<T>(h: seq<Entry<T>>)
    requires Ordered(h) && |h| <= 4
    ensures LastPopsKeepOrder(h) <==> FewInOrder(h)
  {
    if |h| == 3 {
      ThreeKeepOrder(h);
    } else if |h| == 4 {
      assert AboveParent(h, 4);
      FourKeepOrder(h);
    }
  }

  /** For up to four entries that is a comparison of keys. */
  lemma FewAsWrittenSorted<T>(h: seq<Entry<T>>)
    requires Ordered(h) && |h| <= 4
    ensures Sorted(Drain(h, false)) <==> FewInOrder(h)
  {
    HeapAsWrittenSorts(h);
    FewKeepOrder(h);
  }

  lemma ThreeKeepOrder<T>(h: seq<Entry<T>>)
    requires |h| == 3
    ensures LastPopsKeepOrder(h) <==> Key(h, 3) <= Key(h, 2)
  {
    var g := Behead(h);
    assert g == [h[2], h[1]];
    assert WinsUpTo(g, 2, 1, Key(g, 1)) <==> Wins(g, 2, Key(g, 1));
  }

  lemma FourKeepOrder<T>(h: seq<Entry<T>>)
    requires |h| == 4 && Key(h, 2) <= Key(h, 4)
    ensures LastPopsKeepOrder(h) <==> Key(h, 2) <= Key(h, 3) <= Key(h, 4)
  {
    var g := Behead(h);
    assert g == [h[3], h[1], h[2]];
    assert WinsUpTo(g, 3, 1, Key(g, 1)) <==> Wins(g, 3, Key(g, 1));
    var t := if h[1].key < h[3].key then [h[1], h[3], h[2]] else g;
    assert Pop(h, false) == t by {
      if h[1].key < h[3].key {
        assert Preferred(g, 1, 2) == 2;
        assert Swap(g, 1, 2) == t;
        DownStops(t, 2, 2);
      }
    }
    ThreeKeepOrder(t);
  }

  /** As written the keys 1, 2, 3 come out as 1, 3, 2. */
  lemma DrainAsWrittenCounterexample()
    ensures var h := [Entry(0, 1), Entry(1, 2), Entry(2, 3)];
            Ordered(h) && Drain(h, false) == [Entry(0, 1), Entry(2, 3), Entry(1, 2)] && !Sorted(Drain(h, false))
  {
    var h := [Entry(0, 1), Entry(1, 2), Entry(2, 3)];
    var g := [Entry(2, 3), Entry(1, 2)];
    PopAsWrittenCounterexample();
    assert Pop(g, false) == [Entry(1, 2)];
    assert Pop([Entry(1, 2)], false) == [];
    assert Drain(g, false) == [g[0]] + ([Entry(1, 2)] + []);
    assert Drain(h, false) == [h[0]] + Drain(g, false);
    assert Drain(h, false)[1].key > Drain(h, false)[2].key;
  }
}
