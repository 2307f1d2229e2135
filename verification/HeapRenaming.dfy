/**
 Sifting looks at keys only: renaming the items of a heap commutes with every operation on it.
 */
module HeapRenaming {
  import opened HeapSpec

  function Renamed<T, U>(h: seq<Entry<T>>, f: T -> U): (r: seq<Entry<U>>)
    ensures |r| == |h|
    ensures forall i :: 0 <= i < |h| ==> r[i] == Entry(f(h[i].item), h[i].key)
  {
    seq(|h|, i requires 0 <= i < |h| => Entry(f(h[i].item), h[i].key))
  }

  lemma RenamedSwap<T, U>(h: seq<Entry<T>>, f: T -> U, i: nat, j: nat)
    requires 1 <= i <= |h| && 1 <= j <= |h|
    ensures Renamed(Swap(h, i, j), f) == Swap(Renamed(h, f), i, j)
  {
  }

  lemma {:induction false} RenamedUp<T, U>(h: seq<Entry<T>>, f: T -> U, i: nat)
    requires i <= |h|
    ensures Renamed(Up(h, i), f) == Up(Renamed(h, f), i)
    decreases i
  {
    if i/2 != 0 && Key(h, i) < Key(h, i/2) {
      RenamedSwap(h, f, i, i/2);
      RenamedUp(Swap(h, i, i/2), f, i/2);
    }
  }

  lemma {:induction false} RenamedDown<T, U>(h: seq<Entry<T>>, f: T -> U, i: nat, lim: nat)
    requires 1 <= i <= |h| && lim <= |h|
    ensures Renamed(Down(h, i, lim), f) == Down(Renamed(h, f), i, lim)
    decreases |h| - i
  {
    var m := Preferred(h, i, lim);
    assert Preferred(Renamed(h, f), i, lim) == m;
    if m != i {
      RenamedSwap(h, f, i, m);
      RenamedDown(Swap(h, i, m), f, m, lim);
    }
  }

  lemma RenamedInsert<T, U>(h: seq<Entry<T>>, f: T -> U, e: Entry<T>)
    ensures Renamed(Insert(h, e), f) == Insert(Renamed(h, f), Entry(f(e.item), e.key))
  {
    assert Renamed(h + [e], f) == Renamed(h, f) + [Entry(f(e.item), e.key)];
    RenamedUp(h + [e], f, |h| + 1);
  }

  lemma RenamedPop<T, U>(h: seq<Entry<T>>, f: T -> U, whole: bool)
    requires h != []
    ensures Renamed(Pop(h, whole), f) == Pop(Renamed(h, f), whole)
  {
    var g := Behead(h);
    assert Renamed(g, f) == Behead(Renamed(h, f));
    if g != [] {
      RenamedDown(g, f, 1, Limit(whole, |g|));
    }
  }
}
