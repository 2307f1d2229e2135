/**
 coro/minheap.c in place: an array of pointers, each element knowing its slot.  Every method is
 proved equal to the function of HeapSpec of the same name, on which HeapProperties proves order
 and contents.  Where the source would write past the end of an array, a method stops and says so.
 */
module MinHeaps {
  import H = HeapSpec
  import HP = HeapProperties

  /** A heapele: which struct embeds it, its slot, and the key that `less` compares. */
  class Element {
    const owner: nat
    var index: nat
    var key: int

    constructor (owner: nat)
      ensures this.owner == owner && index == 0 && key == 0
    {
      this.owner := owner;
      index, key := 0, 0;
    }
  }

  class MinHeap {
    const maxSize: nat
    const data: array<Element?>
    /** false: `down` compares child slots against size with `<`, as the source does. */
    const whole: bool
    /** false: the arrays are as short as the source allocates them. */
    const roomy: bool
    var size: nat

    /** The elements in slots 1..size, and those slots with their elements' keys. */
    ghost var members: set<Element>
    ghost var view: seq<H.Entry<Element>>

    /** Slots and elements point at each other. */
    ghost predicate Valid()
      reads this, data, members
    {
      && data.Length == H.Slots(roomy, maxSize) && size == |view| <= maxSize && (size == 0 || size < data.Length)
      && (forall i :: 1 <= i <= size ==> data[i] != null && data[i] in members && data[i].index == i)
      && (forall i :: 1 <= i <= size ==> view[i-1].item == data[i] && view[i-1].key == data[i].key)
      && (forall e :: e in members ==> 1 <= e.index <= size && data[e.index] == e)
    }

    lemma ViewIsMembers()
      requires Valid()
      ensures HP.Distinct(view) && HP.Items(view) == members
    {
      assert forall k :: 0 <= k < size ==> view[k].item == data[k+1] && data[k+1].index == k+1;
      forall x | x in members ensures x in HP.Items(view) {
        assert view[x.index-1] in view;
      }
    }

    lemma ViewIsKeyed()
      requires Valid()
      ensures Keyed(view)
    {
      forall n | n in view ensures n.item in HP.Items(view) && n.item.key == n.key {
        var k :| 0 <= k < |view| && view[k] == n;
        var i := k + 1;
        assert view[i-1].item == data[i] && view[i-1].key == data[i].key;
      }
    }

    constructor (size: nat, whole: bool, roomy: bool)
      ensures Valid() && view == [] && maxSize == size && this.whole == whole && this.roomy == roomy
      ensures members == {} && fresh(data)
    {
      maxSize := size;
      data := new Element?[H.Slots(roomy, size)](_ => null);
      this.whole := whole;
      this.roomy := roomy;
      this.size := 0;
      members := {};
      view := [];
    }

    method Swap(i: nat, j: nat)
      requires Valid() && 1 <= i <= size && 1 <= j <= size
      modifies `view, data, members`index
      ensures Valid()
      ensures view == H.Swap(old(view), i, j)
    {
      data[i], data[j] := data[j], data[i];
      data[i].index := i;
      data[j].index := j;
      view := H.Swap(view, i, j);
      assert forall k :: 1 <= k <= size && k != i && k != j ==> data[k] == old(data[k]);
    }

    method Up(start: nat)
      requires Valid() && 1 <= start <= size
      modifies `view, data, members`index
      ensures Valid()
      ensures view == H.Up(old(view), start)
    {
      var idx := start;
      var p := idx/2;
      while p != 0
        invariant Valid()
        invariant 1 <= idx <= size && p == idx/2
        invariant H.Up(view, idx) == H.Up(old(view), start)
        decreases idx
      {
        if data[idx].key < data[p].key {
          Swap(idx, p);
          idx := p;
          p := idx/2;
        } else {
          break;
        }
      }
    }

    method Down(idx: nat)
      requires Valid() && 1 <= idx <= size
      modifies `view, data, members`index
      ensures Valid()
      ensures view == H.Down(old(view), idx, H.Limit(whole, size))
      decreases size - idx
    {
      var lim := H.Limit(whole, size);
      var l, r := idx*2, idx*2+1;
      var min := idx;
      if l <= lim && data[l].key < data[idx].key {
        min := l;
      }
      if r <= lim && data[r].key < data[min].key {
        min := r;
      }
      assert min == H.Preferred(view, idx, lim);
      if min != idx {
        Swap(idx, min);
        Down(min);
      }
    }

    /** The owner of a member writes a new key into it; `Change` must follow for the heap to be in order. */
    method Rekey(e: Element, k: int)
      requires Valid() && e in members
      modifies `view, e`key
      ensures Valid() && e.key == k
      ensures view == old(view)[e.index-1 := H.Entry(e, k)]
    {
      e.key := k;
      view := view[e.index-1 := H.Entry(e, k)];
    }

    method Change(e: Element)
      requires Valid() && e in members
      modifies `view, data, members`index
      ensures Valid()
      ensures view == H.Change(old(view), old(e.index), whole)
    {
      var idx := e.index;
      Down(idx);
      Up(idx);
    }

    /** A member's key changes, and minheap_change puts the member where it now belongs. */
    method ChangeKey(e: Element, k: int)
      requires Valid() && e in members
      modifies `view, data, members`index, e`key
      ensures Valid() && e.key == k
      ensures view == H.Change(old(view)[old(e.index)-1 := H.Entry(e, k)], old(e.index), whole)
    {
      Rekey(e, k);
      Change(e);
    }

    /**
     A full heap drops the element without a word; a member is only moved to where its key belongs.
     inside is false where the element would be written past the end of data.
     */
    method Insert(e: Element) returns (inside: bool)
      requires Valid() && (e.index != 0 <==> e in members)
      modifies this, data, members`index, e`index
      ensures Valid()
      ensures e.index != 0 <==> e in members
      ensures inside <==> old(e.index) != 0 || old(size) == maxSize || H.InsertFits(roomy, maxSize, old(size))
      ensures if old(e.index) != 0 then
                members == old(members) && view == H.Change(old(view), old(e.index), whole)
              else if old(size) == maxSize || !inside then
                members == old(members) && view == old(view)
              else
                members == old(members) + {e} && view == H.Insert(old(view), H.Entry(e, e.key))
    {
      if e.index != 0 {
        Change(e);
        return true;
      }
      if size >= maxSize {
        return true;
      }
      if size + 1 >= data.Length {
        return false;
      }
      size := size + 1;
      data[size] := e;
      e.index := size;
      members := members + {e};
      view := view + [H.Entry(e, e.key)];
      Up(e.index);
      return true;
    }

    method Min() returns (e: Element?)
      requires Valid()
      ensures if size == 0 then e == null else e == view[0].item
    {
      if size == 0 {
        return null;
      }
      return data[1];
    }

    /** `PopMin` forgets the last slot before it sifts. */
    method DropLast(ghost e: Element)
      requires Valid() && size != 0 && e == view[size-1].item
      modifies this, data
      ensures Valid() && size == old(size) - 1
      ensures view == old(view)[..size] && members == old(members) - {e}
    {
      assert data[size] == e;
      data[size] := null;
      size := size - 1;
      members := members - {e};
      view := view[..size];
    }

    method PopMin() returns (e: Element?)
      requires Valid()
      modifies this, data, members`index
      ensures Valid()
      ensures if old(size) == 0 then e == null && size == 0
              else e == old(view)[0].item && e.index == 0 &&
                   members == old(members) - {e} && view == H.Pop(old(view), whole)
    {
      if size == 0 {
        return null;
      }
      e := data[1];
      Swap(1, size);
      HP.BeheadBySwap(old(view));
      DropLast(e);
      if size != 0 {
        Down(1);
      }
      e.index := 0;
    }

    /**
     Takes e out by emptying the heap and inserting the others again, in slot order.  inside is false
     where one of them would be written past the end of back.
     */
    method Remove(e: Element) returns (inside: bool)
      requires Valid() && (e.index != 0 <==> e in members)
      modifies this, data, members`index
      ensures inside <==> H.RemoveFits(roomy, |old(view)|, |H.Without(old(view), |old(view)|, e)|)
      ensures inside ==> Valid() && e.index == 0 && members == old(members) - {e} && view == H.Remove(old(view), e)
    {
      ViewIsMembers();
      ViewIsKeyed();
      var back, c;
      back, c, inside := Collect(e);
      if inside {
        ghost var others := H.Without(view, |view|, e);
        KeptWaits(view, e);
        Clear();
        Refill(back, c, others);
      }
    }

    /** Every slot is emptied. */
    method Clear()
      requires data.Length == H.Slots(roomy, maxSize)
      modifies this, data
      ensures Valid() && size == 0 && members == {} && view == []
    {
      forall k | 0 <= k < data.Length { data[k] := null; }
      size := 0;
      members, view := {}, [];
    }

    /** The first loop of `Remove`: every slot number forgotten, and the elements but e listed. */
    method Collect(e: Element) returns (back: array<Element?>, c: nat, inside: bool)
      requires Valid()
      modifies members`index
      ensures fresh(back) && (inside <==> H.RemoveFits(roomy, size, |H.Without(view, size, e)|))
      ensures inside ==> Listed(back, c, H.Without(view, size, e)) && forall x :: x in members ==> x.index == 0
    {
      back := new Element?[H.BackSlots(roomy, size)](_ => null);
      ghost var kept := [];
      c := 1;
      var i := 1;
      while i <= size
        invariant 1 <= i <= size + 1 && 1 <= c <= i
        invariant forall x :: x in members ==> x.index == if old(x.index) < i then 0 else old(x.index)
        invariant kept == H.Without(view, i-1, e) && H.RemoveFits(roomy, size, |kept|)
        invariant Listed(back, c, kept)
      {
        data[i].index := 0;
        if data[i] != e {
          c, inside := AddTo(back, c, data[i], kept, view[i-1]);
          if !inside {
            KeptGrows(i, size, e);
            return;
          }
          kept := kept + [view[i-1]];
        }
        i := i + 1;
      }
      inside := true;
    }

    static ghost predicate Keyed(h: seq<H.Entry<Element>>)
      reads HP.Items(h)
    {
      forall n :: n in h ==> n.item in HP.Items(h) && n.item.key == n.key
    }

    static lemma KeptWaits(h: seq<H.Entry<Element>>, e: Element)
      requires HP.Distinct(h) && Keyed(h) && forall x :: x in HP.Items(h) ==> x.index == 0
      ensures var w := H.Without(h, |h|, e); Waiting(w) && HP.Distinct(w) && HP.Items(w) == HP.Items(h) - {e}
    {
      HP.WithoutItems(h, |h|, e);
      assert h[..|h|] == h;
      var w := H.Without(h, |h|, e);
      forall n | n in w ensures n.item in HP.Items(w) && n.item.index == 0 && n.item.key == n.key {
        assert n in h;
      }
    }

    static method AddTo(back: array<Element?>, c: nat, x: Element, ghost kept: seq<H.Entry<Element>>, ghost n: H.Entry<Element>) returns (d: nat, inside: bool)
      requires Listed(back, c, kept) && n.item == x
      modifies back
      ensures inside <==> c < back.Length
      ensures d == if inside then c + 1 else c
      ensures inside ==> Listed(back, d, kept + [n])
    {
      if c >= back.Length {
        return c, false;
      }
      back[c] := x;
      return c + 1, true;
    }

    lemma {:induction false} KeptGrows(i: nat, n: nat, e: Element)
      requires i <= n <= |view|
      ensures |H.Without(view, i, e)| <= |H.Without(view, n, e)|
      decreases n
    {
      if i < n { KeptGrows(i, n-1, e); }
    }

    /** The elements of es are in no heap, and have their keys. */
    static ghost predicate Waiting(es: seq<H.Entry<Element>>)
      reads HP.Items(es)
    {
      forall n :: n in es ==> n.item in HP.Items(es) && n.item.index == 0 && n.item.key == n.key
    }

    /** The last loop of `Remove`. */
    method Refill(back: array<Element?>, c: nat, ghost kept: seq<H.Entry<Element>>)
      requires Valid() && size == 0 && c <= maxSize + 1 && (c == 1 || c <= data.Length) && back != data
      requires Listed(back, c, kept) && HP.Distinct(kept) && Waiting(kept)
      modifies this, data, HP.Items(kept)`index
      ensures Valid() && members == HP.Items(kept)
      ensures view == H.InsertAll([], kept)
    {
      var i := 1;
      assert kept[0..] == kept;
      while i < c
        invariant 1 <= i <= c && Valid() && size == i - 1
        invariant Listed(back, c, kept) && Waiting(kept[i-1..])
        invariant members == HP.Items(kept[..i-1])
        invariant H.InsertAll(view, kept[i-1..]) == H.InsertAll([], kept)
      {
        ghost var n, after := kept[i-1], kept[i..];
        HeadAndTail(kept, i-1);
        InsertNext(back[i], n, after);
        i := i + 1;
        ghost var listed := Listed(back, c, kept);
        assert listed;
      }
      assert kept[..|kept|] == kept;
    }

    /** The first of those still to be inserted is none of the others, nor of those before. */
    static lemma HeadAndTail(kept: seq<H.Entry<Element>>, k: nat)
      requires HP.Distinct(kept) && k < |kept|
      ensures kept[k..] == [kept[k]] + kept[k+1..] && kept[..k+1] == kept[..k] + [kept[k]]
      ensures HP.Items(kept[..k+1]) == HP.Items(kept[..k]) + {kept[k].item} <= HP.Items(kept)
      ensures HP.Items(kept[k..]) == HP.Items(kept[k+1..]) + {kept[k].item} && kept[k].item !in HP.Items(kept[k+1..])
      ensures HP.Items(kept[..k]) !! HP.Items(kept[k+1..])
    {
      assert kept[k..] == [kept[k]] + kept[k+1..];
      assert kept[..k+1] == kept[..k] + [kept[k]];
      assert kept[k] in kept[k..] && kept[k] in kept[..k+1];
    }

    method InsertNext(e: Element, ghost n: H.Entry<Element>, ghost after: seq<H.Entry<Element>>)
      requires Valid() && size < maxSize && size + 1 < data.Length
      requires n.item == e && Waiting([n] + after) && e !in HP.Items(after) && members !! HP.Items(after)
      modifies this, data, members`index, e`index
      ensures Valid() && size == old(size) + 1 && members == old(members) + {e} && Waiting(after)
      ensures H.InsertAll(view, after) == H.InsertAll(old(view), [n] + after)
    {
      assert n in [n] + after && n.item in HP.Items([n] + after);
      forall m | m in after ensures m in [n] + after && m.item in HP.Items(after) {
      }
      var inside := Insert(e);
      assert ([n] + after)[1..] == after;
    }

    /** back[1..c] lists the elements of es. */
    static ghost predicate Listed(back: array<Element?>, c: nat, es: seq<H.Entry<Element>>)
      reads back
    {
      c == |es| + 1 && (es == [] || c <= back.Length) && forall k :: 1 <= k < c ==> back[k] == es[k-1].item
    }
  }

  /** As written, the second insertion into a heap for two writes past the end of data. */
  method InsertOverflows() returns (inside: bool)
    ensures !inside
  {
    var h := new MinHeap(2, false, false);
    var a := new Element(1);
    var b := new Element(2);
    inside := h.Insert(a);
    assert inside && h.size == 1;
    inside := h.Insert(b);
  }

  /** As written, removing one of two elements writes past the end of back. */
  method RemoveOverflows() returns (inside: bool)
    ensures !inside
  {
    var h := new MinHeap(3, false, false);
    var a := new Element(1);
    var b := new Element(2);
    inside := h.Insert(a);
    inside := h.Insert(b);
    ghost var view := h.view;
    h.ViewIsMembers();
    assert a in h.members && b in h.members;
    TwoKeepOne(view, a, b);
    inside := h.Remove(a);
  }

  lemma TwoKeepOne(h: seq<H.Entry<Element>>, a: Element, b: Element)
    requires |h| == 2 && HP.Distinct(h) && HP.Items(h) == {a, b} && a != b
    ensures |H.Without(h, 2, a)| == 1
  {
    assert h[0] in h && h[1] in h;
    assert h[0].item in HP.Items(h) && h[1].item in HP.Items(h);
    assert H.Without(h, 2, a) == if h[1].item == a then H.Without(h, 1, a) else H.Without(h, 1, a) + [h[1]];
    assert H.Without(h, 1, a) == if h[0].item == a then [] else [h[0]];
  }
}
