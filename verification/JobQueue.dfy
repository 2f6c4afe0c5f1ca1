/** The max-heap of requests in safequeue.c, sifted in place in an array. */
module JobQueue {
  datatype Request = Request(delay: int, clientFd: int, path: string, buffer: string)

  datatype Item = Item(value: Request, priority: int)

  function Parent(k: nat): nat
    requires k > 0
  {
    (k - 1) / 2
  }

  ghost predicate Below(s: seq<Item>, k: nat, p: nat)
    requires k < |s| && p < |s|
  {
    s[k].priority <= s[p].priority
  }

  /** No item has a higher priority than its parent. */
  ghost predicate Heap(s: seq<Item>) {
    forall k :: 0 < k < |s| ==> Below(s, k, Parent(k))
  }

  /** The heap order, except that item `i` may be higher than its parent. */
  ghost predicate HeapUpTo(s: seq<Item>, i: nat) {
    && i < |s|
    && (forall k :: 0 < k < |s| && k != i ==> Below(s, k, Parent(k)))
    && (forall k :: 0 < k < |s| && Parent(k) == i && i > 0 ==> Below(s, k, Parent(i)))
  }

  /** The heap order, except that item `i` may be lower than its children. */
  ghost predicate HeapDownTo(s: seq<Item>, i: nat) {
    && (forall k :: 0 < k < |s| && Parent(k) != i ==> Below(s, k, Parent(k)))
    && (forall k :: 0 < k < |s| && Parent(k) == i && i > 0 ==> Below(s, k, Parent(i)))
  }

  function Swap(s: seq<Item>, i: nat, j: nat): (s': seq<Item>)
    requires i < |s| && j < |s|
    ensures |s'| == |s|
  {
    s[i := s[j]][j := s[i]]
  }

  lemma {:induction false} SwapUp(s: seq<Item>, i: nat)
    requires HeapUpTo(s, i) && i > 0 && s[i].priority > s[Parent(i)].priority
    ensures HeapUpTo(Swap(s, i, Parent(i)), Parent(i))
  {
    var s', p := Swap(s, i, Parent(i)), Parent(i);
    assert p > 0 ==> Below(s, p, Parent(p));
    forall k | 0 < k < |s'| && k != p
      ensures Below(s', k, Parent(k)) && (Parent(k) == p && p > 0 ==> Below(s', k, Parent(p)))
    {
      assert k != i ==> Below(s, k, Parent(k));
    }
  }

  lemma {:induction false} SwapDown(s: seq<Item>, i: nat, c: nat)
    requires HeapDownTo(s, i) && 0 < c < |s| && Parent(c) == i && s[c].priority > s[i].priority
    requires forall k :: 0 < k < |s| && Parent(k) == i ==> Below(s, k, c)
    ensures HeapDownTo(Swap(s, i, c), c)
  {
    var s' := Swap(s, i, c);
    forall k | 0 < k < |s'|
      ensures Parent(k) != c ==> Below(s', k, Parent(k))
      ensures Parent(k) == c ==> Below(s', k, Parent(c))
    {
      assert Parent(k) != i ==> Below(s, k, Parent(k));
      assert Parent(k) == i ==> Below(s, k, c);
    }
  }

  /** The root has the highest priority of all. */
  lemma {:induction false} RootIsMax(s: seq<Item>, k: nat)
    requires Heap(s) && k < |s|
    ensures s[k].priority <= s[0].priority
  {
    if k > 0 {
      assert Below(s, k, Parent(k));
      RootIsMax(s, Parent(k));
    }
  }

  lemma {:induction false} TopIsMax(s: seq<Item>)
    requires Heap(s) && s != []
    ensures s[0] in multiset(s) && forall x :: x in multiset(s) ==> x.priority <= s[0].priority
  {
    forall x | x in multiset(s)
      ensures x.priority <= s[0].priority
    {
      var k :| 0 <= k < |s| && s[k] == x;
      RootIsMax(s, k);
    }
  }

  /** The last item moved to the root, and the last place given up. */
  lemma {:induction false} LastToRoot(s: seq<Item>)
    requires Heap(s) && s != []
    ensures var l := |s| - 1;
            var t := s[0 := s[l]][..l];
            && (t != [] ==> HeapDownTo(t, 0)) && (t == [] ==> Heap(t))
            && multiset(t) == multiset(s) - multiset{s[0]}
  {
    var l := |s| - 1;
    var t := s[0 := s[l]][..l];
    forall k | 0 < k < |t| && Parent(k) != 0
      ensures Below(t, k, Parent(k))
    {
      assert Below(s, k, Parent(k));
    }
    assert s == s[..l] + [s[l]];
    if l > 0 {
      assert s[..l] == [s[0]] + s[1..l];
      assert t == [s[l]] + s[1..l];
    }
  }

  class PriorityQueue {
    const items: array<Item>
    var size: nat

    ghost predicate Valid()
      reads this, items
    {
      size <= items.Length && Heap(items[..size])
    }

    ghost function Items(): multiset<Item>
      requires size <= items.Length
      reads this, items
    {
      multiset(items[..size])
    }

    /** create_queue. */
    constructor (capacity: nat)
      ensures Valid() && Items() == multiset{} && size == 0 && items.Length == capacity && fresh(items)
    {
      items := new Item[capacity](_ => Item(Request(0, 0, "", ""), 0));
      size := 0;
    }

    method Exchange(i: nat, j: nat)
      requires i < size <= items.Length && j < size
      modifies items
      ensures items[..size] == Swap(old(items[..size]), i, j) && Items() == old(Items())
    {
      items[i], items[j] := items[j], items[i];
    }

    /** The loop of add_work. */
    method SiftUp(start: nat)
      requires start < size <= items.Length && HeapUpTo(items[..size], start)
      modifies items
      ensures Heap(items[..size]) && Items() == old(Items())
    {
      hide Heap, HeapUpTo, Swap;
      var i := start;
      while i != 0 && items[i].priority > items[(i - 1) / 2].priority
        invariant 0 <= i < size && HeapUpTo(items[..size], i) && Items() == old(Items())
      {
        SwapUp(items[..size], i);
        Exchange(i, (i - 1) / 2);
        i := (i - 1) / 2;
      }
      SiftedUp(items[..size], i);
    }

    /** add_work, on a queue with room. */
    method AddWork(value: Request, priority: int)
      requires Valid() && size < items.Length
      modifies this`size, items
      ensures Valid() && size == old(size) + 1 && Items() == old(Items()) + multiset{Item(value, priority)}
    {
      hide Heap, HeapUpTo;
      ghost var before := items[..size];
      var i := size;
      size := size + 1;
      items[i] := Item(value, priority);
      assert items[..size] == before + [Item(value, priority)];
      AppendedUpTo(before, Item(value, priority));
      SiftUp(i);
    }

    /** The child of `i` with the highest priority, if it is higher than that of `i`. */
    method LargestOf(i: nat) returns (largest: nat)
      requires size <= items.Length && 2 * i + 1 < size
      ensures largest < size && (largest != i ==> largest > 0 && Parent(largest) == i)
      ensures largest == i ==> forall k :: 0 < k < size && Parent(k) == i ==> Below(items[..size], k, i)
      ensures largest != i ==>
                && items[largest].priority > items[i].priority
                && forall k :: 0 < k < size && Parent(k) == i ==> Below(items[..size], k, largest)
    {
      var left, right := 2 * i + 1, 2 * i + 2;
      largest := i;
      if left < size && items[left].priority > items[i].priority {
        largest := left;
      }
      if right < size && items[right].priority > items[largest].priority {
        largest := right;
      }
      assert forall k :: 0 < k < size && Parent(k) == i ==> k == left || k == right;
    }

    /** The loop of dequeue. */
    method SiftDown()
      requires 0 < size <= items.Length && HeapDownTo(items[..size], 0)
      modifies items
      ensures Heap(items[..size]) && Items() == old(Items())
    {
      hide Heap, HeapDownTo, Swap;
      var i := 0;
      while 2 * i + 1 < size
        invariant 0 <= i < size && HeapDownTo(items[..size], i) && Items() == old(Items())
        decreases size - i
      {
        var largest := LargestOf(i);
        if largest == i {
          SiftedDown(items[..size], i);
          return;
        }
        SwapDown(items[..size], i, largest);
        Exchange(i, largest);
        i := largest;
      }
      SiftedDown(items[..size], i);
    }

    /** dequeue: -1 on an empty queue, else an item of the highest priority is taken out. */
    method Dequeue() returns (r: int, work: Item)
      requires Valid()
      modifies this`size, items
      ensures Valid()
      ensures r == if old(size) == 0 then -1 else 1
      ensures r == -1 ==> size == 0 && Items() == old(Items())
      ensures r == 1 ==> size == old(size) - 1 && work in old(Items()) && Items() == old(Items()) - multiset{work}
      ensures r == 1 ==> forall x :: x in old(Items()) ==> x.priority <= work.priority
    {
      hide Heap, HeapDownTo;
      if size == 0 {
        return -1, Item(Request(0, 0, "", ""), 0);
      }
      ghost var before := items[..size];
      TopIsMax(before);
      LastToRoot(before);
      work := items[0];
      size := size - 1;
      items[0] := items[size];
      assert items[..size] == before[0 := before[size]][..size];
      if size > 0 {
        SiftDown();
      }
      return 1, work;
    }

    /** get_work and get_work_nonblocking are the same. */
    method GetWork() returns (r: int, work: Item)
      requires Valid()
      modifies this`size, items
      ensures Valid()
      ensures r == if old(size) == 0 then -1 else 1
      ensures r == -1 ==> size == 0 && Items() == old(Items())
      ensures r == 1 ==> size == old(size) - 1 && work in old(Items()) && Items() == old(Items()) - multiset{work}
      ensures r == 1 ==> forall x :: x in old(Items()) ==> x.priority <= work.priority
    {
      r, work := Dequeue();
      if r != 1 {
        r := -1;
      }
    }
  }

  lemma {:induction false} AppendedUpTo(s: seq<Item>, x: Item)
    requires Heap(s)
    ensures HeapUpTo(s + [x], |s|)
  {
    var t := s + [x];
    forall k | 0 < k < |t| && k != |s|
      ensures Below(t, k, Parent(k))
    {
      assert Below(s, k, Parent(k));
    }
  }

  lemma {:induction false} SiftedUp(s: seq<Item>, i: nat)
    requires HeapUpTo(s, i) && (i > 0 ==> s[i].priority <= s[Parent(i)].priority)
    ensures Heap(s)
  {
    assert i > 0 ==> Below(s, i, Parent(i));
  }

  lemma {:induction false} SiftedDown(s: seq<Item>, i: nat)
    requires HeapDownTo(s, i) && i < |s| && forall k :: 0 < k < |s| && Parent(k) == i ==> Below(s, k, i)
    ensures Heap(s)
  {
  }
}
