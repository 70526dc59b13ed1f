/** The sender schedule (CSndUList): a binary min-heap of sockets by their next sending time, with
    back-pointers from the nodes to their places. */
module SndHeap {

  // ---- heaps as sequences ------------------------------------------------------------

  datatype Entry<T> = Entry(node: T, time: int)

  function Parent(i: int): (p: int)
    requires i > 0
    ensures 0 <= p < i && (i == 2 * p + 1 || i == 2 * p + 2)
  {
    (i - 1) / 2
  }

  predicate Ordered<T>(s: seq<Entry<T>>) {
    forall i :: 0 < i < |s| ==> s[Parent(i)].time <= s[i].time
  }

  function Swap<T>(s: seq<T>, i: nat, j: nat): (r: seq<T>)
    requires i < |s| && j < |s|
    ensures |r| == |s|
  {
    s[i := s[j]][j := s[i]]
  }

  /** Moves the entry at q up while its parent is later. */
  function Up<T>(s: seq<Entry<T>>, q: nat): (r: seq<Entry<T>>)
    requires q < |s|
    ensures |r| == |s|
    decreases q
  {
    if q == 0 then s
    else
      var p := Parent(q);
      if s[p].time > s[q].time then Up(Swap(s, p, q), p) else s
  }

  /** The earlier of the children of q. */
  function Child<T>(s: seq<Entry<T>>, q: nat): (p: nat)
    requires 2 * q + 1 < |s|
    ensures q < p < |s| && Parent(p) == q
  {
    var p := 2 * q + 1;
    if p + 1 < |s| && s[p].time > s[p + 1].time then p + 1 else p
  }

  /** Moves the entry at q down while a child is earlier. */
  function Down<T>(s: seq<Entry<T>>, q: nat): (r: seq<Entry<T>>)
    ensures |r| == |s|
    decreases |s| - q
  {
    if 2 * q + 1 >= |s| then s
    else
      var p := Child(s, q);
      if s[q].time > s[p].time then Down(Swap(s, p, q), p) else s
  }

  function Added<T>(s: seq<Entry<T>>, e: Entry<T>): (r: seq<Entry<T>>)
    ensures |r| == |s| + 1
  {
    Up(s + [e], |s|)
  }

  /** The last entry takes the place of the removed one and only moves down from there. */
  function Removed<T>(s: seq<Entry<T>>, k: nat): (r: seq<Entry<T>>)
    requires k < |s|
    ensures |r| == |s| - 1
  {
    Down(s[k := s[|s| - 1]][..|s| - 1], k)
  }

  // ---- what they keep ----------------------------------------------------------------

  lemma SwapKeeps<T>(s: seq<T>, i: nat, j: nat)
    requires i < |s| && j < |s|
    ensures multiset(Swap(s, i, j)) == multiset(s)
  {
  }

  lemma {:induction false} UpKeeps<T>(s: seq<Entry<T>>, q: nat)
    requires q < |s|
    ensures multiset(Up(s, q)) == multiset(s)
    decreases q
  {
    if q > 0 && s[Parent(q)].time > s[q].time {
      SwapKeeps(s, Parent(q), q);
      UpKeeps(Swap(s, Parent(q), q), Parent(q));
    }
  }

  lemma {:induction false} DownKeeps<T>(s: seq<Entry<T>>, q: nat)
    ensures multiset(Down(s, q)) == multiset(s)
    decreases |s| - q
  {
    if 2 * q + 1 < |s| && s[q].time > s[Child(s, q)].time {
      SwapKeeps(s, Child(s, q), q);
      DownKeeps(Swap(s, Child(s, q), q), Child(s, q));
    }
  }

  /** Order everywhere but between q and its parent, where the children of q are in order with that
      parent. */
  predicate OrderedAbove<T>(s: seq<Entry<T>>, q: nat) {
    (forall i :: 0 < i < |s| && i != q ==> s[Parent(i)].time <= s[i].time) &&
    (q > 0 ==> forall i :: 0 < i < |s| && Parent(i) == q ==> s[Parent(q)].time <= s[i].time)
  }

  lemma UpStep<T>(s: seq<Entry<T>>, q: nat)
    requires 0 < q < |s| && OrderedAbove(s, q) && s[Parent(q)].time > s[q].time
    ensures OrderedAbove(Swap(s, Parent(q), q), Parent(q))
  {
    var p := Parent(q);
    var t := Swap(s, p, q);
    forall i | 0 < i < |t| && i != p ensures t[Parent(i)].time <= t[i].time {
      assert s[Parent(i)].time <= s[i].time || i == q;
      assert Parent(i) == q ==> s[p].time <= s[i].time;
    }
    if p > 0 {
      forall i | 0 < i < |t| && Parent(i) == p ensures t[Parent(p)].time <= t[i].time {
        assert s[Parent(p)].time <= s[p].time;
        assert i != q ==> s[p].time <= s[i].time;
      }
    }
  }

  lemma {:induction false} UpOrdered<T>(s: seq<Entry<T>>, q: nat)
    requires q < |s| && OrderedAbove(s, q)
    ensures Ordered(Up(s, q))
    decreases q
  {
    if q > 0 && s[Parent(q)].time > s[q].time {
      UpStep(s, q);
      UpOrdered(Swap(s, Parent(q), q), Parent(q));
    }
  }

  /** Order everywhere but between q and its children, which are in order with the parent of q. */
  predicate OrderedBelow<T>(s: seq<Entry<T>>, q: nat) {
    forall i :: 0 < i < |s| && Parent(i) != q ==> s[Parent(i)].time <= s[i].time
  }

  predicate Bounds<T>(s: seq<Entry<T>>, q: nat) {
    0 < q < |s| ==> forall i :: 0 < i < |s| && Parent(i) == q ==> s[Parent(q)].time <= s[i].time
  }

  lemma DownStep<T>(s: seq<Entry<T>>, q: nat)
    requires 2 * q + 1 < |s| && OrderedBelow(s, q) && Bounds(s, q) && s[q].time > s[Child(s, q)].time
    ensures OrderedBelow(Swap(s, Child(s, q), q), Child(s, q)) && Bounds(Swap(s, Child(s, q), q), Child(s, q))
  {
    var p := Child(s, q);
    var t := Swap(s, p, q);
    forall i | 0 < i < |t| && Parent(i) != p ensures t[Parent(i)].time <= t[i].time {
      if Parent(i) == q {
        assert i == 2 * q + 1 || i == 2 * q + 2;
      } else {
        assert s[Parent(i)].time <= s[i].time;
        assert i == q ==> s[Parent(q)].time <= s[p].time;
      }
    }
    forall i | 0 < i < |t| && Parent(i) == p ensures t[Parent(p)].time <= t[i].time {
      assert s[Parent(i)].time <= s[i].time;
    }
  }

  lemma {:induction false} DownOrdered<T>(s: seq<Entry<T>>, q: nat)
    requires OrderedBelow(s, q) && Bounds(s, q)
    ensures Ordered(Down(s, q))
    decreases |s| - q
  {
    if 2 * q + 1 < |s| {
      var p := Child(s, q);
      if s[q].time > s[p].time {
        DownStep(s, q);
        DownOrdered(Swap(s, p, q), p);
      }
    }
  }

  /** Adding keeps the order and adds exactly the entry. */
  lemma AddedOrdered<T>(s: seq<Entry<T>>, e: Entry<T>)
    requires Ordered(s)
    ensures Ordered(Added(s, e)) && multiset(Added(s, e)) == multiset(s) + multiset{e}
  {
    UpOrdered(s + [e], |s|);
    UpKeeps(s + [e], |s|);
  }

  /** When removing keeps the order: the entry that is moved must not be earlier than the parent of
      the place it goes to. */
  predicate InPlace<T>(s: seq<Entry<T>>, k: nat)
    requires k < |s|
  {
    0 < k < |s| - 1 ==> s[Parent(k)].time <= s[|s| - 1].time
  }

  /** With the last entry in place of another, only the order below that place is open. */
  lemma MovedBelow<T>(s: seq<Entry<T>>, k: nat)
    requires Ordered(s) && k < |s| && InPlace(s, k)
    ensures var t := s[k := s[|s| - 1]][..|s| - 1]; OrderedBelow(t, k) && Bounds(t, k)
  {
    var t := s[k := s[|s| - 1]][..|s| - 1];
    forall i | 0 < i < |t| && Parent(i) == k && k > 0 ensures t[Parent(k)].time <= t[i].time {
      assert s[Parent(k)].time <= s[k].time <= s[i].time;
    }
  }

  /** An entry that is earlier than its new parent is also earlier than its children, and stays. */
  lemma StaysBroken<T>(s: seq<Entry<T>>, k: nat)
    requires Ordered(s) && k < |s| && !InPlace(s, k)
    ensures !Ordered(Down(s[k := s[|s| - 1]][..|s| - 1], k))
  {
    var t := s[k := s[|s| - 1]][..|s| - 1];
    forall i | 0 < i < |t| && Parent(i) == k ensures t[k].time <= t[i].time {
      assert s[Parent(k)].time <= s[k].time <= s[i].time;
    }
    assert Down(t, k) == t;
    assert t[Parent(k)].time > t[k].time;
  }

  lemma Cancel<T>(a: multiset<T>, b: multiset<T>, x: T)
    requires a + multiset{x} == b + multiset{x}
    ensures a == b
  {
    forall e: T ensures a[e] == b[e] {
      assert (a + multiset{x})[e] == (b + multiset{x})[e];
    }
  }

  lemma RemovedEntries<T>(s: seq<Entry<T>>, k: nat)
    requires k < |s|
    ensures multiset(s[k := s[|s| - 1]][..|s| - 1]) == multiset(s) - multiset{s[k]}
  {
    var t := s[k := s[|s| - 1]];
    var last := s[|s| - 1];
    assert t == t[..|s| - 1] + [last];
    assert multiset(t) == multiset(t[..|s| - 1]) + multiset{last};
    assert multiset(t) == multiset(s) - multiset{s[k]} + multiset{last};
    Cancel(multiset(t[..|s| - 1]), multiset(s) - multiset{s[k]}, last);
  }

  lemma RemovedOrdered<T>(s: seq<Entry<T>>, k: nat)
    requires Ordered(s) && k < |s|
    ensures Ordered(Removed(s, k)) <==> InPlace(s, k)
    ensures multiset(Removed(s, k)) == multiset(s) - multiset{s[k]}
  {
    hide Down, Ordered, OrderedBelow, Bounds, InPlace;
    var t := s[k := s[|s| - 1]][..|s| - 1];
    DownKeeps(t, k);
    RemovedEntries(s, k);
    if InPlace(s, k) {
      MovedBelow(s, k);
      DownOrdered(t, k);
    } else {
      StaysBroken(s, k);
    }
  }

  /** In an ordered heap the first entry is the earliest. */
  lemma {:induction false} FirstIsEarliest<T>(s: seq<Entry<T>>, i: nat)
    requires Ordered(s) && i < |s|
    ensures s[0].time <= s[i].time
  {
    if i > 0 {
      FirstIsEarliest(s, Parent(i));
    }
  }

  /** The order can be lost: removing the fourth of these six entries puts 3 under 10. */
  lemma OrderCanBreak()
    ensures var s := [Entry('a', 1), Entry('b', 10), Entry('c', 2), Entry('d', 11), Entry('e', 12), Entry('f', 3)];
            Ordered(s) && !Ordered(Removed(s, 3))
  {
    var s := [Entry('a', 1), Entry('b', 10), Entry('c', 2), Entry('d', 11), Entry('e', 12), Entry('f', 3)];
    assert Parent(1) == 0 && Parent(2) == 0 && Parent(3) == 1 && Parent(4) == 1 && Parent(5) == 2;
    RemovedOrdered(s, 3);
  }

  // ---- the list ----------------------------------------------------------------------

  class CSNode {
    var timeStamp: int
    /** Place in the heap, -1 when the node is not scheduled. */
    var heapLoc: int

    constructor ()
      ensures timeStamp == 1 && heapLoc == -1
    {
      timeStamp, heapLoc := 1, -1;
    }
  }

  lemma PopOrdered<T>(s: seq<Entry<T>>, ts: int)
    ensures s != [] && Ordered(s) ==>
              Ordered(Removed(s, 0)) && (forall n :: Ordered(Added(Removed(s, 0), Entry(n, ts))))
              && forall i :: 0 <= i < |s| ==> s[0].time <= s[i].time
  {
    hide Added, Removed, Ordered;
    if s != [] && Ordered(s) {
      RemovedOrdered(s, 0);
      forall n ensures Ordered(Added(Removed(s, 0), Entry(n, ts))) {
        AddedOrdered(Removed(s, 0), Entry(n, ts));
      }
      forall i | 0 <= i < |s| ensures s[0].time <= s[i].time {
        FirstIsEarliest(s, i);
      }
    }
  }

  lemma AddedFirst<T>(s: seq<Entry<T>>, e: Entry<T>)
    requires Ordered(s) && e.time == 1 && forall i :: 0 <= i < |s| ==> s[i].time >= 1
    ensures Ordered(Added(s, e)) && Added(s, e)[0].time == 1
  {
    hide Added, Ordered;
    AddedOrdered(s, e);
    var t := Added(s, e);
    assert e in multiset(t);
    var i :| 0 <= i < |t| && t[i] == e;
    FirstIsEarliest(t, i);
    assert t[0] in multiset(t);
    assert t[0] in multiset(s) || t[0] == e;
  }

  /** Sent with time 1 when no time is earlier, an entry becomes the first in time. */
  lemma UpdateOrdered<T>(s: seq<Entry<T>>, k: int, n: T)
    requires k < |s|
    requires Ordered(s) && (forall i :: 0 <= i < |s| ==> s[i].time >= 1) && (k >= 0 ==> InPlace(s, k))
    ensures k < 0 ==> Ordered(Added(s, Entry(n, 1))) && Added(s, Entry(n, 1))[0].time == 1
    ensures k == 0 ==> Ordered(s[0 := Entry(n, 1)])
    ensures k > 0 ==> var t := Added(Removed(s, k), Entry(n, 1)); Ordered(t) && t[0].time == 1
  {
    hide Added, Removed;
    var e := Entry(n, 1);
    if k < 0 {
      AddedFirst(s, e);
    } else if k > 0 {
      RemovedOrdered(s, k);
      var t := Removed(s, k);
      forall i | 0 <= i < |t| ensures t[i].time >= 1 {
        assert t[i] in multiset(t);
        assert t[i] in multiset(s);
      }
      AddedFirst(t, e);
    }
  }

  class CSndUList {
    var heap: array<CSNode?>
    var lastEntry: int
    /** The nodes of all sockets, scheduled or not. */
    ghost var nodes: set<CSNode>

    /** Places 0 to lastEntry hold different nodes; a node's back-pointer is its place. */
    ghost predicate Valid()
      reads this, heap, nodes
    {
      -1 <= lastEntry < heap.Length && heap.Length > 0
      && (forall i :: 0 <= i <= lastEntry ==> heap[i] != null && heap[i] in nodes && heap[i].heapLoc == i)
      && (forall n :: n in nodes ==> -1 <= n.heapLoc <= lastEntry && (n.heapLoc >= 0 ==> heap[n.heapLoc] == n))
    }

    ghost function EntriesUpTo(n: nat): (s: seq<Entry<CSNode?>>)
      requires n <= heap.Length
      requires forall i :: 0 <= i < n ==> heap[i] != null && heap[i] in nodes
      reads this, heap, nodes`timeStamp
      ensures |s| == n
      ensures forall i :: 0 <= i < n ==> s[i] == Entry(heap[i], heap[i].timeStamp)
    {
      if n == 0 then [] else EntriesUpTo(n - 1) + [Entry(heap[n - 1], heap[n - 1].timeStamp)]
    }

    /** The schedule in heap order. */
    ghost function Entries(): (s: seq<Entry<CSNode?>>)
      requires -1 <= lastEntry < heap.Length
      requires forall i :: 0 <= i <= lastEntry ==> heap[i] != null && heap[i] in nodes
      reads this, heap, nodes`timeStamp
      ensures |s| == lastEntry + 1
      ensures forall i :: 0 <= i <= lastEntry ==> s[i] == Entry(heap[i], heap[i].timeStamp)
    {
      EntriesUpTo(lastEntry + 1)
    }

    constructor (length: nat)
      requires length > 0
      ensures Valid() && fresh(heap) && nodes == {} && Entries() == []
    {
      heap := new CSNode?[length](_ => null);
      lastEntry := -1;
      nodes := {};
    }

    /** A socket's node becomes known to the list. */
    ghost method Register(n: CSNode)
      requires Valid() && n.heapLoc == -1
      modifies this`nodes
      ensures Valid() && nodes == old(nodes) + {n} && Entries() == old(Entries())
    {
      nodes := nodes + {n};
    }

    /** Places and back-pointers agree, but for the node x. */
    ghost predicate Linked(x: CSNode)
      reads this, heap, nodes`heapLoc
    {
      -1 <= lastEntry < heap.Length
      && (forall i :: 0 <= i <= lastEntry ==>
            heap[i] != null && heap[i] in nodes && (heap[i] != x ==> heap[i].heapLoc == i))
      && (forall m :: m in nodes && m != x ==>
            -1 <= m.heapLoc <= lastEntry && (m.heapLoc >= 0 ==> heap[m.heapLoc] == m))
    }

    /** Exchanges the node n at q, which is on its way up, with its parent. */
    method SwapUp(n: CSNode, q: nat)
      requires Linked(n) && 0 < q <= lastEntry && heap[q] == n && heap[Parent(q)] != n
      modifies heap, nodes`heapLoc
      ensures Linked(n) && heap[Parent(q)] == n && n.heapLoc == old(n.heapLoc)
      ensures Entries() == Swap(old(Entries()), Parent(q), q)
      ensures forall i :: 0 <= i <= lastEntry && i != Parent(q) && old(heap[i] != n || i == q) ==> heap[i] != n
    {
      var p := (q - 1) / 2;
      var t := heap[p];
      heap[p] := heap[q];
      heap[q] := t;
      t.heapLoc := q;
    }

    method MoveUp(n: CSNode)
      requires Linked(n) && n in nodes && 0 <= lastEntry && heap[lastEntry] == n && heap.Length > 0
      requires forall i :: 0 <= i < lastEntry ==> heap[i] != n
      modifies heap, nodes`heapLoc
      ensures Valid() && n.heapLoc >= 0 && Entries() == Up(old(Entries()), lastEntry)
    {
      hide Swap;
      var q, p := lastEntry, lastEntry;
      while p != 0
        invariant p == q && 0 <= q <= lastEntry && Linked(n)
        invariant forall i :: 0 <= i <= lastEntry ==> (heap[i] == n <==> i == q)
        invariant Up(Entries(), q) == Up(old(Entries()), lastEntry)
        decreases q
      {
        p := (q - 1) / 2;
        assert p == Parent(q);
        if heap[p].timeStamp > heap[q].timeStamp {
          SwapUp(n, q);
          q := p;
        } else {
          break;
        }
      }
      n.heapLoc := q;
    }

    /** Puts a node that is not scheduled at the end and moves it up. There must be room for it. */
    method InsertNode(ts: int, n: CSNode)
      requires Valid() && n in nodes && (n.heapLoc < 0 ==> lastEntry + 1 < heap.Length)
      modifies this`lastEntry, heap, nodes`heapLoc, n`timeStamp
      ensures Valid() && n.heapLoc >= 0
      ensures Entries() == if old(n.heapLoc) >= 0 then old(Entries()) else Added(old(Entries()), Entry(n, ts))
    {
      if n.heapLoc >= 0 {
        return;
      }
      ghost var before := Entries();
      lastEntry := lastEntry + 1;
      heap[lastEntry] := n;
      n.timeStamp := ts;
      assert Entries() == before + [Entry(n, ts)];
      MoveUp(n);
    }

    /** Doubles the array when it is full, then inserts. */
    method Insert(ts: int, n: CSNode)
      requires Valid() && n in nodes
      modifies this`heap, this`lastEntry, heap, nodes`heapLoc, n`timeStamp
      ensures Valid() && nodes == old(nodes)
      ensures Entries() == if old(n.heapLoc) >= 0 then old(Entries()) else Added(old(Entries()), Entry(n, ts))
    {
      if lastEntry == heap.Length - 1 {
        var temp := new CSNode?[heap.Length * 2](i requires 0 <= i < heap.Length * 2 reads this, heap =>
          if i < heap.Length then heap[i] else null);
        heap := temp;
        assert Entries() == old(Entries());
      }
      InsertNode(ts, n);
    }

    /** Exchanges the entry at q with its child p. */
    method SwapDown(ghost n: CSNode, q: nat, p: nat)
      requires Linked(n) && q < p <= lastEntry && forall i :: 0 <= i <= lastEntry ==> heap[i] != n
      modifies heap, nodes`heapLoc
      ensures Linked(n) && n.heapLoc == old(n.heapLoc) && forall i :: 0 <= i <= lastEntry ==> heap[i] != n
      ensures Entries() == Swap(old(Entries()), p, q)
    {
      var t := heap[p];
      heap[p] := heap[q];
      heap[p].heapLoc := p;
      heap[q] := t;
      heap[q].heapLoc := q;
    }

    /** The last entry takes the place of n; n itself keeps its back-pointer for the moment. */
    method Vacate(n: CSNode)
      requires Valid() && n in nodes && n.heapLoc >= 0
      modifies this`lastEntry, heap, nodes`heapLoc
      ensures Linked(n) && n.heapLoc == old(n.heapLoc) && lastEntry == old(lastEntry) - 1
      ensures forall i :: 0 <= i <= lastEntry ==> heap[i] != n
      ensures var s := old(Entries());
              Entries() == s[old(n.heapLoc) := s[|s| - 1]][..|s| - 1]
    {
      hide Entries, EntriesUpTo;
      var last := heap[lastEntry];
      heap[n.heapLoc] := last;
      lastEntry := lastEntry - 1;
      last.heapLoc := n.heapLoc;
    }

    method MoveDown(ghost n: CSNode, start: nat)
      requires Linked(n) && forall i :: 0 <= i <= lastEntry ==> heap[i] != n
      modifies heap, nodes`heapLoc
      ensures Linked(n) && n.heapLoc == old(n.heapLoc) && forall i :: 0 <= i <= lastEntry ==> heap[i] != n
      ensures Entries() == Down(old(Entries()), start)
    {
      var q := start;
      var p := q * 2 + 1;
      while p <= lastEntry
        invariant p == 2 * q + 1 && 0 <= q && n.heapLoc == old(n.heapLoc)
        invariant Linked(n) && forall i :: 0 <= i <= lastEntry ==> heap[i] != n
        invariant Down(Entries(), q) == Down(old(Entries()), start)
        decreases lastEntry - q
      {
        if p + 1 <= lastEntry && heap[p].timeStamp > heap[p + 1].timeStamp {
          p := p + 1;
        }
        assert p == Child(Entries(), q);
        if heap[q].timeStamp > heap[p].timeStamp {
          SwapDown(n, q, p);
          q := p;
          p := q * 2 + 1;
        } else {
          break;
        }
      }
    }

    /** Takes a node off the schedule; the last entry moves to its place and down from there. */
    method RemoveNode(n: CSNode)
      requires Valid() && n in nodes
      modifies this`lastEntry, heap, nodes`heapLoc
      ensures Valid() && n.heapLoc == -1
      ensures Entries() == if old(n.heapLoc) >= 0 then Removed(old(Entries()), old(n.heapLoc)) else old(Entries())
    {
      hide Entries, EntriesUpTo, Down;
      if n.heapLoc < 0 {
        return;
      }
      Vacate(n);
      MoveDown(n, n.heapLoc);
      n.heapLoc := -1;
    }

    /** Takes a node off the schedule, from outside. */
    method Remove(n: CSNode)
      requires Valid() && n in nodes
      modifies this`lastEntry, heap, nodes`heapLoc
      ensures Valid() && n.heapLoc == -1
      ensures Entries() == if old(n.heapLoc) >= 0 then Removed(old(Entries()), old(n.heapLoc)) else old(Entries())
      ensures old(n.heapLoc) >= 0 && Ordered(old(Entries())) ==>
                (Ordered(Entries()) <==> InPlace(old(Entries()), old(n.heapLoc)))
    {
      hide Removed, Ordered, InPlace;
      ghost var s, k := Entries(), n.heapLoc;
      RemoveNode(n);
      if k >= 0 && Ordered(s) {
        RemovedOrdered(s, k);
      }
    }

    /** Schedules a socket at once; one that is scheduled already is moved only on request. */
    method Update(n: CSNode, reschedule: bool)
      requires Valid() && n in nodes && (n.heapLoc < 0 ==> lastEntry + 1 < heap.Length)
      modifies this`lastEntry, heap, nodes`heapLoc, n`timeStamp
      ensures Valid() && n.heapLoc >= 0
      ensures var s, k := old(Entries()), old(n.heapLoc);
              Entries() == if k < 0 then Added(s, Entry(n, 1))
                           else if !reschedule then s
                           else if k == 0 then s[0 := Entry(n, 1)]
                           else Added(Removed(s, k), Entry(n, 1))
      ensures var s, k := old(Entries()), old(n.heapLoc);
              Ordered(s) && (forall i :: 0 <= i < |s| ==> s[i].time >= 1) && (k >= 0 ==> InPlace(s, k)) ==>
                Ordered(Entries()) && (reschedule || k < 0 ==> Entries()[0].time == 1)
    {
      hide Added, Removed, Ordered, InPlace, Entries, EntriesUpTo;
      ghost var s, k := Entries(), n.heapLoc;
      if Ordered(s) && (forall i :: 0 <= i < |s| ==> s[i].time >= 1) && (k >= 0 ==> InPlace(s, k)) {
        UpdateOrdered(s, k, n as CSNode?);
      }
      if n.heapLoc >= 0 {
        if !reschedule {
          return;
        }
        if n.heapLoc == 0 {
          n.timeStamp := 1;
          assert Entries() == s[0 := Entry(n, 1)];
          return;
        }
        RemoveNode(n);
      }
      InsertNode(1, n);
    }

    /** Serves the first socket: it leaves the schedule and comes back with the time of its next
        packet. Whether it is alive, whether it had a packet and that time come from outside. */
    method Pop(alive: bool, packed: bool, ts: int) returns (sent: bool, n: CSNode?)
      requires Valid()
      modifies this`lastEntry, heap, nodes`heapLoc, nodes`timeStamp
      ensures Valid()
      ensures var s := old(Entries());
              if s == [] then !sent && n == null && Entries() == s
              else n == s[0].node && sent == (alive && packed) &&
                   Entries() == if sent && ts > 0 then Added(Removed(s, 0), Entry(n, ts)) else Removed(s, 0)
      ensures Ordered(old(Entries())) ==> Ordered(Entries())
      ensures var s := old(Entries());
              Ordered(s) ==> forall i :: 0 <= i < |s| ==> s[0].time <= s[i].time
    {
      hide Added, Removed, Ordered;
      ghost var s := Entries();
      sent, n := false, null;
      PopOrdered(s, ts);
      if lastEntry == -1 {
        return;
      }
      n := heap[0];
      RemoveNode(n);
      if !alive || !packed {
        return;
      }
      sent := true;
      if ts > 0 {
        InsertNode(ts, n);
      }
    }

    method GetNextProcTime() returns (ts: int)
      requires Valid()
      ensures Entries() == [] ==> ts == 0
      ensures Entries() != [] && Ordered(Entries()) ==>
                (forall i :: 0 <= i < |Entries()| ==> ts <= Entries()[i].time)
                && exists i :: 0 <= i < |Entries()| && Entries()[i].time == ts
    {
      if lastEntry == -1 {
        return 0;
      }
      ts := heap[0].timeStamp;
      assert Entries()[0].time == ts;
      forall i | 0 <= i < |Entries()| ensures Ordered(Entries()) ==> ts <= Entries()[i].time {
        if Ordered(Entries()) {
          FirstIsEarliest(Entries(), i);
        }
      }
    }
  }
}
