/** The linked nodes of the two loss lists, as values.

    A loss list keeps intervals of sequence numbers in a circular array. A node lives in
    the slot of its first number, at a fixed distance from the slot of the head's first
    number. Here `nodes` maps each live slot to its interval in unbounded sequence numbers. */
module LossNodes {
  import opened Basics
  import opened SeqNo

  datatype Interval = Interval(lo: int, hi: int) {
    predicate Has(x: int) { lo <= x <= hi }
  }

  type Nodes = map<int, Interval>

  function Slot(x: int, phase: int, size: int): (j: int)
    requires size > 0
    ensures 0 <= j < size
  {
    (x + phase) % size
  }

  /** A single number has no recorded end. */
  function End(iv: Interval): int {
    if iv.lo == iv.hi then -1 else W(iv.hi)
  }

  function Range(a: int, b: int): set<int> {
    set x | a <= x <= b && Interval(a, b).Has(x)
  }

  ghost function Elems(nodes: Nodes): set<int> {
    set j, x | j in nodes && nodes[j].lo <= x <= nodes[j].hi && nodes[j].Has(x) :: x
  }

  /** The numbers of an interval, and those of a list: every number between the bounds of some node. */
  lemma RangeExact(a: int, b: int, nodes: Nodes, x: int)
    ensures x in Range(a, b) <==> a <= x <= b
    ensures x in Elems(nodes) <==> exists j :: j in nodes && nodes[j].lo <= x <= nodes[j].hi
  {
    forall j | j in nodes && nodes[j].lo <= x <= nodes[j].hi ensures x in Elems(nodes) {
      assert nodes[j].Has(x);
    }
  }

  /** The arrays hold exactly the live nodes; every other slot is cleared. */
  ghost predicate Stored(nodes: Nodes, d1: seq<int>, d2: seq<int>, phase: int, size: int) {
    && size > 0 && |d1| == |d2| == size
    && (forall j {:trigger nodes[j]} {:trigger d1[j]} {:trigger d2[j]} :: j in nodes ==>
          && 0 <= j < size && nodes[j].lo <= nodes[j].hi
          && d1[j] == W(nodes[j].lo) && d2[j] == End(nodes[j]))
    && (forall j :: j in nodes ==> j == Slot(nodes[j].lo, phase, size))
    && (forall j :: 0 <= j < size && j !in nodes ==> d1[j] == -1 && d2[j] == -1)
  }

  ghost predicate Ordered(nodes: Nodes) {
    forall i, j :: i in nodes && j in nodes && nodes[i].lo < nodes[j].lo ==> nodes[i].hi < nodes[j].lo
  }

  /** Ordered, except that node loc may reach into the nodes after it. */
  ghost predicate OrderedBut(nodes: Nodes, loc: int) {
    forall i, j :: i in nodes && j in nodes && i != loc && nodes[i].lo < nodes[j].lo ==> nodes[i].hi < nodes[j].lo
  }

  ghost predicate Windowed(nodes: Nodes, size: int) {
    forall i, j :: i in nodes && j in nodes ==> nodes[j].hi - nodes[i].lo < size
  }

  // ---- links -------------------------------------------------------------------------

  function Keys(nodes: Nodes): (keys: map<int, int>)
    ensures keys.Keys == nodes.Keys
    ensures forall j {:trigger keys[j]} {:trigger nodes[j]} :: j in nodes ==> keys[j] == nodes[j].lo
  {
    map j | j in nodes :: nodes[j].lo
  }

  /** Keys for the links in the opposite direction. */
  function BackKeys(nodes: Nodes): (keys: map<int, int>)
    ensures keys.Keys == nodes.Keys
    ensures forall j {:trigger keys[j]} {:trigger nodes[j]} :: j in nodes ==> keys[j] == -nodes[j].lo
  {
    map j | j in nodes :: -nodes[j].lo
  }

  /** n is the slot with the next larger key after slot j, or -1 if there is none. */
  ghost predicate Follows(keys: map<int, int>, j: int, n: int)
    requires j in keys
  {
    if n == -1 then forall i :: i in keys ==> keys[i] <= keys[j]
    else && n in keys && keys[j] < keys[n]
         && forall i :: i in keys ==> keys[i] <= keys[j] || keys[n] <= keys[i]
  }

  ghost predicate IsFirst(keys: map<int, int>, head: int) {
    if head == -1 then keys == map[]
    else head in keys && forall i :: i in keys ==> keys[head] <= keys[i]
  }

  ghost predicate Links(keys: map<int, int>, nx: seq<int>) {
    && (forall j :: j in keys ==> 0 <= j < |nx|)
    && forall j {:trigger Follows(keys, j, nx[j])} :: j in keys ==> Follows(keys, j, nx[j])
  }

  ghost predicate Linked(keys: map<int, int>, nx: seq<int>, head: int) {
    IsFirst(keys, head) && Links(keys, nx)
  }

  ghost predicate Injective(keys: map<int, int>) {
    forall i, j :: i in keys && j in keys && keys[i] == keys[j] ==> i == j
  }

  lemma LinkPrepend(keys: map<int, int>, nx: seq<int>, head: int, n: int, k: int)
    requires Linked(keys, nx, head) && 0 <= n < |nx| && n !in keys
    requires forall i :: i in keys ==> k < keys[i]
    ensures Linked(keys[n := k], nx[n := head], n)
  {
    var keys' := keys[n := k];
    forall j | j in keys'
      ensures Follows(keys', j, nx[n := head][j])
    {
      if j != n { assert Follows(keys, j, nx[j]); }
    }
  }

  lemma LinkAfter(keys: map<int, int>, nx: seq<int>, i: int, n: int, k: int)
    requires Links(keys, nx) && Injective(keys) && 0 <= n < |nx| && n !in keys && i in keys
    requires keys[i] < k && (nx[i] == -1 || (nx[i] in keys && k < keys[nx[i]]))
    ensures Links(keys[n := k], nx[n := nx[i]][i := n])
  {
    var keys', nx' := keys[n := k], nx[n := nx[i]][i := n];
    assert Follows(keys, i, nx[i]);
    forall j | j in keys'
      ensures Follows(keys', j, nx'[j])
    {
      if j != n { assert Follows(keys, j, nx[j]); }
    }
  }

  /** Unlinking the successor of p. */
  lemma LinkSkip(keys: map<int, int>, nx: seq<int>, p: int)
    requires Links(keys, nx) && Injective(keys) && p in keys && nx[p] != -1
    ensures nx[p] in keys && nx[p] != p
    ensures Links(keys - {nx[p]}, nx[p := nx[nx[p]]])
  {
    var i := nx[p];
    assert Follows(keys, p, i);
    var keys', nx' := keys - {i}, nx[p := nx[i]];
    forall j | j in keys'
      ensures Follows(keys', j, nx'[j])
    {
      assert Follows(keys, j, nx[j]);
      assert Follows(keys, i, nx[i]);
    }
  }

  lemma LinkDropFirst(keys: map<int, int>, nx: seq<int>, head: int)
    requires Linked(keys, nx, head) && Injective(keys) && head != -1
    ensures Linked(keys - {head}, nx, nx[head])
  {
    var keys' := keys - {head};
    assert Follows(keys, head, nx[head]);
    forall j | j in keys'
      ensures Follows(keys', j, nx[j])
    {
      assert Follows(keys, j, nx[j]);
    }
    if nx[head] == -1 {
      assert forall i :: i in keys ==> keys[i] == keys[head];
      assert forall i :: i in keys ==> i == head;
      assert keys'.Keys == {};
    }
  }

  /** Slot n with key k takes the place of slot j; p is the slot before j, or -1. */
  lemma LinkReplace(keys: map<int, int>, nx: seq<int>, head: int, p: int, j: int, n: int, k: int)
    requires Linked(keys, nx, head) && Injective(keys)
    requires j in keys && n !in keys && 0 <= n < |nx|
    requires if p == -1 then j == head else p in keys && nx[p] == j
    requires forall i :: i in keys && i != j ==> keys[i] != k && (keys[i] < keys[j] <==> keys[i] < k)
    ensures var keys' := (keys - {j})[n := k];
            var nx' := if p == -1 then nx[n := nx[j]] else nx[n := nx[j]][p := n];
            Linked(keys', nx', if p == -1 then n else head)
  {
    var keys' := (keys - {j})[n := k];
    var nx' := if p == -1 then nx[n := nx[j]] else nx[n := nx[j]][p := n];
    assert Follows(keys, j, nx[j]);
    if p != -1 { assert Follows(keys, p, nx[p]); }
    forall i | i in keys' ensures Follows(keys', i, nx'[i]) {
      if i != n { assert Follows(keys, i, nx[i]); }
    }
  }

  // ---- contents ----------------------------------------------------------------------

  lemma {:induction false} RangeSize(a: int, b: int)
    requires a <= b + 1
    ensures |Range(a, b)| == b - a + 1
    decreases b - a + 1
  {
    if a <= b {
      RangeSize(a, b - 1);
      assert Range(a, b) == Range(a, b - 1) + {b};
    } else {
      assert Range(a, b) == {};
    }
  }

  lemma ElemsSplit(nodes: Nodes, j: int)
    requires j in nodes
    ensures Elems(nodes) == Elems(nodes - {j}) + Range(nodes[j].lo, nodes[j].hi)
  {
    var rest := nodes - {j};
    forall x | x in Elems(nodes)
      ensures x in Elems(rest) + Range(nodes[j].lo, nodes[j].hi)
    {
      var i :| i in nodes && nodes[i].lo <= x <= nodes[i].hi && nodes[i].Has(x);
      if i != j { assert i in rest && rest[i].Has(x); }
    }
    forall x | x in Elems(rest) ensures x in Elems(nodes) {
      var i :| i in rest && rest[i].lo <= x <= rest[i].hi && rest[i].Has(x);
      assert i in nodes && nodes[i].Has(x);
    }
  }

  lemma ElemsSet(nodes: Nodes, j: int, iv: Interval)
    ensures Elems(nodes[j := iv]) == Elems(nodes - {j}) + Range(iv.lo, iv.hi)
    ensures nodes[j := iv] - {j} == nodes - {j}
  {
    assert nodes[j := iv] - {j} == nodes - {j};
    ElemsSplit(nodes[j := iv], j);
  }

  /** Taking a node out of an ordered list takes exactly its numbers. */
  lemma ElemsTake(nodes: Nodes, j: int)
    requires j in nodes && nodes[j].lo <= nodes[j].hi
    requires forall i :: i in nodes && i != j ==> nodes[i].hi < nodes[j].lo || nodes[j].hi < nodes[i].lo
    ensures Elems(nodes - {j}) == Elems(nodes) - Range(nodes[j].lo, nodes[j].hi)
    ensures |Elems(nodes)| == |Elems(nodes - {j})| + (nodes[j].hi - nodes[j].lo + 1)
  {
    ElemsSplit(nodes, j);
    var r := Range(nodes[j].lo, nodes[j].hi);
    RangeSize(nodes[j].lo, nodes[j].hi);
    forall x | x in Elems(nodes - {j}) ensures x !in r {
      var i :| i in nodes - {j} && (nodes - {j})[i].Has(x);
      assert nodes[i] == (nodes - {j})[i];
    }
    assert Elems(nodes - {j}) !! r;
  }

  lemma ElemsMember(nodes: Nodes, j: int, x: int)
    requires j in nodes && nodes[j].lo <= x <= nodes[j].hi
    ensures x in Elems(nodes)
  {
    assert nodes[j].Has(x);
  }

  lemma ElemsFind(nodes: Nodes, x: int) returns (j: int)
    requires x in Elems(nodes)
    ensures j in nodes && nodes[j].lo <= x <= nodes[j].hi
  {
    j :| j in nodes && nodes[j].lo <= x <= nodes[j].hi && nodes[j].Has(x);
  }

  // ---- slots -------------------------------------------------------------------------

  /** Numbers less than `size` apart have different slots. */
  lemma SlotInjective(x: int, y: int, phase: int, size: int)
    requires size > 0 && Abs(x - y) < size && Slot(x, phase, size) == Slot(y, phase, size)
    ensures x == y
  {
    ModUnique(x + phase, y + phase, size);
  }

  lemma ModShift(x: int, y: int, n: int)
    requires n > 0
    ensures (x % n + y) % n == (x + y) % n
    ensures (x % n + y + n) % n == (x + y) % n
  {
    var r := (x + y) % n;
    assert x + y == n * ((x + y) / n) + r && x == n * (x / n) + x % n;
    ModIs(x % n + y, n, (x + y) / n - x / n, r);
    ModIs(x % n + y + n, n, (x + y) / n - x / n + 1, r);
  }

  /** The slot computed from a distance to a node, as the lists compute it. */
  lemma SlotOffset(j: int, lo: int, x: int, phase: int, size: int)
    requires size > 0 && j == Slot(lo, phase, size)
    ensures (j + (x - lo) + size) % size == Slot(x, phase, size)
    ensures (j + (x - lo)) % size == Slot(x, phase, size)
  {
    ModShift(lo + phase, x - lo, size);
    assert lo + phase + (x - lo) == x + phase;
  }

  // ---- updates -----------------------------------------------------------------------

  lemma StoreAdd(nodes: Nodes, d1: seq<int>, d2: seq<int>, phase: int, size: int, n: int, iv: Interval)
    requires Stored(nodes, d1, d2, phase, size) && n !in nodes
    requires iv.lo <= iv.hi && n == Slot(iv.lo, phase, size)
    ensures Stored(nodes[n := iv], d1[n := W(iv.lo)], d2[n := End(iv)], phase, size)
  {
  }

  lemma StoreEnd(nodes: Nodes, d1: seq<int>, d2: seq<int>, phase: int, size: int, j: int, hi: int)
    requires Stored(nodes, d1, d2, phase, size) && j in nodes && nodes[j].lo <= hi
    ensures Stored(nodes[j := Interval(nodes[j].lo, hi)], d1, d2[j := End(Interval(nodes[j].lo, hi))], phase, size)
  {
  }

  lemma StoredAt(nodes: Nodes, d1: seq<int>, d2: seq<int>, phase: int, size: int, j: int)
    requires Stored(nodes, d1, d2, phase, size) && j in nodes
    ensures 0 <= j < size == |d1| == |d2| && nodes[j].lo <= nodes[j].hi
    ensures d1[j] == W(nodes[j].lo) && d2[j] == End(nodes[j]) && j == Slot(nodes[j].lo, phase, size)
  {
  }

  lemma StoreDrop(nodes: Nodes, d1: seq<int>, d2: seq<int>, phase: int, size: int, j: int)
    requires Stored(nodes, d1, d2, phase, size) && j in nodes
    ensures Stored(nodes - {j}, d1[j := -1], d2[j := -1], phase, size)
  {
  }

  /** What a link says about the nodes. */
  lemma NextNode(nodes: Nodes, nx: seq<int>, head: int, j: int)
    requires Linked(Keys(nodes), nx, head) && j in nodes
    ensures 0 <= j < |nx|
    ensures nx[j] == -1 ==> forall i :: i in nodes ==> nodes[i].lo <= nodes[j].lo
    ensures nx[j] != -1 ==>
              && nx[j] in nodes && nodes[j].lo < nodes[nx[j]].lo
              && forall i :: i in nodes ==> nodes[i].lo <= nodes[j].lo || nodes[nx[j]].lo <= nodes[i].lo
  {
    assert Follows(Keys(nodes), j, nx[j]);
    assert forall i :: i in nodes ==> i in Keys(nodes) && Keys(nodes)[i] == nodes[i].lo;
  }

  lemma FirstNode(nodes: Nodes, nx: seq<int>, head: int)
    requires Linked(Keys(nodes), nx, head)
    ensures head == -1 <==> nodes == map[]
    ensures head != -1 ==> head in nodes && forall i :: i in nodes ==> nodes[head].lo <= nodes[i].lo
  {
    assert forall i :: i in nodes ==> i in Keys(nodes) && Keys(nodes)[i] == nodes[i].lo;
    if head == -1 { assert nodes.Keys == {}; assert nodes == map[]; }
  }

  lemma OneNode(n: int, iv: Interval, nx: seq<int>)
    requires 0 <= n < |nx| && nx[n] == -1
    ensures Linked(Keys(map[n := iv]), nx, n)
  {
    assert Follows(Keys(map[n := iv]), n, -1);
  }

  lemma PriorNode(nodes: Nodes, pr: seq<int>, tail: int, j: int)
    requires Linked(BackKeys(nodes), pr, tail) && j in nodes
    ensures 0 <= j < |pr|
    ensures pr[j] == -1 ==> forall i :: i in nodes ==> nodes[j].lo <= nodes[i].lo
    ensures pr[j] != -1 ==>
              && pr[j] in nodes && nodes[pr[j]].lo < nodes[j].lo
              && forall i :: i in nodes ==> nodes[j].lo <= nodes[i].lo || nodes[i].lo <= nodes[pr[j]].lo
  {
    var keys := BackKeys(nodes);
    assert Follows(keys, j, pr[j]);
    assert forall i :: i in nodes ==> i in keys && keys[i] == -nodes[i].lo;
  }

  lemma LastNode(nodes: Nodes, pr: seq<int>, tail: int)
    requires Linked(BackKeys(nodes), pr, tail)
    ensures tail == -1 <==> nodes == map[]
    ensures tail != -1 ==> tail in nodes && forall i :: i in nodes ==> nodes[i].lo <= nodes[tail].lo
  {
    var keys := BackKeys(nodes);
    assert forall i :: i in nodes ==> i in keys && keys[i] == -nodes[i].lo;
    if tail == -1 { assert nodes.Keys == {}; assert nodes == map[]; }
  }

  /** Forward and backward links are inverse to each other. */
  lemma LinksInverse(nodes: Nodes, nx: seq<int>, head: int, pr: seq<int>, tail: int, p: int)
    requires Linked(Keys(nodes), nx, head) && Linked(BackKeys(nodes), pr, tail) && Injective(Keys(nodes))
    requires p in nodes && |pr| == |nx|
    ensures 0 <= p < |nx|
    ensures nx[p] != -1 ==> nx[p] in nodes && pr[nx[p]] == p
    ensures pr[p] != -1 ==> pr[p] in nodes && nx[pr[p]] == p
    ensures nx[p] == -1 <==> p == tail
    ensures pr[p] == -1 <==> p == head
  {
    NextNode(nodes, nx, head, p);
    PriorNode(nodes, pr, tail, p);
    FirstNode(nodes, nx, head);
    LastNode(nodes, pr, tail);
    assert forall i, j :: i in nodes && j in nodes && nodes[i].lo == nodes[j].lo ==>
        Keys(nodes)[i] == Keys(nodes)[j] ==> i == j;
    if nx[p] != -1 { PriorNode(nodes, pr, tail, nx[p]); }
    if pr[p] != -1 { NextNode(nodes, nx, head, pr[p]); }
  }

  lemma BackKeysSet(nodes: Nodes, n: int, iv: Interval)
    ensures BackKeys(nodes[n := iv]) == BackKeys(nodes)[n := -iv.lo]
    ensures BackKeys(nodes - {n}) == BackKeys(nodes) - {n}
  {
  }

  lemma BackKeysInjective(nodes: Nodes)
    requires Injective(Keys(nodes))
    ensures Injective(BackKeys(nodes))
  {
    forall i, j | i in BackKeys(nodes) && j in BackKeys(nodes) && BackKeys(nodes)[i] == BackKeys(nodes)[j]
      ensures i == j
    {
      assert Keys(nodes)[i] == Keys(nodes)[j];
    }
  }

  lemma KeysSet(nodes: Nodes, n: int, iv: Interval)
    ensures Keys(nodes[n := iv]) == Keys(nodes)[n := iv.lo]
    ensures Keys(nodes - {n}) == Keys(nodes) - {n}
  {
  }

  lemma KeysInjective(nodes: Nodes, d1: seq<int>, d2: seq<int>, phase: int, size: int)
    requires Stored(nodes, d1, d2, phase, size)
    ensures Injective(Keys(nodes))
  {
  }

  /** Numbers a..b can join the list: everything stays within one window of the array. */
  ghost predicate Fits(nodes: Nodes, a: int, b: int, size: int) {
    b - a < size && forall j :: j in nodes ==> b - nodes[j].lo < size && nodes[j].hi - a < size
  }

  lemma FitsElems(nodes: Nodes, a: int, b: int, size: int)
    requires b - a < size && forall x :: x in Elems(nodes) ==> b - x < size && x - a < size
    requires forall j :: j in nodes ==> nodes[j].lo <= nodes[j].hi
    ensures Fits(nodes, a, b, size)
  {
    forall j | j in nodes ensures b - nodes[j].lo < size && nodes[j].hi - a < size {
      ElemsMember(nodes, j, nodes[j].lo);
      ElemsMember(nodes, j, nodes[j].hi);
    }
  }

  /** The slot of a new first number is free. */
  lemma SlotFree(nodes: Nodes, d1: seq<int>, d2: seq<int>, phase: int, size: int, a: int, b: int)
    requires Stored(nodes, d1, d2, phase, size) && a <= b && Fits(nodes, a, b, size)
    ensures Slot(a, phase, size) in nodes ==> nodes[Slot(a, phase, size)].lo == a
  {
    if Slot(a, phase, size) in nodes {
      SlotInjective(a, nodes[Slot(a, phase, size)].lo, phase, size);
    }
  }

  lemma EmptyList(nodes: Nodes)
    requires forall j :: j in nodes ==> nodes[j].lo <= nodes[j].hi
    ensures |Elems(nodes)| == 0 <==> nodes == map[]
    ensures Elems(nodes) == {} <==> nodes == map[]
  {
    forall j | j in nodes ensures nodes[j].lo in Elems(nodes) {
      ElemsMember(nodes, j, nodes[j].lo);
    }
    if Elems(nodes) == {} {
      assert forall j :: j !in nodes;
      assert nodes == map[];
    }
  }

  /** Linking a new node between i and its successor. */
  lemma ChainAfter(nodes: Nodes, nx: seq<int>, head: int, i: int, n: int, iv: Interval)
    requires Linked(Keys(nodes), nx, head) && Injective(Keys(nodes))
    requires i in nodes && n !in nodes && 0 <= n < |nx| && nodes[i].lo < iv.lo
    requires forall j :: j in nodes ==> nodes[j].lo <= nodes[i].lo || iv.lo < nodes[j].lo
    ensures Linked(Keys(nodes[n := iv]), nx[n := nx[i]][i := n], head)
  {
    NextNode(nodes, nx, head, i);
    FirstNode(nodes, nx, head);
    KeysSet(nodes, n, iv);
    LinkAfter(Keys(nodes), nx, i, n, iv.lo);
  }

  /** Dropping the successor of p; p itself may grow. */
  lemma ChainSkip(nodes: Nodes, nx: seq<int>, head: int, p: int, iv: Interval)
    requires Linked(Keys(nodes), nx, head) && Injective(Keys(nodes))
    requires p in nodes && 0 <= p < |nx| && 0 <= nx[p] < |nx| && iv.lo == nodes[p].lo
    ensures Linked(Keys((nodes - {nx[p]})[p := iv]), nx[p := nx[nx[p]]], head)
  {
    NextNode(nodes, nx, head, p);
    FirstNode(nodes, nx, head);
    LinkSkip(Keys(nodes), nx, p);
    KeysSet(nodes, nx[p], iv);
    KeysSet(nodes - {nx[p]}, p, iv);
    assert Keys((nodes - {nx[p]})[p := iv]) == Keys(nodes) - {nx[p]};
  }

  lemma EmptyLinks(nx: seq<int>)
    ensures Linked(Keys(map[]), nx, -1)
  {
    assert Keys(map[]).Keys == {};
    assert Keys(map[]) == map[];
  }

  /** The first node of an empty list fixes which number goes to which slot. */
  lemma StoreFirst(d1: seq<int>, d2: seq<int>, phase: int, size: int, iv: Interval)
    requires Stored(map[], d1, d2, phase, size) && iv.lo <= iv.hi
    ensures Stored(map[0 := iv], d1[0 := W(iv.lo)], d2[0 := End(iv)], -iv.lo, size)
  {
    ModIs(0, size, 0, 0);
  }
}
