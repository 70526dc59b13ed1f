/** The receiver's loss list (class CRcvLossList): missing numbers, linked in both directions. */
module RcvLossList {
  import opened Basics
  import opened SeqNo
  import opened LossNodes
  import opened NakCodec

  const MAX_SIZE: int := 0x2000_0000

  // ---- double links, as values ---------------------------------------------------------

  ghost predicate DLinked(nodes: Nodes, nx: seq<int>, pr: seq<int>, head: int, tail: int) {
    && |nx| == |pr|
    && Linked(Keys(nodes), nx, head)
    && (nodes != map[] ==> Linked(BackKeys(nodes), pr, tail))
    && Injective(Keys(nodes))
  }

  lemma Ends(nodes: Nodes, nx: seq<int>, pr: seq<int>, head: int, tail: int)
    requires DLinked(nodes, nx, pr, head, tail)
    ensures head == -1 <==> nodes == map[]
    ensures nodes != map[] ==>
              && head in nodes && tail in nodes && 0 <= head < |nx| && 0 <= tail < |nx|
              && forall i :: i in nodes ==> nodes[head].lo <= nodes[i].lo <= nodes[tail].lo
  {
    hide Linked;
    FirstNode(nodes, nx, head);
    if nodes != map[] {
      LastNode(nodes, pr, tail);
      NextNode(nodes, nx, head, head);
      NextNode(nodes, nx, head, tail);
    }
  }

  lemma DFirst(n: int, iv: Interval, nx: seq<int>, pr: seq<int>)
    requires 0 <= n < |nx| == |pr| && nx[n] == -1 && pr[n] == -1
    ensures DLinked(map[n := iv], nx, pr, n, n)
  {
    OneNode(n, iv, nx);
    assert Follows(BackKeys(map[n := iv]), n, -1);
  }

  lemma KeysDiffer(nodes: Nodes, n: int, iv: Interval)
    requires Injective(Keys(nodes)) && n !in nodes
    requires forall j :: j in nodes ==> nodes[j].lo != iv.lo
    ensures Injective(Keys(nodes[n := iv]))
  {
    KeysSet(nodes, n, iv);
    var keys := Keys(nodes);
    assert forall i :: i in keys ==> keys[i] == nodes[i].lo;
  }

  lemma DAppend(nodes: Nodes, nx: seq<int>, pr: seq<int>, head: int, tail: int, n: int, iv: Interval)
    requires DLinked(nodes, nx, pr, head, tail) && tail in nodes && n !in nodes && 0 <= n < |nx|
    requires forall j :: j in nodes ==> nodes[j].lo < iv.lo
    ensures 0 <= tail < |nx|
    ensures DLinked(nodes[n := iv], nx[tail := n][n := -1], pr[n := tail], head, n)
  {
    hide Linked;
    LastNode(nodes, pr, tail);
    NextNode(nodes, nx, head, tail);
    ChainAfter(nodes, nx, head, tail, n, iv);
    assert nx[n := nx[tail]][tail := n] == nx[tail := n][n := -1];
    BackKeysSet(nodes, n, iv);
    var keys := BackKeys(nodes);
    assert forall i :: i in keys ==> keys[i] == -nodes[i].lo;
    LinkPrepend(keys, pr, tail, n, -iv.lo);
    KeysSet(nodes, n, iv);
    KeysDiffer(nodes, n, iv);
  }

  /** The links of node j, in both directions. */
  lemma Around(nodes: Nodes, nx: seq<int>, pr: seq<int>, head: int, tail: int, j: int)
    requires DLinked(nodes, nx, pr, head, tail) && j in nodes
    ensures 0 <= j < |nx| && (nx[j] == -1 <==> j == tail) && (pr[j] == -1 <==> j == head)
    ensures nx[j] != -1 ==>
              nx[j] in nodes && nx[j] != j && 0 <= nx[j] < |nx| && pr[nx[j]] == j
              && nodes[j].lo < nodes[nx[j]].lo
    ensures pr[j] != -1 ==>
              pr[j] in nodes && pr[j] != j && 0 <= pr[j] < |nx| && nx[pr[j]] == j
              && nodes[pr[j]].lo < nodes[j].lo
  {
    hide Linked;
    LinksInverse(nodes, nx, head, pr, tail, j);
    NextNode(nodes, nx, head, j);
    PriorNode(nodes, pr, tail, j);
    if nx[j] != -1 { NextNode(nodes, nx, head, nx[j]); }
    if pr[j] != -1 { NextNode(nodes, nx, head, pr[j]); }
  }

  lemma DropInjective(nodes: Nodes, j: int)
    requires Injective(Keys(nodes))
    ensures Injective(Keys(nodes - {j}))
  {
    KeysSet(nodes, j, Interval(0, 0));
  }

  lemma LinkSkipHead(nodes: Nodes, nx: seq<int>, head: int, p: int)
    requires Linked(Keys(nodes), nx, head) && Injective(Keys(nodes)) && p in nodes && 0 <= p < |nx|
    requires 0 <= nx[p] < |nx| && nx[p] != head
    ensures Linked(Keys(nodes - {nx[p]}), nx[p := nx[nx[p]]], head)
  {
    ChainSkip(nodes, nx, head, p, nodes[p]);
    assert (nodes - {nx[p]})[p := nodes[p]] == nodes - {nx[p]} by {
      NextNode(nodes, nx, head, p);
    }
  }

  lemma BackSkip(keys: map<int, int>, pr: seq<int>, tail: int, q: int)
    requires Linked(keys, pr, tail) && Injective(keys) && q in keys && 0 <= q < |pr|
    requires 0 <= pr[q] < |pr| && pr[q] != tail
    ensures Linked(keys - {pr[q]}, pr[q := pr[pr[q]]], tail)
  {
    LinkSkip(keys, pr, q);
  }

  lemma LinkSkipTail(nodes: Nodes, pr: seq<int>, tail: int, q: int)
    requires Linked(BackKeys(nodes), pr, tail) && Injective(Keys(nodes)) && q in nodes && 0 <= q < |pr|
    requires 0 <= pr[q] < |pr| && pr[q] != tail
    ensures Linked(BackKeys(nodes - {pr[q]}), pr[q := pr[pr[q]]], tail)
  {
    hide Linked;
    PriorNode(nodes, pr, tail, q);
    LastNode(nodes, pr, tail);
    BackKeysInjective(nodes);
    BackKeysSet(nodes, pr[q], nodes[q]);
    BackSkip(BackKeys(nodes), pr, tail, q);
  }

  lemma DUnlink(nodes: Nodes, nx: seq<int>, pr: seq<int>, head: int, tail: int, j: int)
    requires DLinked(nodes, nx, pr, head, tail) && j in nodes
    requires 0 <= j < |nx| == |pr| && -1 <= nx[j] < |nx| && -1 <= pr[j] < |nx|
    ensures var nx' := if j == head || pr[j] == -1 then nx else nx[pr[j] := nx[j]];
            var pr' := if nx[j] == -1 then pr else pr[nx[j] := pr[j]];
            var tail' := if nx[j] == -1 && j != head then pr[j] else tail;
            DLinked(nodes - {j}, nx', pr', if j == head then nx[j] else head, tail')
  {
    hide Linked;
    Around(nodes, nx, pr, head, tail, j);
    var rest := nodes - {j};
    var iv := nodes[j];
    KeysSet(nodes, j, iv);
    BackKeysSet(nodes, j, iv);
    BackKeysInjective(nodes);
    DropInjective(nodes, j);
    if j == head {
      LinkDropFirst(Keys(nodes), nx, head);
    } else {
      FirstNode(nodes, nx, head);
      LinkSkipHead(nodes, nx, head, pr[j]);
    }
    if nx[j] == -1 {
      LinkDropFirst(BackKeys(nodes), pr, tail);
      if j == head { LastNode(rest, pr, -1); }
    } else {
      LastNode(nodes, pr, tail);
      LinkSkipTail(nodes, pr, tail, nx[j]);
    }
  }

  lemma MoveForward(nodes: Nodes, nx: seq<int>, head: int, p: int, j: int, n: int, iv: Interval)
    requires Linked(Keys(nodes), nx, head) && Injective(Keys(nodes)) && j in nodes && n !in nodes
    requires 0 <= n < |nx| && 0 <= j < |nx| && if p == -1 then j == head else p in nodes && 0 <= p < |nx| && nx[p] == j
    requires forall i :: i in nodes && i != j ==>
               nodes[i].lo != iv.lo && (nodes[i].lo < nodes[j].lo <==> nodes[i].lo < iv.lo)
    ensures var nx' := if p == -1 then nx[n := nx[j]] else nx[n := nx[j]][p := n];
            Linked(Keys((nodes - {j})[n := iv]), nx', if p == -1 then n else head)
  {
    hide Linked;
    KeysSet(nodes, j, iv);
    KeysSet(nodes - {j}, n, iv);
    var keys := Keys(nodes);
    assert forall i :: i in keys ==> keys[i] == nodes[i].lo;
    LinkReplace(keys, nx, head, p, j, n, iv.lo);
  }

  lemma MoveBackward(nodes: Nodes, pr: seq<int>, tail: int, q: int, j: int, n: int, iv: Interval)
    requires Linked(BackKeys(nodes), pr, tail) && Injective(BackKeys(nodes)) && j in nodes && n !in nodes
    requires 0 <= n < |pr| && 0 <= j < |pr| && if q == -1 then j == tail else q in nodes && 0 <= q < |pr| && pr[q] == j
    requires forall i :: i in nodes && i != j ==> nodes[i].lo != nodes[j].lo
    requires forall i :: i in nodes && i != j ==>
               nodes[i].lo != iv.lo && (nodes[i].lo < nodes[j].lo <==> nodes[i].lo < iv.lo)
    ensures var pr' := if q == -1 then pr[n := pr[j]] else pr[n := pr[j]][q := n];
            Linked(BackKeys((nodes - {j})[n := iv]), pr', if q == -1 then n else tail)
  {
    hide Linked;
    BackKeysSet(nodes, j, iv);
    BackKeysSet(nodes - {j}, n, iv);
    var keys := BackKeys(nodes);
    assert forall i :: i in keys ==> keys[i] == -nodes[i].lo;
    LinkReplace(keys, pr, tail, q, j, n, -iv.lo);
  }

  /** Node j moves to slot n with a new start between its neighbours. */
  lemma DMove(nodes: Nodes, nx: seq<int>, pr: seq<int>, head: int, tail: int, j: int, n: int, iv: Interval)
    requires DLinked(nodes, nx, pr, head, tail) && j in nodes && n !in nodes && 0 <= n < |nx|
    requires 0 <= j < |nx| == |pr| && -1 <= nx[j] < |nx| && -1 <= pr[j] < |nx|
    requires forall i :: i in nodes && i != j ==>
               nodes[i].lo != iv.lo && (nodes[i].lo < nodes[j].lo <==> nodes[i].lo < iv.lo)
    ensures var nx' := if pr[j] == -1 then nx[n := nx[j]] else nx[n := nx[j]][pr[j] := n];
            var pr' := if nx[j] == -1 then pr[n := pr[j]] else pr[n := pr[j]][nx[j] := n];
            DLinked((nodes - {j})[n := iv], nx', pr', if pr[j] == -1 then n else head, if nx[j] == -1 then n else tail)
  {
    hide Linked;
    Around(nodes, nx, pr, head, tail, j);
    BackKeysInjective(nodes);
    KeysSet(nodes, j, iv);
    BackKeysSet(nodes, j, iv);
    KeysSet(nodes - {j}, n, iv);
    BackKeysSet(nodes - {j}, n, iv);
    DropInjective(nodes, j);
    KeysDiffer(nodes - {j}, n, iv);
    forall i | i in nodes && i != j ensures nodes[i].lo != nodes[j].lo {
      assert Keys(nodes)[i] != Keys(nodes)[j];
    }
    MoveForward(nodes, nx, head, pr[j], j, n, iv);
    MoveBackward(nodes, pr, tail, nx[j], j, n, iv);
  }

  lemma BackAfter(keys: map<int, int>, pr: seq<int>, tail: int, q: int, n: int, k: int)
    requires Linked(keys, pr, tail) && Injective(keys) && q in keys && n !in keys && 0 <= n < |pr| && 0 <= q < |pr|
    requires keys[q] < k && pr[q] in keys && k < keys[pr[q]]
    ensures Linked(keys[n := k], pr[n := pr[q]][q := n], tail)
  {
    LinkAfter(keys, pr, q, n, k);
  }

  lemma BackInsert(nodes: Nodes, nx: seq<int>, pr: seq<int>, head: int, tail: int, i: int, n: int, iv: Interval)
    requires Linked(BackKeys(nodes), pr, tail) && Injective(BackKeys(nodes)) && Linked(Keys(nodes), nx, head)
    requires i in nodes && n !in nodes && 0 <= n < |nx| == |pr| && 0 <= i < |nx| && -1 <= nx[i] < |nx|
    requires nodes[i].lo < iv.lo
    requires forall j :: j in nodes ==> nodes[j].lo <= nodes[i].lo || iv.lo < nodes[j].lo
    requires if nx[i] == -1 then i == tail else nx[i] in nodes && pr[nx[i]] == i
    ensures Linked(BackKeys(nodes[n := iv]), if nx[i] == -1 then pr[n := i] else pr[n := i][nx[i] := n],
                   if nx[i] == -1 then n else tail)
  {
    hide Linked;
    NextNode(nodes, nx, head, i);
    LastNode(nodes, pr, tail);
    BackKeysSet(nodes, n, iv);
    var back := BackKeys(nodes);
    assert forall j :: j in back ==> back[j] == -nodes[j].lo;
    if nx[i] == -1 {
      LinkPrepend(back, pr, tail, n, -iv.lo);
    } else {
      BackAfter(back, pr, tail, nx[i], n, -iv.lo);
    }
  }

  /** A new node n goes right after node i. */
  lemma DInsertAfter(nodes: Nodes, nx: seq<int>, pr: seq<int>, head: int, tail: int, i: int, n: int, iv: Interval)
    requires DLinked(nodes, nx, pr, head, tail) && i in nodes && n !in nodes && 0 <= n < |nx|
    requires 0 <= i < |nx| == |pr| && -1 <= nx[i] < |nx| && nodes[i].lo < iv.lo
    requires forall j :: j in nodes ==> nodes[j].lo <= nodes[i].lo || iv.lo < nodes[j].lo
    ensures var pr' := if nx[i] == -1 then pr[n := i] else pr[n := i][nx[i] := n];
            DLinked(nodes[n := iv], nx[n := nx[i]][i := n], pr', head, if nx[i] == -1 then n else tail)
  {
    hide Linked;
    Around(nodes, nx, pr, head, tail, i);
    ChainAfter(nodes, nx, head, i, n, iv);
    KeysDiffer(nodes, n, iv);
    BackKeysInjective(nodes);
    BackInsert(nodes, nx, pr, head, tail, i, n, iv);
  }

  // ---- the list ----------------------------------------------------------------------

  class CRcvLossList {
    const size: int
    const data1: array<int>
    const data2: array<int>
    const next: array<int>
    const prior: array<int>
    var head: int
    var tail: int
    var length: int
    ghost var nodes: Nodes
    ghost var phase: int

    ghost predicate Arrays() {
      && 0 < size <= MAX_SIZE
      && data1.Length == data2.Length == next.Length == prior.Length == size
      && data1 != data2 && data1 != next && data1 != prior && data2 != next && data2 != prior && next != prior
    }

    ghost predicate Valid()
      reads this, data1, data2, next, prior
    {
      && Arrays()
      && Stored(nodes, data1[..], data2[..], phase, size)
      && DLinked(nodes, next[..], prior[..], head, tail)
      && Windowed(nodes, size) && Ordered(nodes)
      && length == |Elems(nodes)|
    }

    ghost function Model(): set<int>
      reads this
    {
      Elems(nodes)
    }

    constructor (size: int)
      requires 0 < size <= MAX_SIZE
      ensures Valid() && Model() == {} && this.size == size
      ensures fresh(data1) && fresh(data2) && fresh(next) && fresh(prior)
    {
      this.size := size;
      data1 := new int[size](i => -1);
      data2 := new int[size](i => -1);
      next := new int[size];
      prior := new int[size];
      head, tail, length := -1, -1, 0;
      nodes, phase := map[], 0;
      new;
      EmptyList(nodes);
      EmptyLinks(next[..]);
    }

    /** Valid, but for the count of the numbers just added. */
    ghost predicate Counted(added: int)
      reads this, data1, data2, next, prior
    {
      && Arrays()
      && Stored(nodes, data1[..], data2[..], phase, size)
      && DLinked(nodes, next[..], prior[..], head, tail)
      && Windowed(nodes, size) && Ordered(nodes)
      && length + added == |Elems(nodes)|
    }

    static lemma ExtendedRange(lo: int, a: int, b: int)
      requires lo < a <= b + 1
      ensures Range(lo, b) == Range(lo, a - 1) + Range(a, b)
    {
    }

    lemma TailAdds(a: int, b: int)
      requires forall j :: j in nodes ==> nodes[j].hi < a
      requires a <= b
      ensures |Elems(nodes) + Range(a, b)| == |Elems(nodes)| + (b - a + 1)
    {
      hide Elems;
      RangeSize(a, b);
      forall x | x in Elems(nodes) ensures x < a {
        var j := ElemsFind(nodes, x);
      }
      assert Elems(nodes) !! Range(a, b);
    }

    lemma SameLinks(i: int, k: Interval)
      requires Valid() && i in nodes && k.lo == nodes[i].lo
      ensures DLinked(nodes[i := k], next[..], prior[..], head, tail)
    {
      hide Linked;
      assert Keys(nodes[i := k]) == Keys(nodes) && BackKeys(nodes[i := k]) == BackKeys(nodes);
    }

    lemma ExtendProof(a: int, b: int)
      requires Valid() && tail in nodes && nodes != map[] && a <= b && Fits(nodes, a, b, size)
      requires nodes[tail].hi + 1 == a && forall j :: j in nodes ==> nodes[j].lo <= nodes[tail].lo
      requires forall j :: j in nodes ==> nodes[j].lo <= nodes[j].hi < a
      ensures var iv := Interval(nodes[tail].lo, b);
              var n1 := nodes[tail := iv];
              && Stored(n1, data1[..], data2[..][tail := End(iv)], phase, size)
              && DLinked(n1, next[..], prior[..], head, tail) && Windowed(n1, size) && Ordered(n1)
              && Elems(n1) == Elems(nodes) + Range(a, b)
              && |Elems(n1)| == |Elems(nodes)| + (b - a + 1)
    {
      hide W, Slot, Elems, DLinked, Linked;
      var iv := Interval(nodes[tail].lo, b);
      StoreEnd(nodes, data1[..], data2[..], phase, size, tail, b);
      SameLinks(tail, iv);
      ElemsSet(nodes, tail, iv);
      ElemsSplit(nodes, tail);
      ExtendedRange(iv.lo, a, b);
      TailAdds(a, b);
    }

    method ExtendTail(seqno2: Wire, ghost a: int, ghost b: int)
      requires Valid() && tail in nodes && nodes != map[] && a <= b && Fits(nodes, a, b, size)
      requires nodes[tail].hi + 1 == a && forall j :: j in nodes ==> nodes[j].lo <= nodes[j].hi < a
      requires forall j :: j in nodes ==> nodes[j].lo <= nodes[tail].lo
      requires seqno2 == W(b)
      modifies this`nodes, data2
      ensures Counted(b - a + 1) && Model() == old(Model()) + Range(a, b)
    {
      hide W, Slot, Elems, DLinked, Linked, Windowed, Ordered, Stored;
      StoredAt(nodes, data1[..], data2[..], phase, size, tail);
      ExtendProof(a, b);
      assert nodes[tail].lo < b && b - nodes[tail].lo < size;
      NearArithmetic(nodes[tail].lo, b);
      data2[tail] := seqno2;
      nodes := nodes[tail := Interval(nodes[tail].lo, b)];
    }

    lemma AppendProof(loc: int, a: int, b: int)
      requires Valid() && tail in nodes && nodes != map[] && a <= b && Fits(nodes, a, b, size)
      requires loc == Slot(a, phase, size)
      requires forall j :: j in nodes ==> nodes[j].lo <= nodes[j].hi < a
      ensures 0 <= loc < size && 0 <= tail < size && loc !in nodes && data2[loc] == -1
      ensures var iv := Interval(a, b);
              var n1 := nodes[loc := iv];
              && Stored(n1, data1[..][loc := W(a)], data2[..][loc := End(iv)], phase, size)
              && DLinked(n1, next[..][tail := loc][loc := -1], prior[..][loc := tail], head, loc)
              && Windowed(n1, size) && Ordered(n1)
              && Elems(n1) == Elems(nodes) + Range(a, b)
              && |Elems(n1)| == |Elems(nodes)| + (b - a + 1)
    {
      hide W, Slot, Elems, DLinked, Linked;
      var iv := Interval(a, b);
      SlotFree(nodes, data1[..], data2[..], phase, size, a, b);
      assert loc !in nodes;
      StoreAdd(nodes, data1[..], data2[..], phase, size, loc, iv);
      DAppend(nodes, next[..], prior[..], head, tail, loc, iv);
      ElemsSet(nodes, loc, iv);
      assert nodes - {loc} == nodes;
      TailAdds(a, b);
    }

    method AppendNode(loc: int, seqno1: Wire, seqno2: Wire, ghost a: int, ghost b: int)
      requires Valid() && tail in nodes && nodes != map[] && a <= b && Fits(nodes, a, b, size)
      requires loc == Slot(a, phase, size) && seqno1 == W(a) && seqno2 == W(b)
      requires forall j :: j in nodes ==> nodes[j].lo <= nodes[j].hi < a
      modifies this`nodes, this`tail, data1, data2, next, prior
      ensures Counted(b - a + 1) && Model() == old(Model()) + Range(a, b)
    {
      hide W, Slot, Elems, DLinked, Linked, Windowed, Ordered, Stored;
      NearArithmetic(a, b);
      AppendProof(loc, a, b);
      ghost var d2 := data2[..];
      data1[loc] := seqno1;
      if seqno2 != seqno1 {
        data2[loc] := seqno2;
      }
      assert data2[..] == d2[loc := End(Interval(a, b))];
      next[tail] := loc;
      prior[loc] := tail;
      next[loc] := -1;
      tail := loc;
      nodes := nodes[loc := Interval(a, b)];
    }

    lemma NodesNonempty()
      requires Valid()
      ensures forall j :: j in nodes ==> nodes[j].lo <= nodes[j].hi && 0 <= j < size
    {
    }

    lemma InOrder(a: int)
      requires Valid() && forall x :: x in Model() ==> x < a
      ensures forall j :: j in nodes ==> nodes[j].lo <= nodes[j].hi < a
    {
      hide W, Slot, Elems, DLinked;
      NodesNonempty();
      assert Model() == Elems(nodes);
      forall j | j in nodes ensures nodes[j].hi < a {
        ElemsMember(nodes, j, nodes[j].hi);
      }
    }

    /** Writes a node that is linked to none, where an end of -1 that is there stays if there is one
        number only. */
    method StoreNode(loc: int, seqno1: Wire, seqno2: Wire)
      requires Arrays() && 0 <= loc < size
      modifies data1, data2, next, prior
      ensures data1[..] == old(data1[..])[loc := seqno1]
      ensures data2[..] == if seqno2 == seqno1 then old(data2[..]) else old(data2[..])[loc := seqno2]
      ensures next[..] == old(next[..])[loc := -1] && prior[..] == old(prior[..])[loc := -1]
    {
      data1[loc] := seqno1;
      if seqno2 != seqno1 {
        data2[loc] := seqno2;
      }
      next[loc] := -1;
      prior[loc] := -1;
    }

    method InsertFirst(seqno1: Wire, seqno2: Wire, ghost a: int, ghost b: int)
      requires Valid() && nodes == map[] && a <= b && seqno1 == W(a) && seqno2 == W(b) && b - a < size
      modifies this, data1, data2, next, prior
      ensures Valid() && Model() == Range(a, b)
    {
      hide W, Slot, Elems, DLinked, Linked;
      ghost var d1, d2, iv := data1[..], data2[..], Interval(a, b);
      ghost var none: Nodes := map[];
      NearArithmetic(a, b);
      LengthOfInterval(a, b);
      RangeSize(a, b);
      ElemsSet(none, 0, iv);
      EmptyList(none);
      StoreFirst(d1, d2, phase, size, iv);
      head := 0;
      tail := 0;
      StoreNode(head, seqno1, seqno2);
      length := length + SeqLen(seqno1, seqno2);
      phase := -a;
      nodes := map[0 := iv];
      assert nodes == none[0 := iv] && none - {0} == none;
      assert d2[0 := -1] == d2;
      DFirst(0, iv, next[..], prior[..]);
    }

    /** Appends the numbers from seqno1 to seqno2, which are after all numbers in the list. */
    method Insert(seqno1: Wire, seqno2: Wire, ghost a: int, ghost b: int)
      requires Valid() && a <= b && seqno1 == W(a) && seqno2 == W(b)
      requires b - a < size && forall x :: x in Model() ==> x < a && b - x < size
      modifies this, data1, data2, next, prior
      ensures Valid() && Model() == old(Model()) + Range(a, b)
    {
      hide W, Slot, Elems, DLinked, Linked, Windowed, Ordered;
      NodesNonempty();
      EmptyList(nodes);
      Ends(nodes, next[..], prior[..], head, tail);
      NearArithmetic(a, b);
      LengthOfInterval(a, b);
      if length == 0 {
        assert Elems(nodes) == {};
        InsertFirst(seqno1, seqno2, a, b);
        return;
      }
      assert Model() == Elems(nodes);
      FitsElems(nodes, a, b, size);
      InOrder(a);
      NearArithmetic(nodes[head].lo, a);
      var offset := SeqOff(data1[head], seqno1);
      var loc := (head + offset) % size;
      SlotOffset(head, nodes[head].lo, a, phase, size);
      SlotFree(nodes, data1[..], data2[..], phase, size, a, b);
      IncSeqIsNext(nodes[tail].hi);
      NearArithmetic(nodes[tail].hi + 1, a);
      if data2[tail] != -1 && IncSeq(data2[tail]) == seqno1 {
        ExtendTail(seqno2, a, b);
      } else {
        AppendNode(loc, seqno1, seqno2, a, b);
      }
      length := length + SeqLen(seqno1, seqno2);
    }

    method GetLossLength() returns (len: int)
      requires Valid()
      ensures len == |Model()|
    {
      len := length;
    }

    /** The smallest missing number, or -1. */
    method GetFirstLostSeq() returns (seqno: int, ghost s: int)
      requires Valid()
      ensures Model() == {} ==> seqno == -1
      ensures Model() != {} ==> seqno == W(s) && s in Model() && forall x :: x in Model() ==> s <= x
    {
      hide W, Slot, Elems, DLinked, Linked;
      s := 0;
      NodesNonempty();
      EmptyList(nodes);
      Ends(nodes, next[..], prior[..], head, tail);
      if length == 0 {
        assert Elems(nodes) == {};
        return -1, s;
      }
      s := nodes[head].lo;
      seqno := data1[head];
      ElemsMember(nodes, head, s);
      forall x | x in Elems(nodes) ensures s <= x {
        var j := ElemsFind(nodes, x);
      }
    }

    lemma SpanBound(j: int)
      requires Valid() && j in nodes
      ensures nodes[j].hi - nodes[j].lo < size
    {
    }

    /** The other nodes lie wholly before or after node j. */
    lemma Apart(j: int)
      requires Valid() && j in nodes
      ensures forall i :: i in nodes && i != j ==> nodes[i].hi < nodes[j].lo || nodes[j].hi < nodes[i].lo
    {
      hide W, Slot, Elems, DLinked, Linked;
      KeysInjective(nodes, data1[..], data2[..], phase, size);
      assert forall i :: i in nodes && Keys(nodes)[i] == Keys(nodes)[j] ==> i == j;
    }

    lemma UnlinkProof(j: int)
      requires Valid() && j in nodes && nodes[j].lo == nodes[j].hi
      requires 0 <= j < size && -1 <= next[j] < size && -1 <= prior[j] < size
      ensures var n1 := nodes - {j};
              var nx' := if j == head || prior[j] == -1 then next[..] else next[..][prior[j] := next[j]];
              var pr' := if next[j] == -1 then prior[..] else prior[..][next[j] := prior[j]];
              var tail' := if next[j] == -1 && j != head then prior[j] else tail;
              && Stored(n1, data1[..][j := -1], data2[..][j := -1], phase, size)
              && DLinked(n1, nx', pr', if j == head then next[j] else head, tail')
              && Windowed(n1, size) && Ordered(n1)
              && Elems(n1) == Elems(nodes) - {nodes[j].lo}
              && |Elems(n1)| == |Elems(nodes)| - 1
    {
      hide W, Slot, Elems, DLinked, Linked;
      StoreDrop(nodes, data1[..], data2[..], phase, size, j);
      DUnlink(nodes, next[..], prior[..], head, tail, j);
      Apart(j);
      ElemsTake(nodes, j);
      assert Range(nodes[j].lo, nodes[j].hi) == {nodes[j].lo};
    }

    /** Removes node j, a single number. */
    method Unlink(j: int, ghost s: int)
      requires Valid() && j in nodes && nodes[j].lo == nodes[j].hi == s && data2[j] == -1
      modifies this`nodes, this`head, this`tail, data1, next, prior
      ensures Counted(-1) && Model() == old(Model()) - {s}
    {
      hide W, Slot, Elems, DLinked, Linked, Windowed, Ordered, Stored;
      StoredAt(nodes, data1[..], data2[..], phase, size, j);
      Around(nodes, next[..], prior[..], head, tail, j);
      UnlinkProof(j);
      ghost var d2, nx, pr := data2[..], next[..], prior[..];
      if head == j {
        head := next[head];
        if head != -1 {
          prior[head] := -1;
        }
      } else {
        next[prior[j]] := next[j];
        if next[j] != -1 {
          prior[next[j]] := prior[j];
        } else {
          tail := prior[j];
        }
      }
      data1[j] := -1;
      assert d2 == d2[j := -1];
      nodes := nodes - {j};
    }

    method MoveData(j: int, i: int, ghost s: int, ghost hi: int)
      requires Arrays() && 0 <= i < size && 0 <= j < size && i != j && s < hi < s + size
      requires data1[j] == W(s) && data2[j] == W(hi) && data2[i] == -1
      modifies data1, data2
      ensures data1[..] == old(data1[..])[i := W(s + 1)][j := -1]
      ensures data2[..] == old(data2[..])[i := End(Interval(s + 1, hi))][j := -1]
    {
      hide W;
      ghost var d2 := data2[..];
      IncSeqIsNext(s);
      NearArithmetic(hi, s + 1);
      data1[i] := IncSeq(data1[j]);
      if SeqCmp(data2[j], IncSeq(data1[j])) > 0 {
        data2[i] := data2[j];
      }
      assert data2[..] == d2[i := End(Interval(s + 1, hi))];
      data1[j] := -1;
      data2[j] := -1;
    }

    static lemma MoveStored(n0: Nodes, d1: seq<int>, d2: seq<int>, phase: int, size: int, j: int, n: int, iv: Interval)
      requires Stored(n0, d1, d2, phase, size) && j in n0 && n !in n0 && n == Slot(iv.lo, phase, size)
      requires n0[j].lo < iv.lo <= iv.hi == n0[j].hi && Windowed(n0, size) && Ordered(n0)
      requires forall i :: i in n0 && i != j ==> n0[i].hi < n0[j].lo || n0[j].hi < n0[i].lo
      ensures var n1 := (n0 - {j})[n := iv];
              && Stored(n1, d1[n := W(iv.lo)][j := -1], d2[n := End(iv)][j := -1], phase, size)
              && Windowed(n1, size) && Ordered(n1)
    {
      hide W, Slot;
      StoreDrop(n0, d1, d2, phase, size, j);
      StoreAdd(n0 - {j}, d1[j := -1], d2[j := -1], phase, size, n, iv);
      assert d1[n := W(iv.lo)][j := -1] == d1[j := -1][n := W(iv.lo)];
      assert d2[n := End(iv)][j := -1] == d2[j := -1][n := End(iv)];
    }

    static lemma MoveElems(n0: Nodes, j: int, n: int, iv: Interval)
      requires j in n0 && n !in n0 && iv == Interval(n0[j].lo + 1, n0[j].hi) && n0[j].lo < n0[j].hi
      requires forall i :: i in n0 && i != j ==> n0[i].hi < n0[j].lo || n0[j].hi < n0[i].lo
      ensures Elems((n0 - {j})[n := iv]) == Elems(n0) - {n0[j].lo}
      ensures |Elems((n0 - {j})[n := iv])| == |Elems(n0)| - 1
    {
      hide Elems;
      ElemsTake(n0, j);
      ElemsSet(n0 - {j}, n, iv);
      assert n0 - {j} - {n} == n0 - {j};
      ElemsSplit(n0, j);
      ElemsMember(n0, j, n0[j].lo);
    }

    lemma MoveProof(j: int, n: int, iv: Interval)
      requires Valid() && j in nodes && nodes[j].lo < nodes[j].hi == iv.hi && iv.lo == nodes[j].lo + 1
      requires n == Slot(iv.lo, phase, size)
      requires 0 <= j < size && -1 <= next[j] < size && -1 <= prior[j] < size
      ensures 0 <= n < size && n !in nodes && data1[n] == -1 && data2[n] == -1
      ensures var n1 := (nodes - {j})[n := iv];
              var nx' := if prior[j] == -1 then next[..][n := next[j]] else next[..][n := next[j]][prior[j] := n];
              var pr' := if next[j] == -1 then prior[..][n := prior[j]] else prior[..][n := prior[j]][next[j] := n];
              && Stored(n1, data1[..][n := W(iv.lo)][j := -1], data2[..][n := End(iv)][j := -1], phase, size)
              && DLinked(n1, nx', pr', if prior[j] == -1 then n else head, if next[j] == -1 then n else tail)
              && Windowed(n1, size) && Ordered(n1)
              && Elems(n1) == Elems(nodes) - {nodes[j].lo}
              && |Elems(n1)| == |Elems(nodes)| - 1
    {
      hide W, Slot, Elems, DLinked, Linked;
      Apart(j);
      SlotFree(nodes, data1[..], data2[..], phase, size, iv.lo, iv.hi);
      assert n !in nodes;
      MoveStored(nodes, data1[..], data2[..], phase, size, j, n, iv);
      DMove(nodes, next[..], prior[..], head, tail, j, n, iv);
      MoveElems(nodes, j, n, iv);
    }

    /** Takes the first number off node j, which moves to the next slot. */
    method MoveStart(j: int, ghost s: int)
      requires Valid() && j in nodes && nodes[j].lo == s < nodes[j].hi
      modifies this`nodes, this`head, this`tail, data1, data2, next, prior
      ensures Counted(-1) && Model() == old(Model()) - {s}
    {
      hide W, Slot, Elems, DLinked, Linked, Ordered, Stored, Windowed;
      StoredAt(nodes, data1[..], data2[..], phase, size, j);
      Around(nodes, next[..], prior[..], head, tail, j);
      ghost var n0, iv := nodes, Interval(s + 1, nodes[j].hi);
      assert nodes[j].hi - s < size by { SpanBound(j); }
      var i := (j + 1) % size;
      SlotOffset(j, s, s + 1, phase, size);
      MoveProof(j, i, iv);
      MoveData(j, i, s, iv.hi);
      next[i] := next[j];
      prior[i] := prior[j];
      if head == j {
        head := i;
      } else {
        next[prior[i]] := i;
      }
      if tail == j {
        tail := i;
      } else {
        prior[next[i]] := i;
      }
      nodes := (n0 - {j})[i := iv];
    }

    /** The number starts node loc. */
    method RemoveStart(loc: int, ghost s: int)
      requires Valid() && loc in nodes && nodes[loc].lo == s
      modifies this`nodes, this`head, this`tail, data1, data2, next, prior
      ensures Counted(-1) && Model() == old(Model()) - {s} && s in old(Model())
    {
      hide W, Slot, Elems, DLinked, Linked, Windowed, Ordered;
      StoredAt(nodes, data1[..], data2[..], phase, size, loc);
      assert nodes[loc].hi - nodes[loc].lo < size by { SpanBound(loc); }
      NearArithmetic(nodes[loc].lo, nodes[loc].hi);
      ElemsMember(nodes, loc, s);
      if data2[loc] == -1 {
        Unlink(loc, s);
      } else {
        MoveStart(loc, s);
      }
    }

    /** Node i is the last one that starts before s (or s is past the whole window) and ends before s. */
    lemma NotWithin(i: int, s: int)
      requires Valid() && i in nodes && nodes[i].hi < s
      requires forall j :: j in nodes ==> nodes[j].lo <= nodes[i].lo || s < nodes[j].lo || nodes[j].hi < s
      ensures s !in Elems(nodes)
    {
      hide W, Slot, Elems, DLinked, Linked;
      if s in Elems(nodes) {
        var j := ElemsFind(nodes, s);
        assert Keys(nodes)[i] == Keys(nodes)[j] ==> i == j by {
          KeysInjective(nodes, data1[..], data2[..], phase, size);
        }
      }
    }

    lemma SlotStep(x: int)
      requires Arrays()
      ensures (Slot(x, phase, size) - 1 + size) % size == Slot(x - 1, phase, size)
    {
      SlotOffset(Slot(x, phase, size), x, x - 1, phase, size);
    }

    /** The head does not start at s, so it starts before s. */
    lemma HeadNotHere(loc: int, s: int)
      requires Valid() && head in nodes && nodes[head].lo <= s && loc == Slot(s, phase, size)
      requires loc in nodes ==> nodes[loc].lo != s
      ensures nodes[head].lo < s
    {
    }

    lemma InSlots()
      requires Valid()
      ensures forall j :: j in nodes ==> Slot(nodes[j].lo, phase, size) == j && nodes[j].lo <= nodes[j].hi
    {
      hide W, Slot, DLinked;
    }

    lemma Nearest(i: int, y: int, s: int)
      requires Valid() && head in nodes && nodes[head].lo <= y < s && i in nodes && i == Slot(y, phase, size)
      requires forall x :: y < x < s ==> Slot(x, phase, size) !in nodes
      requires Slot(s, phase, size) in nodes ==> nodes[Slot(s, phase, size)].lo != s
      ensures forall j :: j in nodes ==> nodes[j].lo <= nodes[i].lo || s < nodes[j].lo || nodes[j].hi < s
      ensures nodes[i].lo < s || nodes[i].hi < s
    {
      hide W, Elems, DLinked, Linked, Slot, Stored;
      Ends(nodes, next[..], prior[..], head, tail);
      NodesNonempty();
      InSlots();
      if y - nodes[head].lo < size {
        SlotInjective(y, nodes[i].lo, phase, size);
        forall j | j in nodes && y < nodes[j].lo ensures s < nodes[j].lo {
        }
      }
    }

    /** Scans the slots before loc, backwards, for a live node. */
    method SearchBack(loc: int, ghost s: int) returns (i: int)
      requires Valid() && head in nodes && nodes[head].lo <= s && loc == Slot(s, phase, size)
      requires loc in nodes ==> nodes[loc].lo != s
      ensures i in nodes
      ensures forall j :: j in nodes ==> nodes[j].lo <= nodes[i].lo || s < nodes[j].lo || nodes[j].hi < s
      ensures nodes[i].lo < s || nodes[i].hi < s
    {
      hide W, Elems, DLinked, Linked, Slot;
      Ends(nodes, next[..], prior[..], head, tail);
      ghost var y := s - 1;
      SlotStep(s);
      HeadNotHere(loc, s);
      i := (loc - 1 + size) % size;
      while data1[i] == -1
        invariant 0 <= i < size && i == Slot(y, phase, size) && nodes[head].lo <= y < s
        invariant forall x :: y < x < s ==> Slot(x, phase, size) !in nodes
        decreases y - nodes[head].lo
      {
        SlotStep(y);
        i := (i - 1 + size) % size;
        y := y - 1;
      }
      Nearest(i, y, s);
    }

    static lemma TrimStored(n0: Nodes, d1: seq<int>, d2: seq<int>, phase: int, size: int, i: int, iv: Interval)
      requires Stored(n0, d1, d2, phase, size) && i in n0 && Windowed(n0, size) && Ordered(n0)
      requires iv == Interval(n0[i].lo, n0[i].hi - 1) && iv.lo <= iv.hi
      ensures Stored(n0[i := iv], d1, d2[i := End(iv)], phase, size) && Windowed(n0[i := iv], size)
              && Ordered(n0[i := iv])
    {
      hide W, Slot;
      StoreEnd(n0, d1, d2, phase, size, i, iv.hi);
    }

    static lemma TrimElems(n0: Nodes, i: int)
      requires i in n0 && n0[i].lo < n0[i].hi
      requires forall j :: j in n0 && j != i ==> n0[j].hi < n0[i].lo || n0[i].hi < n0[j].lo
      ensures var n1 := n0[i := Interval(n0[i].lo, n0[i].hi - 1)];
              Elems(n1) == Elems(n0) - {n0[i].hi} && |Elems(n1)| == |Elems(n0)| - 1
    {
      hide Elems;
      ElemsTake(n0, i);
      ElemsSet(n0, i, Interval(n0[i].lo, n0[i].hi - 1));
      ElemsSplit(n0, i);
      ElemsMember(n0, i, n0[i].hi);
    }

    lemma TrimProof(i: int)
      requires Valid() && i in nodes && nodes[i].lo < nodes[i].hi
      ensures var iv := Interval(nodes[i].lo, nodes[i].hi - 1);
              var n1 := nodes[i := iv];
              && Stored(n1, data1[..], data2[..][i := End(iv)], phase, size)
              && DLinked(n1, next[..], prior[..], head, tail) && Windowed(n1, size) && Ordered(n1)
              && Elems(n1) == Elems(nodes) - {nodes[i].hi}
              && |Elems(n1)| == |Elems(nodes)| - 1
    {
      hide W, Slot, Elems, DLinked, Linked, Stored, Windowed, Ordered;
      var iv := Interval(nodes[i].lo, nodes[i].hi - 1);
      Apart(i);
      TrimStored(nodes, data1[..], data2[..], phase, size, i, iv);
      SameLinks(i, iv);
      TrimElems(nodes, i);
    }

    /** Takes the last number off node i. */
    method TrimEnd(i: int, seqno: Wire, ghost s: int)
      requires Valid() && i in nodes && nodes[i].lo < s == nodes[i].hi && seqno == W(s)
      modifies this`nodes, data2
      ensures Counted(-1) && Model() == old(Model()) - {s}
    {
      hide W, Slot, Elems, DLinked, Linked, Ordered, Stored;
      StoredAt(nodes, data1[..], data2[..], phase, size, i);
      TrimProof(i);
      IncSeqIsNext(nodes[i].lo);
      DecSeqIsPrevious(s);
      NearArithmetic(s, nodes[i].lo + 1);
      if seqno == IncSeq(data1[i]) {
        data2[i] := -1;
      } else {
        data2[i] := DecSeq(seqno);
      }
      nodes := nodes[i := Interval(nodes[i].lo, s - 1)];
    }

    method SplitData(i: int, loc: int, seqno: Wire, ghost s: int, ghost lo: int, ghost hi: int)
      requires Arrays() && 0 <= i < size && 0 <= loc < size && loc != i
      requires seqno == W(s) && lo < s < hi && hi - lo < size
      requires data1[i] == W(lo) && data2[i] == W(hi) && data2[loc] == -1
      modifies data1, data2
      ensures data1[..] == old(data1[..])[loc := W(s + 1)]
      ensures data2[..] == old(data2[..])[i := End(Interval(lo, s - 1))][loc := End(Interval(s + 1, hi))]
    {
      hide W;
      IncSeqIsNext(s);
      DecSeqIsPrevious(s);
      IncSeqIsNext(lo);
      NearArithmetic(hi, s + 1);
      NearArithmetic(s, lo + 1);
      data1[loc] := IncSeq(seqno);
      if SeqCmp(data2[i], data1[loc]) > 0 {
        data2[loc] := data2[i];
      }
      if seqno == IncSeq(data1[i]) {
        data2[i] := -1;
      } else {
        data2[i] := DecSeq(seqno);
      }
    }

    lemma SplitNodeLinks(i: int, loc: int, k: Interval, r: Interval)
      requires Valid() && i in nodes && loc !in nodes && 0 <= loc < size
      requires nodes[i].lo == k.lo < r.lo && r.lo <= nodes[i].hi
      requires 0 <= i < size && -1 <= next[i] < size
      ensures var pr' := if next[i] == -1 then prior[..][loc := i] else prior[..][loc := i][next[i] := loc];
              DLinked(nodes[i := k][loc := r], next[..][loc := next[i]][i := loc], pr', head,
                      if next[i] == -1 then loc else tail)
    {
      hide W, Slot, Elems, DLinked, Linked;
      Apart(i);
      SameLinks(i, k);
      DInsertAfter(nodes[i := k], next[..], prior[..], head, tail, i, loc, r);
    }

    static lemma SplitNodeStored(n0: Nodes, d1: seq<int>, d2: seq<int>, phase: int, size: int, i: int, loc: int, s: int)
      requires Stored(n0, d1, d2, phase, size) && i in n0 && loc !in n0 && loc == Slot(s + 1, phase, size)
      requires n0[i].lo < s < n0[i].hi && Windowed(n0, size) && Ordered(n0)
      requires forall j :: j in n0 && j != i ==> n0[j].hi < n0[i].lo || n0[i].hi < n0[j].lo
      ensures var (k, r) := (Interval(n0[i].lo, s - 1), Interval(s + 1, n0[i].hi));
              var n1 := n0[i := k][loc := r];
              && Stored(n1, d1[loc := W(s + 1)], d2[i := End(k)][loc := End(r)], phase, size)
              && Windowed(n1, size) && Ordered(n1)
    {
      hide W, Slot;
      var k, r := Interval(n0[i].lo, s - 1), Interval(s + 1, n0[i].hi);
      StoreEnd(n0, d1, d2, phase, size, i, s - 1);
      StoreAdd(n0[i := k], d1, d2[i := End(k)], phase, size, loc, r);
    }

    static lemma SplitNodeElems(n0: Nodes, i: int, loc: int, s: int)
      requires i in n0 && loc !in n0 && n0[i].lo < s < n0[i].hi
      requires forall j :: j in n0 && j != i ==> n0[j].hi < n0[i].lo || n0[i].hi < n0[j].lo
      ensures var n1 := n0[i := Interval(n0[i].lo, s - 1)][loc := Interval(s + 1, n0[i].hi)];
              Elems(n1) == Elems(n0) - {s} && |Elems(n1)| == |Elems(n0)| - 1
    {
      hide Elems;
      var k := Interval(n0[i].lo, s - 1);
      ElemsTake(n0, i);
      ElemsSet(n0[i := k], loc, Interval(s + 1, n0[i].hi));
      assert n0[i := k] - {loc} == n0[i := k];
      ElemsSet(n0, i, k);
      ElemsSplit(n0, i);
      ElemsMember(n0, i, s);
    }

    lemma SplitNodeProof(i: int, loc: int, s: int)
      requires Valid() && i in nodes && nodes[i].lo < s < nodes[i].hi && loc == Slot(s + 1, phase, size)
      requires 0 <= i < size && -1 <= next[i] < size
      ensures 0 <= loc < size && loc !in nodes && data2[loc] == -1
      ensures var (k, r) := (Interval(nodes[i].lo, s - 1), Interval(s + 1, nodes[i].hi));
              var n1 := nodes[i := k][loc := r];
              var pr' := if next[i] == -1 then prior[..][loc := i] else prior[..][loc := i][next[i] := loc];
              && Stored(n1, data1[..][loc := W(s + 1)], data2[..][i := End(k)][loc := End(r)], phase, size)
              && DLinked(n1, next[..][loc := next[i]][i := loc], pr', head, if next[i] == -1 then loc else tail)
              && Windowed(n1, size) && Ordered(n1)
              && Elems(n1) == Elems(nodes) - {s}
              && |Elems(n1)| == |Elems(nodes)| - 1
    {
      hide W, Slot, Elems, DLinked, Linked;
      var k, r := Interval(nodes[i].lo, s - 1), Interval(s + 1, nodes[i].hi);
      Apart(i);
      SlotFree(nodes, data1[..], data2[..], phase, size, s + 1, nodes[i].hi);
      assert loc !in nodes;
      SplitNodeStored(nodes, data1[..], data2[..], phase, size, i, loc, s);
      SplitNodeLinks(i, loc, k, r);
      SplitNodeElems(nodes, i, loc, s);
    }

    /** Takes s out of the middle of node i; the numbers after s move to slot loc. */
    method SplitNode(i: int, loc: int, seqno: Wire, ghost s: int)
      requires Valid() && i in nodes && nodes[i].lo < s < nodes[i].hi && seqno == W(s)
      requires loc == Slot(s + 1, phase, size)
      requires forall j :: j in nodes ==> nodes[j].lo <= nodes[i].lo || s < nodes[j].lo || nodes[j].hi < s
      modifies this`nodes, this`tail, data1, data2, next, prior
      ensures Counted(-1) && Model() == old(Model()) - {s}
    {
      hide W, Slot, Elems, DLinked, Linked, Ordered, Stored;
      StoredAt(nodes, data1[..], data2[..], phase, size, i);
      Around(nodes, next[..], prior[..], head, tail, i);
      ghost var n0, k, r := nodes, Interval(nodes[i].lo, s - 1), Interval(s + 1, nodes[i].hi);
      assert nodes[i].hi - nodes[i].lo < size;
      SplitNodeProof(i, loc, s);
      SplitData(i, loc, seqno, s, nodes[i].lo, nodes[i].hi);
      next[loc] := next[i];
      next[i] := loc;
      prior[loc] := i;
      if tail == i {
        tail := loc;
      } else {
        prior[next[loc]] := loc;
      }
      nodes := n0[i := k][loc := r];
    }

    /** No node starts with the number; a node before it may contain it. */
    method RemoveInside(loc: int, seqno: Wire, ghost s: int) returns (found: bool)
      requires Valid() && head in nodes && nodes[head].lo <= s && loc == Slot(s, phase, size) && seqno == W(s)
      requires loc in nodes ==> nodes[loc].lo != s
      requires forall j :: j in nodes ==> Near(nodes[j].lo, s) && Near(nodes[j].hi, s)
      modifies this`nodes, this`tail, data1, data2, next, prior
      ensures found ==> Counted(-1) && Model() == old(Model()) - {s} && s in old(Model())
      ensures !found ==> Valid() && Model() == old(Model()) && s !in Model()
    {
      hide W, Slot, Elems, DLinked, Linked, Windowed, Ordered, Stored;
      var i := SearchBack(loc, s);
      StoredAt(nodes, data1[..], data2[..], phase, size, i);
      NearArithmetic(s, nodes[i].hi);
      if data2[i] == -1 || SeqCmp(seqno, data2[i]) > 0 {
        NotWithin(i, s);
        return false;
      }
      ElemsMember(nodes, i, s);
      if seqno == data2[i] {
        TrimEnd(i, seqno, s);
      } else {
        SlotOffset(loc, s, s + 1, phase, size);
        SplitNode(i, (loc + 1) % size, seqno, s);
      }
      return true;
    }

    lemma NotBefore(s: int)
      requires Valid() && head in nodes && s < nodes[head].lo
      ensures s !in Elems(nodes)
    {
      hide W, Slot, Elems, DLinked, Linked;
      Ends(nodes, next[..], prior[..], head, tail);
      if s in Elems(nodes) {
        var j := ElemsFind(nodes, s);
      }
    }

    /** Takes seqno off the list; tells whether it was there. */
    method Remove(seqno: Wire, ghost s: int) returns (found: bool)
      requires Valid() && seqno == W(s)
      requires forall x :: x in Model() ==> Near(x, s)
      modifies this, data1, data2, next, prior
      ensures Valid() && Model() == old(Model()) - {s}
      ensures found <==> s in old(Model())
    {
      hide W, Slot, Elems, DLinked, Linked, Windowed, Ordered;
      assert Model() == Elems(nodes);
      NodesNonempty();
      EmptyList(nodes);
      Ends(nodes, next[..], prior[..], head, tail);
      if length == 0 {
        assert Elems(nodes) == {};
        return false;
      }
      forall j | j in nodes ensures Near(nodes[j].lo, s) && Near(nodes[j].hi, s) {
        ElemsMember(nodes, j, nodes[j].lo);
        ElemsMember(nodes, j, nodes[j].hi);
      }
      NearArithmetic(nodes[head].lo, s);
      var offset := SeqOff(data1[head], seqno);
      if offset < 0 {
        NotBefore(s);
        return false;
      }
      var loc := (head + offset) % size;
      SlotOffset(head, nodes[head].lo, s, phase, size);
      if loc in nodes { NearArithmetic(nodes[loc].lo, s); }
      if seqno == data1[loc] {
        RemoveStart(loc, s);
        found := true;
      } else {
        found := RemoveInside(loc, seqno, s);
      }
      if found {
        length := length - 1;
      }
    }

    static lemma OnlyMaximum(a: int, b: int, m: int)
      requires a <= m <= b < a + SEQ_SPACE && W(m) == MAX_SEQ
      ensures forall x :: a <= x <= b ==> (W(x) == MAX_SEQ <==> x == m)
    {
      forall x | a <= x <= b ensures W(x) == MAX_SEQ <==> x == m {
        if x < m { WireStep(x, m - x); } else { WireStep(m, x - m); }
      }
    }

    static lemma WireSpan(a: int, b: int)
      requires a <= b < a + SEQ_SPACE
      ensures W(a) <= W(b) ==> W(b) == W(a) + (b - a)
      ensures W(a) > W(b) ==> W(b) == W(a) + (b - a) - SEQ_SPACE
      ensures W(a) > W(b) ==> W(a + (MAX_SEQ - W(a))) == MAX_SEQ && W(a + (MAX_SEQ - W(a)) + 1) == 0
    {
      WireStep(a, b - a);
      WireStep(a, MAX_SEQ - W(a));
      WireStep(a + (MAX_SEQ - W(a)), 1);
    }

    static lemma WireRun(a: int, d: int)
      requires 0 <= d && W(a) + d <= MAX_SEQ
      ensures W(a + d) == W(a) + d
    {
      WireStep(a, d);
    }

    /** The plain counting loop from `from` to `to`; the number `from` stands for a. */
    method RemoveRun(from: Wire, to: Wire, ghost a: int)
      requires Valid() && from == W(a) && from <= to < MAX_SEQ
      requires forall x, y :: x in Model() && a <= y <= a + (to - from) ==> Near(x, y)
      modifies this, data1, data2, next, prior
      ensures Valid()
      ensures Model() == set x | x in old(Model()) && !(a <= x <= a + (to - from))
    {
      hide Elems, DLinked, Linked, Stored, Ordered, Windowed, W;
      var i := from;
      while i <= to
        invariant from <= i <= to + 1 && Valid()
        invariant Model() == set x | x in old(Model()) && !(a <= x < a + (i - from))
      {
        WireRun(a, i - from);
        var _ := Remove(i, a + (i - from));
        i := i + 1;
      }
    }

    /** Takes a range of numbers off the list, except that a wrapped range spares MAX_SEQ.
        A range that ends at MAX_SEQ is excluded: the counter would pass the 32-bit maximum. */
    method RemoveRange(seqno1: Wire, seqno2: Wire, ghost a: int, ghost b: int)
      requires Valid() && a <= b < a + SEQ_SPACE && seqno1 == W(a) && seqno2 == W(b)
      requires seqno1 <= seqno2 ==> seqno2 < MAX_SEQ
      requires forall x, y :: x in Model() && a <= y <= b ==> Near(x, y)
      modifies this, data1, data2, next, prior
      ensures Valid()
      ensures Model() == set x | x in old(Model()) && !(a <= x <= b && (seqno1 <= seqno2 || W(x) != MAX_SEQ))
    {
      hide Elems, DLinked, Linked, Stored, Ordered, Windowed, W;
      WireSpan(a, b);
      if seqno1 <= seqno2 {
        RemoveRun(seqno1, seqno2, a);
      } else {
        ghost var m := a + (MAX_SEQ - seqno1);
        if seqno1 < MAX_SEQ {
          RemoveRun(seqno1, MAX_SEQ - 1, a);
        }
        RemoveRun(0, seqno2, m + 1);
        OnlyMaximum(a, b, m);
      }
    }

    lemma NextOne(p: int)
      requires Valid() && p in nodes
      ensures 0 <= p < size && (next[p] == -1 || next[p] in nodes)
      ensures next[p] == -1 ==> forall i :: i in nodes ==> nodes[i].lo <= nodes[p].lo
      ensures next[p] != -1 ==>
                && nodes[p].lo < nodes[next[p]].lo
                && forall i :: i in nodes ==> nodes[i].lo <= nodes[p].lo || nodes[next[p]].lo <= nodes[i].lo
      ensures forall i :: i in nodes && nodes[i].lo == nodes[p].lo ==> i == p
    {
      hide W, Slot, Elems, Linked;
      NextNode(nodes, next[..], head, p);
      assert forall i :: i in nodes && Keys(nodes)[i] == Keys(nodes)[p] ==> i == p;
    }

    /** Whether some missing number lies between seqno1 and seqno2. */
    method Find(seqno1: Wire, seqno2: Wire, ghost a: int, ghost b: int) returns (found: bool)
      requires Valid() && a <= b && seqno1 == W(a) && seqno2 == W(b)
      requires forall x :: x in Model() ==> Near(x, a) && Near(x, b)
      ensures found <==> exists x :: x in Model() && a <= x <= b
    {
      hide W, Slot, Elems, DLinked, Linked, Stored, Windowed, Ordered;
      assert Model() == Elems(nodes);
      NodesNonempty();
      EmptyList(nodes);
      Ends(nodes, next[..], prior[..], head, tail);
      if length == 0 {
        assert Elems(nodes) == {};
        return false;
      }
      var p := head;
      while p != -1
        invariant p == -1 || p in nodes
        invariant forall j :: j in nodes && (p == -1 || nodes[j].lo < nodes[p].lo) ==>
                    nodes[j].hi < a || b < nodes[j].lo
        decreases if p == -1 then 0 else 1, if p == -1 then 0 else nodes[tail].lo - nodes[p].lo
      {
        ElemsMember(nodes, p, nodes[p].lo);
        ElemsMember(nodes, p, nodes[p].hi);
        StoredAt(nodes, data1[..], data2[..], phase, size, p);
        NearArithmetic(nodes[p].lo, a);
        NearArithmetic(nodes[p].lo, b);
        NearArithmetic(nodes[p].hi, a);
        if SeqCmp(data1[p], seqno1) == 0
           || (SeqCmp(data1[p], seqno1) > 0 && SeqCmp(data1[p], seqno2) <= 0)
           || (SeqCmp(data1[p], seqno1) < 0 && data2[p] != -1 && SeqCmp(data2[p], seqno1) >= 0) {
          ghost var x := if nodes[p].lo < a then a else nodes[p].lo;
          ElemsMember(nodes, p, x);
          assert x in Model() && a <= x <= b;
          return true;
        }
        NextOne(p);
        p := next[p];
      }
      forall x | x in Elems(nodes) ensures !(a <= x <= b) {
        var j := ElemsFind(nodes, x);
      }
      return false;
    }

    method WriteNode(report: array<int>, at: int, i: int) returns (at': int, ghost item: Report)
      requires Valid() && i in nodes && 0 <= at && at + 2 <= report.Length
      requires report != data1 && report != data2 && report != next && report != prior
      modifies report
      ensures item == if nodes[i].lo == nodes[i].hi then One(nodes[i].lo) else Span(nodes[i].lo, nodes[i].hi)
      ensures at' == at + |EncodeOne(item)| <= report.Length && |EncodeOne(item)| in {1, 2}
      ensures report[..at'] == old(report[..at]) + EncodeOne(item)
      ensures Covers(item) == Range(nodes[i].lo, nodes[i].hi) && (item.Span? ==> item.a < item.b)
    {
      hide W, Slot, Elems, DLinked, Linked;
      StoredAt(nodes, data1[..], data2[..], phase, size, i);
      NearArithmetic(nodes[i].lo, nodes[i].hi);
      item := if nodes[i].lo == nodes[i].hi then One(nodes[i].lo) else Span(nodes[i].lo, nodes[i].hi);
      at' := at;
      report[at'] := data1[i];
      if data2[i] != -1 {
        report[at'] := report[at'] + FLAG;
        at' := at' + 1;
        report[at'] := data2[i];
      }
      at' := at' + 1;
    }

    /** `done` holds the nodes before node i, or all nodes if i is -1. */
    ghost predicate DoneBefore(done: Nodes, i: int)
      reads this
      requires i == -1 || i in nodes
    {
      && (forall j :: j in nodes && (i == -1 || nodes[j].lo < nodes[i].lo) <==> j in done)
      && done.Keys <= nodes.Keys && forall j :: j in done ==> done[j] == nodes[j]
    }

    lemma DoneGrows(done: Nodes, i: int)
      requires Valid() && i in nodes && DoneBefore(done, i)
      ensures 0 <= i < size && (next[i] == -1 || next[i] in nodes)
      ensures next[i] != -1 ==> nodes[i].lo < nodes[next[i]].lo
      ensures var done' := done[i := nodes[i]];
              && Elems(done') == Elems(done) + Range(nodes[i].lo, nodes[i].hi)
              && DoneBefore(done', next[i])
    {
      hide W, Slot, Elems, DLinked, Linked;
      NextOne(i);
      ElemsSet(done, i, nodes[i]);
      assert done - {i} == done;
    }

    static lemma CodeNothing()
      ensures Encode([]) == [] && Reported([]) == {} && Elems(map[]) == {}
      ensures IsPrefixOf({}, {})
    {
    }

    lemma NothingDone()
      requires Valid() && (head == -1 || head in nodes)
      requires forall i :: i in nodes ==> head != -1 && nodes[head].lo <= nodes[i].lo
      ensures DoneBefore(map[], head)
    {
    }

    lemma DoneIsPrefix(done: Nodes, i: int)
      requires Valid() && (i == -1 || i in nodes) && DoneBefore(done, i)
      ensures IsPrefixOf(Elems(done), Elems(nodes))
      ensures i == -1 ==> Elems(done) == Elems(nodes)
    {
      hide W, Slot, Elems, DLinked, Linked;
      NodesNonempty();
      forall x | x in Elems(done) ensures x in Elems(nodes) {
        var j := ElemsFind(done, x);
        ElemsMember(nodes, j, x);
      }
      forall x, y | x in Elems(nodes) && y in Elems(done) && x <= y ensures x in Elems(done) {
        var j := ElemsFind(nodes, x);
        var k := ElemsFind(done, y);
        assert nodes[j].lo <= nodes[k].hi;
        ElemsMember(done, j, x);
      }
      if i == -1 {
        forall x | x in Elems(nodes) ensures x in Elems(done) {
          var j := ElemsFind(nodes, x);
          ElemsMember(done, j, x);
        }
      }
    }

    /** Writes the coded loss report into the array; `sent` is what the code stands for. */
    method GetLossArray(report: array<int>, limit: int, elapsed: int, threshold: int)
      returns (len: int, ghost sent: seq<Report>)
      requires Valid() && 0 <= limit <= report.Length
      requires report != data1 && report != data2 && report != next && report != prior
      modifies report
      ensures Valid() && Model() == old(Model())
      ensures 0 <= len <= report.Length && (len == 0 || len <= limit)
      ensures report[..len] == Encode(sent) && WellFormed(sent)
      ensures elapsed < threshold ==> sent == []
      ensures elapsed >= threshold ==>
                && IsPrefixOf(Reported(sent), Model())
                && (Reported(sent) == Model() || len >= limit - 1)
    {
      hide W, Slot, Elems, DLinked, Linked, Stored, Windowed, Ordered, Encode, Reported, IsPrefixOf;
      len, sent := 0, [];
      CodeNothing();
      if elapsed < threshold {
        return;
      }
      NodesNonempty();
      EmptyList(nodes);
      Ends(nodes, next[..], prior[..], head, tail);
      var i := head;
      ghost var done: Nodes := map[];
      NothingDone();
      while len < limit - 1 && i != -1
        invariant Valid() && Model() == old(Model()) && nodes == old(nodes)
        invariant i == -1 || i in nodes
        invariant 0 <= len <= report.Length && (len == 0 || len <= limit)
        invariant report[..len] == Encode(sent) && WellFormed(sent)
        invariant DoneBefore(done, i)
        invariant Reported(sent) == Elems(done)
        decreases if i == -1 then 0 else 1, if i == -1 then 0 else nodes[tail].lo - nodes[i].lo
      {
        ghost var item;
        len, item := WriteNode(report, len, i);
        EncodeAppend(sent, item);
        ReportedAppend(sent, item);
        DoneGrows(done, i);
        sent := sent + [item];
        done := done[i := nodes[i]];
        i := next[i];
      }
      DoneIsPrefix(done, i);
    }
  }
}
