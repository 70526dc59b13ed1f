/** The sender's loss list (class CSndLossList): the numbers to retransmit, as a set. */
module SndLossList {
  import opened Basics
  import opened SeqNo
  import opened LossNodes

  /** Head, position and length sums stay within 32 bits up to this size. */
  const MAX_SIZE: int := 0x2000_0000

  class CSndLossList {
    const size: int
    const data1: array<int>   // first number of the node in a slot, or -1
    const data2: array<int>   // last number, or -1 for a single number
    const next: array<int>
    var head: int
    var length: int
    var lastInsertPos: int
    ghost var nodes: Nodes
    ghost var phase: int

    ghost predicate Arrays() {
      && 0 < size <= MAX_SIZE
      && data1.Length == data2.Length == next.Length == size
      && data1 != data2 && data2 != next && next != data1
    }

    /** The storage invariant that also holds in the middle of an insertion. */
    ghost predicate Listed()
      reads this, data1, data2, next
    {
      && Arrays()
      && Stored(nodes, data1[..], data2[..], phase, size)
      && Linked(Keys(nodes), next[..], head)
      && Windowed(nodes, size)
    }

    ghost predicate Valid()
      reads this, data1, data2, next
    {
      && Listed()
      && Ordered(nodes)
      && length == |Elems(nodes)|
      && (lastInsertPos == -1 || lastInsertPos in nodes)
    }

    /** The sequence numbers in the list. */
    ghost function Model(): set<int>
      reads this
    {
      Elems(nodes)
    }

    /** Node loc has just been added or extended and may reach into the nodes after it. */
    ghost predicate Pending(loc: int)
      reads this, data1, data2, next
    {
      && Listed()
      && loc in nodes && lastInsertPos == loc
      && OrderedBut(nodes, loc)
      && length == |Elems(nodes - {loc})| + nodes[loc].hi - nodes[loc].lo + 1
    }

    constructor (size: int)
      requires 0 < size <= MAX_SIZE
      ensures Valid() && Model() == {} && this.size == size
      ensures fresh(data1) && fresh(data2) && fresh(next)
    {
      hide W, Slot, Elems, Linked;
      this.size := size;
      data1 := new int[size](i => -1);
      data2 := new int[size](i => -1);
      next := new int[size];
      head, length, lastInsertPos := -1, 0, -1;
      nodes, phase := map[], 0;
      new;
      EmptyList(nodes);
      EmptyLinks(next[..]);
    }

    lemma Covered(j: int, a: int, b: int)
      requires j in nodes && nodes[j].lo <= a && b <= nodes[j].hi
      ensures Elems(nodes) + Range(a, b) == Elems(nodes)
    {
      hide W, Slot, Elems, Linked;
      ElemsSplit(nodes, j);
    }

    lemma RestLength(j: int)
      requires Listed() && Ordered(nodes) && j in nodes
      ensures |Elems(nodes)| == |Elems(nodes - {j})| + nodes[j].hi - nodes[j].lo + 1
    {
      hide W, Slot, Elems, Linked;
      KeysInjective(nodes, data1[..], data2[..], phase, size);
      assert forall i :: i in nodes && Keys(nodes)[i] == Keys(nodes)[j] ==> i == j;
      ElemsTake(nodes, j);
    }

    lemma LengthOfEnd(j: int, b: int)
      requires Listed() && j in nodes
      ensures nodes[j].hi <= b < nodes[j].hi + size ==> SeqLen(W(nodes[j].hi), W(b)) == b - nodes[j].hi + 1
    {
      hide W, Slot, Elems, Linked;
      if nodes[j].hi <= b < nodes[j].hi + size {
        LengthOfInterval(nodes[j].hi, b);
      }
    }

    /** Raises the end of node j to seqno2; `from` is its last number. */
    method Extend(j: int, from: Wire, seqno2: Wire, ghost b: int)
      requires Valid() && j in nodes && lastInsertPos == j
      requires from == W(nodes[j].hi) && seqno2 == W(b)
      requires nodes[j].hi < b && Fits(nodes, nodes[j].lo, b, size)
      modifies this, data2
      ensures Pending(j)
      ensures Model() == old(Model()) + Range(old(nodes[j].lo), b)
    {
      hide W, Slot, Elems, Linked;
      LengthOfEnd(j, b);
      RestLength(j);
      NearArithmetic(nodes[j].lo, b);
      ghost var n0, iv := nodes, Interval(nodes[j].lo, b);
      StoreEnd(nodes, data1[..], data2[..], phase, size, j, b);
      length := length + SeqLen(from, seqno2) - 1;
      data2[j] := seqno2;
      nodes := nodes[j := iv];
      ElemsSet(n0, j, iv);
      ElemsSplit(n0, j);
      assert Keys(nodes) == Keys(n0);
    }

    /** The first number is the start of node loc. */
    method InsertAtNode(loc: int, seqno1: Wire, seqno2: Wire, ghost a: int, ghost b: int) returns (grown: bool)
      requires Valid() && a <= b && seqno1 == W(a) && seqno2 == W(b) && Fits(nodes, a, b, size)
      requires loc in nodes && nodes[loc].lo == a
      modifies this, data1, data2, next
      ensures if grown then Pending(loc) else Valid()
      ensures Model() == old(Model()) + Range(a, b) && (!grown ==> Model() == old(Model()))
    {
      hide W, Slot, Elems, Linked;
      lastInsertPos := loc;
      NearArithmetic(nodes[loc].hi, b);
      NearArithmetic(a, b);
      if data2[loc] == -1 {
        if seqno2 != seqno1 {
          Extend(loc, seqno1, seqno2, b);
        } else {
          RestLength(loc);
          Covered(loc, a, b);
        }
      } else if SeqCmp(seqno2, data2[loc]) > 0 {
        Extend(loc, data2[loc], seqno2, b);
      } else {
        Covered(loc, a, b);
        return false;
      }
      return true;
    }

    /** The first number is the start of the head. */
    method InsertAtHead(loc: int, seqno1: Wire, seqno2: Wire, ghost a: int, ghost b: int) returns (grown: bool)
      requires Valid() && a <= b && seqno1 == W(a) && seqno2 == W(b) && Fits(nodes, a, b, size)
      requires loc == head && loc in nodes && nodes[loc].lo == a
      modifies this, data1, data2, next
      ensures if grown then Pending(loc) else Valid()
      ensures Model() == old(Model()) + Range(a, b) && (!grown ==> Model() == old(Model()))
    {
      hide W, Slot, Elems, Linked;
      lastInsertPos := head;
      NearArithmetic(nodes[loc].hi, b);
      NearArithmetic(a, b);
      if seqno2 != seqno1 {
        if data2[loc] == -1 {
          Extend(loc, seqno1, seqno2, b);
        } else if SeqCmp(seqno2, data2[loc]) > 0 {
          Extend(loc, data2[loc], seqno2, b);
        } else {
          Covered(loc, a, b);
          return false;
        }
      } else {
        Covered(loc, a, b);
        return false;
      }
      return true;
    }

    static lemma Joined(n0: Nodes, i: int, a: int, b: int)
      requires i in n0 && n0[i].lo <= a <= n0[i].hi + 1 <= b + 1
      ensures Elems(n0) + Range(n0[i].lo, b) == Elems(n0) + Range(a, b)
    {
      ElemsSplit(n0, i);
    }

    /** Writes a node: its interval, where an end of -1 that is there stays if there is one number only,
        and its link. */
    method StoreNode(loc: int, seqno1: Wire, seqno2: Wire, link: int)
      requires Arrays() && 0 <= loc < size
      modifies data1, data2, next
      ensures data1[..] == old(data1[..])[loc := seqno1] && next[..] == old(next[..])[loc := link]
      ensures data2[..] == if seqno2 == seqno1 then old(data2[..]) else old(data2[..])[loc := seqno2]
    {
      data1[loc] := seqno1;
      if seqno2 != seqno1 {
        data2[loc] := seqno2;
      }
      next[loc] := link;
    }

    /** The bookkeeping common to the two ways of adding a node. */
    lemma Placed(n0: Nodes, d1: seq<int>, d2: seq<int>, loc: int, a: int, b: int)
      requires Arrays() && Stored(n0, d1, d2, phase, size) && a <= b
      requires loc == Slot(a, phase, size) && loc !in n0 && Fits(n0, a, b, size)
      requires Ordered(n0) && Windowed(n0, size)
      requires forall j :: j in n0 && n0[j].lo < a ==> n0[j].hi < a
      requires data1[..] == d1[loc := W(a)] && data2[..] == if W(b) == W(a) then d2 else d2[loc := W(b)]
      requires nodes == n0[loc := Interval(a, b)]
      ensures Stored(nodes, data1[..], data2[..], phase, size) && Windowed(nodes, size)
      ensures Keys(nodes) == Keys(n0)[loc := a]
      ensures Elems(nodes) == Elems(n0) + Range(a, b) && Elems(nodes - {loc}) == Elems(n0)
      ensures SeqLen(W(a), W(b)) == b - a + 1
      ensures OrderedBut(nodes, loc)
    {
      hide W, Slot, Elems, Linked;
      var iv := Interval(a, b);
      NearArithmetic(a, b);
      LengthOfInterval(a, b);
      StoreAdd(n0, d1, d2, phase, size, loc, iv);
      assert d2[loc := -1] == d2;
      KeysSet(n0, loc, iv);
      ElemsSet(n0, loc, iv);
      assert n0 - {loc} == n0;
    }

    method InsertAfter(i: int, loc: int, seqno1: Wire, seqno2: Wire, ghost a: int, ghost b: int)
      requires Valid() && a <= b && seqno1 == W(a) && seqno2 == W(b) && Fits(nodes, a, b, size)
      requires i in nodes && nodes[i].hi < a && loc == Slot(a, phase, size) && loc !in nodes
      requires forall j :: j in nodes ==> nodes[j].lo <= nodes[i].lo || a < nodes[j].lo
      modifies this, data1, data2, next
      ensures Pending(loc) && Model() == old(Model()) + Range(a, b)
    {
      hide W, Slot, Elems, Linked, OrderedBut, Windowed;
      ghost var n0, d1, d2, nx := nodes, data1[..], data2[..], next[..];
      lastInsertPos := loc;
      StoreNode(loc, seqno1, seqno2, next[i]);
      next[i] := loc;
      length := length + SeqLen(seqno1, seqno2);

      nodes := nodes[loc := Interval(a, b)];
      KeysInjective(n0, d1, d2, phase, size);
      ChainAfter(n0, nx, head, i, loc, Interval(a, b));
      Placed(n0, d1, d2, loc, a, b);
    }

    /** Follows the links from node start as long as the next node starts before seqno. */
    method Advance(start: int, seqno: Wire, ghost a: int) returns (i: int)
      requires Listed() && start in nodes && nodes[start].lo < a && seqno == W(a)
      requires forall j :: j in nodes ==> Near(nodes[j].lo, a)
      ensures i in nodes && nodes[i].lo < a
      ensures forall j :: j in nodes ==> nodes[j].lo <= nodes[i].lo || a <= nodes[j].lo
      ensures next[i] != -1 ==> next[i] in nodes && a <= nodes[next[i]].lo
    {
      hide W, Slot, Elems, Linked;
      i := start;
      NextNode(nodes, next[..], head, i);
      while next[i] != -1 && SeqCmp(data1[next[i]], seqno) < 0
        invariant i in nodes && nodes[i].lo < a
        invariant next[i] != -1 ==> next[i] in nodes && nodes[i].lo < nodes[next[i]].lo
        decreases a - nodes[i].lo
      {
        NearArithmetic(nodes[next[i]].lo, a);
        i := next[i];
        NextNode(nodes, next[..], head, i);
      }
      NextNode(nodes, next[..], head, i);
      if next[i] != -1 { NearArithmetic(nodes[next[i]].lo, a); }
    }

    /** The last node that starts before seqno1, searched from the last insertion if possible. */
    method FindPrior(seqno1: Wire, ghost a: int) returns (i: int)
      requires Valid() && head != -1 && seqno1 == W(a) && Fits(nodes, a, a, size)
      requires nodes[head].lo < a
      requires forall j :: j in nodes ==> nodes[j].lo != a
      ensures i in nodes && nodes[i].lo < a
      ensures forall j :: j in nodes ==> nodes[j].lo <= nodes[i].lo || a < nodes[j].lo
    {
      hide W, Slot, Elems, Linked;
      FirstNode(nodes, next[..], head);
      if lastInsertPos != -1 {
        assert lastInsertPos in nodes;
        assert 0 <= lastInsertPos < size;
        assert nodes[lastInsertPos].lo <= nodes[lastInsertPos].hi;
        NearArithmetic(nodes[lastInsertPos].lo, a);
      }
      if lastInsertPos != -1 && SeqCmp(data1[lastInsertPos], seqno1) < 0 {
        i := lastInsertPos;
      } else {
        i := head;
      }
      i := Advance(i, seqno1, a);
    }

    /** No node starts at the first number: join the node before it, or make a new one in slot free. */
    method InsertBetween(free: int, seqno1: Wire, seqno2: Wire, ghost a: int, ghost b: int)
      returns (grown: bool, loc: int)
      requires Valid() && a <= b && seqno1 == W(a) && seqno2 == W(b) && Fits(nodes, a, b, size)
      requires head in nodes && nodes[head].lo < a && free == Slot(a, phase, size) && free !in nodes
      requires forall j :: j in nodes ==> nodes[j].lo != a
      modifies this, data1, data2, next
      ensures if grown then Pending(loc) else Valid()
      ensures Model() == old(Model()) + Range(a, b) && (!grown ==> Model() == old(Model()))
    {
      hide W, Slot, Elems, Linked;
      var i := FindPrior(seqno1, a);
      NearArithmetic(nodes[i].hi, a);
      NearArithmetic(nodes[i].hi, b);
      NearArithmetic(nodes[i].lo, a);
      loc := free;
      if data2[i] == -1 || SeqCmp(data2[i], seqno1) < 0 {
        InsertAfter(i, loc, seqno1, seqno2, a, b);
      } else {
        lastInsertPos := i;
        if SeqCmp(data2[i], seqno2) < 0 {
          Extend(i, data2[i], seqno2, b);
          Joined(old(nodes), i, a, b);
          loc := i;
        } else {
          Covered(i, a, b);
          return false, loc;
        }
      }
      return true, loc;
    }

    method InsertFirst(seqno1: Wire, seqno2: Wire, ghost a: int, ghost b: int)
      requires Valid() && nodes == map[] && a <= b && seqno1 == W(a) && seqno2 == W(b) && b - a < size
      modifies this, data1, data2, next
      ensures Valid() && Model() == Range(a, b)
    {
      hide W, Slot, Elems, Linked;
      ghost var d1, d2 := data1[..], data2[..];
      NearArithmetic(a, b);
      LengthOfInterval(a, b);
      RangeSize(a, b);
      ElemsSet(map[], 0, Interval(a, b));
      EmptyList(map[]);
      StoreFirst(d1, d2, phase, size, Interval(a, b));

      head := 0;
      StoreNode(head, seqno1, seqno2, -1);
      lastInsertPos := head;
      length := length + SeqLen(seqno1, seqno2);

      phase := -a;
      nodes := map[0 := Interval(a, b)];
      ghost var none: Nodes := map[];
      assert nodes == none[0 := Interval(a, b)] && none - {0} == none;
      assert d2[0 := -1] == d2;
      OneNode(0, Interval(a, b), next[..]);
    }

    method InsertBeforeHead(loc: int, seqno1: Wire, seqno2: Wire, ghost a: int, ghost b: int)
      requires Valid() && a <= b && seqno1 == W(a) && seqno2 == W(b) && Fits(nodes, a, b, size)
      requires head != -1 && a < nodes[head].lo && loc == Slot(a, phase, size) && loc !in nodes
      modifies this, data1, data2, next
      ensures Pending(loc) && Model() == old(Model()) + Range(a, b)
    {
      hide W, Slot, Elems, Linked;
      ghost var n0, d1, d2, nx := nodes, data1[..], data2[..], next[..];
      StoreNode(loc, seqno1, seqno2, head);
      FirstNode(n0, nx, head);
      assert forall i :: i in Keys(n0) ==> Keys(n0)[i] == n0[i].lo;
      LinkPrepend(Keys(n0), nx, head, loc, a);
      head := loc;
      lastInsertPos := loc;
      length := length + SeqLen(seqno1, seqno2);

      nodes := nodes[loc := Interval(a, b)];
      Placed(n0, d1, d2, loc, a, b);
    }

    static lemma AbsorbArithmetic(lo: int, hi: int, lo': int, hi': int, size: int)
      requires lo < lo' <= hi + 1 && lo' <= hi' && lo < hi && size <= MAX_SIZE
      requires hi - lo < size && hi' - lo < size
      ensures SeqCmp(W(hi'), W(hi)) > 0 <==> hi' > hi
      ensures SeqCmp(W(hi), W(lo')) >= 0 <==> hi >= lo'
      ensures hi >= lo' ==> SeqLen(W(lo'), W(hi)) == hi - lo' + 1
      ensures SeqLen(W(lo'), W(hi')) == hi' - lo' + 1
      ensures W(lo') == IncSeq(W(hi)) <==> lo' == hi + 1
    {
      hide W, Slot, Elems, Linked;
      NearArithmetic(hi', hi);
      NearArithmetic(hi, lo');
      if hi >= lo' { LengthOfInterval(lo', hi); }
      LengthOfInterval(lo', hi');
      IncSeqIsNext(hi);
      NearArithmetic(lo', hi + 1);
    }

    /** The array updates of one merge. */
    method MergeSlots(loc: int, i: int, ghost lo: int, ghost hi: int, ghost lo': int, ghost hi': int, ghost top: int)
      requires Arrays() && 0 <= loc < size && 0 <= i < size && i != loc
      requires lo < lo' <= hi + 1 && lo' <= hi' && lo < hi && hi - lo < size && hi' - lo < size
      requires top == if hi' > hi then hi' else hi
      requires data2[loc] == W(hi) && data1[i] == W(lo') && data2[i] == End(Interval(lo', hi'))
      modifies this`length, data1, data2, next
      ensures data1[..] == old(data1[..])[i := -1]
      ensures data2[..] == old(data2[..])[loc := W(top)][i := -1]
      ensures next[..] == old(next[..])[loc := old(next[i])]
      ensures length == old(length) - (hi' - lo' + 1) + (top - hi)
    {
      hide W;
      NearArithmetic(lo, hi);
      NearArithmetic(lo', hi');
      AbsorbArithmetic(lo, hi, lo', hi', size);
      if data2[i] != -1 {
        if SeqCmp(data2[i], data2[loc]) > 0 {
          if SeqCmp(data2[loc], data1[i]) >= 0 {
            length := length - SeqLen(data1[i], data2[loc]);
          }
          data2[loc] := data2[i];
        } else {
          length := length - SeqLen(data1[i], data2[i]);
        }
      } else {
        if data1[i] == IncSeq(data2[loc]) {
          data2[loc] := data1[i];
        } else {
          length := length - 1;
        }
      }
      data1[i] := -1;
      data2[i] := -1;
      next[loc] := next[i];
    }

    /** Node i, the successor of loc, disappears into loc. */
    lemma AbsorbNodes(n0: Nodes, d1: seq<int>, d2: seq<int>, loc: int, i: int, top: int)
      requires Arrays() && Stored(n0, d1, d2, phase, size) && Windowed(n0, size)
      requires loc in n0 && i in n0
      requires n0[loc].lo < n0[i].lo <= n0[loc].hi + 1 && n0[loc].lo < n0[loc].hi
      requires top == if n0[i].hi > n0[loc].hi then n0[i].hi else n0[loc].hi
      ensures var n1 := (n0 - {i})[loc := Interval(n0[loc].lo, top)];
              && Stored(n1, d1[i := -1], d2[loc := W(top)][i := -1], phase, size)
              && Windowed(n1, size) && |n1| < |n0|
    {
      hide W, Slot, Elems, Linked;
      var iv := Interval(n0[loc].lo, top);
      var n1 := (n0 - {i})[loc := iv];
      StoreDrop(n0, d1, d2, phase, size, i);
      NearArithmetic(n0[loc].lo, top);
      StoreEnd(n0 - {i}, d1[i := -1], d2[i := -1], phase, size, loc, top);
      assert d2[i := -1][loc := W(top)] == d2[loc := W(top)][i := -1];
      assert n0.Keys - {i} == n1.Keys;
      assert |n0.Keys - {i}| == |n0.Keys| - 1;
    }

    static lemma AbsorbElems(n0: Nodes, loc: int, i: int, top: int)
      requires loc in n0 && i in n0 && n0[i].lo <= n0[i].hi
      requires n0[loc].lo < n0[i].lo <= n0[loc].hi + 1
      requires top == if n0[i].hi > n0[loc].hi then n0[i].hi else n0[loc].hi
      requires forall j :: j in n0 && j != i && j != loc ==> n0[i].hi < n0[j].lo || n0[j].hi < n0[i].lo
      ensures var n1 := (n0 - {i})[loc := Interval(n0[loc].lo, top)];
              && Elems(n1) == Elems(n0)
              && |Elems(n0 - {loc})| == |Elems(n1 - {loc})| + n0[i].hi - n0[i].lo + 1
    {
      hide W, Slot, Elems, Linked;
      var iv := Interval(n0[loc].lo, top);
      var n1 := (n0 - {i})[loc := iv];
      var r := n0 - {loc};
      ElemsTake(r, i);
      ElemsSet(n0 - {i}, loc, iv);
      assert n1 - {loc} == r - {i} == n0 - {i} - {loc};
      ElemsSplit(r, i);
      ElemsSplit(n0, loc);
    }

    lemma AbsorbProof(n0: Nodes, d1: seq<int>, d2: seq<int>, nx: seq<int>, loc: int, i: int, top: int)
      requires Arrays() && Stored(n0, d1, d2, phase, size) && Windowed(n0, size) && |nx| == size
      requires Linked(Keys(n0), nx, head)
      requires loc in n0 && i in n0 && nx[loc] == i
      requires n0[loc].lo < n0[i].lo <= n0[loc].hi + 1 && n0[loc].lo < n0[loc].hi
      requires top == if n0[i].hi > n0[loc].hi then n0[i].hi else n0[loc].hi
      requires OrderedBut(n0, loc)
      ensures var n1 := (n0 - {i})[loc := Interval(n0[loc].lo, top)];
              && Stored(n1, d1[i := -1], d2[loc := W(top)][i := -1], phase, size)
              && Windowed(n1, size) && OrderedBut(n1, loc) && |n1| < |n0|
              && Linked(Keys(n1), nx[loc := nx[i]], head)
              && Elems(n1) == Elems(n0)
              && |Elems(n0 - {loc})| == |Elems(n1 - {loc})| + n0[i].hi - n0[i].lo + 1
    {
      hide W, Slot, Elems, Linked;
      KeysInjective(n0, d1, d2, phase, size);
      assert forall j :: j in n0 && Keys(n0)[j] == Keys(n0)[i] ==> j == i;
      AbsorbNodes(n0, d1, d2, loc, i, top);
      AbsorbElems(n0, loc, i, top);
      ChainSkip(n0, nx, head, loc, Interval(n0[loc].lo, top));
    }

    method Absorb(loc: int)
      requires Pending(loc) && next[loc] != -1 && data2[loc] != -1
      requires next[loc] in nodes && nodes[loc].lo < nodes[next[loc]].lo <= nodes[loc].hi + 1
      modifies this, data1, data2, next
      ensures Pending(loc) && Model() == old(Model())
      ensures |nodes| < |old(nodes)|
    {
      hide W, Slot, Elems, Linked, OrderedBut, Stored;
      assert nodes[loc].lo <= nodes[loc].hi && data2[loc] == End(nodes[loc]) by {
        StoredAt(nodes, data1[..], data2[..], phase, size, loc);
      }
      StoredAt(nodes, data1[..], data2[..], phase, size, next[loc]);
      var i := next[loc];
      ghost var n0, d1, d2, nx := nodes, data1[..], data2[..], next[..];
      ghost var lo, hi, lo', hi' := nodes[loc].lo, nodes[loc].hi, nodes[i].lo, nodes[i].hi;
      ghost var top := if hi' > hi then hi' else hi;
      MergeSlots(loc, i, lo, hi, lo', hi', top);
      nodes := (nodes - {i})[loc := Interval(lo, top)];
      AbsorbProof(n0, d1, d2, nx, loc, i, top);
    }

    /** Merges the nodes that node loc reaches into loc. */
    method Coalesce(loc: int)
      requires Pending(loc)
      modifies this, data1, data2, next
      ensures Valid() && Model() == old(Model())
    {
      hide W, Slot, Elems, Linked;
      var going := true;
      while going && next[loc] != -1 && data2[loc] != -1
        invariant Pending(loc) && Model() == old(Model())
        invariant !going ==> forall j :: j in nodes && nodes[loc].lo < nodes[j].lo ==> nodes[loc].hi < nodes[j].lo
        decreases |nodes|, going
      {
        NextNode(nodes, next[..], head, loc);
        NearArithmetic(nodes[next[loc]].lo, nodes[loc].hi + 1);
        IncSeqIsNext(nodes[loc].hi);
        if SeqCmp(data1[next[loc]], IncSeq(data2[loc])) <= 0 {
          Absorb(loc);
        } else {
          going := false;
        }
      }
      NextNode(nodes, next[..], head, loc);
      RestLength(loc);
    }

    lemma NodesNonempty()
      requires Listed()
      ensures forall j :: j in nodes ==> nodes[j].lo <= nodes[j].hi
    {
    }

    /** Adds the numbers from seqno1 to seqno2; returns how many of them are new. */
    method Insert(seqno1: Wire, seqno2: Wire, ghost a: int, ghost b: int) returns (added: int)
      requires Valid() && a <= b && seqno1 == W(a) && seqno2 == W(b)
      requires b - a < size && forall x :: x in Model() ==> b - x < size && x - a < size
      modifies this, data1, data2, next
      ensures Valid() && Model() == old(Model()) + Range(a, b)
      ensures added == |Model()| - |old(Model())|
    {
      hide W, Slot, Elems, Linked;
      EmptyList(nodes);
      FirstNode(nodes, next[..], head);
      LengthOfInterval(a, b);
      if length == 0 {
        InsertFirst(seqno1, seqno2, a, b);
        return length;
      }
      assert Model() == Elems(nodes);
      NodesNonempty();
      FitsElems(nodes, a, b, size);
      var origlen := length;
      NearArithmetic(nodes[head].lo, a);
      var offset := SeqOff(data1[head], seqno1);
      var loc := (head + offset + size) % size;
      SlotOffset(head, nodes[head].lo, a, phase, size);
      SlotFree(nodes, data1[..], data2[..], phase, size, a, b);
      if loc in nodes { NearArithmetic(a, nodes[loc].lo); }
      if offset < 0 {
        InsertBeforeHead(loc, seqno1, seqno2, a, b);
      } else if offset > 0 {
        if seqno1 == data1[loc] {
          var grown := InsertAtNode(loc, seqno1, seqno2, a, b);
          if !grown { return 0; }
        } else {
          var grown;
          grown, loc := InsertBetween(loc, seqno1, seqno2, a, b);
          if !grown { return 0; }
        }
      } else {
        var grown := InsertAtHead(loc, seqno1, seqno2, a, b);
        if !grown { return 0; }
      }
      Coalesce(loc);
      return length - origlen;
    }

    lemma HeadIsLeast()
      requires Valid() && head != -1
      ensures head in nodes && nodes[head].lo in Elems(nodes)
      ensures forall x :: x in Elems(nodes) ==> nodes[head].lo <= x
    {
      hide W, Slot, Elems, Linked;
      FirstNode(nodes, next[..], head);
      ElemsMember(nodes, head, nodes[head].lo);
      forall x | x in Elems(nodes) ensures nodes[head].lo <= x {
        var j := ElemsFind(nodes, x);
      }
    }

    lemma NoneUpTo(s: int)
      requires Valid() && head != -1 && head in nodes && s < nodes[head].lo
      ensures Elems(nodes) == set x | x in Elems(nodes) && x > s
    {
      HeadIsLeast();
    }

    lemma NearHead()
      requires Valid() && head in nodes
      ensures Near(nodes[head].lo, nodes[head].hi) && Near(nodes[head].hi, nodes[head].lo + 1)
      ensures data2[head] == -1 <==> nodes[head].lo == nodes[head].hi
    {
      NearArithmetic(nodes[head].lo, nodes[head].hi);
    }

    lemma HeadIsFirst()
      requires Valid() && head in nodes
      ensures forall j :: j in nodes && j != head ==> nodes[head].hi < nodes[j].lo
    {
      hide W, Slot, Elems, Linked;
      FirstNode(nodes, next[..], head);
      KeysInjective(nodes, data1[..], data2[..], phase, size);
      forall j | j in nodes && j != head ensures nodes[head].hi < nodes[j].lo {
        assert Keys(nodes)[j] != Keys(nodes)[head];
      }
    }

    static lemma RangeOne(x: int)
      ensures Range(x, x) == {x}
    {
    }

    static lemma TakeRange(n0: Nodes, j: int)
      requires j in n0 && n0[j].lo <= n0[j].hi
      requires forall i :: i in n0 && i != j ==> n0[j].hi < n0[i].lo
      ensures Elems(n0 - {j}) == Elems(n0) - Range(n0[j].lo, n0[j].hi)
      ensures |Elems(n0)| == |Elems(n0 - {j})| + (n0[j].hi - n0[j].lo + 1)
    {
      hide Elems;
      ElemsTake(n0, j);
    }

    lemma DropHeadProof()
      requires Valid() && head in nodes && nodes[head].lo == nodes[head].hi
      ensures var n1 := nodes - {head};
              && Stored(n1, data1[..][head := -1], data2[..][head := -1], phase, size)
              && Linked(Keys(n1), next[..], next[head]) && Windowed(n1, size) && Ordered(n1)
              && Elems(n1) == Elems(nodes) - {nodes[head].lo} && |Elems(n1)| == |Elems(nodes)| - 1
    {
      hide W, Slot, Elems, Linked;
      HeadIsFirst();
      KeysInjective(nodes, data1[..], data2[..], phase, size);
      LinkDropFirst(Keys(nodes), next[..], head);
      KeysSet(nodes, head, nodes[head]);
      StoreDrop(nodes, data1[..], data2[..], phase, size, head);
      RangeOne(nodes[head].lo);
      TakeRange(nodes, head);
    }

    lemma NextSlotFree(loc: int)
      requires Valid() && head in nodes && nodes[head].lo < nodes[head].hi
      requires loc == Slot(nodes[head].lo + 1, phase, size)
      requires forall j :: j in nodes && j != head ==> nodes[head].hi < nodes[j].lo
      ensures 0 <= head < size && 0 <= loc < size && loc !in nodes && data1[loc] == -1 && data2[loc] == -1
    {
      hide W, Slot, Elems, Linked;
      SlotFree(nodes, data1[..], data2[..], phase, size, nodes[head].lo + 1, nodes[head].hi);
    }

    static lemma ShiftStored(n0: Nodes, d1: seq<int>, d2: seq<int>, phase: int, size: int, h: int, n: int, iv: Interval)
      requires Stored(n0, d1, d2, phase, size) && h in n0 && n !in n0 && n == Slot(iv.lo, phase, size)
      requires n0[h].lo < iv.lo <= iv.hi == n0[h].hi && Windowed(n0, size) && Ordered(n0)
      requires forall j :: j in n0 && j != h ==> iv.hi < n0[j].lo
      ensures var n1 := (n0 - {h})[n := iv];
              && Stored(n1, d1[n := W(iv.lo)][h := -1], d2[n := End(iv)][h := -1], phase, size)
              && Windowed(n1, size) && Ordered(n1)
    {
      hide W, Slot;
      StoreDrop(n0, d1, d2, phase, size, h);
      StoreAdd(n0 - {h}, d1[h := -1], d2[h := -1], phase, size, n, iv);
      assert d1[n := W(iv.lo)][h := -1] == d1[h := -1][n := W(iv.lo)];
      assert d2[n := End(iv)][h := -1] == d2[h := -1][n := End(iv)];
    }

    static lemma ShiftLinks(n0: Nodes, nx: seq<int>, head: int, n: int, iv: Interval)
      requires Linked(Keys(n0), nx, head) && Injective(Keys(n0)) && head in n0 && 0 <= head < |nx|
      requires 0 <= n < |nx| && n !in n0
      requires forall j :: j in n0 && j != head ==> iv.lo < n0[j].lo
      ensures Linked(Keys((n0 - {head})[n := iv]), nx[n := nx[head]], n)
    {
      hide Linked;
      var r := n0 - {head};
      FirstNode(n0, nx, head);
      LinkDropFirst(Keys(n0), nx, head);
      KeysSet(n0, head, iv);
      assert forall i :: i in Keys(r) ==> Keys(r)[i] == n0[i].lo;
      LinkPrepend(Keys(r), nx, nx[head], n, iv.lo);
      KeysSet(r, n, iv);
    }

    static lemma ShiftElems(n0: Nodes, j: int, n: int)
      requires j in n0 && n0[j].lo < n0[j].hi && n !in n0
      requires forall i :: i in n0 && i != j ==> n0[j].hi < n0[i].lo
      ensures var n1 := (n0 - {j})[n := Interval(n0[j].lo + 1, n0[j].hi)];
              && Elems(n1) == Elems(n0) - {n0[j].lo}
              && |Elems(n1)| == |Elems(n0)| - 1
    {
      hide Elems;
      ElemsTake(n0, j);
      ElemsSet(n0 - {j}, n, Interval(n0[j].lo + 1, n0[j].hi));
      assert n0 - {j} - {n} == n0 - {j};
      ElemsSplit(n0, j);
      ElemsMember(n0, j, n0[j].lo);
    }

    lemma ShiftHeadProof(loc: int)
      requires Valid() && head in nodes && nodes[head].lo < nodes[head].hi
      requires loc == Slot(nodes[head].lo + 1, phase, size)
      ensures 0 <= loc < size && loc !in nodes && data1[loc] == -1 && data2[loc] == -1
      ensures var iv := Interval(nodes[head].lo + 1, nodes[head].hi);
              var n1 := (nodes - {head})[loc := iv];
              && Stored(n1, data1[..][loc := W(iv.lo)][head := -1], data2[..][loc := End(iv)][head := -1], phase, size)
              && Linked(Keys(n1), next[..][loc := next[head]], loc) && Windowed(n1, size) && Ordered(n1)
              && Elems(n1) == Elems(nodes) - {nodes[head].lo} && |Elems(n1)| == |Elems(nodes)| - 1
    {
      hide W, Slot, Elems, Linked, Stored, Windowed, Ordered;
      ghost var iv := Interval(nodes[head].lo + 1, nodes[head].hi);
      HeadIsFirst();
      NextSlotFree(loc);
      ShiftStored(nodes, data1[..], data2[..], phase, size, head, loc, iv);
      ShiftElems(nodes, head, loc);
      KeysInjective(nodes, data1[..], data2[..], phase, size);
      ShiftLinks(nodes, next[..], head, loc, iv);
    }

    /** The array updates that move the head to the next slot and number. */
    method MoveHead(loc: int, ghost lo: int, ghost hi: int)
      requires Arrays() && 0 <= head < size && 0 <= loc < size && loc != head
      requires lo < hi && Near(hi, lo + 1)
      requires data1[head] == W(lo) && data2[head] == W(hi) && data2[loc] == -1
      modifies this`head, data1, data2, next
      ensures data1[..] == old(data1[..])[loc := W(lo + 1)][old(head) := -1]
      ensures data2[..] == old(data2[..])[loc := End(Interval(lo + 1, hi))][old(head) := -1]
      ensures next[..] == old(next[..])[loc := old(next[head])] && head == loc
    {
      hide W;
      IncSeqIsNext(lo);
      NearArithmetic(hi, lo + 1);
      ghost var d2 := data2[..];
      data1[loc] := IncSeq(data1[head]);
      if SeqCmp(data2[head], data1[loc]) > 0 {
        data2[loc] := data2[head];
      }
      assert data2[..] == d2[loc := End(Interval(lo + 1, hi))];
      data1[head] := -1;
      data2[head] := -1;
      next[loc] := next[head];
      head := loc;
    }

    /** Removes the first number of the head node. */
    method DropFirst()
      requires Valid() && head in nodes
      modifies this, data1, data2, next
      ensures Valid() && Model() == old(Model()) - {old(nodes[head].lo)}
    {
      hide W, Slot, Elems, Linked, Ordered, Windowed, Stored;
      StoredAt(nodes, data1[..], data2[..], phase, size, head);
      NearHead();
      if lastInsertPos == head {
        lastInsertPos := -1;
      }
      var was := head;
      ghost var iv, n0, d1, d2, nx := nodes[head], nodes, data1[..], data2[..], next[..];
      if data2[head] == -1 {
        DropHeadProof();
        data1[head] := -1;
        head := next[head];
        nodes := nodes - {was};
        assert data2[..] == d2[was := -1];
      } else {
        var loc := (head + 1) % size;
        SlotOffset(head, iv.lo, iv.lo + 1, phase, size);
        ShiftHeadProof(loc);
        MoveHead(loc, iv.lo, iv.hi);
        nodes := (n0 - {was})[loc := Interval(iv.lo + 1, iv.hi)];
      }
      length := length - 1;
    }

    /** The nodes are still linked from h, and the new head is the first node after s (or -1). */
    ghost predicate Cut(h: int, s: int)
      reads this, data1, data2, next
    {
      && Arrays()
      && Stored(nodes, data1[..], data2[..], phase, size)
      && Linked(Keys(nodes), next[..], h)
      && Windowed(nodes, size) && Ordered(nodes)
      && length == |Elems(nodes)|
      && (lastInsertPos == -1 || lastInsertPos in nodes)
      && (head == -1 || head in nodes)
      && forall j :: j in nodes ==>
           if head == -1 || nodes[j].lo < nodes[head].lo then nodes[j].hi <= s else s < nodes[j].lo
    }

    lemma FreeAt(slot: int, s: int)
      requires Listed() && slot == Slot(s, phase, size) && slot !in nodes
      ensures 0 <= slot < size && data1[slot] == -1
    {
      hide W;
    }

    /** A node that starts at s is in slot Slot(s). */
    lemma Found(slot: int, i: int, s: int)
      requires Listed() && i in nodes && slot == Slot(s, phase, size)
      requires nodes[i].lo == s || ((slot !in nodes || nodes[slot].lo != s)
                 && forall j :: j in nodes ==> nodes[j].lo <= nodes[i].lo || s <= nodes[j].lo)
      ensures forall j :: j in nodes ==> nodes[j].lo <= nodes[i].lo || s < nodes[j].lo
    {
      hide W, Slot, Elems, Linked;
    }

    lemma CutAfter(i: int, s: int)
      requires Valid() && i in nodes && nodes[i].lo <= s && nodes[i].hi <= s
      requires forall j :: j in nodes ==> nodes[j].lo <= nodes[i].lo || s < nodes[j].lo
      ensures next[i] == -1 || next[i] in nodes
      ensures forall j :: j in nodes ==>
                if next[i] == -1 || nodes[j].lo < nodes[next[i]].lo then nodes[j].hi <= s else s < nodes[j].lo
    {
      hide W, Slot, Elems, Linked;
      NextNode(nodes, next[..], head, i);
      KeysInjective(nodes, data1[..], data2[..], phase, size);
      assert forall j :: j in nodes && Keys(nodes)[j] == Keys(nodes)[i] ==> j == i;
    }

    static lemma SplitStored(n0: Nodes, d1: seq<int>, d2: seq<int>, phase: int, size: int, i: int, loc: int, s: int)
      requires Stored(n0, d1, d2, phase, size) && i in n0 && loc !in n0 && loc == Slot(s + 1, phase, size)
      requires n0[i].lo <= s < n0[i].hi
      ensures var (k, r) := (Interval(n0[i].lo, s), Interval(s + 1, n0[i].hi));
              Stored(n0[i := k][loc := r], d1[loc := W(s + 1)], d2[i := End(k)][loc := End(r)], phase, size)
    {
      hide W, Slot;
      var k := Interval(n0[i].lo, s);
      StoreEnd(n0, d1, d2, phase, size, i, s);
      StoreAdd(n0[i := k], d1, d2[i := End(k)], phase, size, loc, Interval(s + 1, n0[i].hi));
    }

    static lemma SplitOrder(n0: Nodes, size: int, i: int, loc: int, s: int)
      requires i in n0 && loc !in n0 && n0[i].lo <= s < n0[i].hi && Windowed(n0, size) && Ordered(n0)
      requires forall j :: j in n0 ==> n0[j].lo <= n0[i].lo || n0[i].hi < n0[j].lo
      requires Injective(Keys(n0)) && forall j :: j in n0 ==> n0[j].lo <= n0[j].hi
      ensures var n1 := n0[i := Interval(n0[i].lo, s)][loc := Interval(s + 1, n0[i].hi)];
              && Windowed(n1, size) && Ordered(n1)
              && forall j :: j in n1 ==> if n1[j].lo < s + 1 then n1[j].hi <= s else s < n1[j].lo
    {
      assert forall j :: j in n0 && Keys(n0)[j] == Keys(n0)[i] ==> j == i;
    }

    static lemma SplitLinks(n0: Nodes, nx: seq<int>, head: int, i: int, loc: int, s: int)
      requires Linked(Keys(n0), nx, head) && Injective(Keys(n0)) && i in n0 && loc !in n0
      requires 0 <= i < |nx| && 0 <= loc < |nx| && n0[i].lo <= s < n0[i].hi
      requires forall j :: j in n0 ==> n0[j].lo <= n0[i].lo || n0[i].hi < n0[j].lo
      ensures Linked(Keys(n0[i := Interval(n0[i].lo, s)][loc := Interval(s + 1, n0[i].hi)]),
                     nx[loc := nx[i]][i := loc], head)
    {
      hide Linked;
      var n1 := n0[i := Interval(n0[i].lo, s)];
      assert Keys(n1) == Keys(n0);
      ChainAfter(n1, nx, head, i, loc, Interval(s + 1, n0[i].hi));
    }

    lemma SplitProof(i: int, loc: int, s: int)
      requires Valid() && i in nodes && nodes[i].lo <= s < nodes[i].hi
      requires loc == Slot(s + 1, phase, size) && loc !in nodes && 0 <= loc < size
      requires forall j :: j in nodes ==> nodes[j].lo <= nodes[i].lo || nodes[i].hi < nodes[j].lo
      ensures var (k, r) := (Interval(nodes[i].lo, s), Interval(s + 1, nodes[i].hi));
              var n1 := nodes[i := k][loc := r];
              && Stored(n1, data1[..][loc := W(s + 1)], data2[..][i := End(k)][loc := End(r)], phase, size)
              && Linked(Keys(n1), next[..][loc := next[i]][i := loc], head) && Windowed(n1, size) && Ordered(n1)
              && forall j :: j in n1 ==> if n1[j].lo < s + 1 then n1[j].hi <= s else s < n1[j].lo
    {
      hide W, Slot, Elems, Linked;
      KeysInjective(nodes, data1[..], data2[..], phase, size);
      SplitStored(nodes, data1[..], data2[..], phase, size, i, loc, s);
      SplitOrder(nodes, size, i, loc, s);
      SplitLinks(nodes, next[..], head, i, loc, s);
    }

    /** The array updates of a split. */
    method SplitSlots(i: int, loc: int, seqno: Wire, ghost s: int, ghost lo: int, ghost hi: int)
      requires Arrays() && 0 <= i < size && 0 <= loc < size && loc != i
      requires seqno == W(s) && lo <= s < hi && hi - lo < size
      requires data1[i] == W(lo) && data2[i] == W(hi) && data2[loc] == -1
      modifies data1, data2, next
      ensures data1[..] == old(data1[..])[loc := W(s + 1)]
      ensures data2[..] == old(data2[..])[i := End(Interval(lo, s))][loc := End(Interval(s + 1, hi))]
      ensures next[..] == old(next[..])[loc := old(next[i])][i := loc]
    {
      hide W;
      IncSeqIsNext(s);
      NearArithmetic(hi, s + 1);
      NearArithmetic(lo, s);
      data1[loc] := IncSeq(seqno);
      if SeqCmp(data2[i], data1[loc]) > 0 {
        data2[loc] := data2[i];
      }
      if data1[i] == seqno {
        data2[i] := -1;
      } else {
        data2[i] := seqno;
      }
      next[loc] := next[i];
      next[i] := loc;
    }

    lemma SplitFree(i: int, loc: int, s: int)
      requires Listed() && Ordered(nodes) && i in nodes && nodes[i].lo <= s < nodes[i].hi
      requires loc == Slot(s + 1, phase, size)
      requires forall j :: j in nodes ==> nodes[j].lo <= nodes[i].lo || s < nodes[j].lo
      ensures 0 <= loc < size && loc !in nodes
      ensures forall j :: j in nodes ==> nodes[j].lo <= nodes[i].lo || nodes[i].hi < nodes[j].lo
      ensures data1[loc] == -1 && data2[loc] == -1
    {
      hide W, Slot, Elems, Linked;
      SlotFree(nodes, data1[..], data2[..], phase, size, s + 1, nodes[i].hi);
    }

    static lemma SplitElems(n0: Nodes, i: int, loc: int, s: int)
      requires i in n0 && loc !in n0 && n0[i].lo <= s < n0[i].hi
      ensures Elems(n0[i := Interval(n0[i].lo, s)][loc := Interval(s + 1, n0[i].hi)]) == Elems(n0)
    {
      hide Elems;
      var n1 := n0[i := Interval(n0[i].lo, s)];
      ElemsSet(n1, loc, Interval(s + 1, n0[i].hi));
      assert n1 - {loc} == n1;
      ElemsSet(n0, i, Interval(n0[i].lo, s));
      ElemsSplit(n0, i);
    }

    /** Node i keeps its numbers up to s; the rest moves to slot loc, which becomes the head. */
    method Split(i: int, loc: int, seqno: Wire, ghost s: int)
      requires Valid() && head in nodes && i in nodes && nodes[i].lo <= s < nodes[i].hi && seqno == W(s)
      requires loc == Slot(s + 1, phase, size)
      requires forall j :: j in nodes ==> nodes[j].lo <= nodes[i].lo || s < nodes[j].lo
      modifies this, data1, data2, next
      ensures Cut(old(head), s) && Model() == old(Model())
    {
      hide W, Slot, Elems, Linked, Stored, Ordered;
      ghost var n0, d1, d2, nx, h := nodes, data1[..], data2[..], next[..], head;
      ghost var lo, hi := nodes[i].lo, nodes[i].hi;
      StoredAt(n0, d1, d2, phase, size, i);
      SplitFree(i, loc, s);
      SplitProof(i, loc, s);
      SplitSlots(i, loc, seqno, s, lo, hi);
      head := loc;
      nodes := n0[i := Interval(lo, s)][loc := Interval(s + 1, hi)];
      SplitElems(n0, i, loc, s);
    }

    /** Finds the new head; a node that contains seqno and more is split after seqno. */
    method FindCut(slot: int, seqno: Wire, ghost s: int)
      requires Valid() && head in nodes && seqno == W(s) && nodes[head].lo < s
      requires slot == Slot(s, phase, size)
      requires forall j :: j in nodes ==> Near(nodes[j].lo, s) && Near(nodes[j].hi, s)
      modifies this, data1, data2, next
      ensures Cut(old(head), s) && Model() == old(Model())
    {
      hide W, Slot, Elems, Linked, Windowed, Ordered, Stored;
      var i := slot;
      if slot in nodes {
        StoredAt(nodes, data1[..], data2[..], phase, size, slot);
        NearArithmetic(nodes[slot].lo, s);
      } else {
        FreeAt(slot, s);
      }
      if seqno != data1[slot] {
        i := Advance(head, seqno, s);
      }
      Found(slot, i, s);
      StoredAt(nodes, data1[..], data2[..], phase, size, i);
      NearArithmetic(nodes[i].hi, s);
      SlotOffset(slot, s, s + 1, phase, size);
      if data2[i] != -1 && SeqCmp(data2[i], seqno) > 0 {
        var loc := (slot + 1) % size;
        Split(i, loc, seqno, s);
      } else {
        CutAfter(i, s);
        head := next[i];
      }
    }

    lemma AllAfter(h: int, s: int)
      requires Cut(h, s) && h == head
      ensures forall x :: x in Elems(nodes) ==> x > s
    {
      hide W, Slot, Elems, Linked;
      FirstNode(nodes, next[..], h);
      forall x | x in Elems(nodes) ensures x > s {
        var j := ElemsFind(nodes, x);
      }
    }

    /** Clears the slot of a node. */
    method ClearSlot(h: int, ghost iv: Interval)
      requires Arrays() && 0 <= h < size && iv.lo <= iv.hi && (data2[h] == -1 <==> iv.lo == iv.hi)
      requires iv.lo < iv.hi ==>
                 data1[h] == W(iv.lo) && data2[h] == W(iv.hi) && SeqLen(W(iv.lo), W(iv.hi)) == iv.hi - iv.lo + 1
      modifies this`length, this`lastInsertPos, data1, data2
      ensures data1[..] == old(data1[..])[h := -1] && data2[..] == old(data2[..])[h := -1]
      ensures length == old(length) - (iv.hi - iv.lo + 1)
      ensures lastInsertPos == if old(lastInsertPos) == h then -1 else old(lastInsertPos)
    {
      hide W;
      if data2[h] != -1 {
        length := length - SeqLen(data1[h], data2[h]);
        data2[h] := -1;
      } else {
        length := length - 1;
      }
      assert data2[..] == old(data2[..])[h := -1];
      data1[h] := -1;
      if lastInsertPos == h {
        lastInsertPos := -1;
      }
    }

    static lemma FewerNodes(n0: Nodes, h: int)
      requires h in n0
      ensures |n0 - {h}| < |n0|
    {
      assert n0.Keys - {h} == (n0 - {h}).Keys;
      assert |n0.Keys - {h}| == |n0.Keys| - 1;
    }

    lemma DropNodeProof(h: int, s: int)
      requires Cut(h, s) && h != head && h in nodes
      ensures var n1 := nodes - {h};
              && Stored(n1, data1[..][h := -1], data2[..][h := -1], phase, size)
              && Linked(Keys(n1), next[..], next[h]) && Windowed(n1, size) && Ordered(n1)
              && |n1| < |nodes|
              && Elems(n1) <= Elems(nodes)
              && (forall x :: x in Elems(nodes) && x > s ==> x in Elems(n1))
              && |Elems(n1)| == |Elems(nodes)| - (nodes[h].hi - nodes[h].lo + 1)
      ensures nodes[h].lo < nodes[h].hi ==> SeqLen(W(nodes[h].lo), W(nodes[h].hi)) == nodes[h].hi - nodes[h].lo + 1
      ensures data2[h] == -1 <==> nodes[h].lo == nodes[h].hi
    {
      hide W, Slot, Elems, Linked;
      FirstNode(nodes, next[..], h);
      ghost var iv, n1 := nodes[h], nodes - {h};
      KeysInjective(nodes, data1[..], data2[..], phase, size);
      assert forall j :: j in nodes && Keys(nodes)[j] == Keys(nodes)[h] ==> j == h;
      LengthOfInterval(iv.lo, iv.hi);
      NearArithmetic(iv.lo, iv.hi);
      TakeRange(nodes, h);
      LinkDropFirst(Keys(nodes), next[..], h);
      KeysSet(nodes, h, iv);
      StoreDrop(nodes, data1[..], data2[..], phase, size, h);
      FewerNodes(nodes, h);
    }

    method DropNode(h: int, ghost s: int) returns (h': int)
      requires Cut(h, s) && h != head
      modifies this, data1, data2, next
      ensures Cut(h', s) && |nodes| < |old(nodes)|
      ensures Elems(nodes) <= old(Elems(nodes))
      ensures forall x :: x in old(Elems(nodes)) && x > s ==> x in Elems(nodes)
    {
      hide W, Slot, Elems, Linked, Windowed, Ordered, Stored;
      FirstNode(nodes, next[..], h);
      StoredAt(nodes, data1[..], data2[..], phase, size, h);
      DropNodeProof(h, s);
      ClearSlot(h, nodes[h]);
      nodes := nodes - {h};
      h' := next[h];
    }

    /** Clears all nodes from h up to the new head. */
    method DropPrefix(h: int, ghost s: int)
      requires Cut(h, s)
      modifies this, data1, data2, next
      ensures Valid() && Model() == set x | x in old(Model()) && x > s
    {
      hide W, Slot, Elems, Linked, Stored, Windowed, Ordered;
      var p := h;
      while p != head
        invariant Cut(p, s)
        invariant Elems(nodes) <= old(Model())
        invariant forall x :: x in old(Model()) && x > s ==> x in Elems(nodes)
        decreases |nodes|
      {
        p := DropNode(p, s);
      }
      AllAfter(p, s);
    }

    /** Removes every number that is not after seqno. */
    method Remove(seqno: Wire, ghost s: int)
      requires Valid() && seqno == W(s)
      requires forall x :: x in Model() ==> Near(x, s)
      modifies this, data1, data2, next
      ensures Valid() && Model() == set x | x in old(Model()) && x > s
    {
      hide W, Slot, Elems, Linked, Stored, Windowed;
      EmptyList(nodes) by { NodesNonempty(); }
      FirstNode(nodes, next[..], head);
      if length == 0 {
        assert Elems(nodes) == {};
        return;
      }
      forall j | j in nodes ensures Near(nodes[j].lo, s) && Near(nodes[j].hi, s) {
        StoredAt(nodes, data1[..], data2[..], phase, size, j);
        ElemsMember(nodes, j, nodes[j].lo);
        ElemsMember(nodes, j, nodes[j].hi);
      }
      StoredAt(nodes, data1[..], data2[..], phase, size, head);
      NearArithmetic(nodes[head].lo, s);
      var offset := SeqOff(data1[head], seqno);
      var loc := (head + offset + size) % size;
      SlotOffset(head, nodes[head].lo, s, phase, size);
      if offset == 0 {
        HeadIsLeast();
        DropFirst();
      } else if offset > 0 {
        var h := head;
        FindCut(loc, seqno, s);
        DropPrefix(h, s);
      } else {
        NoneUpTo(s);
      }
    }

    /** Takes the smallest number off the list, or returns -1 if there is none. */
    method GetLostSeq() returns (seqno: int, ghost s: int)
      requires Valid()
      modifies this, data1, data2, next
      ensures Valid()
      ensures old(Model()) == {} ==> seqno == -1 && Model() == {}
      ensures old(Model()) != {} ==>
                && s in old(Model()) && seqno == W(s) && Model() == old(Model()) - {s}
                && forall x :: x in old(Model()) ==> s <= x
    {
      hide W, Slot, Elems, Linked;
      s := 0;
      EmptyList(nodes);
      FirstNode(nodes, next[..], head);
      if length == 0 {
        assert Elems(nodes) == {};
        return -1, s;
      }
      HeadIsLeast();
      s := nodes[head].lo;
      seqno := data1[head];
      DropFirst();
    }

    method GetLossLength() returns (len: int)
      requires Valid()
      ensures len == |Model()|
    {
      len := length;
    }
  }
}
