/** The receiver's buffer (class CRcvBuffer) over the units of a shared pool: stream mode and message mode. */
module RcvBuffer {
  import opened Basics
  import opened LossNodes
  import opened Protocol
  import opened Messages
  import opened UnitQueue

  /** Everything acknowledged is there, and the notch lies inside the first packet. */
  ghost predicate Streamable(buf: map<int, Bytes>, start: int, lastAck: int, notch: int) {
    && (forall g :: start <= g < lastAck ==> g in buf)
    && NotchOk(buf, start, lastAck, notch)
  }

  /** Packets with numbers a <= g < b, joined from the front. */
  ghost function JoinedFront(buf: map<int, Bytes>, a: int, b: int): Bytes
    requires forall g :: a <= g < b ==> g in buf
    decreases b - a
  {
    if a >= b then [] else buf[a] + JoinedFront(buf, a + 1, b)
  }

  /** The acknowledged bytes not yet read, given the buffered packets. */
  ghost function RestOf(buf: map<int, Bytes>, start: int, lastAck: int, notch: int): Bytes
    requires Streamable(buf, start, lastAck, notch)
  {
    if start < lastAck then buf[start][notch..] + JoinedFront(buf, start + 1, lastAck) else []
  }

  lemma {:induction false} FrontJoined(buf: map<int, Bytes>, a: int, b: int)
    requires a < b && forall g :: a <= g < b ==> g in buf
    ensures Joined(buf, a, b) == buf[a] + Joined(buf, a + 1, b)
    decreases b - a
  {
    if a + 1 == b {
      assert Joined(buf, a, a) == [] && Joined(buf, a + 1, b) == [];
    } else {
      FrontJoined(buf, a, b - 1);
      assert (buf[a] + Joined(buf, a + 1, b - 1)) + buf[b - 1] == buf[a] + (Joined(buf, a + 1, b - 1) + buf[b - 1]);
    }
  }

  lemma {:induction false} JoinedFromFront(buf: map<int, Bytes>, a: int, b: int)
    requires forall g :: a <= g < b ==> g in buf
    ensures JoinedFront(buf, a, b) == Joined(buf, a, b)
    decreases b - a
  {
    if a < b {
      JoinedFromFront(buf, a + 1, b);
      FrontJoined(buf, a, b);
    }
  }

  lemma {:induction false} JoinedSame(m: map<int, Bytes>, m': map<int, Bytes>, a: int, b: int)
    requires forall g :: a <= g < b ==> g in m && g in m' && m[g] == m'[g]
    ensures JoinedFront(m, a, b) == JoinedFront(m', a, b)
    decreases b - a
  {
    if a < b { JoinedSame(m, m', a + 1, b); }
  }

  /** The remainder as C++ takes it, with the sign of the dividend. */
  function SignedRemainder(x: int, n: int): int
    requires n > 0
  {
    if x >= 0 then x % n else -(-x % n)
  }

  /** k steps through a ring of the given size, from p, lead to n. */
  predicate Meets(p: int, k: nat, n: int, size: int)
    requires size > 0
  {
    (p + k) % size == n
  }

  lemma MeetsWithin(p: int, n: int, size: int)
    requires 0 <= p < size
    ensures (exists k: nat :: Meets(p, k, n, size)) <==> 0 <= n < size
  {
    if 0 <= n < size {
      var k := if n >= p then n - p else n - p + size;
      ModIs(p + k, size, if n >= p then 0 else 1, n);
      assert Meets(p, k, n, size);
    }
  }

  lemma SearchStep(c: Cells, q: int, p: Option<int>, passack: bool, ack: int, limit: int)
    requires q <= limit
    ensures EndsAt(c, q, p) ==> q in c
    ensures Search(c, q, p, passack, ack, limit) ==
            if EndsAt(c, q, p) && (!passack || !OrderFlag(c[q].word)) then Hit(true, StartAt(c, q, p), q, passack)
            else Search(c, q + 1, StartAt(c, q, p), passack || q + 1 == ack, ack, limit)
  {
  }

  lemma {:induction false} SearchRange(c: Cells, s: int, q: int, p: Option<int>, passack: bool, ack: int, limit: int)
    requires s <= q && (p.Some? ==> s <= p.value <= q)
    ensures var h := Search(c, q, p, passack, ack, limit);
            h.found ==> h.p.Some? && s <= h.p.value <= h.q <= limit
    decreases limit - q
  {
    if q <= limit {
      SearchRange(c, s, q + 1, StartAt(c, q, p), passack || q + 1 == ack, ack, limit);
    }
  }

  lemma {:induction false} SearchLast(c: Cells, s: int, q: int, p: Option<int>, passack: bool, ack: int, limit: int)
    requires s <= q && (p.Some? ==> s <= p.value < q <= limit + 1 && Ready(c, q - 1))
    ensures var h := Search(c, q, p, passack, ack, limit);
            !h.found && h.p.Some? ==> s <= h.p.value <= limit && Ready(c, limit)
    decreases limit - q
  {
    if q <= limit {
      SearchLast(c, s, q + 1, StartAt(c, q, p), passack || q + 1 == ack, ack, limit);
    }
  }

  lemma SearchOver(c: Cells, q: int, p: Option<int>, passack: bool, ack: int, limit: int)
    requires q > limit
    ensures Search(c, q, p, passack, ack, limit) == Hit(false, p, q, passack)
  {
  }

  class CRcvBuffer {
    const units: array<CUnit?>
    const queue: CUnitQueue
    const size: int
    var startPos: int
    var lastAckPos: int
    var maxPos: int
    var notch: int
    ghost var phase: int
    ghost var start: int                 // the number at startPos
    ghost var lastAck: int               // the number at lastAckPos
    ghost var held: map<int, CUnit>      // the units in the buffer, by number
    ghost var buf: map<int, Bytes>       // their contents
    ghost var cells: Cells               // their contents, message words and flags
    ghost var given: set<int>            // the packets of the messages that were handed out

    /** The array holds exactly the units of `held`, with reading position p. */
    ghost predicate Placed(p: int)
      reads this`phase, this`start, this`lastAck, this`lastAckPos, this`held, units
    {
      && 2 <= size == units.Length
      && p == Slot(start, phase, size) && lastAckPos == Slot(lastAck, phase, size)
      && 0 <= lastAck - start < size
      && (forall g :: g in held ==> start <= g < start + size - 1)
      && (forall g :: start <= g < start + size ==> units[Slot(g, phase, size)] == if g in held then held[g] else null)
    }

    ghost predicate Mine(u: CUnit, g: int, payload: Bytes, cell: Cell)
      reads u
    {
      && u.owner == this && u.number == g && u.flag != 0
      && u.payload == payload && cell == Cell(u.payload, u.word, u.flag)
    }

    /** The units of `h` are exactly the units marked as this buffer's. */
    ghost predicate OwnsAll(h: map<int, CUnit>)
      reads this`buf, this`cells, queue`pool, queue.pool
    {
      && buf.Keys == h.Keys == cells.Keys
      && (forall g :: g in h ==> h[g] in queue.pool && Mine(h[g], g, buf[g], cells[g]))
      && (forall u :: u in queue.pool && u.owner == this ==> u.number in h && h[u.number] == u)
    }

    ghost predicate Owns()
      reads this`held, this`buf, this`cells, queue`pool, queue.pool
    {
      OwnsAll(held)
    }

    ghost predicate NotAgainIn(c: Cells)
      reads this`given, this`start
    {
      forall g :: g in given ==> g < start || (g in c && !Ready(c, g))
    }

    /** Packets that were handed out in messages are gone or marked. */
    ghost predicate NotAgain()
      reads this`given, this`start, this`cells
    {
      NotAgainIn(cells)
    }

    /** No packet lies beyond maxPos, counted from the acknowledged position. */
    ghost predicate Bounded()
      reads this`held, this`lastAck, this`start, this`maxPos, this`lastAckPos
    {
      && -1 <= maxPos <= start + size - 1 - lastAck && (forall g :: g in held ==> g - lastAck <= maxPos)
      && (maxPos == -1 ==> lastAckPos == 0)
    }

    ghost predicate Valid()
      reads this, units, queue`pool, queue.pool
    {
      Placed(startPos) && Owns() && Bounded() && NotAgain()
    }

    /** Units of other buffers stay as they were; those of this buffer stay with it or become free. */
    twostate predicate OthersKept()
      reads queue`pool, queue.pool`owner, queue.pool`flag
    {
      forall u :: u in old(queue.pool) && u in queue.pool ==>
        if old(u.owner) == this then u.owner == this || u.owner == null
        else u.owner == old(u.owner) && u.flag == old(u.flag)
    }

    ghost predicate Stream()
      reads this`buf, this`start, this`lastAck, this`notch
    {
      Streamable(buf, start, lastAck, notch)
    }

    ghost function Rest(): Bytes
      reads this`buf, this`start, this`lastAck, this`notch
      requires Stream()
    {
      RestOf(buf, start, lastAck, notch)
    }

    constructor (size: int, queue: CUnitQueue, ghost first: int)
      requires size >= 2
      ensures Valid() && Stream() && buf == map[] && start == lastAck == first && this.size == size
              && this.queue == queue
      ensures maxPos == -1 && lastAckPos == 0
      ensures fresh(units)
    {
      this.size := size;
      this.queue := queue;
      units := new CUnit?[size](i => null);
      startPos, lastAckPos, maxPos, notch := 0, 0, -1, 0;
      phase, start, lastAck, held, buf, cells, given := -first, first, first, map[], map[], map[], {};
      new;
      ModIs(0, size, 0, 0);
    }

    lemma SlotDistance()
      requires Placed(startPos)
      ensures lastAck - start == if lastAckPos >= startPos then lastAckPos - startPos else size + lastAckPos - startPos
    {
      var d := lastAck - start;
      SlotOffset(startPos, start, lastAck, phase, size);
      if startPos + d < size {
        ModIs(startPos + d, size, 0, startPos + d);
      } else {
        ModIs(startPos + d, size, 1, startPos + d - size);
      }
    }

    function GetRcvDataSize(): (n: int)
      reads this, units
      requires Placed(startPos)
      ensures n == lastAck - start
    {
      SlotDistance();
      if lastAckPos >= startPos then lastAckPos - startPos else size + lastAckPos - startPos
    }

    function GetAvailBufSize(): (n: int)
      reads this, units
      requires Placed(startPos)
      ensures n == size - (lastAck - start) - 1
    {
      size - GetRcvDataSize() - 1
    }

    lemma SameKeys()
      requires Owns()
      ensures buf.Keys == held.Keys == cells.Keys
    {
    }

    lemma PlaceOf(offset: int)
      requires Placed(startPos) && 0 <= offset < size - (lastAck - start) - 1
      ensures start <= lastAck + offset < start + size - 1
      ensures size == units.Length && size > 0 && lastAckPos == Slot(lastAck, phase, size)
      ensures 0 <= Slot(lastAck + offset, phase, size) < size
      ensures units[Slot(lastAck + offset, phase, size)] == null <==> lastAck + offset !in held
    {
      hide Slot;
    }

    lemma OthersElsewhere(p: int, g: int)
      requires Placed(p) && start <= g < start + size
      ensures forall h :: start <= h < start + size && h != g ==> Slot(h, phase, size) != Slot(g, phase, size)
    {
      forall h | start <= h < start + size && h != g ensures Slot(h, phase, size) != Slot(g, phase, size) {
        if Slot(h, phase, size) == Slot(g, phase, size) { SlotInjective(h, g, phase, size); }
      }
    }

    method Place(unit: CUnit, pos: int, ghost g: int)
      requires Placed(startPos) && start <= g < start + size - 1 && pos == Slot(g, phase, size) && g !in held
      modifies this`held, units
      ensures Placed(startPos) && held == old(held)[g := unit]
    {
      hide Slot;
      OthersElsewhere(startPos, g);
      units[pos] := unit;
      held := held[g := unit];
    }

    lemma BecomesMine(unit: CUnit, g: int)
      requires unit.owner == this && unit.number == g && unit.flag == 1
      ensures Mine(unit, g, unit.payload, Cell(unit.payload, unit.word, 1))
    {
    }

    lemma NotMine(unit: CUnit, h: map<int, CUnit>)
      requires queue.Valid() && OwnsAll(h) && unit in queue.pool && unit.flag == 0
      ensures unit.owner == null && forall g :: g in h ==> h[g] != unit
    {
      hide CUnitQueue.Shaped;
    }

    method Occupy(unit: CUnit, ghost g: int)
      requires queue.Valid() && unit in queue.pool && unit.flag == 0
      modifies unit`flag, unit`owner, unit`number, queue`count
      ensures queue.Valid() && unit.flag == 1 && unit.owner == this && unit.number == g
      ensures queue.count == old(queue.count) + 1
    {
      unit.flag := 1;
      unit.owner := this;
      unit.number := g;
      queue.count := queue.count + 1;
      assert queue.Used() == old(queue.Used()) + {unit};
    }

    /** Marks a free unit as this buffer's; `held` has it already. */
    method Mark(unit: CUnit, ghost g: int, ghost before: map<int, CUnit>)
      requires queue.Valid() && unit in queue.pool && unit.flag == 0
      requires OwnsAll(before) && g !in before && held == before[g := unit]
      modifies this`buf, this`cells, unit`flag, unit`owner, unit`number, queue`count
      ensures Owns() && queue.Valid() && buf == old(buf)[g := unit.payload] && unit.owner == this
      ensures unit.flag == 1 && queue.count == old(queue.count) + 1
      ensures cells == old(cells)[g := Cell(unit.payload, unit.word, 1)]
    {
      hide CUnitQueue.Valid, Mine;
      NotMine(unit, before);
      Occupy(unit, g);
      buf := buf[g := unit.payload];
      cells := cells[g := Cell(unit.payload, unit.word, 1)];
      BecomesMine(unit, g);
    }

    /** Stores a unit at a distance from the acknowledged position, unless the place is taken. */
    method AddData(unit: CUnit, offset: int) returns (result: int)
      requires Valid() && queue.Valid() && unit in queue.pool && unit.flag == 0
      requires 0 <= offset < size - (lastAck - start) - 1
      modifies this`maxPos, this`held, this`buf, this`cells, units, unit`flag, unit`owner, unit`number, queue`count
      ensures Valid() && queue.Valid()
      ensures var g := lastAck + offset;
              if g in old(buf) then result == -1 && buf == old(buf) && cells == old(cells) && unit.flag == 0
              else result == 0 && buf == old(buf)[g := unit.payload]
                   && cells == old(cells)[g := Cell(unit.payload, unit.word, 1)]
      ensures unit.owner == if result == 0 then this else old(unit.owner)
      ensures unit.flag == queue.count - old(queue.count) == if result == 0 then 1 else 0
    {
      hide Slot, Placed, OwnsAll, CUnitQueue.Valid;
      ghost var g := lastAck + offset;
      PlaceOf(offset);
      SameKeys();
      SlotOffset(lastAckPos, lastAck, g, phase, size);
      var pos := (lastAckPos + offset) % size;
      if offset > maxPos {
        maxPos := offset;
      }
      if units[pos] != null {
        return -1;
      }
      ghost var before := held;
      Place(unit, pos, g);
      Mark(unit, g, before);
      return 0;
    }

    /** Moves the acknowledged position forward. */
    method AckData(len: int)
      requires Valid() && 0 <= len && lastAck + len - start < size
      modifies this`lastAckPos, this`lastAck, this`maxPos
      ensures Valid() && lastAck == old(lastAck) + len
    {
      hide Slot;
      SlotOffset(lastAckPos, lastAck, lastAck + len, phase, size);
      lastAckPos := (lastAckPos + len) % size;
      maxPos := maxPos - len;
      if maxPos < 0 {
        maxPos := 0;
      }
      lastAck := lastAck + len;
    }

    lemma BufferedFrom(p: int)
      requires Placed(p) && Owns()
      ensures buf == map g | g in buf && g >= start :: buf[g]
    {
    }

    lemma StillPlaced(p: int)
      requires Placed(p) && Owns() && Bounded() && NotAgain() && startPos == p
      ensures Valid()
    {
    }

    lemma PositionsDiffer(p: int)
      requires Placed(p)
      ensures p != lastAckPos <==> start < lastAck
    {
      if p == lastAckPos { SlotInjective(start, lastAck, phase, size); }
    }

    lemma NothingLeft()
      requires Stream() && start >= lastAck
      ensures Rest() == []
    {
    }

    lemma FirstUnit(p: int)
      requires Placed(p) && Owns() && Stream() && start < lastAck
      ensures 0 <= p < units.Length && start in held && units[p] == held[start]
      ensures held[start].payload == buf[start] && 0 <= notch <= |buf[start]|
    {
    }

    static lemma RestAfterBytes(m: map<int, Bytes>, start: int, lastAck: int, notch: int, rs: int)
      requires start < lastAck && Streamable(m, start, lastAck, notch) && 0 <= rs < |m[start]| - notch
      ensures Streamable(m, start, lastAck, notch + rs)
      ensures m[start][notch..notch + rs] + RestOf(m, start, lastAck, notch + rs) == RestOf(m, start, lastAck, notch)
    {
      hide JoinedFront;
      var tail := JoinedFront(m, start + 1, lastAck);
      assert m[start][notch..notch + rs] + m[start][notch + rs..] == m[start][notch..];
      assert m[start][notch..notch + rs] + (m[start][notch + rs..] + tail) ==
             m[start][notch..notch + rs] + m[start][notch + rs..] + tail;
    }

    static lemma RestAfterFirst(m: map<int, Bytes>, start: int, lastAck: int, notch: int)
      requires start < lastAck && Streamable(m, start, lastAck, notch)
      ensures var m' := map g | g in m && g >= start + 1 :: m[g];
              && Streamable(m', start + 1, lastAck, 0)
              && m[start][notch..] + RestOf(m', start + 1, lastAck, 0) == RestOf(m, start, lastAck, notch)
    {
      var m' := map g | g in m && g >= start + 1 :: m[g];
      if start + 1 < lastAck {
        JoinedSame(m, m', start + 2, lastAck);
        assert m'[start + 1][0..] == m[start + 1];
      }
    }

    static lemma MinusFirst<T>(m: map<int, T>, s: int)
      requires forall g :: g in m ==> g >= s
      ensures m - {s} == map g | g in m && g >= s + 1 :: m[g]
    {
    }

    lemma AtStart(p: int)
      requires Placed(p) && start in held
      ensures 0 <= p < units.Length && units[p] == held[start]
      ensures forall g :: g in held ==> g >= start
    {
    }

    method Release(unit: CUnit)
      requires queue.Valid() && unit in queue.pool && unit.flag != 0
      modifies unit`flag, unit`owner, queue`count
      ensures queue.Valid() && unit.flag == 0 && unit.owner == null
    {
      unit.flag := 0;
      unit.owner := null;
      queue.count := queue.count - 1;
      assert queue.Used() == old(queue.Used()) - {unit};
    }

    /** Frees a unit that the buffer has just let go. */
    method Unmark(unit: CUnit, ghost before: map<int, CUnit>, ghost g: int)
      requires queue.Valid() && OwnsAll(before) && g in before && before[g] == unit && held == before - {g}
      modifies this`buf, this`cells, unit`flag, unit`owner, queue`count
      ensures Owns() && queue.Valid() && unit.flag == 0 && unit.owner == null
      ensures buf == old(buf) - {g} && cells == old(cells) - {g}
    {
      hide CUnitQueue.Valid;
      Release(unit);
      buf := buf - {g};
      cells := cells - {g};
    }

    lemma OwnedOne(h: map<int, CUnit>, g: int)
      requires OwnsAll(h) && g in h
      ensures h[g] in queue.pool && h[g].owner == this
    {
    }

    lemma NextPosition(p: int)
      requires Placed(p)
      ensures 0 <= p < size
      ensures Slot(start + 1, phase, size) == if p + 1 == size then 0 else p + 1
      ensures Slot(start + size, phase, size) == p
    {
      SlotOffset(p, start, start + 1, phase, size);
      SlotOffset(p, start, start + size, phase, size);
      if p + 1 == size { ModIs(p + 1, size, 1, 0); } else { ModIs(p + 1, size, 0, p + 1); }
      ModIs(p + size, size, 1, p);
    }

    /** Clears the reading position and steps to the next one. */
    method Advance(p: int) returns (p': int)
      requires Placed(p) && start in held && start < lastAck
      modifies this`start, this`held, units
      ensures Placed(p') && start == old(start) + 1 && held == old(held) - {old(start)}
      ensures old(Bounded()) ==> Bounded()
    {
      hide Slot;
      OthersElsewhere(p, start);
      NextPosition(p);
      units[p] := null;
      p' := p + 1;
      if p' == size {
        p' := 0;
      }
      held := held - {start};
      start := start + 1;
    }

    /** Gives the unit at the reading position back to the pool. */
    method FreeUnit(p: int) returns (p': int)
      requires Placed(p) && Owns() && Bounded() && queue.Valid() && start in held && start < lastAck
      modifies this`start, this`held, this`buf, this`cells, units, queue.pool`flag, queue.pool`owner, queue`count
      ensures OthersKept()
      ensures Placed(p') && Owns() && Bounded() && queue.Valid() && start == old(start) + 1
      ensures buf == map g | g in old(buf) && g >= start :: old(buf)[g]
      ensures cells == From(old(cells), start)
    {
      hide Slot, Placed, CUnitQueue.Valid, Bounded, OwnsAll;
      SameKeys();
      AtStart(p);
      MinusFirst(buf, start);
      MinusFirst(cells, start);
      var unit := units[p];
      ghost var before, s := held, start;
      OwnedOne(before, s);
      p' := Advance(p);
      Unmark(unit, before, s);
    }

    /** One round of the reading loop: bytes from the unit at p, which is freed when it is used up. */
    method ReadOne(p: int, rs: int) returns (p': int, rs': int, got: Bytes)
      requires Placed(p) && Owns() && Bounded() && queue.Valid() && Stream() && start < lastAck && rs > 0
      requires NotAgain()
      modifies this`start, this`notch, this`held, this`buf, this`cells, units
      modifies queue.pool`flag, queue.pool`owner, queue`count
      ensures OthersKept()
      ensures Placed(p') && Owns() && Bounded() && queue.Valid() && Stream() && old(start) <= start <= lastAck
      ensures buf == map g | g in old(buf) && g >= start :: old(buf)[g]
      ensures rs' == rs - |got| && rs' >= 0
      ensures got + Rest() == old(Rest())
      ensures start > old(start) || rs' == 0
      ensures NotAgain()
    {
      hide Slot, JoinedFront, Placed, OwnsAll, Streamable, RestOf, CUnitQueue.Valid, Bounded;
      FirstUnit(p);
      var unit := units[p];
      var unitSize := |unit.payload| - notch;
      if unitSize > rs {
        unitSize := rs;
      }
      got := unit.payload[notch..notch + unitSize];
      ghost var buf0, s0, n0 := buf, start, notch;
      if rs > unitSize || rs == |unit.payload| - notch {
        RestAfterFirst(buf, start, lastAck, notch);
        p' := FreeUnit(p);
        notch := 0;
      } else {
        RestAfterBytes(buf, start, lastAck, notch, rs);
        BufferedFrom(p);
        notch := notch + rs;
        p' := p;
      }
      rs' := rs - unitSize;
    }

    /** Hands out up to len of the oldest acknowledged bytes. */
    method ReadBuffer(len: nat) returns (out: Bytes)
      requires Valid() && queue.Valid() && Stream()
      modifies this`startPos, this`start, this`notch, this`held, this`buf, this`cells, units
      modifies queue.pool`flag, queue.pool`owner, queue`count
      ensures OthersKept()
      ensures Valid() && queue.Valid() && Stream() && old(start) <= start
      ensures buf == map g | g in old(buf) && g >= start :: old(buf)[g]
      ensures out + Rest() == old(Rest()) && |out| == Min(len, |old(Rest())|)
    {
      hide Slot, Placed, OwnsAll, Streamable, RestOf, CUnitQueue.Valid, Bounded, NotAgain, Rest;
      var p := startPos;
      var rs := len;
      out := [];
      ghost var rest0, buf0 := Rest(), buf;
      BufferedFrom(startPos);
      assert [] + rest0 == rest0;
      PositionsDiffer(p);
      while p != lastAckPos && rs > 0
        invariant Placed(p) && Owns() && Bounded() && queue.Valid() && Stream() && old(start) <= start
        invariant buf == map g | g in buf0 && g >= start :: buf0[g]
        invariant NotAgain()
        invariant OthersKept()
        invariant rs >= 0 && |out| == len - rs
        invariant out + Rest() == rest0
        invariant p != lastAckPos <==> start < lastAck
        decreases lastAck - start, rs
      {
        ghost var out0 := out;
        var got;
        p, rs, got := ReadOne(p, rs);
        out := out + got;
        assert out + Rest() == out0 + (got + Rest());
        PositionsDiffer(p);
      }
      startPos := p;
      StillPlaced(p);
      if start >= lastAck { NothingLeft(); }
    }

    lemma UnownedIsFree()
      requires queue.Valid()
      ensures forall u :: u in queue.pool && u.owner == null ==> u.flag == 0
    {
    }

    /** Those of the units whose places are at i or behind. */
    ghost function Behind(h: map<int, CUnit>, i: int): map<int, CUnit>
      reads this`phase
      requires size > 0
    {
      map g | g in h && Slot(g, phase, size) >= i :: h[g]
    }

    /** Units and places name each other. */
    ghost predicate Slotted(h: map<int, CUnit>)
      reads this`phase, units, set i | 0 <= i < units.Length && units[i] != null :: units[i]
      reads set g | g in h :: h[g]
    {
      && 0 < size == units.Length
      && (forall i :: 0 <= i < size && units[i] != null ==>
            units[i].number in h && h[units[i].number] == units[i] && Slot(units[i].number, phase, size) == i)
      && (forall g :: g in h ==>
            0 <= Slot(g, phase, size) < size && units[Slot(g, phase, size)] == h[g] && h[g].number == g)
    }

    lemma NothingFreed(h: map<int, CUnit>)
      requires Slotted(h)
      ensures Behind(h, 0) == h
    {
    }

    lemma AllFreed(h: map<int, CUnit>)
      requires Slotted(h) && held == Behind(h, size) && OwnsAll(held)
      ensures held == map[] && forall u :: u in queue.pool ==> u.owner != this
    {
    }

    lemma BehindNext(h: map<int, CUnit>, i: nat)
      requires i < size && Slotted(h)
      ensures units[i] == null ==> Behind(h, i + 1) == Behind(h, i)
      ensures units[i] != null ==>
                var g := units[i].number;
                g in Behind(h, i) && Behind(h, i)[g] == units[i] && Behind(h, i + 1) == Behind(h, i) - {g}
    {
      hide Slot;
    }

    method FreePlace(i: nat, ghost h: map<int, CUnit>)
      requires i < size && Slotted(h) && OwnsAll(held) && queue.Valid() && held == Behind(h, i)
      modifies this`held, this`buf, this`cells, queue.pool`flag, queue.pool`owner, queue`count
      ensures OthersKept()
      ensures Slotted(h) && OwnsAll(held) && queue.Valid() && held == Behind(h, i + 1)
    {
      hide CUnitQueue.Valid, Slot, OwnsAll;
      BehindNext(h, i);
      if units[i] != null {
        var unit := units[i];
        ghost var before, g := held, unit.number;
        OwnedOne(before, g);
        held := held - {g};
        Unmark(unit, before, g);
      }
    }

    /** The number whose place is i. */
    lemma NumberAt(i: int) returns (g: int)
      requires Placed(startPos) && 0 <= i < size
      ensures start <= g < start + size && Slot(g, phase, size) == i
    {
      g := start + (i - startPos) + if i < startPos then size else 0;
      SlotOffset(startPos, start, g, phase, size);
      if i < startPos {
        ModIs(i + size, size, 1, i);
      } else {
        ModIs(i, size, 0, i);
      }
    }

    static lemma StepSlot(g: int, phase: int, size: int)
      requires 2 <= size
      ensures var p := Slot(g, phase, size);
              0 <= p < size && Slot(g + 1, phase, size) == (if p + 1 == size then 0 else p + 1) == (p + 1) % size
    {
      var p := Slot(g, phase, size);
      SlotOffset(p, g, g + 1, phase, size);
      if p + 1 == size { ModIs(p + 1, size, 1, 0); } else { ModIs(p + 1, size, 0, p + 1); }
    }

    /** What stands at a position: the number g, its unit, and where the next number is. */
    lemma At(p: int, g: int)
      requires Placed(p) && Owns() && start <= g < start + size
      ensures 2 <= size == units.Length && 0 <= Slot(g, phase, size) < size
      ensures g in held <==> units[Slot(g, phase, size)] != null
      ensures g in held <==> g in cells
      ensures g in held ==> units[Slot(g, phase, size)] == held[g] && Mine(held[g], g, buf[g], cells[g])
      ensures lastAckPos == Slot(lastAck, phase, size) && start <= lastAck < start + size
      ensures Slot(g + 1, phase, size) == if Slot(g, phase, size) + 1 == size then 0 else Slot(g, phase, size) + 1
      ensures Slot(g + 1, phase, size) == (Slot(g, phase, size) + 1) % size
      ensures Slot(g, phase, size) == lastAckPos <==> g == lastAck
    {
      StepSlot(g, phase, size);
      if Slot(g, phase, size) == lastAckPos { SlotInjective(g, lastAck, phase, size); }
    }

    lemma SlotsOf(h: map<int, CUnit>)
      requires Placed(startPos) && Owns() && h == held
      ensures Slotted(h)
    {
      hide Slot;
      forall i | 0 <= i < size && units[i] != null
        ensures units[i].number in h && h[units[i].number] == units[i] && Slot(units[i].number, phase, size) == i
      {
        var g := NumberAt(i);
        assert Mine(h[g], g, buf[g], cells[g]);
      }
      forall g | g in h
        ensures 0 <= Slot(g, phase, size) < size && units[Slot(g, phase, size)] == h[g] && h[g].number == g
      {
        assert Mine(h[g], g, buf[g], cells[g]);
        At(startPos, g);
      }
    }

    lemma StartSlot(p: int)
      requires Placed(p)
      ensures p == Slot(start, phase, size) && 0 <= p < size == units.Length && 2 <= size
      ensures start <= lastAck < start + size
    {
    }

    /** The end of the buffer: every unit it holds goes back to the pool. */
    method Destroy()
      requires Valid() && queue.Valid()
      modifies this`held, this`buf, this`cells, queue.pool`flag, queue.pool`owner, queue`count
      ensures OthersKept()
      ensures queue.Valid() && held == map[]
      ensures forall u :: u in queue.pool ==> u.owner != this
      ensures forall u :: u in queue.pool && old(u.owner) == this ==> u.flag == 0
    {
      hide CUnitQueue.Valid, Slot, OwnsAll, Slotted, Placed;
      ghost var h := held;
      SlotsOf(h);
      StartSlot(startPos);
      NothingFreed(h);
      for i := 0 to size
        invariant OwnsAll(held) && queue.Valid() && held == Behind(h, i) && Slotted(h)
        invariant OthersKept()
      {
        FreePlace(i, h);
      }
      AllFreed(h);
      UnownedIsFree();
    }

    /** A buffer is in order as long as it and its units are left alone and no unit becomes its own. */
    twostate lemma StaysValid()
      requires old(Valid()) && unchanged(this) && unchanged(units) && old(queue.pool) <= queue.pool
      requires forall u :: u in old(queue.pool) && old(u.owner) == this ==> unchanged(u)
      requires forall u :: u in queue.pool && u.owner == this ==> u in old(queue.pool) && old(u.owner) == this
      ensures Valid()
    {
      hide Slot;
      forall g | g in held ensures held[g] in queue.pool && Mine(held[g], g, buf[g], cells[g]) {
        assert old(Mine(held[g], g, buf[g], cells[g]));
      }
    }

    ghost function PlaceOfNumber(g: int): int
      reads this`phase
      requires size > 0
    {
      Slot(g, phase, size)
    }

    /** What stands at a place is a unit of this buffer, and the place is that of its number. */
    lemma UnitAtPlace(p: int)
      requires Valid() && 0 <= p < units.Length && units[p] != null
      ensures var u := units[p];
              size > 0 && u in queue.pool && u.owner == this && u.flag != 0 && PlaceOfNumber(u.number) == p
    {
      SlotsOf(held);
      var g := units[p].number;
      assert Mine(held[g], g, buf[g], cells[g]);
    }

    /** A unit of this buffer stands at the place of its number. */
    lemma UnitHasPlace(u: CUnit)
      requires Valid() && u in queue.pool && u.owner == this
      ensures 0 < size == units.Length && 0 <= PlaceOfNumber(u.number) < size && units[PlaceOfNumber(u.number)] == u
    {
      SlotsOf(held);
    }

    // ---- message mode ----------------------------------------------------------------

    /** Whether the message at the start has no hole as far as it is acknowledged. */
    method LookAhead() returns (good: bool)
      requires Placed(startPos) && Owns() && start < lastAck
      ensures good == Good(cells, start, lastAck)
    {
      hide Slot, Placed, OwnsAll;
      var i := startPos;
      ghost var g := start;
      StartSlot(startPos);
      At(startPos, g);
      while i != lastAckPos
        invariant start <= g <= lastAck < start + size && i == Slot(g, phase, size)
        invariant i == lastAckPos <==> g == lastAck
        invariant Good(cells, start, lastAck) == Good(cells, g, lastAck)
        decreases lastAck - g
      {
        At(startPos, g);
        if units[i] == null || units[i].flag != 1 {
          return false;
        }
        if Boundary(units[i].word) == 1 || Boundary(units[i].word) == 3 {
          return true;
        }
        i := i + 1;
        if i == size {
          i := 0;
        }
        g := g + 1;
        At(startPos, g);
      }
      return true;
    }

    /** Passes an empty place at the start. */
    method AdvanceEmpty(p: int) returns (p': int)
      requires Placed(p) && Bounded() && start !in held && start < lastAck
      modifies this`start
      ensures Placed(p') && Bounded() && start == old(start) + 1
    {
      hide Slot;
      NextPosition(p);
      p' := p + 1;
      if p' == size {
        p' := 0;
      }
      start := start + 1;
    }

    /** Whether a message without a hole begins at the start. */
    method StopsHere() returns (good: bool)
      requires Valid() && start < lastAck
      ensures good == GoodStart(cells, start, lastAck)
    {
      hide Slot, Placed, OwnsAll, CUnitQueue.Valid, Bounded, NotAgain, Good;
      StartSlot(startPos);
      At(startPos, start);
      good := false;
      if units[startPos] != null && units[startPos].flag == 1 && Boundary(units[startPos].word) > 1 {
        good := LookAhead();
      }
    }

    lemma CellsFrom(p: int)
      requires Placed(p) && Owns()
      ensures forall g :: g in cells ==> start <= g < start + size - 1
    {
    }

    /** Clears the place at the start, whether a unit is there or not. */
    method DropPlace()
      requires Valid() && queue.Valid() && start < lastAck
      modifies this`startPos, this`start, this`held, this`buf, this`cells, units
      modifies queue.pool`flag, queue.pool`owner, queue`count
      ensures OthersKept()
      ensures Valid() && queue.Valid() && start == old(start) + 1 && cells == From(old(cells), start)
    {
      hide Slot, Placed, OwnsAll, CUnitQueue.Valid, Bounded;
      StartSlot(startPos);
      At(startPos, start);
      if units[startPos] == null {
        startPos := AdvanceEmpty(startPos);
        CellsFrom(startPos);
        FromAll(cells, start);
      } else {
        startPos := FreeUnit(startPos);
      }
    }

    /** Frees the packets at the start that do not begin a good message. */
    method SkipBad()
      requires Valid() && queue.Valid()
      modifies this`startPos, this`start, this`held, this`buf, this`cells, units
      modifies queue.pool`flag, queue.pool`owner, queue`count
      ensures OthersKept()
      ensures Valid() && queue.Valid()
      ensures start == SkipTo(old(cells), old(start), lastAck) && cells == From(old(cells), start)
    {
      hide Slot, Placed, OwnsAll, CUnitQueue.Valid, Bounded, NotAgain, GoodStart, SkipTo, From;
      ghost var c := cells;
      CellsFrom(startPos);
      FromAll(c, start);
      StartSlot(startPos);
      PositionsDiffer(startPos);
      while startPos != lastAckPos
        invariant Valid() && queue.Valid()
        invariant OthersKept()
        invariant old(start) <= start <= lastAck && cells == From(c, start)
        invariant startPos != lastAckPos <==> start < lastAck
        invariant SkipTo(c, old(start), lastAck) == SkipTo(c, start, lastAck)
        decreases lastAck - start
      {
        GoodStartFrom(c, start, lastAck);
        SkipStep(c, start, lastAck);
        FromTwice(c, start, start + 1);
        var good := StopsHere();
        if good {
          return;
        }
        DropPlace();
        PositionsDiffer(startPos);
      }
      SkipStep(c, start, lastAck);
    }

    static lemma OneRound(g: int, phase: int, size: int)
      requires size > 0
      ensures Slot(g + size, phase, size) == Slot(g, phase, size)
    {
      var p := Slot(g, phase, size);
      SlotOffset(p, g, g + size, phase, size);
      ModIs(p + size, size, 1, p);
    }

    /** A message that meets its own beginning fills the whole buffer. */
    lemma FillsBuffer(b: int)
      requires Placed(startPos) && Owns() && Bounded() && start <= b <= lastAck + maxPos && lastAck + maxPos in cells
      ensures (Slot(lastAck + maxPos + 1, phase, size) + 1) % size == Slot(b, phase, size) <==>
                b == start && lastAck + maxPos == start + size - 2
      ensures Slot(start, phase, size) == startPos
    {
      hide Slot;
      var limit := lastAck + maxPos;
      CellsFrom(startPos);
      StartSlot(startPos);
      StepSlot(limit + 1, phase, size);
      OneRound(b, phase, size);
      if Slot(limit + 2, phase, size) == Slot(b, phase, size) {
        SlotInjective(limit + 2, b + size, phase, size);
      }
    }

    lemma BoundedAbove()
      requires Bounded()
      ensures maxPos <= start + size - 1 - lastAck
    {
    }

    ghost function PlaceOfOption(o: Option<int>): (p: int)
      reads this`phase
    {
      if o.Some? && size > 0 then Slot(o.value, phase, size) else -1
    }

    /** What the unit at q makes of the message that began at p. */
    method Classify(q: int, p: int, ghost g: int, ghost b: Option<int>) returns (p': int, ended: bool)
      requires Placed(startPos) && Owns() && start <= g < start + size
      requires q == Slot(g, phase, size) && p == PlaceOfOption(b)
      ensures p' == PlaceOfOption(StartAt(cells, g, b)) && -1 <= p' && (p' < size || p' == p)
      ensures ended == EndsAt(cells, g, b)
    {
      hide Slot, Placed, OwnsAll;
      At(startPos, g);
      p', ended := p, false;
      if units[q] != null && units[q].flag == 1 {
        var boundary := Boundary(units[q].word);
        if boundary == 3 {
          p', ended := q, true;
        } else if boundary == 2 {
          p' := q;
        } else if boundary == 1 && p != -1 {
          ended := true;
        }
      } else {
        p' := -1;
      }
    }

    /** Stepping past g reaches the acknowledged place exactly at its number, or at the start again. */
    lemma WrapAround(g: int)
      requires Placed(startPos) && start < g <= start + size
      ensures Slot(g, phase, size) == (if Slot(g - 1, phase, size) + 1 == size then 0 else Slot(g - 1, phase, size) + 1)
      ensures 0 <= Slot(g, phase, size) < size
      ensures Slot(g, phase, size) == lastAckPos <==> g == lastAck || (start == lastAck && g == start + size)
    {
      StepSlot(g - 1, phase, size);
      if g == start + size {
        SlotOffset(startPos, start, g, phase, size);
        ModIs(startPos + size, size, 1, startPos);
        if startPos == lastAckPos { SlotInjective(start, lastAck, phase, size); }
      } else if Slot(g, phase, size) == lastAckPos {
        SlotInjective(g, lastAck, phase, size);
      }
    }

    /** The search loop of ScanMsg, from the start on. */
    method SearchPlaces() returns (found: bool, p: int, q: int, passack: bool, ghost hit: Hit)
      requires Valid()
      ensures hit == Search(cells, start, None, start == lastAck, lastAck, lastAck + maxPos) && passack == hit.passack
      ensures hit.found && hit.p.Some? ==> found && p == PlaceOfOption(hit.p) && q == Slot(hit.q, phase, size)
      ensures !hit.found ==>
                p == PlaceOfOption(hit.p) && q == Slot(lastAck + maxPos + 1, phase, size) && size > 0
                && (found <==> hit.p.Some? && (q + 1) % size == p)
    {
      hide Slot, Placed, OwnsAll, Search, StartAt, EndsAt;
      p := -1;
      q := startPos;
      passack := startPos == lastAckPos;
      found := false;
      StartSlot(startPos);
      At(startPos, start);
      var i, n := 0, maxPos + GetRcvDataSize();
      ghost var limit := lastAck + maxPos;
      ghost var g, b: Option<int> := start, None;
      hit := Search(cells, g, b, passack, lastAck, limit);
      while i <= n
        invariant 0 <= i && g == start + i && g <= limit + 1 && !found
        invariant q == Slot(g, phase, size) && p == PlaceOfOption(b) && -1 <= p < size
        invariant start == lastAck ==> passack
        invariant hit == Search(cells, g, b, passack, lastAck, limit)
        decreases n - i
      {
        SearchStep(cells, g, b, passack, lastAck, limit);
        var before := p;
        p, found := Classify(q, before, g, b);
        b := StartAt(cells, g, b);
        if found {
          At(startPos, g);
          if !passack || !OrderFlag(units[q].word) {
            break;
          }
          found := false;
        }
        WrapAround(g + 1);
        q := q + 1;
        if q == size {
          q := 0;
        }
        if q == lastAckPos {
          passack := true;
        }
        g := g + 1;
        i := i + 1;
      }
      if !found {
        SearchOver(cells, g, b, passack, lastAck, limit);
        if p != -1 && (q + 1) % size == p {
          found := true;
        }
      }
    }

    /** The search and what comes of it: found is also set when one message fills the whole buffer. */
    method SearchHere() returns (found: bool, p: int, q: int, passack: bool, ghost hit: Hit)
      requires Valid()
      ensures hit == Search(cells, start, None, start == lastAck, lastAck, lastAck + maxPos) && passack == hit.passack
      ensures hit.found ==> found && hit.p.Some? && start <= hit.p.value <= hit.q < start + size
                            && p == Slot(hit.p.value, phase, size) && q == Slot(hit.q, phase, size)
      ensures !hit.found ==> (found <==> hit.p == Some(start) && lastAck + maxPos == start + size - 2)
      ensures !hit.found && found ==> p == startPos == (q + 1) % size
    {
      hide Slot, Placed, OwnsAll, Bounded, NotAgain, Search;
      StartSlot(startPos);
      SearchRange(cells, start, start, None, start == lastAck, lastAck, lastAck + maxPos);
      assert maxPos <= start + size - 1 - lastAck by { BoundedAbove(); }
      found, p, q, passack, hit := SearchPlaces();
      if !hit.found && hit.p.Some? {
        SearchLast(cells, start, start, None, start == lastAck, lastAck, lastAck + maxPos);
        FillsBuffer(hit.p.value);
      }
    }

    /** Looks for a message; p and q are its first and last places. `hit` is what Scan finds. When
        nothing is found but one message fills the whole buffer, found is set as well. */
    method ScanMsg() returns (found: bool, p: int, q: int, passack: bool, ghost hit: Hit)
      requires Valid() && queue.Valid()
      modifies this`startPos, this`start, this`held, this`buf, this`cells, units
      modifies queue.pool`flag, queue.pool`owner, queue`count
      ensures OthersKept()
      ensures Valid() && queue.Valid()
      ensures var limit := lastAck + maxPos;
              if old(start) == lastAck && maxPos <= 0 then !found && start == old(start) && cells == old(cells)
              else start == SkipTo(old(cells), old(start), lastAck) && cells == From(old(cells), start)
                   && hit == Scan(old(cells), old(start), lastAck, limit) && passack == hit.passack
                   && (hit.found ==> found && hit.p.Some? && start <= hit.p.value <= hit.q < start + size
                                     && p == Slot(hit.p.value, phase, size) && q == Slot(hit.q, phase, size))
                   && (!hit.found ==> (found <==> hit.p == Some(start) && limit == start + size - 2))
                   && (!hit.found && found ==> p == startPos == (q + 1) % size)
    {
      hide Slot, Placed, OwnsAll, Bounded, CUnitQueue.Valid, NotAgain, Search, From, SkipTo;
      found, p, q, passack, hit := false, -1, 0, false, Hit(false, None, 0, false);
      StartSlot(startPos);
      PositionsDiffer(startPos);
      if startPos == lastAckPos && maxPos <= 0 {
        return;
      }
      SkipBad();
      found, p, q, passack, hit := SearchHere();
    }

    lemma CellsUpTo()
      requires Valid()
      ensures forall g :: g in cells ==> start <= g <= lastAck + maxPos
      ensures start <= lastAck <= lastAck + maxPos + 1
    {
    }

    lemma ScanAfter(layout: Layout)
      requires Valid() && Formed(cells, layout)
      ensures var s := SkipTo(cells, start, lastAck);
              var h := Scan(cells, start, lastAck, lastAck + maxPos);
              !h.found ==> (h.p == Some(s) <==> OneMessage(From(cells, s), layout, s, lastAck + maxPos))
    {
      CellsUpTo();
      var s := SkipTo(cells, start, lastAck);
      FromFormed(cells, layout, s);
      SearchEnds(From(cells, s), layout, s, lastAck, lastAck + maxPos);
    }

    /** 1 exactly if a message can be handed out, or the part of one message fills the whole buffer. */
    method GetRcvMsgNum(ghost layout: Layout) returns (n: int)
      requires Valid() && queue.Valid() && Formed(cells, layout)
      modifies this`startPos, this`start, this`held, this`buf, this`cells, units
      modifies queue.pool`flag, queue.pool`owner, queue`count
      ensures OthersKept()
      ensures Valid() && queue.Valid() && cells == From(old(cells), start) && (n == 0 || n == 1)
      ensures n == 1 <==>
                !(old(start) == lastAck && maxPos <= 0)
                && ((exists g :: Deliverable(old(cells), layout(g), lastAck))
                    || (OneMessage(cells, layout, start, lastAck + maxPos) && lastAck + maxPos == start + size - 2))
    {
      hide Slot, Placed, OwnsAll, CUnitQueue.Valid, Bounded, NotAgain, Formed, Whole, Search, From, SkipTo, OneMessage;
      ScanAfter(layout);
      CellsFrom(startPos);
      FromAll(cells, start);
      CellsUpTo();
      ScanFinds(cells, layout, start, lastAck, lastAck + maxPos);
      var found, p, q, passack;
      ghost var hit;
      found, p, q, passack, hit := ScanMsg();
      n := if found then 1 else 0;
    }

    method MarkAs(unit: CUnit, ghost g: int, flag: int)
      requires Owns() && queue.Valid() && g in held && held[g] == unit && flag != 0
      modifies this`cells, queue.pool`flag
      ensures OthersKept()
      ensures Owns() && queue.Valid() && g in old(cells) && cells == old(cells)[g := old(cells)[g].(flag := flag)]
    {
      unit.flag := flag;
      cells := cells[g := cells[g].(flag := flag)];
      assert queue.Used() == old(queue.Used());
    }

    /** One packet of a message: its bytes as far as they fit; it is freed, or marked if it was read
        before its turn. */
    method ReadUnit(p: int, rs: nat, passack: bool, ghost g: int, ghost at: int)
      returns (p': int, rs': nat, got: Bytes, ghost at': int)
      requires Placed(at) && Owns() && Bounded() && queue.Valid()
      requires g in cells && p == Slot(g, phase, size) && (!passack ==> g == start < lastAck && at == p)
      modifies this`start, this`held, this`buf, this`cells, units
      modifies queue.pool`flag, queue.pool`owner, queue`count
      ensures OthersKept()
      ensures Placed(at') && Owns() && Bounded() && queue.Valid() && p' == Slot(g + 1, phase, size)
      ensures got == old(cells)[g].payload[..Min(rs, |old(cells)[g].payload|)] && rs' == rs - |got|
      ensures passack ==> at' == at && start == old(start) && cells == old(cells)[g := old(cells)[g].(flag := 2)]
      ensures !passack ==> at' == p' && start == g + 1 && cells == From(old(cells), g + 1)
    {
      hide Slot, Placed, OwnsAll, CUnitQueue.Valid, Bounded, From;
      CellsFrom(at);
      At(at, g);
      var unitSize := |units[p].payload|;
      if unitSize > rs {
        unitSize := rs;
      }
      got := units[p].payload[..unitSize];
      rs' := rs - unitSize;
      at' := at;
      if !passack {
        p' := FreeUnit(p);
        StartSlot(p');
        at' := p';
      } else {
        MarkAs(units[p], g, 2);
        p' := p + 1;
        if p' == size {
          p' := 0;
        }
      }
    }

    /** What is ready was not handed out before. */
    lemma NeverGiven(m: Messages.Message)
      requires NotAgain() && Owns() && Placed(startPos) && Whole(cells, m)
      ensures forall g :: m.first <= g <= m.last ==> g in cells && g !in given
      ensures forall g :: g in given ==> g < start || (g in cells && !Ready(cells, g))
    {
      hide Slot;
      forall g | m.first <= g <= m.last ensures g in cells && g !in given {
        assert Ready(cells, g);
      }
    }

    lemma Given(c: Cells, passack: bool, m: Messages.Message, before: set<int>, start0: int)
      requires cells == Taken(c, passack, m.first, m.last + 1) && given == before + Range(m.first, m.last)
      requires forall g :: g in before ==> g < start0 || (g in c && !Ready(c, g))
      requires Whole(c, m) && start == if passack then start0 else m.last + 1
      requires start0 <= m.first
      ensures NotAgain()
    {
      forall g | g in given ensures g < start || (g in cells && !Ready(cells, g)) {
        if m.first <= g <= m.last {
          assert Ready(c, g);
        } else {
          assert g in before;
        }
      }
    }

    /** The reading loop: all packets of the message, from place p0 to place q. */
    method TakeMessage(p0: int, q: int, passack: bool, len: nat, ghost m: Messages.Message) returns (out: Bytes)
      requires Valid() && queue.Valid() && Whole(cells, m) && start <= m.first
      requires p0 == Slot(m.first, phase, size) && q == Slot(m.last, phase, size)
      requires passack <==> m.last >= lastAck
      requires !passack ==> m.first == start
      modifies this`startPos, this`start, this`held, this`buf, this`cells, this`given, units
      modifies queue.pool`flag, queue.pool`owner, queue`count
      ensures OthersKept()
      ensures Valid() && queue.Valid() && given == old(given) + Range(m.first, m.last)
      ensures start == if passack then old(start) else m.last + 1
      ensures cells == Taken(old(cells), passack, m.first, m.last + 1)
      ensures forall g :: m.first <= g <= m.last ==> g in old(cells) && g !in old(given)
      ensures var text := TextOf(old(cells), m.first, m.last + 1); out == text[..Min(len, |text|)]
    {
      hide Slot, Placed, OwnsAll, CUnitQueue.Valid, Bounded, From, Taken, TextOf, NotAgain;
      ghost var c, g, at := cells, m.first, startPos;
      var p, rs := p0, len;
      out := [];
      NeverGiven(m);
      StartSlot(at);
      CellsFrom(at);
      TakenNothing(c, passack, m.first);
      TextStarts(c, m.first);
      StepSlot(m.last, phase, size);
      assert m.last - m.first < size - 1 by { assert m.first in cells && m.last in cells; }
      while p != (q + 1) % size
        invariant m.first <= g <= m.last + 1 && p == Slot(g, phase, size)
        invariant Placed(at) && Owns() && Bounded() && queue.Valid()
        invariant OthersKept()
        invariant cells == Taken(c, passack, m.first, g)
        invariant if passack then at == startPos && start == old(start) else at == p && start == g
        invariant rs == len - |out| && given == old(given)
        invariant var text := TextOf(c, m.first, g); out == text[..Min(len, |text|)]
        decreases m.last - g
      {
        ghost var text := TextOf(c, m.first, g);
        TakenAt(c, passack, m.first, g);
        TextGrows(c, m.first, g);
        var got;
        p, rs, got, at := ReadUnit(p, rs, passack, g, at);
        Truncated(text, c[g].payload, len, out, got);
        out := out + got;
        g := g + 1;
      }
      if g != m.last + 1 {
        SlotInjective(g, m.last + 1, phase, size);
      }
      if !passack {
        startPos := (q + 1) % size;
      }
      given := given + Range(m.first, m.last);
      Given(c, passack, m, old(given), old(start));
    }

    /** A message that is handed out does not fill the buffer. */
    lemma NotFull(m: Messages.Message)
      requires Valid() && Whole(cells, m)
      ensures Slot(m.first, phase, size) != (Slot(m.last, phase, size) + 1) % size
    {
      hide Slot;
      assert Ready(cells, m.first) && Ready(cells, m.last);
      CellsFrom(startPos);
      StepSlot(m.last, phase, size);
      if Slot(m.first, phase, size) == Slot(m.last + 1, phase, size) {
        SlotInjective(m.first, m.last + 1, phase, size);
      }
    }

    lemma DroppedNotReady(c: Cells, msgno: int)
      requires cells == Dropped(c, msgno, lastAck + maxPos) && NotAgainIn(c)
      ensures NotAgain()
    {
    }

    /** Marks the packets of a message as dropped: those from the start up to, but not including, the
        furthest one whose whole message word equals the number. */
    method DropMsg(msgno: int)
      requires Valid() && queue.Valid() && maxPos >= 0
      modifies this`cells, queue.pool`flag
      ensures OthersKept()
      ensures Valid() && queue.Valid() && cells == Dropped(old(cells), msgno, lastAck + maxPos)
    {
      hide Slot, Placed, OwnsAll, CUnitQueue.Valid, Bounded, NotAgainIn, Dropped;
      ghost var c, g := cells, start;
      StartSlot(startPos);
      BoundedAbove();
      DroppedNothing(c, msgno, start) by { CellsFrom(startPos); }
      At(startPos, start);
      var i := startPos;
      var n := (lastAckPos + maxPos) % size;
      SlotOffset(lastAckPos, lastAck, lastAck + maxPos, phase, size);
      while i != n
        invariant start <= g <= lastAck + maxPos && i == Slot(g, phase, size)
        invariant OthersKept()
        invariant Placed(startPos) && Owns() && queue.Valid() && cells == Dropped(c, msgno, g)
        decreases lastAck + maxPos - g
      {
        At(startPos, g);
        DroppedNext(c, msgno, g);
        if units[i] != null && units[i].word == msgno {
          MarkAs(units[i], g, 3);
        }
        i := (i + 1) % size;
        g := g + 1;
      }
      if g != lastAck + maxPos {
        SlotInjective(g, lastAck + maxPos, phase, size);
      }
      DroppedNotReady(c, msgno);
    }

    ghost function DropBound(): int
      reads this`lastAckPos, this`maxPos
      requires size > 0
    {
      SignedRemainder(lastAckPos + maxPos, size)
    }

    /** The loop of DropMsg steps through the ring until it meets its bound. It does so exactly if the
        buffer has ever held something: in a new buffer the bound is -1. */
    lemma DropLoopEnds()
      requires Valid()
      ensures (exists k: nat :: Meets(startPos, k, DropBound(), size)) <==> maxPos >= 0
    {
      hide Meets, Slot, Placed, OwnsAll;
      StartSlot(startPos);
      At(startPos, start);
      MeetsWithin(startPos, DropBound(), size);
      if maxPos == -1 {
        ModIs(1, size, 0, 1);
      }
    }

    /** Looks for the first deliverable message and tells its places; `m` is the message. When the buffer
        is full of one message, nothing is to be read either. */
    method FindMessage(ghost layout: Layout)
      returns (found: bool, p: int, q: int, passack: bool, ghost m: Option<Messages.Message>)
      requires Valid() && queue.Valid() && Formed(cells, layout)
      modifies this`startPos, this`start, this`held, this`buf, this`cells, units
      modifies queue.pool`flag, queue.pool`owner, queue`count
      ensures OthersKept()
      ensures Valid() && queue.Valid() && old(start) <= start <= lastAck && found == m.Some?
      ensures start == SkipTo(old(cells), old(start), lastAck) && cells == From(old(cells), start)
      ensures !found <==>
                (old(start) == lastAck && maxPos <= 0) || forall g :: !Deliverable(old(cells), layout(g), lastAck)
      ensures match m
              case None => true
              case Some(w) =>
                && (exists g :: layout(g) == w) && Deliverable(old(cells), w, lastAck)
                && (forall g :: Deliverable(old(cells), layout(g), lastAck) ==> w.last <= layout(g).last)
                && Whole(cells, w) && start <= w.first <= w.last && (w.last < lastAck ==> w.first == start)
                && p == Slot(w.first, phase, size) && q == Slot(w.last, phase, size) && passack == (w.last >= lastAck)
    {
      hide Slot, Placed, OwnsAll, CUnitQueue.Valid, Bounded, NotAgain, Formed, Whole, Search, Scan, From, SkipTo, Ready;
      ghost var c := cells;
      StartSlot(startPos);
      CellsFrom(startPos);
      FromAll(c, start);
      CellsUpTo();
      ScanFinds(c, layout, start, lastAck, lastAck + maxPos);
      SkipStep(c, start, lastAck);
      ghost var hit;
      found, p, q, passack, hit := ScanMsg();
      m := None;
      if found {
        if hit.found {
          m := Some(layout(hit.q));
          WholeFrom(c, layout(hit.q), start);
          NotFull(layout(hit.q));
        }
        if p == (q + 1) % size {
          // the buffer is full of one message: the reading loop does not run once
          found := false;
          if !passack {
            startPos := (q + 1) % size;
          }
        }
      }
    }

    /** Hands out the first deliverable message, cut off after len bytes; m tells which one. */
    method ReadMsg(len: nat, ghost layout: Layout) returns (out: Bytes, ghost m: Option<Messages.Message>)
      requires Valid() && queue.Valid() && Formed(cells, layout)
      modifies this`startPos, this`start, this`held, this`buf, this`cells, this`given, units
      modifies queue.pool`flag, queue.pool`owner, queue`count
      ensures OthersKept()
      ensures Valid() && queue.Valid()
      ensures m.None? <==>
                (old(start) == lastAck && maxPos <= 0) || forall g :: !Deliverable(old(cells), layout(g), lastAck)
      ensures m.None? ==> out == [] && given == old(given) && cells == From(old(cells), start)
      ensures m.None? ==> start == SkipTo(old(cells), old(start), lastAck)
      ensures forall g :: old(start) <= layout(g).first && Waiting(old(cells), layout(g), lastAck)
                          && m != Some(layout(g)) ==>
                            start <= layout(g).first
      ensures m.Some? ==> Delivers(old(cells), old(start), lastAck, layout, m.value, len, out, start, cells)
      ensures m.Some? ==> given == old(given) + Range(m.value.first, m.value.last)
      ensures m.Some? ==> forall g :: m.value.first <= g <= m.value.last ==> g !in old(given)
      ensures old(start) <= start <= lastAck
    {
      hide Slot, Placed, OwnsAll, CUnitQueue.Valid, Bounded, NotAgain, Formed, Whole, From, Taken, TextOf, SkipTo,
           Ready, Range, Delivers, Waiting;
      ghost var c, start0 := cells, start;
      var found, p, q, passack;
      found, p, q, passack, m := FindMessage(layout);
      out := [];
      if found {
        out := TakeMessage(p, q, passack, len, m.value);
        Delivered(c, start0, lastAck, layout, m.value, len, out, start, cells);
      }
      ReadKeeps(c, start0, lastAck, layout, m, len, out, start, cells);
    }
  }
}
