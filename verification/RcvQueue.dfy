/** The receiving queue of a multiplexer (class CRcvQueue): one pool of units under the receive buffers
    of all its sockets. */
module RcvQueue {
  import opened Basics
  import opened Messages
  import opened UnitQueue
  import opened RcvBuffer

  class CRcvQueue {
    const unitQueue: CUnitQueue
    /** The receive buffers of the sockets at this queue. */
    ghost var buffers: set<CRcvBuffer>

    /** Every buffer is in order, and the units in use are those of the buffers. */
    ghost predicate Shared()
      reads this, unitQueue, unitQueue.pool, buffers, set b | b in buffers :: b.units
    {
      && unitQueue.Valid()
      && (forall b :: b in buffers ==> b.queue == unitQueue && b.Valid())
      && (forall b, c :: b in buffers && c in buffers && b != c ==> b.units != c.units)
      && (forall u :: u in unitQueue.pool ==> u.owner == null || exists b :: b in buffers && u.owner == b)
    }

    ghost predicate Valid()
      reads this, unitQueue, unitQueue.pool, buffers, set b | b in buffers :: b.units
    {
      Shared() && unitQueue.Shaped()
    }

    /** The unit stands at a place of a buffer. */
    ghost predicate At(b: CRcvBuffer, p: int, u: CUnit)
      reads b, b.units
    {
      0 <= p < b.units.Length && b.units[p] == u
    }

    /** A unit is in use exactly if one place of one buffer refers to it, and then no other does. */
    lemma UsedExactlyOnce(u: CUnit)
      requires Shared() && u in unitQueue.pool
      ensures u.flag != 0 <==> exists b, p :: b in buffers && At(b, p, u)
      ensures forall b, p, c, q :: b in buffers && c in buffers && At(b, p, u) && At(c, q, u) ==> b == c && p == q
    {
      hide CRcvBuffer.Valid, CRcvBuffer.PlaceOfNumber;
      forall b, p | b in buffers && At(b, p, u)
        ensures b.size > 0 && u.owner == b && u.flag != 0 && b.PlaceOfNumber(u.number) == p
      {
        b.UnitAtPlace(p);
      }
      if u.flag != 0 {
        var b :| b in buffers && u.owner == b;
        b.UnitHasPlace(u);
        assert At(b, b.PlaceOfNumber(u.number), u);
      }
    }

    constructor (qsize: nat)
      requires qsize > 0
      ensures Valid() && buffers == {} && fresh(unitQueue) && fresh(unitQueue.pool)
    {
      unitQueue := new CUnitQueue(qsize);
      buffers := {};
    }

    /** A socket is set up: its buffer takes units from the pool from now on. */
    method Attach(size: int, ghost first: int) returns (a: CRcvBuffer)
      requires Valid() && size >= 2
      modifies this`buffers
      ensures Valid() && buffers == old(buffers) + {a} && fresh(a) && fresh(a.units)
      ensures a.buf == map[] && a.start == a.lastAck == first && a.size == size
    {
      hide CRcvBuffer.Valid, CUnitQueue.Valid, CUnitQueue.Shaped, Formed;
      a := new CRcvBuffer(size, unitQueue, first);
      forall b | b in buffers ensures b.Valid() {
        b.StaysValid();
      }
      buffers := buffers + {a};
    }

    lemma NobodyHas(unit: CUnit)
      requires unitQueue.Valid() && unit in unitQueue.pool && unit.flag == 0
      ensures unit.owner == null
    {
    }

    /** A free unit takes the packet, and the buffer takes the unit unless the place is taken. */
    method Store(a: CRcvBuffer, unit: CUnit, offset: int, payload: Bytes, word: int) returns (stored: bool)
      requires Valid() && a in buffers && 0 <= offset < a.size - (a.lastAck - a.start) - 1
      requires unit in unitQueue.pool && unit.flag == 0
      modifies a, a.units, unitQueue`count, unit
      ensures Valid() && a.lastAck == old(a.lastAck) && a.start == old(a.start)
      ensures a.buf == if stored then old(a.buf)[a.lastAck + offset := payload] else old(a.buf)
      ensures a.cells == if stored then old(a.cells)[a.lastAck + offset := Cell(payload, word, 1)] else old(a.cells)
      ensures stored <==> a.lastAck + offset !in old(a.buf)
    {
      hide CRcvBuffer.Valid, CUnitQueue.Valid, CUnitQueue.Shaped, Formed;
      NobodyHas(unit);
      unit.payload, unit.word := payload, word;
      a.StaysValid();
      var result := a.AddData(unit, offset);
      forall b | b in buffers && b != a ensures b.Valid() {
        b.StaysValid();
      }
      stored := result == 0;
    }

    /** A packet for one socket: it is skipped when no free unit is found, or when it is there already. */
    method Receive(a: CRcvBuffer, offset: int, payload: Bytes, word: int) returns (found: bool, stored: bool)
      requires Valid() && a in buffers && 0 <= offset < a.size - (a.lastAck - a.start) - 1
      modifies a, a.units, unitQueue, unitQueue.pool
      ensures Valid() && a.lastAck == old(a.lastAck) && a.start == old(a.start)
      ensures a.buf == if stored then old(a.buf)[a.lastAck + offset := payload] else old(a.buf)
      ensures a.cells == if stored then old(a.cells)[a.lastAck + offset := Cell(payload, word, 1)] else old(a.cells)
      ensures stored <==> found && a.lastAck + offset !in old(a.buf)
    {
      hide CRcvBuffer.Valid, CUnitQueue.Valid, CUnitQueue.Shaped, Formed;
      var unit := unitQueue.GetNextAvailUnit();
      forall b | b in buffers ensures b.Valid() {
        b.StaysValid();
      }
      found, stored := unit != null, false;
      if unit != null {
        stored := Store(a, unit, offset, payload, word);
      }
    }

    method Read(a: CRcvBuffer, len: nat) returns (out: Bytes)
      requires Valid() && a in buffers && a.Stream()
      modifies a, a.units, unitQueue.pool`flag, unitQueue.pool`owner, unitQueue`count
      ensures Valid() && a.Stream() && out + a.Rest() == old(a.Rest()) && |out| == Min(len, |old(a.Rest())|)
    {
      hide CRcvBuffer.Valid, CUnitQueue.Valid, CUnitQueue.Shaped, Formed;
      out := a.ReadBuffer(len);
      forall b | b in buffers && b != a ensures b.Valid() {
        b.StaysValid();
      }
    }

    method ReadMessage(a: CRcvBuffer, len: nat, ghost layout: Layout)
      returns (out: Bytes, ghost m: Option<Messages.Message>)
      requires Valid() && a in buffers && Formed(a.cells, layout)
      modifies a, a.units, unitQueue.pool`flag, unitQueue.pool`owner, unitQueue`count
      ensures Valid()
      ensures m.Some? ==> Delivers(old(a.cells), old(a.start), a.lastAck, layout, m.value, len, out, a.start, a.cells)
      ensures m.None? ==> out == [] && a.cells == From(old(a.cells), a.start)
    {
      hide CRcvBuffer.Valid, CUnitQueue.Valid, CUnitQueue.Shaped, Formed, Delivers, From;
      out, m := a.ReadMsg(len, layout);
      forall b | b in buffers && b != a ensures b.Valid() {
        b.StaysValid();
      }
    }

    method CountMessages(a: CRcvBuffer, ghost layout: Layout) returns (n: int)
      requires Valid() && a in buffers && Formed(a.cells, layout)
      modifies a, a.units, unitQueue.pool`flag, unitQueue.pool`owner, unitQueue`count
      ensures Valid() && a.cells == From(old(a.cells), a.start)
    {
      hide CRcvBuffer.Valid, CUnitQueue.Valid, CUnitQueue.Shaped, Formed, From;
      n := a.GetRcvMsgNum(layout);
      forall b | b in buffers && b != a ensures b.Valid() {
        b.StaysValid();
      }
    }

    method Drop(a: CRcvBuffer, msgno: int)
      requires Valid() && a in buffers && a.maxPos >= 0
      modifies a, unitQueue.pool`flag
      ensures Valid() && a.cells == Dropped(old(a.cells), msgno, a.lastAck + a.maxPos)
    {
      hide CRcvBuffer.Valid, CUnitQueue.Valid, CUnitQueue.Shaped, Formed, Dropped;
      a.DropMsg(msgno);
      forall b | b in buffers && b != a ensures b.Valid() {
        b.StaysValid();
      }
    }

    method Acknowledge(a: CRcvBuffer, len: int)
      requires Valid() && a in buffers && 0 <= len && a.lastAck + len - a.start < a.size
      modifies a
      ensures Valid() && a.lastAck == old(a.lastAck) + len && a.buf == old(a.buf)
    {
      hide CRcvBuffer.Valid, CUnitQueue.Valid, CUnitQueue.Shaped, Formed;
      a.AckData(len);
      forall b | b in buffers && b != a ensures b.Valid() {
        b.StaysValid();
      }
    }

    /** A socket goes: its units are free again, and those of the others are as they were. */
    method Detach(a: CRcvBuffer)
      requires Valid() && a in buffers
      modifies this`buffers, a, unitQueue.pool`flag, unitQueue.pool`owner, unitQueue`count
      ensures Valid() && buffers == old(buffers) - {a}
      ensures forall u :: u in unitQueue.pool && old(u.owner) == a ==> u.flag == 0
    {
      hide CRcvBuffer.Valid, CUnitQueue.Valid, CUnitQueue.Shaped, Formed;
      a.Destroy();
      forall b | b in buffers && b != a ensures b.Valid() {
        b.StaysValid();
      }
      forall u | u in unitQueue.pool ensures u.owner == null || exists b :: b in buffers - {a} && u.owner == b {
        if u.owner != null {
          var b :| b in buffers && old(u.owner) == b;
          assert b in buffers - {a} && u.owner == b;
        }
      }
      buffers := buffers - {a};
    }
  }

  /** A new pool of two units, of which the search returns the first one. */
  method FreshPair() returns (queue: CUnitQueue)
    ensures queue.Valid() && queue.Shaped() && |queue.entries| == 1 && |queue.entries[0]| == 2
    ensures var (first, second) := (queue.entries[0][0], queue.entries[0][1]);
            && first in queue.pool && second in queue.pool && first != second && first.flag == second.flag == 0
    ensures queue.count == 0 && fresh(queue) && fresh(queue.pool) && queue.current == queue.avail == 0
  {
    hide CUnitQueue.Valid;
    queue := new CUnitQueue(2);
    queue.InPool(0, 0);
    queue.InPool(0, 1);
    queue.OneMore(0, 1);
    assert queue.entries[0][..1][0] == queue.entries[0][0];
    assert queue.Tested(queue.entries, 0, 0, 0, 0);
    var taken := queue.GetNextAvailUnit();
    assert taken == queue.entries[0][0];
  }

  /** A pool of two units, the first one in use. */
  method HalfUsed() returns (queue: CUnitQueue, first: CUnit, second: CUnit)
    ensures queue.Valid() && queue.Shaped() && |queue.entries| == 1 && queue.entries[0] == [first, second]
    ensures first in queue.pool && first.flag != 0 && second in queue.pool && second.flag == 0 && queue.count == 1
    ensures fresh(queue) && fresh(queue.pool) && queue.current == queue.avail == 0
  {
    hide CUnitQueue.Valid, CRcvBuffer.Valid;
    queue := FreshPair();
    first, second := queue.entries[0][0], queue.entries[0][1];
    var buffer := new CRcvBuffer(3, queue, 1);
    var result := buffer.AddData(first, 0);
  }

  /** A pool with a free unit in which the search finds none: of a block of two the second is not
      tested, and half of the units in use is not enough for a new block. */
  method LastUnitIsMissed() returns (queue: CUnitQueue, unit: CUnit?, missed: CUnit)
    ensures queue.Valid() && queue.Shaped() && unit == null
    ensures missed in queue.pool && missed.flag == 0
  {
    hide CUnitQueue.Valid;
    var first;
    queue, first, missed := HalfUsed();
    queue.OneMore(0, 1);
    unit := queue.GetNextAvailUnit();
  }
}
