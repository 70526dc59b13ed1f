/** The record of ACKs that were sent (class CACKWindow): a bounded circular queue from which an
    acknowledged ACK takes itself and everything older. */
module AckWindow {
  import opened Basics

  /** An ACK: its sub-sequence number, the data number it carried, and when it was sent. */
  datatype Sent = Sent(seqNo: int, ack: int, time: int)

  /** A position that is at most one round too far. */
  function Wrap(x: int, size: int): (r: int)
    requires 0 <= x < 2 * size
    ensures 0 <= r < size
  {
    if x < size then x else x - size
  }

  lemma WrapIs(x: int, size: int)
    requires 0 <= x < 2 * size
    ensures x % size == Wrap(x, size)
  {
    if x < size {
      ModIs(x, size, 0, x);
    } else {
      ModIs(x, size, 1, x - size);
    }
  }

  /** The place k steps behind t. */
  function Spot(t: int, k: int, size: int): (r: int)
    requires 0 <= t < size && 0 <= k <= size
    ensures 0 <= r < size
  {
    Wrap(t + k, size)
  }

  lemma SpotsDiffer(t: int, size: int)
    requires 0 <= t < size
    ensures forall j, k :: 0 <= j < k < size ==> Spot(t, j, size) != Spot(t, k, size)
    ensures Spot(t, 0, size) == t == Spot(t, size, size)
  {
  }

  lemma SpotNext(t: int, k: int, size: int)
    requires 0 <= t < size && 0 <= k < size
    ensures (Spot(t, k, size) + 1) % size == Spot(t, k + 1, size)
  {
    WrapIs(Spot(t, k, size) + 1, size);
  }

  lemma SpotShift(t: int, d: int, size: int)
    requires 0 <= t < size && 0 <= d <= size
    ensures forall k :: 0 <= k <= size - d ==> Spot(Spot(t, d, size), k, size) == Spot(t, d + k, size)
  {
  }

  /** What is left after the ACK with the number seqNo was acknowledged: what was sent behind it. */
  function After(sent: seq<Sent>, seqNo: int): seq<Sent> {
    if sent == [] then [] else if sent[0].seqNo == seqNo then sent[1..] else After(sent[1..], seqNo)
  }

  predicate Has(sent: seq<Sent>, seqNo: int) {
    exists k :: 0 <= k < |sent| && sent[k].seqNo == seqNo
  }

  lemma {:induction false} AfterFirst(sent: seq<Sent>, k: nat)
    requires k < |sent| && forall j :: 0 <= j < k ==> sent[j].seqNo != sent[k].seqNo
    ensures After(sent, sent[k].seqNo) == sent[k + 1..]
  {
    if k > 0 {
      AfterFirst(sent[1..], k - 1);
    }
  }

  class CACKWindow {
    const seqNos: array<int>
    const acks: array<int>
    const times: array<int>
    const size: int
    var head: int
    var tail: int
    ghost var count: int

    ghost predicate Valid()
      reads this
    {
      && 0 < size == seqNos.Length == acks.Length == times.Length
      && seqNos != acks && seqNos != times && acks != times
      && 0 <= tail < size && 0 <= count < size && head == Spot(tail, count, size)
    }

    ghost function At(i: int): Sent
      requires 0 <= i < seqNos.Length == acks.Length == times.Length
      reads seqNos, acks, times
    {
      Sent(seqNos[i], acks[i], times[i])
    }

    /** The recorded ACKs, the oldest first. */
    ghost function Contents(): (sent: seq<Sent>)
      requires Valid()
      reads this, seqNos, acks, times
      ensures |sent| == count
      ensures forall k :: 0 <= k < count ==> sent[k] == At(Spot(tail, k, size))
    {
      seq(count, k requires 0 <= k < count && Valid() reads this, seqNos, acks, times => At(Spot(tail, k, size)))
    }

    constructor (size: int)
      requires size > 0
      ensures Valid() && Contents() == [] && this.size == size && fresh(seqNos) && fresh(acks) && fresh(times)
    {
      this.size := size;
      seqNos := new int[size](_ => 0);
      acks := new int[size](_ => 0);
      times := new int[size](_ => 0);
      head, tail, count := 0, 0, 0;
      new;
      seqNos[0] := -1;
    }

    /** Writes at the head, which no recorded ACK uses. */
    method Put(s: Sent)
      requires Valid()
      modifies seqNos, acks, times
      ensures At(head) == s && forall k :: 0 <= k < count ==> At(Spot(tail, k, size)) == old(At(Spot(tail, k, size)))
    {
      SpotsDiffer(tail, size);
      seqNos[head] := s.seqNo;
      acks[head] := s.ack;
      times[head] := s.time;
    }

    /** Records an ACK; when the window is full the oldest one goes. */
    method Store(seqNo: int, ack: int, now: int)
      requires Valid()
      modifies this`head, this`tail, this`count, seqNos, acks, times
      ensures Valid()
      ensures var sent := old(Contents()) + [Sent(seqNo, ack, now)];
              Contents() == if |sent| == size then sent[1..] else sent
    {
      hide Spot;
      ghost var before := Contents();
      SpotsDiffer(tail, size);
      SpotNext(tail, 0, size);
      SpotNext(tail, count, size);
      SpotShift(tail, 1, size);
      Put(Sent(seqNo, ack, now));
      ghost var sent := before + [Sent(seqNo, ack, now)];
      assert forall k :: 0 <= k <= count ==> At(Spot(tail, k, size)) == sent[k];
      head := (head + 1) % size;
      if head == tail {
        tail := (tail + 1) % size;
        assert forall k :: 0 <= k < count ==> At(Spot(tail, k, size)) == sent[k + 1];
        assert Contents() == sent[1..];
      } else {
        count := count + 1;
        assert Contents() == sent;
      }
    }

    /** Where the ACK with this number stands, counted from the tail without wrapping. */
    method Find(seqNo: int) returns (found: bool, i: int)
      requires Valid()
      ensures found == Has(Contents(), seqNo)
      ensures found ==>
                tail <= i < tail + count && Contents()[i - tail].seqNo == seqNo
                && forall k :: 0 <= k < i - tail ==> Contents()[k].seqNo != seqNo
    {
      i := tail;
      var n := if head >= tail then head else head + size;
      while i < n
        invariant tail <= i <= n == tail + count
        invariant forall k :: 0 <= k < i - tail ==> Contents()[k].seqNo != seqNo
      {
        WrapIs(i, size);
        assert i % size == Spot(tail, i - tail, size);
        assert Contents()[i - tail] == At(i % size);
        if seqNo == seqNos[i % size] {
          return true, i;
        }
        i := i + 1;
      }
      return false, i;
    }

    lemma PlaceOf(i: int)
      requires Valid() && tail <= i < tail + count
      ensures i % size == Spot(tail, i - tail, size) && Contents()[i - tail] == At(i % size)
    {
      WrapIs(i, size);
    }

    lemma LastOne(k: int)
      requires Valid() && 0 <= k < count && tail + k + 1 == head
      ensures k + 1 == count
    {
    }

    /** The ACKs up to the place i go. */
    method DropThrough(i: int)
      requires Valid() && tail <= i < tail + count
      modifies this`head, this`tail, this`count, seqNos
      ensures Valid() && Contents() == old(Contents())[i - old(tail) + 1..]
    {
      hide Spot;
      ghost var sent, k := Contents(), i - tail;
      PlaceOf(i);
      SpotNext(tail, k, size);
      SpotShift(tail, k + 1, size);
      if i + 1 == head {
        LastOne(k);
        tail, head := 0, 0;
        seqNos[0] := -1;
        SpotsDiffer(0, size);
      } else {
        tail := (i % size + 1) % size;
      }
      count := count - k - 1;
      assert Contents() == sent[k + 1..];
    }

    /** The ACK that was sent with the number seqNo: rtt is the time since then, or -1 if it is not
        on record. It and all older ones go. */
    method Acknowledge(seqNo: int, now: int) returns (found: bool, ack: int, rtt: int)
      requires Valid()
      modifies this`head, this`tail, this`count, seqNos
      ensures Valid() && found == Has(old(Contents()), seqNo)
      ensures !found ==> rtt == -1 && Contents() == old(Contents())
      ensures found ==> Contents() == After(old(Contents()), seqNo)
      ensures found ==> exists k :: 0 <= k < |old(Contents())| && old(Contents())[k] == Sent(seqNo, ack, now - rtt)
    {
      ghost var sent := Contents();
      var i;
      ack, rtt := 0, -1;
      found, i := Find(seqNo);
      if !found {
        return;
      }
      PlaceOf(i);
      var j := i % size;
      AfterFirst(sent, i - tail);
      ack, rtt := acks[j], now - times[j];
      DropThrough(i);
    }
  }
}
