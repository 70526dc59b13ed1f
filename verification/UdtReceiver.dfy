/** The receiving half of a connection (class CUDT): processData, the ACK and NAK parts of
    sendCtrl, and the receiver's part of processCtrl. */
module UdtReceiver {
  import opened Basics
  import opened SeqNo
  import opened LossNodes
  import opened NakCodec
  import opened Protocol
  import opened RcvLossList
  import opened RcvBuffer
  import opened UnitQueue
  import ProtocolProofs

  class CUDTReceiver {
    const cap: int                     // size of the receive buffer
    const lossList: CRcvLossList
    const buffer: CRcvBuffer
    var rcvLastAck: Wire
    var rcvLastAckAck: Wire
    var rcvCurrSeqNo: Wire
    ghost var view: Receiver

    ghost predicate Fields()
      reads this
    {
      && rcvLastAck == W(view.lastAck) && rcvLastAckAck == W(view.lastAckAck) && rcvCurrSeqNo == W(view.curr)
      && 2 <= cap <= RcvLossList.MAX_SIZE
    }

    ghost predicate Buffered()
      reads this, buffer, buffer.units, buffer.queue, buffer.queue.pool
    {
      && buffer.Valid() && buffer.queue.Valid() && buffer.Stream() && buffer.size == cap
      && buffer.buf == view.buf && buffer.start == view.start && buffer.lastAck == view.lastAck
      && buffer.notch == view.notch
    }

    ghost predicate Losses()
      reads this, lossList, lossList.data1, lossList.data2, lossList.next, lossList.prior
    {
      lossList.Valid() && lossList.Model() == view.loss && cap <= lossList.size
    }

    ghost predicate Valid()
      reads this, buffer, buffer.units, buffer.queue, buffer.queue.pool
      reads lossList, lossList.data1, lossList.data2, lossList.next, lossList.prior
    {
      ReceiverInv(view, cap) && Fields() && Buffered() && Losses()
    }

    static lemma InitHolds(first: int, cap: int)
      requires cap >= 2
      ensures ReceiverInv(InitReceiver(first), cap)
    {
    }

    constructor (isn: Wire, rcvBufSize: int, flightFlagSize: int, queue: CUnitQueue)
      requires 0 < isn && 2 <= rcvBufSize <= flightFlagSize <= RcvLossList.MAX_SIZE && queue.Valid()
      ensures Valid() && view == InitReceiver(isn) && cap == rcvBufSize && buffer.queue == queue
      ensures fresh(buffer) && fresh(buffer.units) && fresh(lossList)
      ensures fresh(lossList.data1) && fresh(lossList.data2) && fresh(lossList.next) && fresh(lossList.prior)
    {
      hide W, CRcvLossList.Valid, CRcvLossList.Model, CRcvBuffer.Valid, CUnitQueue.Valid, ReceiverInv;
      cap := rcvBufSize;
      rcvLastAck, rcvLastAckAck, rcvCurrSeqNo := isn, isn, isn - 1;
      buffer := new CRcvBuffer(rcvBufSize, queue, isn);
      lossList := new CRcvLossList(flightFlagSize);
      view := InitReceiver(isn);
      new;
      WireId(isn);
      WireId(isn - 1);
      InitHolds(isn, rcvBufSize);
    }

    lemma StreamKeeps(g: int, payload: Bytes)
      requires buffer.Stream() && buffer.lastAck == view.lastAck
      ensures g >= view.lastAck && g !in buffer.buf ==>
                Streamable(buffer.buf[g := payload], buffer.start, buffer.lastAck, buffer.notch)
    {
    }

    lemma BufferSpace()
      requires Valid()
      ensures buffer.Valid() && buffer.Placed(buffer.startPos)
      ensures buffer.size - (buffer.lastAck - buffer.start) - 1 == Avail(view, cap)
    {
    }

    lemma EncodeGap(g: int)
      ensures Encode(GapReport(view, g)) ==
              if g <= view.curr + 1 then []
              else if view.curr + 1 == g - 1 then [W(g - 1)]
              else [W(view.curr + 1) + FLAG, W(g - 1)]
    {
      hide W;
      var rs := GapReport(view, g);
      if rs != [] {
        assert rs[..0] == [] && Encode(rs) == Encode([]) + EncodeOne(rs[0]);
      }
    }

    /** Adds the gap before a new packet to the loss list and codes the report. */
    method Detect(seqno: Wire, ghost g: int) returns (nak: seq<int>)
      requires seqno == W(g) && Accepts(view, cap, g) && ReceiverInv(view, cap) && Fields() && Losses()
      modifies lossList, lossList.data1, lossList.data2, lossList.next, lossList.prior
      ensures lossList.Valid()
      ensures lossList.Model() == if g > view.curr then view.loss + Range(view.curr + 1, g - 1) else view.loss
      ensures nak == Encode(GapReport(view, g))
      ensures SeqCmp(seqno, rcvCurrSeqNo) > 0 <==> g > view.curr
      ensures forall x :: x in lossList.Model() ==> Near(x, g)
    {
      hide W, CRcvLossList.Valid, CRcvLossList.Model, Encode;
      IncSeqIsNext(view.curr);
      DecSeqIsPrevious(g);
      NearArithmetic(g, view.curr);
      NearArithmetic(g, view.curr + 1);
      NearArithmetic(g - 1, view.curr + 1);
      EncodeGap(g);
      nak := [];
      if SeqCmp(seqno, IncSeq(rcvCurrSeqNo)) > 0 {
        var first, last := IncSeq(rcvCurrSeqNo), DecSeq(seqno);
        lossList.Insert(first, last, view.curr + 1, g - 1);
        nak := if first == last then [last] else [first + FLAG, last];
      }
    }

    /** Loss detection for a packet that has just been stored. */
    method Account(seqno: Wire, ghost g: int, ghost payload: Bytes) returns (nak: seq<int>)
      requires seqno == W(g) && Accepts(view, cap, g) && ReceiverInv(view, cap) && Fields() && Losses()
      requires buffer.Valid() && buffer.queue.Valid() && buffer.size == cap && buffer.Stream()
      requires buffer.buf == view.buf[g := payload] && buffer.start == view.start
      requires buffer.lastAck == view.lastAck && buffer.notch == view.notch
      modifies this`rcvCurrSeqNo, this`view
      modifies lossList, lossList.data1, lossList.data2, lossList.next, lossList.prior
      ensures Valid() && view == OnData(old(view), cap, g, payload)
      ensures nak == Encode(GapReport(old(view), g))
    {
      hide W, CRcvLossList.Valid, CRcvLossList.Model, Streamable, CRcvBuffer.Valid, CUnitQueue.Valid, ReceiverInv,
           Encode;
      ProtocolProofs.DataKeepsReceiver(view, cap, g, payload);
      nak := Detect(seqno, g);
      if SeqCmp(seqno, rcvCurrSeqNo) > 0 {
        rcvCurrSeqNo := seqno;
      } else {
        var _ := lossList.Remove(seqno, g);
      }
      view := OnData(view, cap, g, payload);
    }

    /** A data packet arrives in a free unit; returns the immediate loss report, if any. */
    method ProcessData(unit: CUnit, seqno: Wire, ghost g: int) returns (result: int, nak: seq<int>)
      requires Valid() && seqno == W(g) && Near(g, view.lastAck)
      requires unit in buffer.queue.pool && unit.flag == 0
      modifies this`rcvCurrSeqNo, this`view
      modifies buffer`maxPos, buffer`held, buffer`buf, buffer`cells, buffer.units, unit`flag, unit`owner, unit`number,
               buffer.queue`count
      modifies lossList, lossList.data1, lossList.data2, lossList.next, lossList.prior
      ensures Valid() && view == OnData(old(view), cap, g, unit.payload)
      ensures result == if Accepts(old(view), cap, g) then 0 else -1
      ensures result == 0 <==>
                old(view.lastAck) <= g < old(view.start) + cap - 1 && g !in old(view.buf)
      ensures view.buf == if result == 0 then old(view.buf)[g := unit.payload] else old(view.buf)
      ensures result == 0 ==>
                && view.curr == Max(old(view.curr), g)
                && forall x :: x in view.loss <==> x != g && (x in old(view.loss) || old(view.curr) < x < g)
      ensures nak == if Accepts(old(view), cap, g) then Encode(GapReport(old(view), g)) else []
    {
      hide W, CRcvLossList.Valid, CRcvLossList.Model, Streamable, CRcvBuffer.Valid, CUnitQueue.Valid, ReceiverInv,
           CRcvBuffer.Placed;
      nak := [];
      NearArithmetic(view.lastAck, g);
      var offset := SeqOff(rcvLastAck, seqno);
      BufferSpace();
      if offset < 0 || offset >= buffer.GetAvailBufSize() {
        return -1, nak;
      }
      StreamKeeps(g, unit.payload);
      var stored := buffer.AddData(unit, offset);
      if stored < 0 {
        return -1, nak;
      }
      nak := Account(seqno, g, unit.payload);
      ProtocolProofs.DataEffect(old(view), cap, g, unit.payload);
      return 0, nak;
    }

    /** The number to acknowledge: the first missing one, or the one after the last received. */
    method AckNumber() returns (ack: Wire, ghost a: int)
      requires Valid()
      ensures ack == W(a) && IsAckNumber(view, a)
      ensures view.lastAck <= a <= view.curr + 1 && ProtocolProofs.ReceivedUpTo(view, a)
    {
      hide W, CRcvLossList.Valid, CRcvLossList.Model, CRcvBuffer.Valid, CUnitQueue.Valid;
      var n := lossList.GetLossLength();
      IncSeqIsNext(view.curr);
      if n == 0 {
        assert view.loss == {};
        ack := IncSeq(rcvCurrSeqNo);
        a := view.curr + 1;
      } else {
        assert view.loss != {};
        ack, a := lossList.GetFirstLostSeq();
      }
      ProtocolProofs.AckNumberSound(view, cap, a);
    }

    /** A lite ACK carries the ACK number and changes nothing. */
    method SendLiteAck() returns (packet: Option<Wire>, ghost a: int)
      requires Valid() && Near(view.curr + 1, view.lastAckAck)
      ensures IsAckNumber(view, a)
      ensures packet == if a == view.lastAckAck then None else Some(W(a))
    {
      hide W, CRcvLossList.Valid, CRcvLossList.Model, CRcvBuffer.Valid, CUnitQueue.Valid;
      var ack;
      ack, a := AckNumber();
      NearArithmetic(a, view.lastAckAck);
      packet := if ack == rcvLastAckAck then None else Some(ack);
    }

    lemma AckKeeps(a: int)
      requires ReceiverInv(view, cap) && Buffered() && IsAckNumber(view, a) && view.lastAck < a
      ensures ReceiverInv(AckTo(view, a), cap) && a - buffer.start < buffer.size
      ensures Streamable(buffer.buf, buffer.start, a, buffer.notch)
    {
      hide CRcvBuffer.Valid, CUnitQueue.Valid;
      ProtocolProofs.AckNumberSound(view, cap, a);
    }

    method Acknowledge(acksize: int, ghost a: int)
      requires ReceiverInv(view, cap) && Buffered() && Losses() && IsAckNumber(view, a)
      requires view.lastAck < a && acksize == a - view.lastAck
      requires rcvLastAck == W(a) && rcvLastAckAck == W(view.lastAckAck) && rcvCurrSeqNo == W(view.curr)
      requires 2 <= cap <= RcvLossList.MAX_SIZE
      modifies this`view, buffer`lastAckPos, buffer`lastAck, buffer`maxPos
      ensures Valid() && view == AckTo(old(view), a)
    {
      hide W, CRcvLossList.Valid, CRcvLossList.Model, CUnitQueue.Valid, CRcvBuffer.Valid;
      AckKeeps(a);
      buffer.AckData(acksize);
      view := AckTo(view, a);
    }

    /** A full ACK: releases received packets to the application and reports the free space.
        `due` says that the repetition interval for an unchanged number has passed. */
    method SendAck(due: bool) returns (packet: Option<(Wire, int)>, ghost a: int)
      requires Valid() && Near(view.curr + 1, view.lastAckAck)
      modifies this`rcvLastAck, this`view, buffer`lastAckPos, buffer`lastAck, buffer`maxPos
      ensures Valid() && IsAckNumber(old(view), a)
      ensures view == if a == old(view).lastAckAck then old(view) else AckTo(old(view), a)
      ensures packet == if a != old(view).lastAckAck && view.lastAck > view.lastAckAck && (a > old(view).lastAck || due)
                        then Some((W(view.lastAck), AdvertisedWindow(view, cap))) else None
      ensures packet.Some? ==> packet.value.1 == Max(cap - (view.lastAck - view.start) - 1, 2)
    {
      hide W, CRcvLossList.Valid, CRcvLossList.Model, CRcvBuffer.Valid, CUnitQueue.Valid;
      var ack;
      ack, a := AckNumber();
      packet := None;
      NearArithmetic(a, view.lastAckAck);
      NearArithmetic(a, view.lastAck);
      NearArithmetic(view.lastAck, a);
      if ack == rcvLastAckAck {
        return;
      }
      if SeqCmp(ack, rcvLastAck) > 0 {
        var acksize := SeqOff(rcvLastAck, ack);
        rcvLastAck := ack;
        Acknowledge(acksize, a);
      } else if ack == rcvLastAck {
        if !due {
          return;
        }
      } else {
        return;
      }
      NearArithmetic(view.lastAck, view.lastAckAck);
      if SeqCmp(rcvLastAck, rcvLastAckAck) > 0 {
        BufferSpace();
        var window := buffer.GetAvailBufSize();
        if window < 2 {
          window := 2;
        }
        packet := Some((rcvLastAck, window));
      }
    }

    /** An ACK2 for the recorded ACK of number a. */
    method ProcessAck2(ack: Wire, ghost a: int)
      requires Valid() && ack == W(a) && Near(a, view.lastAckAck) && view.first <= a <= view.lastAck
      modifies this`rcvLastAckAck, this`view
      ensures Valid() && view == OnAck2(old(view), a)
      ensures view == old(view).(lastAckAck := Max(old(view.lastAckAck), a))
    {
      hide W, CRcvLossList.Valid, CRcvLossList.Model, CRcvBuffer.Valid, CUnitQueue.Valid;
      NearArithmetic(a, view.lastAckAck);
      if SeqCmp(ack, rcvLastAckAck) > 0 {
        rcvLastAckAck := ack;
      }
      view := OnAck2(view, a);
    }

    lemma EmptyReport()
      ensures Encode([]) == [] && Reported([]) == {} && IsPrefixOf({}, view.loss) && WellFormed([])
    {
    }

    /** The periodic loss report. */
    method SendNak(report: array<int>, elapsed: int, threshold: int) returns (len: int, ghost sent: seq<Report>)
      requires Valid()
      requires report != lossList.data1 && report != lossList.data2 && report != lossList.next
               && report != lossList.prior
      modifies report
      ensures Valid() && view == old(view) && 0 <= len <= report.Length
      ensures report[..len] == Encode(sent) && WellFormed(sent) && IsPrefixOf(Reported(sent), view.loss)
      ensures elapsed >= threshold ==> Reported(sent) == view.loss || len >= report.Length - 1
    {
      hide W, CRcvLossList.Valid, CRcvLossList.Model, CRcvBuffer.Valid, CUnitQueue.Valid, Encode, Reported, IsPrefixOf;
      len, sent := 0, [];
      EmptyReport();
      var n := lossList.GetLossLength();
      if n > 0 {
        len, sent := lossList.GetLossArray(report, report.Length, elapsed, threshold);
      } else {
        assert view.loss == {};
      }
    }

    lemma BufferShape()
      requires buffer.Valid() && buffer.Stream()
      ensures buffer.start <= buffer.lastAck && buffer.notch >= 0
    {
    }

    lemma NotchAfter(r: Receiver)
      requires Streamable(r.buf, r.start, r.lastAck, r.notch)
      ensures NotchOk(r.buf, r.start, r.lastAck, r.notch)
    {
    }

    lemma ReadKeeps(r: Receiver, r': Receiver, len: nat, out: Bytes)
      requires ReceiverInv(r, cap) && Reads(r, r', len, out)
      ensures ReceiverInv(r', cap)
    {
      ProtocolProofs.ReadKeepsReceiver(r, r', cap, len, out);
    }

    /** The buffer's remaining bytes are the protocol's unread bytes. */
    static lemma RestIsUnread(r: Receiver)
      requires Streamable(r.buf, r.start, r.lastAck, r.notch) && r.start <= r.lastAck
      ensures Readable(r) && Unread(r) == RestOf(r.buf, r.start, r.lastAck, r.notch)
    {
      if r.start < r.lastAck {
        JoinedFromFront(r.buf, r.start, r.lastAck);
        var all := r.buf[r.start] + JoinedFront(r.buf, r.start + 1, r.lastAck);
        assert all[r.notch..] == r.buf[r.start][r.notch..] + JoinedFront(r.buf, r.start + 1, r.lastAck);
      }
    }

    /** The application reads up to len bytes. */
    method Recv(len: nat) returns (out: Bytes)
      requires Valid()
      modifies this`view
      modifies buffer`startPos, buffer`start, buffer`notch, buffer`held, buffer`buf, buffer`cells, buffer.units
      modifies buffer.queue.pool`flag, buffer.queue.pool`owner, buffer.queue`count
      ensures buffer.OthersKept()
      ensures Valid() && Reads(old(view), view, len, out)
    {
      hide W, CRcvLossList.Valid, CRcvLossList.Model, CRcvBuffer.Valid, CUnitQueue.Valid, ReceiverInv, Streamable,
           RestOf, Unread, Readable;
      BufferShape();
      RestIsUnread(view);
      out := buffer.ReadBuffer(len);
      BufferShape();
      ghost var r := view.(buf := buffer.buf, start := buffer.start, notch := buffer.notch, read := view.read + out);
      RestIsUnread(r);
      NotchAfter(r);
      ReadKeeps(view, r, len, out);
      view := r;
    }
  }
}
