/** The sending half of a connection (class CUDT): packData, the sender's part of processCtrl
    and the retransmission timer. Each method does to the wire fields, the loss list and the
    buffer what the step function of Protocol does to the unbounded view. */
module UdtSender {
  import opened Basics
  import opened SeqNo
  import opened LossNodes
  import opened NakCodec
  import opened Protocol
  import opened SndLossList
  import opened SndBuffer

  class CUDTSender {
    const cap: int                    // the largest flow window
    const lossList: CSndLossList
    const buffer: CSndBuffer
    var sndLastAck: Wire
    var sndLastDataAck: Wire
    var sndCurrSeqNo: Wire
    var flowWindowSize: int
    var broken: bool
    ghost var view: Sender

    ghost predicate Fields()
      reads this
    {
      && sndLastAck == W(view.lastAck) && sndLastDataAck == W(view.lastDataAck) && sndCurrSeqNo == W(view.curr)
      && flowWindowSize == view.window && broken == view.broken
    }

    /** The buffer holds the blocks from number dataAck on, with its cursor at `next`. */
    ghost predicate Holds(first: int, blocks: seq<Bytes>, dataAck: int, next: int)
      reads buffer, buffer.ring`next, buffer.ring`payload
    {
      && buffer.Valid() && first <= dataAck <= first + |blocks|
      && buffer.Pending() == blocks[dataAck - first..] && buffer.cursor == next - dataAck
    }

    ghost predicate Aligned()
      reads this`view, buffer, buffer.ring`next, buffer.ring`payload
    {
      Holds(view.first, view.blocks, view.lastDataAck, view.curr + 1)
    }

    ghost predicate Lists(loss: set<int>)
      reads lossList, lossList.data1, lossList.data2, lossList.next
    {
      && lossList.Valid() && lossList.Model() == loss && cap <= lossList.size <= SndLossList.MAX_SIZE
    }

    ghost predicate Losses()
      reads this`view, lossList, lossList.data1, lossList.data2, lossList.next
    {
      Lists(view.loss)
    }

    ghost predicate Valid()
      reads this, buffer, buffer.ring`next, buffer.ring`payload
      reads lossList, lossList.data1, lossList.data2, lossList.next
    {
      SenderInv(view, cap) && Fields() && Aligned() && Losses()
    }

    constructor (isn: Wire, window: int, mss: nat)
      requires 0 < isn && 2 <= window && window * 2 <= SndLossList.MAX_SIZE && mss > 0
      ensures Valid() && view == InitSender(isn, window) && cap == window && buffer.mss == mss
      ensures fresh(lossList) && fresh(lossList.data1) && fresh(lossList.data2) && fresh(lossList.next)
      ensures fresh(buffer) && fresh(buffer.ring)
    {
      hide W, CSndLossList.Valid, CSndLossList.Model, CSndBuffer.Valid, CSndBuffer.Pending, CSndBuffer.Words;
      cap := window;
      sndLastAck, sndLastDataAck, sndCurrSeqNo := isn, isn, isn - 1;
      flowWindowSize := window;
      broken := false;
      lossList := new CSndLossList(window * 2);
      buffer := new CSndBuffer(32, mss);
      view := InitSender(isn, window);
      new;
      WireId(isn);
      WireId(isn - 1);
    }

    lemma MssPositive()
      requires Aligned()
      ensures buffer.mss > 0
    {
    }

    /** Application data enters the buffer. */
    method Send(data: Bytes)
      requires Valid()
      modifies this`view, buffer, buffer.ring
      ensures Valid() && view == Write(old(view), data, buffer.mss)
      ensures forall b :: b in buffer.ring ==> b in old(buffer.ring) || fresh(b)
    {
      hide Chunks, W, Lists, CSndBuffer.Valid, CSndBuffer.Pending;
      MssPositive();
      ghost var k := view.lastDataAck - view.first;
      ghost var more := Chunks(data, buffer.mss);
      buffer.AddBuffer(data, false);
      assert (view.blocks + more)[k..] == view.blocks[k..] + more;
      view := Write(view, data, buffer.mss);
    }

    /** A lite ACK moves the acknowledged number; the source does not check it against the last sent one. */
    method ProcessLiteAck(ack: Wire, ghost a: int)
      requires Valid() && ack == W(a) && Near(a, view.lastAck) && a <= view.curr + 1
      modifies this`sndLastAck, this`flowWindowSize, this`view
      ensures Valid() && view == OnLiteAck(old(view), a)
      ensures view.lastAck == Max(old(view.lastAck), a)
      ensures view.lastAck + view.window == old(view.lastAck + view.window)
      ensures view == old(view).(lastAck := view.lastAck, window := view.window)
    {
      hide W, Lists, Holds;
      NearArithmetic(a, view.lastAck);
      NearArithmetic(view.lastAck, a);
      if SeqCmp(ack, sndLastAck) >= 0 {
        flowWindowSize := flowWindowSize - SeqOff(sndLastAck, ack);
        sndLastAck := ack;
      }
      view := OnLiteAck(view, a);
    }

    lemma AllNear(s: int)
      requires SenderInv(view, cap) && Losses() && view.lastDataAck <= s + 1 <= view.curr + 1
      ensures forall x :: x in lossList.Model() ==> Near(x, s)
    {
      hide W, CSndLossList.Valid, CSndLossList.Model, CSndBuffer.Valid, CSndBuffer.Pending;
    }

    method ReleaseBlocks(offset: int, ghost a: int)
      requires SenderInv(view, cap) && Aligned() && 0 < offset == a - view.lastDataAck && a <= view.curr + 1
      modifies buffer`firstBlock, buffer`count, buffer`ring, buffer`cursor
      ensures Holds(view.first, view.blocks, a, view.curr + 1)
      ensures forall b :: b in buffer.ring ==> b in old(buffer.ring)
    {
      hide W, CSndBuffer.Valid, CSndBuffer.Pending;
      ghost var k := view.lastDataAck - view.first;
      buffer.AckData(offset);
      assert view.blocks[k..][offset..] == view.blocks[k + offset..];
    }

    method ReleaseLosses(ghost a: int)
      requires SenderInv(view, cap) && Losses() && view.lastDataAck <= a <= view.curr + 1 && sndLastDataAck == W(a)
      modifies lossList, lossList.data1, lossList.data2, lossList.next
      ensures Lists(AtLeast(view.loss, a))
    {
      hide W, CSndLossList.Valid, CSndLossList.Model;
      AllNear(a - 1);
      DecSeqIsPrevious(a);
      lossList.Remove(DecSeq(sndLastDataAck), a - 1);
      assert lossList.Model() == AtLeast(view.loss, a);
    }

    lemma BoundsOf()
      requires SenderInv(view, cap)
      ensures view.lastDataAck <= view.curr + 1
    {
    }

    /** Drops acknowledged packets from the buffer and the loss list. */
    method Release(ack: Wire, offset: int, ghost a: int, ghost v: Sender)
      requires SenderInv(view, cap) && Aligned() && Losses() && SenderInv(v, cap)
      requires ack == W(a) && 0 < offset == a - view.lastDataAck && a <= view.curr + 1
      requires v == view.(lastAck := v.lastAck, window := v.window, exact := v.exact, lastDataAck := a,
                          loss := AtLeast(view.loss, a))
      requires sndLastAck == W(v.lastAck) && sndCurrSeqNo == W(v.curr) && flowWindowSize == v.window
               && broken == v.broken
      modifies this`sndLastDataAck, this`view
      modifies buffer`firstBlock, buffer`count, buffer`ring, buffer`cursor
      modifies lossList, lossList.data1, lossList.data2, lossList.next
      ensures Valid() && view == v
      ensures forall b :: b in buffer.ring ==> b in old(buffer.ring)
    {
      hide W, Holds, Lists, AtLeast, SenderInv;
      BoundsOf();
      ReleaseBlocks(offset, a);
      sndLastDataAck := ack;
      ReleaseLosses(a);
      view := v;
    }

    static lemma AckKeeps(s: Sender, cap: int, ack: int, window: int, raised: bool)
      requires SenderInv(s, cap) && window <= cap
      ensures SenderInv(OnAck(s, ack, window, raised), cap)
      ensures var s' := OnAck(s, ack, window, raised);
              ack <= s.curr + 1 ==> forall x :: x in s'.loss <==> x in s.loss && x >= s'.lastDataAck
    {
    }

    /** A full ACK: checks it, moves the window, releases packets and prunes the loss list. */
    method ProcessAck(ack: Wire, window: int, ghost a: int, ghost raised: bool)
      requires Valid() && !broken && ack == W(a) && FreshAck(view, a) && window <= cap
      modifies this`sndLastAck, this`sndLastDataAck, this`flowWindowSize, this`broken, this`view
      modifies buffer`firstBlock, buffer`count, buffer`ring, buffer`cursor
      modifies lossList, lossList.data1, lossList.data2, lossList.next
      ensures Valid() && view == OnAck(old(view), a, window, raised)
      ensures broken <==> a > old(view.curr) + 1
      ensures !broken ==>
                && view.lastAck == Max(old(view.lastAck), a) && view.lastDataAck == Max(old(view.lastDataAck), a)
                && view.window == (if a >= old(view.lastAck) then window else old(view.window))
                && forall x :: x in view.loss <==> x in old(view.loss) && x >= view.lastDataAck
      ensures view.curr == old(view.curr) && view.blocks == old(view.blocks)
      ensures forall b :: b in buffer.ring ==> b in old(buffer.ring)
    {
      hide W, Lists, Holds;
      IncSeqIsNext(view.curr);
      NearArithmetic(a, view.curr + 1);
      NearArithmetic(a, view.lastAck);
      NearArithmetic(view.lastDataAck, a);
      AckKeeps(view, cap, a, window, raised);
      if SeqCmp(ack, IncSeq(sndCurrSeqNo)) > 0 {
        broken := true;
        view := OnAck(view, a, window, raised);
        return;
      }
      if SeqCmp(ack, sndLastAck) >= 0 {
        flowWindowSize := window;
        sndLastAck := ack;
      }
      var offset := SeqOff(sndLastDataAck, ack);
      if offset <= 0 {
        view := OnAck(view, a, window, raised);
        return;
      }
      Release(ack, offset, a, OnAck(view, a, window, raised));
    }

    static lemma NakStart(s: Sender, rs: seq<Report>)
      ensures rs[..0] == [] && OnNak(s, rs[..0]) == s && Encode(rs[..0]) == []
    {
    }

    static lemma EncodeLast(rs: seq<Report>)
      requires rs != []
      ensures Encode(rs) == Encode(rs[..|rs| - 1]) + EncodeOne(rs[|rs| - 1])
    {
    }

    /** The words of entry k come right after those of the entries before it. */
    static lemma {:induction false} NakWords(rs: seq<Report>, k: nat)
      requires k <= |rs|
      ensures |Encode(rs[..k])| <= |Encode(rs)|
      ensures k < |rs| ==>
                var (at, words) := (|Encode(rs[..k])|, EncodeOne(rs[k]));
                at + |words| <= |Encode(rs)| && Encode(rs)[at..at + |words|] == words
      decreases |rs|
    {
      hide Encode, EncodeOne;
      if k == |rs| {
        assert rs[..k] == rs;
      } else {
        var init := rs[..|rs| - 1];
        EncodeLast(rs);
        if k < |rs| - 1 {
          NakWords(init, k);
          assert init[..k] == rs[..k];
          var (at, words) := (|Encode(rs[..k])|, EncodeOne(rs[k]));
          assert Encode(rs)[at..at + |words|] == Encode(init)[at..at + |words|];
        } else {
          assert rs[..k] == init;
        }
      }
    }

    /** At the end of the entries the words are used up, and only there. */
    static lemma NakDone(rs: seq<Report>, k: nat)
      requires k <= |rs|
      ensures |Encode(rs[..k])| >= |Encode(rs)| <==> k == |rs|
      ensures k == |rs| ==> rs[..k] == rs
    {
      NakWords(rs, k);
      if k == |rs| { assert rs[..k] == rs; }
    }

    static lemma NakNext(s: Sender, rs: seq<Report>, k: nat)
      requires k < |rs|
      ensures rs[..k + 1][..k] == rs[..k] && rs[..k + 1][k] == rs[k]
      ensures Encode(rs[..k + 1]) == Encode(rs[..k]) + EncodeOne(rs[k])
      ensures var s1 := OnNak(s, rs[..k]);
              !s1.broken ==> OnNak(s, rs[..k + 1]) == match OnReport(s, s1.loss, rs[k])
                                                      case None => s1.(broken := true)
                                                      case Some(loss) => s1.(loss := loss)
    {
      assert rs[..k + 1][..k] == rs[..k];
    }

    /** After a refused entry the rest of the report is ignored. */
    static lemma {:induction false} NakRefused(s: Sender, rs: seq<Report>, k: nat)
      requires k < |rs|
      requires !OnNak(s, rs[..k]).broken && OnReport(s, OnNak(s, rs[..k]).loss, rs[k]) == None
      ensures OnNak(s, rs) == OnNak(s, rs[..k]).(broken := true)
      decreases |rs|
    {
      if k == |rs| - 1 {
        NakNext(s, rs, k);
        assert rs[..k + 1] == rs;
      } else {
        var init := rs[..|rs| - 1];
        assert init[..k] == rs[..k] && init[k] == rs[k];
        NakRefused(s, init, k);
      }
    }

    method Break()
      requires Valid()
      modifies this`broken, this`view
      ensures Valid() && view == old(view).(broken := true)
    {
      hide W, Lists, Holds;
      broken := true;
      view := view.(broken := true);
    }

    /** Numbers from a to b, all sent and not yet acknowledged, join the loss list. */
    method Lose(first: Wire, last: Wire, ghost a: int, ghost b: int)
      requires Valid() && first == W(a) && last == W(b) && view.lastDataAck <= a <= b <= view.curr
      modifies this`view, lossList, lossList.data1, lossList.data2, lossList.next
      ensures Valid() && view == old(view).(loss := old(view).loss + Range(a, b))
    {
      hide W, CSndLossList.Valid, CSndLossList.Model, Holds;
      var _ := lossList.Insert(first, last, a, b);
      view := view.(loss := view.loss + Range(a, b));
    }

    /** One interval of a report; false if it is refused. */
    method InsertSpan(first: Wire, last: Wire, ghost r: Report) returns (ok: bool)
      requires Valid() && r.Span? && first == W(r.a) && last == W(r.b) && FreshReport(view, r)
      modifies this`view, lossList, lossList.data1, lossList.data2, lossList.next
      ensures Valid()
      ensures match OnReport(old(view), old(view).loss, r)
              case None => !ok && view == old(view)
              case Some(loss) => ok && view == old(view).(loss := loss)
    {
      hide W, Lists, Holds;
      NearArithmetic(r.a, r.b);
      NearArithmetic(r.b, view.curr);
      NearArithmetic(r.a, view.lastAck);
      NearArithmetic(r.b, view.lastAck);
      if SeqCmp(first, last) > 0 || SeqCmp(last, sndCurrSeqNo) > 0 {
        return false;
      }
      if SeqCmp(first, sndLastAck) >= 0 {
        Lose(first, last, r.a, r.b);
      } else if SeqCmp(last, sndLastAck) >= 0 {
        Lose(sndLastAck, last, view.lastAck, r.b);
      }
      return true;
    }

    /** A single number of a report; false if it is refused. */
    method InsertOne(n: Wire, ghost r: Report) returns (ok: bool)
      requires Valid() && r.One? && n == W(r.n) && FreshReport(view, r)
      modifies this`view, lossList, lossList.data1, lossList.data2, lossList.next
      ensures Valid()
      ensures match OnReport(old(view), old(view).loss, r)
              case None => !ok && view == old(view)
              case Some(loss) => ok && view == old(view).(loss := loss)
    {
      hide W, Lists, Holds;
      NearArithmetic(r.n, view.lastAck);
      NearArithmetic(r.n, view.curr);
      if SeqCmp(n, sndLastAck) >= 0 {
        if SeqCmp(n, sndCurrSeqNo) > 0 {
          return false;
        }
        assert Range(r.n, r.n) == {r.n};
        Lose(n, n, r.n, r.n);
      }
      return true;
    }

    /** A loss report: every entry not yet acknowledged joins the loss list, until an entry is refused. */
    method ProcessNak(losslist: seq<int>, ghost rs: seq<Report>)
      requires Valid() && !broken && losslist == Encode(rs)
      requires forall k :: 0 <= k < |rs| ==> FreshReport(view, rs[k])
      modifies this`broken, this`view, lossList, lossList.data1, lossList.data2, lossList.next
      ensures Valid() && view == OnNak(old(view), rs)
    {
      hide W, Encode, OnNak, SenderInv, Aligned, Losses;
      var i := 0;
      var secure := true;
      ghost var k := 0;
      NakStart(view, rs);
      while i < |losslist| && secure
        invariant 0 <= k <= |rs| && i == |Encode(rs[..k])| <= |losslist|
        invariant Valid() && view == OnNak(old(view), rs[..k]) && !broken && !view.broken
        invariant view.(loss := old(view).loss) == old(view)
        invariant secure || (k < |rs| && OnReport(view, view.loss, rs[k]) == None)
        decreases |losslist| - i, secure
      {
        NakWords(rs, k);
        if k == |rs| { NakDone(rs, k); }
        assert FreshReport(old(view), rs[k]);
        if losslist[i] >= FLAG {
          secure := InsertSpan(losslist[i] - FLAG, losslist[i + 1], rs[k]);
          if secure {
            i := i + 2;
          }
        } else {
          secure := InsertOne(losslist[i], rs[k]);
          if secure {
            i := i + 1;
          }
        }
        if secure {
          NakNext(old(view), rs, k);
          k := k + 1;
        }
      }
      if secure {
        NakDone(rs, k);
      } else {
        NakRefused(old(view), rs, k);
        Break();
      }
    }

    /** First half of packData: takes the smallest lost number, or returns -1. */
    method PickLost() returns (seqno: int, ghost x: int)
      requires Valid() && view.picked.None?
      modifies this`view, lossList, lossList.data1, lossList.data2, lossList.next
      ensures Valid()
      ensures old(view).loss == {} ==> seqno == -1 && view == old(view)
      ensures old(view).loss != {} ==> seqno == W(x) && Picks(old(view), view, x)
    {
      hide W, CSndLossList.Valid, CSndLossList.Model, Holds;
      seqno, x := lossList.GetLostSeq();
      if seqno != -1 {
        view := view.(loss := view.loss - {x}, picked := Some(x));
      }
    }

    lemma UnpickKeeps()
      requires SenderInv(view, cap)
      ensures SenderInv(view.(picked := None), cap) && view.first <= view.lastDataAck
    {
    }

    /** The block at the offset of a picked number is its packet. */
    lemma PickedPacket(x: int)
      requires SenderInv(view, cap) && Aligned() && Losses() && view.picked == Some(x)
      ensures Near(view.lastDataAck, x) && view.first <= x < view.first + |view.blocks|
      ensures x >= view.lastDataAck ==>
                && x - view.lastDataAck < |buffer.Pending()|
                && buffer.Pending()[x - view.lastDataAck] == view.blocks[x - view.first]
    {
      hide W, CSndBuffer.Valid, CSndBuffer.Pending;
    }

    /** Second half of packData for a lost number, under the ACK lock: the packet, unless acknowledged meanwhile. */
    method PackLost(seqno: Wire, ghost x: int) returns (payload: Option<Bytes>)
      requires Valid() && view.picked == Some(x) && seqno == W(x)
      modifies this`view
      ensures Valid() && (view, payload) == Resend(old(view))
      ensures view == old(view).(picked := None)
      ensures payload == if x < view.lastDataAck then None else Some(view.blocks[x - view.first])
    {
      hide W, Lists, CSndBuffer.Valid, CSndBuffer.Pending, SenderInv;
      PickedPacket(x);
      NearArithmetic(view.lastDataAck, x);
      var offset := SeqOff(sndLastDataAck, seqno);
      if offset < 0 {
        payload := None;
      } else {
        var p := buffer.ReadAt(offset);
        payload := Some(p);
      }
      UnpickKeeps();
      view := view.(picked := None);
    }

    lemma SentKeeps(cwnd: int)
      requires SenderInv(view, cap) && MaySendNew(view, cwnd)
      ensures SenderInv(SendNew(view), cap)
    {
    }

    /** The current number moves on, after the buffer's cursor has. */
    method CountNew(ghost cwnd: int)
      requires SenderInv(view, cap) && Fields() && Losses() && MaySendNew(view, cwnd)
      requires Holds(view.first, view.blocks, view.lastDataAck, view.curr + 2)
      modifies this`view, this`sndCurrSeqNo
      ensures Valid() && view == SendNew(old(view)) && sndCurrSeqNo == W(view.curr)
    {
      hide W, Lists, Holds, SenderInv, MaySendNew;
      IncSeqIsNext(view.curr);
      SentKeeps(cwnd);
      sndCurrSeqNo := IncSeq(sndCurrSeqNo);
      view := SendNew(view);
    }

    /** The block at the cursor is the next new packet. */
    lemma NextPacket()
      requires SenderInv(view, cap) && Aligned() && Losses()
      ensures view.lastAck <= view.curr + 1 < view.lastAck + MAX_SEQ && view.first <= view.curr + 1
      ensures 0 <= buffer.cursor <= |buffer.Pending()|
      ensures buffer.cursor < |buffer.Pending()| <==> view.curr + 1 < view.first + |view.blocks|
      ensures buffer.cursor < |buffer.Pending()| ==>
                buffer.Pending()[buffer.cursor] == view.blocks[view.curr + 1 - view.first]
    {
      hide W, CSndBuffer.Valid, CSndBuffer.Pending;
      assert |view.blocks[view.lastDataAck - view.first..]| == |view.blocks| - (view.lastDataAck - view.first);
    }

    /** If the windows allow a new packet, it is sent exactly if there is data behind the cursor. */
    lemma MayTake(cwnd: int)
      requires SenderInv(view, cap) && Aligned() && Losses() && view.picked.None?
      requires Min(view.window, cwnd) >= view.curr + 2 - view.lastAck
      ensures MaySendNew(view, cwnd) <==> buffer.cursor < |buffer.Pending()|
    {
      hide W, CSndBuffer.Valid, CSndBuffer.Pending, CSndLossList.Valid, CSndLossList.Model, SenderInv;
      NextPacket();
    }

    method TakeNext(ghost cwnd: int) returns (packet: Option<(Wire, Bytes)>)
      requires Valid() && Min(view.window, cwnd) >= view.curr + 2 - view.lastAck && view.picked.None?
      modifies this`view, this`sndCurrSeqNo, buffer`currBlock, buffer`cursor
      ensures Valid()
      ensures MaySendNew(old(view), cwnd) ==>
                && view == SendNew(old(view))
                && packet == Some((W(view.curr), view.blocks[view.curr - view.first]))
      ensures !MaySendNew(old(view), cwnd) ==> view == old(view) && packet == None
    {
      hide W, Lists, CSndBuffer.Valid, CSndBuffer.Pending, SenderInv, MaySendNew;
      NextPacket();
      MayTake(cwnd);
      packet := None;
      var data, word := buffer.ReadData();
      if data.Some? {
        CountNew(cwnd);
        packet := Some((sndCurrSeqNo, data.value));
      }
    }

    /** packData without a loss: a new packet if the windows allow it and there is data. */
    method PackNew(cwnd: int) returns (packet: Option<(Wire, Bytes)>)
      requires Valid() && view.picked.None?
      modifies this`view, this`sndCurrSeqNo, buffer`currBlock, buffer`cursor
      ensures Valid()
      ensures MaySendNew(old(view), cwnd) ==>
                && view == SendNew(old(view))
                && packet == Some((W(view.curr), view.blocks[view.curr - view.first]))
      ensures !MaySendNew(old(view), cwnd) ==> view == old(view) && packet == None
      ensures packet.Some? <==>
                var next := old(view.curr) + 1;
                && next < old(view.lastAck) + old(view.window) && next < old(view.lastAck) + cwnd
                && next < view.first + |view.blocks|
      ensures packet.Some? ==>
                view == old(view).(curr := old(view.curr) + 1)
                && packet.value.1 == view.blocks[old(view.curr) + 1 - view.first]
    {
      hide W, CSndLossList.Valid, CSndLossList.Model, CSndBuffer.Valid, CSndBuffer.Pending, SenderInv, Aligned, Losses;
      NextPacket();
      IncSeqIsNext(view.curr);
      LengthOfInterval(view.lastAck, view.curr + 1);
      var window := if flowWindowSize < cwnd then flowWindowSize else cwnd;
      packet := None;
      if window >= SeqLen(sndLastAck, IncSeq(sndCurrSeqNo)) {
        packet := TakeNext(cwnd);
      }
    }

    /** The expiration timer: everything sent and not acknowledged counts as lost. */
    method OnExpiration()
      requires Valid()
      modifies this`view, lossList, lossList.data1, lossList.data2, lossList.next
      ensures Valid() && view == OnTimeout(old(view)) && view == old(view).(loss := lossList.Model())
      ensures forall x :: x in lossList.Model() <==>
                x in old(lossList.Model())
                || (old(view.lastAck) <= x <= old(view.curr) && |old(buffer.Pending())| > 0)
    {
      hide W, CSndLossList.Valid, CSndLossList.Model, CSndBuffer.Valid, CSndBuffer.Pending;
      var n := buffer.GetCurrBufSize();
      IncSeqIsNext(view.curr);
      NearArithmetic(view.curr + 1, view.lastAck);
      if n > 0 && IncSeq(sndCurrSeqNo) != sndLastAck {
        Lose(sndLastAck, sndCurrSeqNo, view.lastAck, view.curr);
      }
    }
  }
}
