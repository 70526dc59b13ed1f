/** What every run of the stream protocol keeps. */
module ProtocolProofs {
  import opened Basics
  import opened SeqNo
  import opened LossNodes
  import opened NakCodec
  import opened Protocol

  // ---- the invariant -------------------------------------------------------------------

  /** Everything before ack has been received: it is buffered or already read. */
  ghost predicate ReceivedUpTo(r: Receiver, ack: int) {
    forall g :: r.start <= g < ack ==> g in r.buf
  }

  ghost predicate ReportOk(r: Receiver, item: Report) {
    match item
    case Span(a, b) => a <= b <= r.curr
    case One(n) => n <= r.curr
  }

  ghost predicate MessageOk(t: System, cap: int, m: Message) {
    match m
    case Data(g, payload, granted) =>
      && t.snd.first <= g <= t.snd.curr && g - t.snd.first < |t.snd.blocks| && payload == t.snd.blocks[g - t.snd.first]
      && (granted ==> g < t.rcv.start + cap - 1)
    case LiteAck(ack) => t.snd.first <= ack <= t.rcv.curr + 1 && ReceivedUpTo(t.rcv, ack)
    case Ack(ack, window, raised) =>
      && t.snd.first <= ack <= t.rcv.lastAck && ReceivedUpTo(t.rcv, ack)
      && 2 <= window <= cap
      && (raised || ack + window <= t.rcv.start + cap - 1)
    case Ack2(ack) => t.snd.first <= ack <= t.rcv.lastAck && ack <= t.snd.lastDataAck
    case Nak(reports) => forall k :: 0 <= k < |reports| ==> ReportOk(t.rcv, reports[k])
  }

  ghost predicate Sane(t: System, cap: int) {
    && cap >= 2
    && SenderInv(t.snd, cap) && ReceiverInv(t.rcv, cap) && Readable(t.rcv)
    && t.snd.first == t.rcv.first && t.rcv.curr <= t.snd.curr && !t.snd.broken
    && ReceivedUpTo(t.rcv, t.snd.lastAck) && t.snd.lastAck <= t.rcv.curr + 1
    && (t.snd.exact ==> t.snd.lastAck + t.snd.window <= t.rcv.start + cap - 1)
    && t.rcv.lastAckAck <= t.snd.lastDataAck
    && (t.snd.lastAck == t.snd.lastDataAck ==> t.snd.window >= 2)
  }

  /** Buffered packets are the sender's blocks. */
  ghost predicate Agree(t: System) {
    forall g :: g in t.rcv.buf ==>
      0 <= g - t.snd.first < |t.snd.blocks| && t.rcv.buf[g] == t.snd.blocks[g - t.snd.first]
  }

  /** What holds however the application reads. */
  ghost predicate Inv(t: System, cap: int) {
    && Sane(t, cap)
    && Agree(t)
    && forall m :: m in t.net ==> MessageOk(t, cap, m)
  }

  /** The bytes read and those still to be read are those of the acknowledged packets. */
  ghost predicate Streamed(t: System) {
    && Readable(t.rcv)
    && 0 <= t.rcv.lastAck - t.snd.first <= |t.snd.blocks|
    && t.rcv.read + Unread(t.rcv) == Flat(t.snd.blocks[..t.rcv.lastAck - t.snd.first])
    && t.written == Flat(t.snd.blocks)
  }

  // ---- bytes ---------------------------------------------------------------------------

  lemma FlatNone()
    ensures Flat([]) == []
  {
  }

  lemma FlatOne(b: Bytes)
    ensures Flat([b]) == b
  {
    assert [b][..0] == [];
  }

  lemma FlatLast(blocks: seq<Bytes>)
    requires blocks != []
    ensures Flat(blocks) == Flat(blocks[..|blocks| - 1]) + blocks[|blocks| - 1]
  {
  }

  lemma {:induction false} FlatConcat(a: seq<Bytes>, b: seq<Bytes>)
    ensures Flat(a + b) == Flat(a) + Flat(b)
    decreases |b|
  {
    hide Flat;
    if b == [] {
      FlatNone();
      assert a + b == a;
    } else {
      var init := b[..|b| - 1];
      FlatConcat(a, init);
      FlatLast(a + b);
      FlatLast(b);
      assert (a + b)[..|a + b| - 1] == a + init;
    }
  }

  /** Cutting a buffer into packets loses nothing. */
  lemma {:induction false} ChunksKeepData(data: Bytes, mss: nat)
    requires mss > 0
    ensures Flat(Chunks(data, mss)) == data
    decreases |data|
  {
    hide Flat;
    if |data| == 0 {
      FlatNone();
    } else if |data| <= mss {
      FlatOne(data);
    } else {
      ChunksKeepData(data[mss..], mss);
      FlatConcat([data[..mss]], Chunks(data[mss..], mss));
      FlatOne(data[..mss]);
      assert data == data[..mss] + data[mss..];
    }
  }

  lemma {:induction false} JoinedIsFlat(t: System, a: int, b: int)
    requires t.snd.first <= a <= b <= t.snd.first + |t.snd.blocks|
    requires forall g :: a <= g < b ==> g in t.rcv.buf && t.rcv.buf[g] == t.snd.blocks[g - t.snd.first]
    ensures Joined(t.rcv.buf, a, b) == Flat(t.snd.blocks[a - t.snd.first..b - t.snd.first])
    decreases b - a
  {
    if a < b {
      JoinedIsFlat(t, a, b - 1);
      var s := t.snd.blocks[a - t.snd.first..b - t.snd.first];
      assert s[..|s| - 1] == t.snd.blocks[a - t.snd.first..b - 1 - t.snd.first];
    }
  }

  lemma {:induction false} JoinedAgree(m: map<int, Bytes>, m': map<int, Bytes>, a: int, b: int)
    requires forall g :: a <= g < b ==> g in m && g in m' && m[g] == m'[g]
    ensures Joined(m, a, b) == Joined(m', a, b)
    decreases b - a
  {
    if a < b { JoinedAgree(m, m', a, b - 1); }
  }

  lemma {:induction false} JoinedSplit(m: map<int, Bytes>, a: int, b: int, c: int)
    requires a <= b <= c && forall g :: a <= g < c ==> g in m
    ensures Joined(m, a, c) == Joined(m, a, b) + Joined(m, b, c)
    decreases c - b
  {
    if b < c {
      JoinedSplit(m, a, b, c - 1);
    }
  }

  lemma {:induction false} FlatPrefix(blocks: seq<Bytes>, n: nat)
    requires n <= |blocks|
    ensures Flat(blocks[..n]) <= Flat(blocks)
  {
    FlatConcat(blocks[..n], blocks[n..]);
    assert blocks == blocks[..n] + blocks[n..];
  }

  // ---- the invariant holds initially and is kept by every step -------------------------

  lemma InitInv(t: System, cap: int, first: int)
    requires Init(t, cap, first) && cap >= 2
    ensures Inv(t, cap) && Streamed(t)
  {
    assert t.snd.blocks[..0] == [];
  }

  lemma DataKeepsMessage(t: System, t': System, cap: int, m: Message)
    requires MessageOk(t, cap, m)
    requires t'.snd.first == t.snd.first && t.snd.curr <= t'.snd.curr && t.snd.blocks <= t'.snd.blocks
    requires t.snd.lastDataAck <= t'.snd.lastDataAck
    requires t'.rcv.start == t.rcv.start && t.rcv.curr <= t'.rcv.curr && t.rcv.lastAck <= t'.rcv.lastAck
    requires forall g :: g in t.rcv.buf ==> g in t'.rcv.buf
    ensures MessageOk(t', cap, m)
  {
    match m
    case Nak(reports) =>
      forall k | 0 <= k < |reports| ensures ReportOk(t'.rcv, reports[k]) {
        assert ReportOk(t.rcv, reports[k]);
      }
    case _ =>
  }

  /** Steps of the sender that leave the receiver alone and add no message. */
  lemma SenderStep(t: System, t': System, cap: int)
    requires Inv(t, cap) && t' == t.(snd := t'.snd)
    requires SenderInv(t'.snd, cap) && !t'.snd.broken
    requires t'.snd.first == t.snd.first && t'.snd.blocks == t.snd.blocks && t'.snd.curr == t.snd.curr
    requires ReceivedUpTo(t.rcv, t'.snd.lastAck) && t'.snd.lastAck <= t.rcv.curr + 1
    requires t'.snd.exact ==> t'.snd.lastAck + t'.snd.window <= t.rcv.start + cap - 1
    requires t.snd.lastDataAck <= t'.snd.lastDataAck
    requires t'.snd.lastAck == t'.snd.lastDataAck ==> t'.snd.window >= 2
    ensures Inv(t', cap)
  {
    forall m | m in t'.net ensures MessageOk(t', cap, m) {
      assert MessageOk(t, cap, m);
      DataKeepsMessage(t, t', cap, m);
    }
  }

  lemma WriteInv(t: System, t': System, cap: int, mss: nat, data: Bytes)
    requires Inv(t, cap) && mss > 0 && Next(t, t', cap, mss, WriteStep(data))
    ensures Inv(t', cap)
  {
    forall m | m in t'.net ensures MessageOk(t', cap, m) {
      assert MessageOk(t, cap, m);
      if m.Nak? { DataKeepsMessage(t, t', cap, m); }
    }
  }

  lemma LiteAckInv(t: System, t': System, cap: int, mss: nat, ack: int)
    requires Inv(t, cap) && mss > 0 && Next(t, t', cap, mss, LiteAckStep(ack))
    ensures Inv(t', cap)
  {
    assert MessageOk(t, cap, LiteAck(ack));
    SenderStep(t, t', cap);
  }

  /** An acknowledgement of what was sent keeps the sender in order. */
  lemma AckKeepsSender(s: Sender, cap: int, ack: int, window: int, raised: bool)
    requires SenderInv(s, cap) && ack <= s.curr + 1 && window <= cap
    ensures var s' := OnAck(s, ack, window, raised);
            && SenderInv(s', cap) && s'.lastAck == Max(s.lastAck, ack) && s'.lastDataAck == Max(s.lastDataAck, ack)
            && s'.first == s.first && s'.blocks == s.blocks && s'.curr == s.curr && s'.broken == s.broken
            && s'.picked == s.picked && (forall x :: x in s'.loss <==> x in s.loss && x >= s'.lastDataAck)
            && if ack >= s.lastAck then s'.window == window && s'.exact == !raised
               else s'.window == s.window && s'.exact == s.exact
  {
  }

  lemma AckBounds(t: System, cap: int, ack: int)
    requires Sane(t, cap) && ack <= t.rcv.lastAck
    ensures ack <= t.rcv.curr + 1 <= t.snd.curr + 1
  {
  }

  lemma SendInv(t: System, t': System, cap: int, m: Message)
    requires Inv(t, cap) && MessageOk(t, cap, m) && t' == t.(net := t.net + {m})
    ensures Inv(t', cap)
  {
    forall n | n in t'.net ensures MessageOk(t', cap, n) {
      assert MessageOk(t, cap, n);
      DataKeepsMessage(t, t', cap, n);
    }
  }

  lemma AckInv(t: System, t': System, cap: int, mss: nat, ack: int, window: int, raised: bool,
               reply: bool)
    requires Inv(t, cap) && mss > 0 && Next(t, t', cap, mss, AckStep(ack, window, raised, reply))
    ensures Inv(t', cap)
  {
    hide SenderInv, ReceiverInv, OnAck, Readable, Agree;
    assert MessageOk(t, cap, Ack(ack, window, raised));
    AckBounds(t, cap, ack);
    AckKeepsSender(t.snd, cap, ack, window, raised);
    var mid := t.(snd := t'.snd);
    SenderStep(t, mid, cap);
    if reply {
      SendInv(mid, t', cap, Ack2(ack));
    }
  }

  lemma ReportEffect(s: Sender, loss: set<int>, r: Report)
    requires match r case Span(a, b) => a <= b <= s.curr case One(n) => n <= s.curr
    ensures OnReport(s, loss, r) == Some(loss + AtLeast(Covers(r), s.lastAck))
  {
    var added := AtLeast(Covers(r), s.lastAck);
    match r
    case Span(a, b) =>
      assert added == Range(Max(a, s.lastAck), b);
      if b < s.lastAck { assert added == {} && loss + added == loss; }
    case One(n) =>
      assert added == if n >= s.lastAck then {n} else {};
      if n < s.lastAck { assert loss + added == loss; }
  }

  /** What a well-behaved loss report does: the numbers not yet acknowledged join the loss set. */
  lemma {:induction false} NakEffect(s: Sender, rs: seq<Report>)
    requires !s.broken
    requires forall k :: 0 <= k < |rs| ==> match rs[k] case Span(a, b) => a <= b <= s.curr case One(n) => n <= s.curr
    ensures OnNak(s, rs) == s.(loss := s.loss + AtLeast(Reported(rs), s.lastAck))
  {
    if rs != [] {
      var init := rs[..|rs| - 1];
      NakEffect(s, init);
      var before := s.loss + AtLeast(Reported(init), s.lastAck);
      var after := s.loss + AtLeast(Reported(rs), s.lastAck);
      ReportEffect(s, before, rs[|rs| - 1]);
      assert after == before + AtLeast(Covers(rs[|rs| - 1]), s.lastAck);
    }
  }

  lemma {:induction false} ReportedBound(rs: seq<Report>, hi: int)
    requires forall k :: 0 <= k < |rs| ==> match rs[k] case Span(a, b) => a <= b <= hi case One(n) => n <= hi
    ensures forall x :: x in Reported(rs) ==> x <= hi
  {
    if rs != [] { ReportedBound(rs[..|rs| - 1], hi); }
  }

  lemma NakInv(t: System, t': System, cap: int, mss: nat, reports: seq<Report>)
    requires Inv(t, cap) && mss > 0 && Next(t, t', cap, mss, NakStep(reports))
    ensures Inv(t', cap)
  {
    assert MessageOk(t, cap, Nak(reports));
    forall k | 0 <= k < |reports|
      ensures match reports[k] case Span(a, b) => a <= b <= t.rcv.curr case One(n) => n <= t.rcv.curr
    {
      assert ReportOk(t.rcv, reports[k]);
    }
    NakEffect(t.snd, reports);
    ReportedBound(reports, t.rcv.curr);
    SenderStep(t, t', cap);
  }

  lemma ResendInv(t: System, t': System, cap: int, mss: nat)
    requires Inv(t, cap) && mss > 0 && Next(t, t', cap, mss, ResendStep)
    ensures Inv(t', cap)
  {
    hide ReceiverInv, Readable, Agree;
    var mid := t.(snd := t'.snd);
    SenderStep(t, mid, cap);
    if t'.net != t.net {
      var m := Data(t.snd.picked.value, t.snd.blocks[t.snd.picked.value - t.snd.first], false);
      assert t' == mid.(net := mid.net + {m});
      SendInv(mid, t', cap, m);
    }
  }

  lemma SendNewInv(t: System, t': System, cap: int, mss: nat, cwnd: int)
    requires Inv(t, cap) && mss > 0 && Next(t, t', cap, mss, SendNewStep(cwnd))
    ensures Inv(t', cap)
  {
    hide ReceiverInv, Readable, ReceivedUpTo;
    forall m | m in t'.net ensures MessageOk(t', cap, m) {
      if m in t.net {
        assert MessageOk(t, cap, m);
        if m.Nak? { DataKeepsMessage(t, t', cap, m); }
      }
    }
  }

  // ---- receiver steps ------------------------------------------------------------------

  /** What a packet that is taken does to the account of received and missing numbers. */
  lemma DataEffect(r: Receiver, cap: int, g: int, payload: Bytes)
    requires ReceiverInv(r, cap) && Accepts(r, cap, g)
    ensures var r' := OnData(r, cap, g, payload);
            && r'.curr == Max(r.curr, g) && r'.buf == r.buf[g := payload]
            && forall x :: x in r'.loss <==> x != g && (x in r.loss || r.curr < x < g)
  {
  }

  lemma DataKeepsReceiver(r: Receiver, cap: int, g: int, payload: Bytes)
    requires ReceiverInv(r, cap) && Accepts(r, cap, g)
    ensures ReceiverInv(OnData(r, cap, g, payload), cap)
  {
    var r' := OnData(r, cap, g, payload);
    forall x | r'.lastAck <= x <= r'.curr ensures x in r'.buf <==> x !in r'.loss {
    }
  }

  /** Buffering a packet does not touch what can already be read. */
  lemma DataKeepsUnread(r: Receiver, cap: int, g: int, payload: Bytes)
    requires Accepts(r, cap, g) && Readable(r)
    ensures Readable(OnData(r, cap, g, payload)) && Unread(OnData(r, cap, g, payload)) == Unread(r)
  {
    JoinedAgree(r.buf, r.buf[g := payload], r.start, r.lastAck);
  }

  /** The report covers exactly the numbers between the largest one received so far and the new one. */
  lemma GapReported(r: Receiver, g: int)
    ensures forall x :: x in Reported(GapReport(r, g)) <==> r.curr < x < g
    ensures WellFormed(GapReport(r, g))
  {
    var rs := GapReport(r, g);
    assert rs == [] ==> Reported(rs) == {};
    if rs != [] {
      assert rs[..0] == [] && Reported(rs) == Reported([]) + Covers(rs[0]);
    }
  }

  lemma GapReportOk(r: Receiver, r': Receiver, g: int)
    requires r'.curr >= g
    ensures forall k :: 0 <= k < |GapReport(r, g)| ==> ReportOk(r', GapReport(r, g)[k])
  {
  }

  lemma DataInv(t: System, t': System, cap: int, mss: nat, g: int, payload: Bytes, granted: bool)
    requires Inv(t, cap) && mss > 0 && Next(t, t', cap, mss, DataStep(g, payload, granted))
    ensures Inv(t', cap)
  {
    hide SenderInv, ReceiverInv, GapReport, Readable, Avail;
    assert MessageOk(t, cap, Data(g, payload, granted));
    if Accepts(t.rcv, cap, g) {
      DataKeepsReceiver(t.rcv, cap, g, payload);
      DataKeepsUnread(t.rcv, cap, g, payload);
      forall m | m in t'.net ensures MessageOk(t', cap, m) {
        if m in t.net {
          assert MessageOk(t, cap, m);
          DataKeepsMessage(t, t', cap, m);
        } else {
          GapReportOk(t.rcv, t'.rcv, g);
        }
      }
    }
  }

  /** The ACK number is at least the last one, and everything before it has been received. */
  lemma AckNumberSound(r: Receiver, cap: int, ack: int)
    requires ReceiverInv(r, cap) && IsAckNumber(r, ack)
    ensures r.lastAck <= ack <= r.curr + 1 && ReceivedUpTo(r, ack)
  {
    forall g | r.start <= g < ack ensures g in r.buf {
      if g >= r.lastAck { assert g !in r.loss; }
    }
  }

  lemma AckToReceiver(r: Receiver, cap: int, ack: int)
    requires ReceiverInv(r, cap) && Readable(r) && IsAckNumber(r, ack)
    ensures ReceiverInv(AckTo(r, ack), cap) && Readable(AckTo(r, ack))
  {
    var r' := AckTo(r, ack);
    AckNumberSound(r, cap, ack);
    JoinedSplit(r.buf, r.start, r.lastAck, r'.lastAck);
    if r.start == r.lastAck && r.lastAck < ack {
      assert r.start in r.buf && r.notch == 0;
    }
  }

  lemma AckToInv(t: System, t': System, cap: int, ack: int)
    requires Inv(t, cap) && IsAckNumber(t.rcv, ack) && t' == t.(rcv := AckTo(t.rcv, ack))
    ensures Inv(t', cap)
  {
    AckNumberSound(t.rcv, cap, ack);
    AckToReceiver(t.rcv, cap, ack);
    forall m | m in t'.net ensures MessageOk(t', cap, m) {
      assert MessageOk(t, cap, m);
      DataKeepsMessage(t, t', cap, m);
    }
  }

  lemma SendAckInv(t: System, t': System, cap: int, mss: nat, ack: int, due: bool)
    requires Inv(t, cap) && mss > 0 && Next(t, t', cap, mss, SendAckStep(ack, due))
    ensures Inv(t', cap)
  {
    AckNumberSound(t.rcv, cap, ack);
    var r := AckTo(t.rcv, ack);
    var mid := t.(rcv := r);
    AckToInv(t, mid, cap, ack);
    if SendsAck(t.rcv, ack, due) {
      SendInv(mid, t', cap, AckMessage(r, cap));
    }
  }

  lemma SendLiteAckInv(t: System, t': System, cap: int, mss: nat, ack: int)
    requires Inv(t, cap) && mss > 0 && Next(t, t', cap, mss, SendLiteAckStep(ack))
    ensures Inv(t', cap)
  {
    AckNumberSound(t.rcv, cap, ack);
    SendInv(t, t', cap, LiteAck(ack));
  }

  lemma {:induction false} ReportedHas(rs: seq<Report>, k: nat, x: int)
    requires k < |rs| && x in Covers(rs[k])
    ensures x in Reported(rs)
  {
    if k < |rs| - 1 { ReportedHas(rs[..|rs| - 1], k, x); }
  }

  lemma SendNakInv(t: System, t': System, cap: int, mss: nat, reports: seq<Report>)
    requires Inv(t, cap) && mss > 0 && Next(t, t', cap, mss, SendNakStep(reports))
    ensures Inv(t', cap)
  {
    forall k | 0 <= k < |reports| ensures ReportOk(t.rcv, reports[k]) {
      match reports[k]
      case Span(a, b) => assert Within(a, b, b); ReportedHas(reports, k, b);
      case One(n) => ReportedHas(reports, k, n);
    }
    SendInv(t, t', cap, Nak(reports));
  }

  lemma Ack2Inv(t: System, t': System, cap: int, mss: nat, ack: int)
    requires Inv(t, cap) && mss > 0 && Next(t, t', cap, mss, Ack2Step(ack))
    ensures Inv(t', cap)
  {
    forall m | m in t'.net ensures MessageOk(t', cap, m) {
      assert MessageOk(t, cap, m);
      DataKeepsMessage(t, t', cap, m);
    }
  }

  lemma ReadKeepsReceiver(r: Receiver, r': Receiver, cap: int, len: nat, out: Bytes)
    requires ReceiverInv(r, cap) && Reads(r, r', len, out)
    ensures ReceiverInv(r', cap)
  {
  }

  lemma ReadKeepsMessage(t: System, t': System, cap: int, m: Message)
    requires MessageOk(t, cap, m) && t'.snd == t.snd
    requires t.rcv.start <= t'.rcv.start && t.rcv.curr == t'.rcv.curr && t.rcv.lastAck == t'.rcv.lastAck
    requires forall g :: g in t.rcv.buf && g >= t'.rcv.start ==> g in t'.rcv.buf
    ensures MessageOk(t', cap, m)
  {
    match m
    case Nak(reports) =>
      forall k | 0 <= k < |reports| ensures ReportOk(t'.rcv, reports[k]) {
        assert ReportOk(t.rcv, reports[k]);
      }
    case _ =>
  }

  lemma ReadInv(t: System, t': System, cap: int, mss: nat, len: nat, out: Bytes)
    requires Inv(t, cap) && mss > 0 && Next(t, t', cap, mss, ReadStep(len, out))
    ensures Inv(t', cap)
  {
    ReadKeepsReceiver(t.rcv, t'.rcv, cap, len, out);
    forall m | m in t'.net ensures MessageOk(t', cap, m) {
      assert MessageOk(t, cap, m);
      ReadKeepsMessage(t, t', cap, m);
    }
  }

  lemma PickInv(t: System, t': System, cap: int, mss: nat, x: int)
    requires Inv(t, cap) && mss > 0 && Next(t, t', cap, mss, PickStep(x))
    ensures Inv(t', cap)
  {
    SenderStep(t, t', cap);
  }

  lemma TimeoutInv(t: System, t': System, cap: int, mss: nat)
    requires Inv(t, cap) && mss > 0 && Next(t, t', cap, mss, TimeoutStep)
    ensures Inv(t', cap)
  {
    SenderStep(t, t', cap);
  }

  lemma NextInv(t: System, t': System, cap: int, mss: nat, step: Step)
    requires Inv(t, cap) && mss > 0 && Next(t, t', cap, mss, step)
    ensures Inv(t', cap)
  {
    hide Inv;
    match step
    case WriteStep(data) => WriteInv(t, t', cap, mss, data);
    case PickStep(x) => PickInv(t, t', cap, mss, x);
    case ResendStep => ResendInv(t, t', cap, mss);
    case SendNewStep(cwnd) => SendNewInv(t, t', cap, mss, cwnd);
    case TimeoutStep => TimeoutInv(t, t', cap, mss);
    case DataStep(g, payload, granted) => DataInv(t, t', cap, mss, g, payload, granted);
    case LiteAckStep(ack) => LiteAckInv(t, t', cap, mss, ack);
    case AckStep(ack, window, raised, reply) => AckInv(t, t', cap, mss, ack, window, raised, reply);
    case NakStep(reports) => NakInv(t, t', cap, mss, reports);
    case SendAckStep(ack, due) => SendAckInv(t, t', cap, mss, ack, due);
    case SendLiteAckStep(ack) => SendLiteAckInv(t, t', cap, mss, ack);
    case SendNakStep(reports) => SendNakInv(t, t', cap, mss, reports);
    case Ack2Step(ack) => Ack2Inv(t, t', cap, mss, ack);
    case ReadStep(len, out) => ReadInv(t, t', cap, mss, len, out);
  }

  // ---- the bytes read are those that were written --------------------------------------

  lemma SameStreamed(t: System, t': System)
    requires Streamed(t) && t'.rcv == t.rcv && t'.written == t.written
    requires t'.snd.first == t.snd.first && t'.snd.blocks == t.snd.blocks
    ensures Streamed(t')
  {
    hide Flat, Joined, Unread;
  }

  lemma WriteStreamed(t: System, t': System, mss: nat, data: Bytes)
    requires Streamed(t) && mss > 0 && t' == t.(snd := Write(t.snd, data, mss), written := t.written + data)
    ensures Streamed(t')
  {
    hide Flat, Joined, Unread, Chunks;
    var more := Chunks(data, mss);
    ChunksKeepData(data, mss);
    FlatConcat(t.snd.blocks, more);
    var n := t.rcv.lastAck - t.snd.first;
    assert t'.snd.blocks[..n] == t.snd.blocks[..n];
  }

  lemma DataStreamed(t: System, t': System, cap: int, g: int, payload: Bytes)
    requires Streamed(t) && Accepts(t.rcv, cap, g)
    requires t'.rcv == OnData(t.rcv, cap, g, payload) && t'.snd == t.snd && t'.written == t.written
    ensures Streamed(t')
  {
    DataKeepsUnread(t.rcv, cap, g, payload);
  }

  lemma UnreadGrows(r: Receiver, ack: int)
    requires Readable(r) && ReceivedUpTo(r, ack)
    ensures var r' := AckTo(r, ack);
            Readable(r') && Unread(r') == Unread(r) + Joined(r.buf, r.lastAck, r'.lastAck)
  {
    JoinedSplit(r.buf, r.start, r.lastAck, AckTo(r, ack).lastAck);
  }

  lemma AckToStreamed(t: System, t': System, ack: int)
    requires Streamed(t) && Agree(t) && ReceivedUpTo(t.rcv, ack) && t' == t.(rcv := AckTo(t.rcv, ack))
    requires 0 <= ack - t.snd.first <= |t.snd.blocks|
    ensures Streamed(t')
  {
    hide Flat, Joined, Unread;
    var r, r' := t.rcv, t'.rcv;
    UnreadGrows(r, ack);
    JoinedIsFlat(t, r.lastAck, r'.lastAck);
    var (m, n) := (r.lastAck - t.snd.first, r'.lastAck - t.snd.first);
    assert t.snd.blocks[..n] == t.snd.blocks[..m] + t.snd.blocks[m..n];
    FlatConcat(t.snd.blocks[..m], t.snd.blocks[m..n]);
    assert r'.read + Unread(r') == (r.read + Unread(r)) + Joined(r.buf, r.lastAck, r'.lastAck);
  }

  lemma Ack2Streamed(t: System, t': System, ack: int)
    requires Streamed(t) && t' == t.(rcv := OnAck2(t.rcv, ack))
    ensures Streamed(t')
  {
    hide Flat, Joined;
    assert Readable(t'.rcv) && Unread(t'.rcv) == Unread(t.rcv);
  }

  lemma ReadStreamed(t: System, t': System, len: nat, out: Bytes)
    requires Streamed(t) && Reads(t.rcv, t'.rcv, len, out) && t' == t.(rcv := t'.rcv)
    ensures Streamed(t')
  {
    hide Flat, Joined, Unread;
    assert t'.rcv.read + Unread(t'.rcv) == t.rcv.read + (out + Unread(t'.rcv));
  }

  lemma SendAckStreamed(t: System, t': System, cap: int, ack: int)
    requires Inv(t, cap) && Streamed(t) && IsAckNumber(t.rcv, ack)
    requires t'.rcv == AckTo(t.rcv, ack) && t'.snd == t.snd && t'.written == t.written
    ensures Streamed(t')
  {
    hide Streamed;
    AckNumberSound(t.rcv, cap, ack);
    var mid := t.(rcv := t'.rcv);
    AckToStreamed(t, mid, ack);
    SameStreamed(mid, t');
  }

  lemma {:induction false} NakKeepsBlocks(s: Sender, rs: seq<Report>)
    ensures OnNak(s, rs).first == s.first && OnNak(s, rs).blocks == s.blocks
  {
    if rs != [] {
      NakKeepsBlocks(s, rs[..|rs| - 1]);
    }
  }

  /** Reading as a stream and every other step keep the account of the bytes. */
  lemma NextStreamed(t: System, t': System, cap: int, mss: nat, step: Step)
    requires Inv(t, cap) && Streamed(t) && mss > 0 && Next(t, t', cap, mss, step)
    ensures Streamed(t')
  {
    hide Streamed, Chunks, Reads, Flat, Inv, GapReport, FreshAck, FreshReport, IsAckNumber;
    match step
    case WriteStep(data) => WriteStreamed(t, t', mss, data);
    case DataStep(g, payload, granted) =>
      if Accepts(t.rcv, cap, g) {
        DataStreamed(t, t', cap, g, payload);
      } else {
        SameStreamed(t, t');
      }
    case SendAckStep(ack, due) => SendAckStreamed(t, t', cap, ack);
    case NakStep(reports) =>
      NakKeepsBlocks(t.snd, reports);
      SameStreamed(t, t');
    case Ack2Step(ack) => Ack2Streamed(t, t', ack);
    case ReadStep(len, out) => ReadStreamed(t, t', len, out);
    case _ => SameStreamed(t, t');
  }

  // ---- runs ----------------------------------------------------------------------------

  ghost predicate IsRun(run: seq<System>, steps: seq<Step>, cap: int, mss: nat, first: int)
    requires mss > 0
  {
    && |run| == |steps| + 1 && Init(run[0], cap, first)
    && forall i :: 0 <= i < |steps| ==> Next(run[i], run[i + 1], cap, mss, steps[i])
  }

  lemma {:induction false} RunInv(run: seq<System>, steps: seq<Step>, cap: int, mss: nat, first: int, i: nat)
    requires mss > 0 && cap >= 2 && IsRun(run, steps, cap, mss, first) && i < |run|
    ensures Inv(run[i], cap)
  {
    if i == 0 {
      InitInv(run[0], cap, first);
    } else {
      RunInv(run, steps, cap, mss, first, i - 1);
      assert Next(run[i - 1], run[i - 1 + 1], cap, mss, steps[i - 1]);
      NextInv(run[i - 1], run[i], cap, mss, steps[i - 1]);
    }
  }

  lemma {:induction false} RunStreamed(run: seq<System>, steps: seq<Step>, cap: int, mss: nat, first: int, i: nat)
    requires mss > 0 && cap >= 2 && IsRun(run, steps, cap, mss, first) && i < |run|
    ensures Streamed(run[i])
  {
    hide Streamed, Inv;
    if i == 0 {
      InitInv(run[0], cap, first);
    } else {
      RunInv(run, steps, cap, mss, first, i - 1);
      RunStreamed(run, steps, cap, mss, first, i - 1);
      assert Next(run[i - 1], run[i - 1 + 1], cap, mss, steps[i - 1]);
      NextStreamed(run[i - 1], run[i], cap, mss, steps[i - 1]);
    }
  }

  /** The bytes read are a prefix of the bytes written, in every state of every run. */
  lemma StreamDelivery(run: seq<System>, steps: seq<Step>, cap: int, mss: nat, first: int, i: nat)
    requires mss > 0 && cap >= 2 && IsRun(run, steps, cap, mss, first) && i < |run|
    ensures run[i].rcv.read <= run[i].written
  {
    RunStreamed(run, steps, cap, mss, first, i);
    var t := run[i];
    FlatPrefix(t.snd.blocks, t.rcv.lastAck - t.snd.first);
    assert t.rcv.read <= t.rcv.read + Unread(t.rcv);
  }

  /** Between honest endpoints no message ever breaks the connection. */
  lemma NeverBroken(run: seq<System>, steps: seq<Step>, cap: int, mss: nat, first: int, i: nat)
    requires mss > 0 && cap >= 2 && IsRun(run, steps, cap, mss, first) && i < |run|
    ensures !run[i].snd.broken
  {
    RunInv(run, steps, cap, mss, first, i);
  }

  /** Each received or missing number is on record exactly once, and acknowledged slots are filled. */
  lemma ReceiverPartition(run: seq<System>, steps: seq<Step>, cap: int, mss: nat, first: int, i: nat)
    requires mss > 0 && cap >= 2 && IsRun(run, steps, cap, mss, first) && i < |run|
    ensures var r := run[i].rcv;
            && (forall g :: r.lastAck <= g <= r.curr ==> (g in r.buf <==> g !in r.loss))
            && (forall g :: r.start <= g < r.lastAck ==> g in r.buf)
            && (forall g :: g in r.buf ==> r.start <= g <= r.curr)
            && (forall g :: g in r.loss ==> r.lastAck <= g <= r.curr)
  {
    RunInv(run, steps, cap, mss, first, i);
  }

  /** What the sender may forget, the receiver has: every acknowledged number was received. */
  lemma AcknowledgedIsReceived(run: seq<System>, steps: seq<Step>, cap: int, mss: nat, first: int, i: nat, g: int)
    requires mss > 0 && cap >= 2 && IsRun(run, steps, cap, mss, first) && i < |run|
    requires run[i].snd.first <= g < run[i].snd.lastAck
    ensures 0 <= g - run[i].snd.first < |run[i].snd.blocks|
    ensures g < run[i].rcv.start
            || (g in run[i].rcv.buf && run[i].rcv.buf[g] == run[i].snd.blocks[g - run[i].snd.first])
    ensures run[i].snd.lastDataAck <= run[i].snd.lastAck <= run[i].rcv.curr + 1
  {
    RunInv(run, steps, cap, mss, first, i);
  }

  /** All packets with one number carry the same bytes: a retransmission repeats the first transmission. */
  lemma RetransmissionsAgree(run: seq<System>, steps: seq<Step>, cap: int, mss: nat, first: int, i: nat,
                             g: int, p: Bytes, q: Bytes, u: bool, v: bool)
    requires mss > 0 && cap >= 2 && IsRun(run, steps, cap, mss, first) && i < |run|
    requires Data(g, p, u) in run[i].net && Data(g, q, v) in run[i].net
    ensures p == q
  {
    RunInv(run, steps, cap, mss, first, i);
    assert MessageOk(run[i], cap, Data(g, p, u)) && MessageOk(run[i], cap, Data(g, q, v));
  }

  /** What a loss report does to the sender, from the receiver's own loss set. */
  lemma NakEndToEnd(s: Sender, loss: set<int>, rs: seq<Report>)
    requires !s.broken && WellFormed(rs) && Reported(rs) <= loss
    requires forall x :: x in loss ==> x <= s.curr
    ensures OnNak(s, rs) == s.(loss := s.loss + AtLeast(Reported(rs), s.lastAck))
    ensures !OnNak(s, rs).broken
  {
    forall k | 0 <= k < |rs|
      ensures match rs[k] case Span(a, b) => a <= b <= s.curr case One(n) => n <= s.curr
    {
      match rs[k]
      case Span(a, b) => assert Within(a, b, b); ReportedHas(rs, k, b);
      case One(n) => ReportedHas(rs, k, n);
    }
    NakEffect(s, rs);
  }

  /** In every state of every run the methods of CUDTSender and CUDTReceiver are called as their
      contracts ask: what they demand beyond freshness always holds. */
  lemma CallsAreAllowed(run: seq<System>, steps: seq<Step>, cap: int, mss: nat, first: int, i: nat)
    requires mss > 0 && cap >= 2 && IsRun(run, steps, cap, mss, first) && i < |run|
    ensures SenderInv(run[i].snd, cap) && ReceiverInv(run[i].rcv, cap) && !run[i].snd.broken
    ensures forall a :: LiteAck(a) in run[i].net ==> run[i].snd.first <= a <= run[i].snd.curr + 1
    ensures forall a, w, r :: Ack(a, w, r) in run[i].net ==>
              run[i].snd.first <= a <= run[i].snd.curr + 1 && 2 <= w <= cap
    ensures forall a :: Ack2(a) in run[i].net ==> run[i].rcv.first <= a <= run[i].rcv.lastAck
  {
    RunInv(run, steps, cap, mss, first, i);
    var t := run[i];
    forall a | LiteAck(a) in t.net ensures t.snd.first <= a <= t.snd.curr + 1 {
      assert MessageOk(t, cap, LiteAck(a));
    }
    forall a, w, r | Ack(a, w, r) in t.net ensures t.snd.first <= a <= t.snd.curr + 1 && 2 <= w <= cap {
      assert MessageOk(t, cap, Ack(a, w, r));
    }
  }

  /** Why staleness must be bounded: numbers 2^31 apart look the same on the wire. */
  lemma StaleLooksFresh(g: int)
    ensures W(g + SEQ_SPACE) == W(g)
    ensures SeqOff(W(g + SEQ_SPACE), W(g)) == 0
  {
    ModIs(g + SEQ_SPACE, SEQ_SPACE, g / SEQ_SPACE + 1, g % SEQ_SPACE);
  }
}
