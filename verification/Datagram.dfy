/** One direction of a connection in message mode: the endpoints of the stream protocol, with calls of
    sendmsg on one side, message words on the packets, and readMsg on the other side. */
module Datagram {
  import opened Basics
  import opened Messages
  import opened Protocol
  import opened ProtocolProofs

  // ---- calls and their packets ---------------------------------------------------------

  /** One call of sendmsg; empty data is not sent. */
  datatype Call = Call(data: Bytes, msgNo: nat, inOrder: bool)

  predicate IsCall(call: Call) {
    call.data != [] && call.msgNo < ORDER
  }

  function SentBy(call: Call, mss: nat): Sent
    requires mss > 0
  {
    Sent(|Chunks(call.data, mss)|, call.msgNo, call.inOrder)
  }

  function Sents(calls: seq<Call>, mss: nat): (sents: seq<Sent>)
    requires mss > 0
    ensures |sents| == |calls| && forall k :: 0 <= k < |sents| ==> sents[k] == SentBy(calls[k], mss)
  {
    seq(|calls|, k requires 0 <= k < |calls| => SentBy(calls[k], mss))
  }

  /** The blocks of all calls, one call after the other. */
  function Blocks(calls: seq<Call>, mss: nat): seq<Bytes>
    requires mss > 0
  {
    if calls == [] then [] else Blocks(calls[..|calls| - 1], mss) + Chunks(calls[|calls| - 1].data, mss)
  }

  /** The packets of call c, when the first packet of all has number `first`. */
  function CallMessage(first: int, calls: seq<Call>, mss: nat, c: nat): Messages.Message
    requires mss > 0 && c < |calls|
  {
    Message(first + |Blocks(calls[..c], mss)|, first + |Blocks(calls[..c + 1], mss)| - 1, calls[c].inOrder)
  }

  lemma SomeBlocks(call: Call, mss: nat)
    requires mss > 0 && IsCall(call)
    ensures SentBy(call, mss).count > 0
  {
  }

  lemma SentsAppend(calls: seq<Call>, call: Call, mss: nat)
    requires mss > 0
    ensures Sents(calls + [call], mss) == Sents(calls, mss) + [SentBy(call, mss)]
    ensures Blocks(calls + [call], mss) == Blocks(calls, mss) + Chunks(call.data, mss)
  {
    assert (calls + [call])[..|calls|] == calls;
  }

  /** What is sent later changes neither words nor messages of what was sent, and comes behind it. */
  lemma {:induction false} SentAppend(first: int, sents: seq<Sent>, s: Sent, g: int)
    requires s.count > 0
    ensures TotalSent(sents + [s]) == TotalSent(sents) + s.count
    ensures g < first + TotalSent(sents) ==>
              WordOf(first, sents + [s], g) == WordOf(first, sents, g)
              && MessageOf(first, sents + [s], g) == MessageOf(first, sents, g)
    ensures var a := first + TotalSent(sents);
            a <= g < a + s.count ==> MessageOf(first, sents + [s], g) == Message(a, a + s.count - 1, s.inOrder)
    decreases |sents|
  {
    hide MessageWord;
    if sents == [] {
      assert [] + [s] == [s];
      assert TotalSent([s]) == s.count + TotalSent([]);
    } else {
      assert (sents + [s])[1..] == sents[1..] + [s];
      SentAppend(first + sents[0].count, sents[1..], s, g);
    }
  }

  lemma {:induction false} TotalIsBlocks(calls: seq<Call>, mss: nat)
    requires mss > 0 && forall call :: call in calls ==> IsCall(call)
    ensures TotalSent(Sents(calls, mss)) == |Blocks(calls, mss)| && AllSent(Sents(calls, mss))
  {
    hide Chunks, WordOf, MessageOf;
    if calls == [] {
      assert Sents(calls, mss) == [];
    } else {
      var init, last := calls[..|calls| - 1], calls[|calls| - 1];
      SomeBlocks(last, mss);
      TotalIsBlocks(init, mss);
      assert calls == init + [last];
      SentsAppend(init, last, mss);
      SentAppend(0, Sents(init, mss), SentBy(last, mss), 0);
    }
  }

  lemma {:induction false} BlocksPrefix(calls: seq<Call>, mss: nat, c: nat)
    requires mss > 0 && c <= |calls|
    ensures Blocks(calls[..c], mss) <= Blocks(calls, mss)
    decreases |calls| - c
  {
    if c == |calls| {
      assert calls[..c] == calls;
    } else {
      var init := calls[..|calls| - 1];
      BlocksPrefix(init, mss, c);
      assert init[..c] == calls[..c];
    }
  }

  /** Where the blocks of one call stand among all blocks. */
  lemma CallBlocks(calls: seq<Call>, mss: nat, c: nat)
    requires mss > 0 && c < |calls|
    ensures var a, b := |Blocks(calls[..c], mss)|, |Blocks(calls[..c + 1], mss)|;
            a <= b <= |Blocks(calls, mss)| && Blocks(calls, mss)[a..b] == Chunks(calls[c].data, mss)
    ensures IsCall(calls[c]) ==> |Blocks(calls[..c], mss)| < |Blocks(calls[..c + 1], mss)|
  {
    hide Blocks;
    var some := calls[..c + 1];
    BlocksPrefix(calls, mss, c + 1);
    SentsAppend(calls[..c], calls[c], mss);
    assert some == calls[..c] + [calls[c]];
    var a, b := |Blocks(calls[..c], mss)|, |Blocks(some, mss)|;
    assert Blocks(calls, mss)[a..b] == Blocks(some, mss)[a..b] == Chunks(calls[c].data, mss);
  }

  lemma NoBlocks(mss: nat)
    requires mss > 0
    ensures Blocks([], mss) == []
  {
  }

  /** The message of a packet that was sent is that of one call. */
  lemma {:induction false} MessageIsCall(first: int, calls: seq<Call>, mss: nat, g: int) returns (c: nat)
    requires mss > 0 && forall call :: call in calls ==> IsCall(call)
    requires first <= g < first + |Blocks(calls, mss)|
    ensures c < |calls| && MessageOf(first, Sents(calls, mss), g) == CallMessage(first, calls, mss, c)
  {
    hide MessageOf, WordOf, TotalSent, Chunks, AllSent, Blocks;
    NoBlocks(mss);
    var init, last := calls[..|calls| - 1], calls[|calls| - 1];
    assert calls == init + [last];
    SomeBlocks(last, mss);
    TotalIsBlocks(init, mss);
    SentsAppend(init, last, mss);
    SentAppend(first, Sents(init, mss), SentBy(last, mss), g);
    if g < first + |Blocks(init, mss)| {
      c := MessageIsCall(first, init, mss, g);
      assert init[..c] == calls[..c] && init[..c + 1] == calls[..c + 1];
    } else {
      c := |calls| - 1;
      assert calls[..c + 1] == calls;
    }
  }

  /** The text of buffered packets is that of the blocks. */
  lemma {:induction false} TextIsFlat(c: Cells, first: int, blocks: seq<Bytes>, a: int, b: int)
    requires first <= a <= b <= first + |blocks|
    requires forall g :: a <= g < b ==> g in c && c[g].payload == blocks[g - first]
    ensures TextOf(c, a, b) == Flat(blocks[a - first..b - first])
    decreases b - a
  {
    hide Flat;
    var s := blocks[a - first..b - first];
    if a == b {
      FlatNone();
    } else {
      TextIsFlat(c, first, blocks, a, b - 1);
      FlatLast(s);
      assert s[..|s| - 1] == blocks[a - first..b - 1 - first];
    }
  }

  // ---- the system ----------------------------------------------------------------------

  datatype Packet = Packet(g: int, payload: Bytes, word: int)

  /** A message that readMsg returned, the length asked for, and the bytes. */
  datatype Delivery = Delivery(message: Messages.Message, len: nat, out: Bytes)

  /** `packets` are the data packets of the network with their words; `cells` is the receiver's
      buffer with words and flags; `handed` is what readMsg has returned so far. */
  datatype Datagrams = Datagrams(sys: System, calls: seq<Call>, packets: set<Packet>, cells: Cells,
                                 handed: seq<Delivery>)

  datatype DatagramStep =
    | SendMsgStep(call: Call)
    | InnerStep(step: Step)
    | ArriveStep(g: int, payload: Bytes, word: int, granted: bool)
    | ReadMsgStep(len: nat, message: Option<Messages.Message>, out: Bytes)

  function LayoutOf(first: int, sents: seq<Sent>): Layout {
    g => MessageOf(first, sents, g)
  }

  /** A packet carries the word of its block. */
  function Stamped(news: set<Protocol.Message>, first: int, sents: seq<Sent>): set<Packet> {
    set m | m in news && m.Data? :: Packet(m.g, m.payload, WordOf(first, sents, m.g))
  }

  /** The receiver lets go of everything before `start`. */
  function Forget(r: Receiver, start: int): Receiver {
    r.(start := start, buf := map g | g in r.buf && g >= start :: r.buf[g])
  }

  predicate DatagramInit(d: Datagrams, cap: int, first: int) {
    Init(d.sys, cap, first) && d == Datagrams(d.sys, [], {}, map[], [])
  }

  /** One atomic step. Packets are sent, acknowledged and reported as in a stream. */
  ghost predicate DatagramNext(d: Datagrams, d': Datagrams, cap: int, mss: nat, step: DatagramStep)
    requires mss > 0
  {
    var first, sents, r := d.sys.snd.first, Sents(d.calls, mss), d.sys.rcv;
    match step
    case SendMsgStep(call) =>
      && IsCall(call) && Next(d.sys, d'.sys, cap, mss, WriteStep(call.data))
      && d' == d.(sys := d'.sys, calls := d.calls + [call])
    case InnerStep(inner) =>
      && !inner.WriteStep? && !inner.DataStep? && !inner.ReadStep? && Next(d.sys, d'.sys, cap, mss, inner)
      && d' == d.(sys := d'.sys, packets := d.packets + Stamped(d'.sys.net - d.sys.net, first, sents))
    case ArriveStep(g, payload, word, granted) =>
      && Packet(g, payload, word) in d.packets && Next(d.sys, d'.sys, cap, mss, DataStep(g, payload, granted))
      && d' == d.(sys := d'.sys, cells := if Accepts(r, cap, g) then d.cells[g := Cell(payload, word, 1)] else d.cells)
    case ReadMsgStep(len, message, out) =>
      && r.start <= d'.sys.rcv.start && d'.sys == d.sys.(rcv := Forget(r, d'.sys.rcv.start))
      && match message
         case None =>
           && out == [] && d'.sys.rcv.start == SkipTo(d.cells, r.start, r.lastAck)
           && d' == d.(sys := d'.sys, cells := From(d.cells, d'.sys.rcv.start))
         case Some(m) =>
           && Delivers(d.cells, r.start, r.lastAck, LayoutOf(first, sents), m, len, out, d'.sys.rcv.start, d'.cells)
           && d' == d.(sys := d'.sys, cells := d'.cells, handed := d.handed + [Delivery(m, len, out)])
  }

  // ---- the invariant -------------------------------------------------------------------

  /** The blocks and words are those of the calls, on both sides and in the network. */
  ghost predicate Carried(d: Datagrams, mss: nat)
    requires mss > 0
  {
    var first, sents := d.sys.snd.first, Sents(d.calls, mss);
    && (forall call :: call in d.calls ==> IsCall(call))
    && d.sys.snd.blocks == Blocks(d.calls, mss)
    && (forall p :: p in d.packets ==> first <= p.g < first + |d.sys.snd.blocks| && p.word == WordOf(first, sents, p.g))
    && d.cells.Keys == d.sys.rcv.buf.Keys
    && (forall g :: g in d.cells ==>
          d.cells[g].payload == d.sys.rcv.buf[g] && d.cells[g].word == WordOf(first, sents, g))
  }

  /** What was handed out is the data of call c, cut off at the length asked for. */
  ghost predicate Comes(d: Datagrams, mss: nat, h: Delivery, c: nat)
    requires mss > 0
  {
    && c < |d.calls| && h.message == CallMessage(d.sys.snd.first, d.calls, mss, c)
    && h.out == d.calls[c].data[..Min(h.len, |d.calls[c].data|)]
  }

  /** No packet of a message that was handed out can be handed out again. */
  ghost predicate Spent(d: Datagrams, m: Messages.Message) {
    && m.first <= m.last
    && (forall g :: m.first <= g <= m.last ==> g < d.sys.rcv.start || (g in d.cells && !Ready(d.cells, g)))
    && (m.inOrder ==> m.last < d.sys.rcv.start)
  }

  /** Of two messages handed out, a comes first. */
  ghost predicate Apart(a: Messages.Message, b: Messages.Message) {
    && (a.last < b.first || b.last < a.first)
    && (a.inOrder ==> a.last < b.first)
  }

  ghost predicate Handed(d: Datagrams, mss: nat)
    requires mss > 0
  {
    && (forall k :: 0 <= k < |d.handed| ==> Spent(d, d.handed[k].message) && exists c :: Comes(d, mss, d.handed[k], c))
    && (forall j, k :: 0 <= j < k < |d.handed| ==> Apart(d.handed[j].message, d.handed[k].message))
  }

  /** Nothing of the message was let go or marked. */
  ghost predicate Untouched(d: Datagrams, m: Messages.Message) {
    && d.sys.rcv.start <= m.first
    && forall g :: m.first <= g <= m.last && g in d.cells ==> d.cells[g].flag == 1
  }

  ghost predicate WasHanded(d: Datagrams, m: Messages.Message) {
    exists k :: 0 <= k < |d.handed| && d.handed[k].message == m
  }

  /** Every call was handed out or is untouched. */
  ghost predicate Kept(d: Datagrams, mss: nat)
    requires mss > 0
  {
    forall c :: 0 <= c < |d.calls| ==>
      var m := CallMessage(d.sys.snd.first, d.calls, mss, c);
      WasHanded(d, m) || Untouched(d, m)
  }

  ghost predicate DatagramInv(d: Datagrams, cap: int, mss: nat)
    requires mss > 0
  {
    Inv(d.sys, cap) && d.sys.rcv.notch == 0 && Carried(d, mss) && Handed(d, mss) && Kept(d, mss)
  }

  lemma DatagramStart(d: Datagrams, cap: int, mss: nat, first: int)
    requires mss > 0 && cap >= 2 && DatagramInit(d, cap, first)
    ensures DatagramInv(d, cap, mss)
  {
    hide Inv, Streamed, WordOf, Comes, Spent, Apart;
    InitInv(d.sys, cap, first);
  }

  lemma CallMessageStays(first: int, calls: seq<Call>, calls': seq<Call>, mss: nat, c: nat)
    requires mss > 0 && c < |calls| && calls <= calls'
    ensures CallMessage(first, calls', mss, c) == CallMessage(first, calls, mss, c)
  {
    assert calls'[..c] == calls[..c] && calls'[..c + 1] == calls[..c + 1];
  }

  /** What is buffered was sent. */
  lemma BufferSent(d: Datagrams, cap: int, mss: nat)
    requires mss > 0 && Inv(d.sys, cap) && Carried(d, mss)
    ensures forall g :: g in d.cells ==>
              var k := g - d.sys.snd.first;
              0 <= k < |d.sys.snd.blocks| && d.cells[g].payload == d.sys.snd.blocks[k] && d.sys.rcv.start <= g
    ensures d.sys.rcv.start <= d.sys.rcv.lastAck
  {
  }

  /** A step that neither hands out nor lets go of nor marks anything keeps every call. */
  lemma KeptStays(d: Datagrams, d': Datagrams, cap: int, mss: nat)
    requires mss > 0 && Inv(d.sys, cap) && Carried(d, mss) && Kept(d, mss)
    requires d.calls <= d'.calls && d'.sys.snd.first == d.sys.snd.first && d'.handed == d.handed
    requires |d'.calls| <= |d.calls| + 1 && d'.sys.rcv.start == d.sys.rcv.start
    requires forall g :: g in d'.cells && !(g in d.cells && d'.cells[g] == d.cells[g]) ==> d'.cells[g].flag == 1
    requires |d'.calls| > |d.calls| ==> d'.cells == d.cells
    ensures Kept(d', mss)
  {
    hide Blocks, WordOf;
    forall c | 0 <= c < |d'.calls|
      ensures var m := CallMessage(d.sys.snd.first, d'.calls, mss, c); WasHanded(d', m) || Untouched(d', m)
    {
      if c < |d.calls| {
        CallMessageStays(d.sys.snd.first, d.calls, d'.calls, mss, c);
        var m := CallMessage(d.sys.snd.first, d.calls, mss, c);
        assert WasHanded(d, m) ==> WasHanded(d', m);
      } else {
        BufferSent(d, cap, mss);
        assert d'.calls[..c] == d.calls;
        assert Untouched(d', CallMessage(d.sys.snd.first, d'.calls, mss, c));
      }
    }
  }

  lemma ComesStays(d: Datagrams, d': Datagrams, mss: nat, h: Delivery, c: nat)
    requires mss > 0 && Comes(d, mss, h, c) && d.calls <= d'.calls && d'.sys.snd.first == d.sys.snd.first
    ensures Comes(d', mss, h, c)
  {
    CallMessageStays(d.sys.snd.first, d.calls, d'.calls, mss, c);
  }

  /** A step that keeps the calls and spends no less keeps what is said of the deliveries. */
  lemma HandedStays(d: Datagrams, d': Datagrams, mss: nat)
    requires mss > 0 && Handed(d, mss) && d'.handed == d.handed
    requires d.calls <= d'.calls && d'.sys.snd.first == d.sys.snd.first
    requires forall k :: 0 <= k < |d.handed| ==> Spent(d', d.handed[k].message)
    ensures Handed(d', mss)
  {
    forall k | 0 <= k < |d.handed| ensures exists c :: Comes(d', mss, d'.handed[k], c) {
      var c :| Comes(d, mss, d.handed[k], c);
      ComesStays(d, d', mss, d.handed[k], c);
    }
  }

  lemma SendMsgInv(d: Datagrams, d': Datagrams, cap: int, mss: nat, call: Call)
    requires mss > 0 && DatagramInv(d, cap, mss) && DatagramNext(d, d', cap, mss, SendMsgStep(call))
    ensures DatagramInv(d', cap, mss)
  {
    hide Inv, Blocks, WordOf, MessageOf, Comes, Kept;
    NextInv(d.sys, d'.sys, cap, mss, WriteStep(call.data));
    SentsAppend(d.calls, call, mss);
    TotalIsBlocks(d.calls, mss);
    BufferSent(d, cap, mss);
    forall g | d.sys.snd.first <= g < d.sys.snd.first + |d.sys.snd.blocks|
      ensures WordOf(d.sys.snd.first, Sents(d'.calls, mss), g) == WordOf(d.sys.snd.first, Sents(d.calls, mss), g)
    {
      SentAppend(d.sys.snd.first, Sents(d.calls, mss), SentBy(call, mss), g);
    }
    assert forall k :: 0 <= k < |d.handed| ==> Spent(d, d.handed[k].message) ==> Spent(d', d.handed[k].message);
    HandedStays(d, d', mss);
    KeptStays(d, d', cap, mss);
  }

  lemma InnerKeeps(t: System, t': System, cap: int, mss: nat, step: Step)
    requires mss > 0 && Next(t, t', cap, mss, step)
    requires !step.WriteStep? && !step.DataStep? && !step.ReadStep?
    ensures t'.snd.first == t.snd.first && t'.snd.blocks == t.snd.blocks
    ensures t'.rcv.buf == t.rcv.buf && t'.rcv.start == t.rcv.start && t'.rcv.notch == t.rcv.notch
  {
    if step.NakStep? {
      NakKeepsBlocks(t.snd, step.reports);
    }
  }

  lemma InnerInv(d: Datagrams, d': Datagrams, cap: int, mss: nat, step: Step)
    requires mss > 0 && DatagramInv(d, cap, mss) && DatagramNext(d, d', cap, mss, InnerStep(step))
    ensures DatagramInv(d', cap, mss)
  {
    hide Sane, Agree, Blocks, WordOf, Next, Comes, Kept;
    NextInv(d.sys, d'.sys, cap, mss, step);
    InnerKeeps(d.sys, d'.sys, cap, mss, step);
    forall p | p in d'.packets
      ensures 0 <= p.g - d.sys.snd.first < |d.sys.snd.blocks|
              && p.word == WordOf(d.sys.snd.first, Sents(d.calls, mss), p.g)
    {
      if p !in d.packets {
        var m :| m in d'.sys.net && m.Data?
                 && p == Packet(m.g, m.payload, WordOf(d.sys.snd.first, Sents(d.calls, mss), m.g));
        assert MessageOk(d'.sys, cap, m);
      }
    }
    HandedStays(d, d', mss);
    KeptStays(d, d', cap, mss);
  }

  lemma ArriveInv(d: Datagrams, d': Datagrams, cap: int, mss: nat, g: int, payload: Bytes, word: int, granted: bool)
    requires mss > 0 && DatagramInv(d, cap, mss) && DatagramNext(d, d', cap, mss, ArriveStep(g, payload, word, granted))
    ensures DatagramInv(d', cap, mss)
  {
    hide Inv, Blocks, WordOf, Comes, GapReport, Kept;
    NextInv(d.sys, d'.sys, cap, mss, DataStep(g, payload, granted));
    BufferSent(d, cap, mss);
    HandedStays(d, d', mss);
    KeptStays(d, d', cap, mss);
  }

  lemma ForgetInv(t: System, t': System, cap: int, start: int)
    requires Inv(t, cap) && t.rcv.notch == 0 && t.rcv.start <= start <= t.rcv.lastAck
    requires t' == t.(rcv := Forget(t.rcv, start))
    ensures Inv(t', cap)
  {
    forall m | m in t'.net ensures MessageOk(t', cap, m) {
      assert MessageOk(t, cap, m);
      ReadKeepsMessage(t, t', cap, m);
    }
  }

  /** What readMsg leaves behind: the same cells, some of them gone before the start, others marked. */
  lemma DeliversLeaves(c: Cells, start: int, ack: int, layout: Layout, m: Messages.Message, len: nat, out: Bytes,
                       start': int, c': Cells)
    requires Delivers(c, start, ack, layout, m, len, out, start', c')
    requires start <= ack && forall g :: g in c ==> start <= g
    ensures start <= start' <= ack && c'.Keys == From(c, start').Keys
    ensures forall g :: g in c' ==> c'[g].payload == c[g].payload && c'[g].word == c[g].word
    ensures forall g :: g in c' ==> c'[g].flag == if m.first <= g <= m.last then 2 else c[g].flag
    ensures m.last < start'
            || (m.last >= ack && !m.inOrder && forall g :: m.first <= g <= m.last && g >= start' ==> g in c')
    ensures Whole(c, m) && start <= m.first
  {
    assert Ready(c, m.first);
  }

  /** Packets that are let go or marked change nothing for what was handed out before. */
  lemma CellsLeft(d: Datagrams, d': Datagrams, mss: nat, m: Messages.Message)
    requires mss > 0 && Carried(d, mss) && Handed(d, mss)
    requires d'.sys == d.sys.(rcv := Forget(d.sys.rcv, d'.sys.rcv.start)) && d.sys.rcv.start <= d'.sys.rcv.start
    requires d'.calls == d.calls && d'.packets == d.packets && d'.cells.Keys == From(d.cells, d'.sys.rcv.start).Keys
    requires forall g :: g in d'.cells ==>
      && d'.cells[g].payload == d.cells[g].payload && d'.cells[g].word == d.cells[g].word
      && d'.cells[g].flag == if m.first <= g <= m.last then 2 else d.cells[g].flag
    ensures Carried(d', mss) && Handed(d'.(handed := d.handed), mss)
  {
    hide Blocks, WordOf, Comes;
    HandedStays(d, d'.(handed := d.handed), mss);
  }

  lemma TextOfCall(d: Datagrams, mss: nat, c: nat)
    requires mss > 0 && c < |d.calls| && d.sys.snd.blocks == Blocks(d.calls, mss)
    requires var m := CallMessage(d.sys.snd.first, d.calls, mss, c);
             forall g :: m.first <= g <= m.last ==>
               && g in d.cells && 0 <= g - d.sys.snd.first < |d.sys.snd.blocks|
               && d.cells[g].payload == d.sys.snd.blocks[g - d.sys.snd.first]
    ensures var m := CallMessage(d.sys.snd.first, d.calls, mss, c);
            TextOf(d.cells, m.first, m.last + 1) == d.calls[c].data
  {
    hide Blocks, TextOf, Flat, Chunks;
    var first, m := d.sys.snd.first, CallMessage(d.sys.snd.first, d.calls, mss, c);
    CallBlocks(d.calls, mss, c);
    TextIsFlat(d.cells, first, d.sys.snd.blocks, m.first, m.last + 1);
    ChunksKeepData(d.calls[c].data, mss);
  }

  /** What readMsg returns is the data of one call, up to the length asked for. */
  lemma DeliveryComes(d: Datagrams, cap: int, mss: nat, m: Messages.Message, len: nat, out: Bytes, start': int,
                      c': Cells)
    returns (c: nat)
    requires mss > 0 && Inv(d.sys, cap) && Carried(d, mss)
    requires var layout := LayoutOf(d.sys.snd.first, Sents(d.calls, mss));
             Delivers(d.cells, d.sys.rcv.start, d.sys.rcv.lastAck, layout, m, len, out, start', c')
    ensures Comes(d, mss, Delivery(m, len, out), c)
  {
    hide Inv, Blocks, WordOf, MessageOf, SkipTo, Taken, TextOf, Flat, Chunks;
    var first, sents := d.sys.snd.first, Sents(d.calls, mss);
    BufferSent(d, cap, mss);
    assert Ready(d.cells, m.first);
    var g :| LayoutOf(first, sents)(g) == m;
    TotalIsBlocks(d.calls, mss);
    MessageOfBounds(first, sents, g);
    assert MessageOf(first, sents, g) == m && MessageOf(first, sents, m.first) == m;
    c := MessageIsCall(first, d.calls, mss, m.first);
    assert m == CallMessage(first, d.calls, mss, c);
    TextOfCall(d, mss, c);
  }

  lemma SpentApart(d: Datagrams, a: Messages.Message, m: Messages.Message)
    requires Spent(d, a) && Whole(d.cells, m) && d.sys.rcv.start <= m.first
    ensures Apart(a, m)
  {
    var g := Max(a.first, m.first);
    if g <= m.last {
      assert Ready(d.cells, g);
    }
  }

  lemma HandedMore(d: Datagrams, d': Datagrams, mss: nat, m: Messages.Message, len: nat, out: Bytes, c: nat)
    requires mss > 0 && Handed(d, mss) && Handed(d'.(handed := d.handed), mss)
    requires d'.handed == d.handed + [Delivery(m, len, out)] && d'.calls == d.calls
             && d'.sys.snd.first == d.sys.snd.first
    requires Whole(d.cells, m) && d.sys.rcv.start <= m.first && Spent(d', m) && Comes(d, mss, Delivery(m, len, out), c)
    ensures Handed(d', mss)
  {
    var mid := d'.(handed := d.handed);
    forall k | 0 <= k < |d'.handed|
      ensures Spent(d', d'.handed[k].message) && exists b :: Comes(d', mss, d'.handed[k], b)
    {
      if k < |d.handed| {
        var b :| Comes(mid, mss, d.handed[k], b);
        assert Spent(mid, d.handed[k].message);
        ComesStays(mid, d', mss, d.handed[k], b);
      } else {
        ComesStays(d, d', mss, d'.handed[k], c);
      }
    }
    forall j, k | 0 <= j < k < |d'.handed| ensures Apart(d'.handed[j].message, d'.handed[k].message) {
      if k < |d.handed| {
        assert Apart(d.handed[j].message, d.handed[k].message);
      } else {
        SpentApart(d, d.handed[j].message, m);
      }
    }
  }

  /** The message that a call's first packet belongs to is that call's. */
  lemma {:induction false} CallIsMessage(first: int, calls: seq<Call>, mss: nat, c: nat)
    requires mss > 0 && (forall call :: call in calls ==> IsCall(call)) && c < |calls|
    ensures var m := CallMessage(first, calls, mss, c); MessageOf(first, Sents(calls, mss), m.first) == m
  {
    hide MessageOf, WordOf, TotalSent, Chunks, AllSent, Blocks;
    var init, last := calls[..|calls| - 1], calls[|calls| - 1];
    assert calls == init + [last];
    SomeBlocks(last, mss);
    TotalIsBlocks(init, mss);
    SentsAppend(init, last, mss);
    CallBlocks(calls, mss, c);
    SentAppend(first, Sents(init, mss), SentBy(last, mss), CallMessage(first, calls, mss, c).first);
    if c < |init| {
      CallIsMessage(first, init, mss, c);
      CallMessageStays(first, init, calls, mss, c);
      CallBlocks(init, mss, c);
      assert IsCall(calls[c]);
    } else {
      assert calls[..c] == init && calls[..c + 1] == calls;
    }
  }

  /** The buffered words form messages. */
  lemma CellsFormed(d: Datagrams, cap: int, mss: nat)
    requires mss > 0 && Inv(d.sys, cap) && Carried(d, mss)
    ensures Formed(d.cells, LayoutOf(d.sys.snd.first, Sents(d.calls, mss)))
  {
    hide Blocks, Inv;
    BufferSent(d, cap, mss);
    TotalIsBlocks(d.calls, mss);
    SentIsFormed(d.sys.snd.first, Sents(d.calls, mss), d.cells);
    assert Formed(d.cells, g => MessageOf(d.sys.snd.first, Sents(d.calls, mss), g));
  }

  /** Of a message that was not touched, what is acknowledged is there. */
  lemma UntouchedWaits(d: Datagrams, cap: int, mss: nat, m: Messages.Message)
    requires mss > 0 && Inv(d.sys, cap) && Carried(d, mss) && Untouched(d, m)
    ensures Waiting(d.cells, m, d.sys.rcv.lastAck)
  {
  }

  /** readMsg touches only the call that it returns. */
  lemma ReadMsgUntouched(d: Datagrams, d': Datagrams, cap: int, mss: nat, len: nat, message: Option<Messages.Message>,
                         out: Bytes, c: nat)
    requires mss > 0 && Inv(d.sys, cap) && Carried(d, mss) && c < |d.calls|
    requires DatagramNext(d, d', cap, mss, ReadMsgStep(len, message, out))
    requires var m := CallMessage(d.sys.snd.first, d.calls, mss, c); Untouched(d, m) && message != Some(m)
    ensures Untouched(d', CallMessage(d.sys.snd.first, d.calls, mss, c))
  {
    hide Inv, Blocks, WordOf, MessageOf, SkipTo, Delivers, Formed;
    var r, layout := d.sys.rcv, LayoutOf(d.sys.snd.first, Sents(d.calls, mss));
    var m := CallMessage(d.sys.snd.first, d.calls, mss, c);
    CallIsMessage(d.sys.snd.first, d.calls, mss, c);
    CellsFormed(d, cap, mss);
    BufferSent(d, cap, mss);
    UntouchedWaits(d, cap, mss, m);
    assert layout(m.first) == m;
    match message
    case None =>
      SkipKeeps(d.cells, layout, r.start, r.lastAck, m.first);
    case Some(w) =>
      DeliversKeeps(d.cells, r.start, r.lastAck, layout, w, len, out, d'.sys.rcv.start, d'.cells, m.first);
      DeliversLeaves(d.cells, r.start, r.lastAck, layout, w, len, out, d'.sys.rcv.start, d'.cells);
  }

  lemma ReadMsgKept(d: Datagrams, d': Datagrams, cap: int, mss: nat, len: nat, message: Option<Messages.Message>,
                    out: Bytes)
    requires mss > 0 && Inv(d.sys, cap) && Carried(d, mss) && Kept(d, mss)
    requires DatagramNext(d, d', cap, mss, ReadMsgStep(len, message, out))
    ensures Kept(d', mss)
  {
    hide Inv, Carried, Blocks, Untouched, Delivers;
    forall c | 0 <= c < |d'.calls|
      ensures var m := CallMessage(d.sys.snd.first, d'.calls, mss, c); WasHanded(d', m) || Untouched(d', m)
    {
      var m := CallMessage(d.sys.snd.first, d.calls, mss, c);
      if WasHanded(d, m) {
        var k :| 0 <= k < |d.handed| && d.handed[k].message == m;
        assert d'.handed[k].message == m;
      } else if message == Some(m) {
        assert d'.handed[|d.handed|].message == m;
      } else {
        ReadMsgUntouched(d, d', cap, mss, len, message, out, c);
      }
    }
  }

  lemma ReadMsgInv(d: Datagrams, d': Datagrams, cap: int, mss: nat, len: nat, message: Option<Messages.Message>,
                   out: Bytes)
    requires mss > 0 && DatagramInv(d, cap, mss) && DatagramNext(d, d', cap, mss, ReadMsgStep(len, message, out))
    ensures DatagramInv(d', cap, mss)
  {
    hide Inv, Blocks, WordOf, Comes, Delivers, LayoutOf, Kept, SkipTo;
    BufferSent(d, cap, mss);
    ReadMsgKept(d, d', cap, mss, len, message, out);
    match message
    case None =>
      SkipRange(d.cells, d.sys.rcv.start, d.sys.rcv.lastAck);
      ForgetInv(d.sys, d'.sys, cap, d'.sys.rcv.start);
      HandedStays(d, d', mss);
    case Some(m) =>
      var r, layout := d.sys.rcv, LayoutOf(d.sys.snd.first, Sents(d.calls, mss));
      DeliversLeaves(d.cells, r.start, r.lastAck, layout, m, len, out, d'.sys.rcv.start, d'.cells);
      ForgetInv(d.sys, d'.sys, cap, d'.sys.rcv.start);
      CellsLeft(d, d', mss, m);
      var c := DeliveryComes(d, cap, mss, m, len, out, d'.sys.rcv.start, d'.cells);
      HandedMore(d, d', mss, m, len, out, c);
  }

  /** Every step keeps the invariant. */
  lemma DatagramNextInv(d: Datagrams, d': Datagrams, cap: int, mss: nat, step: DatagramStep)
    requires mss > 0 && DatagramInv(d, cap, mss) && DatagramNext(d, d', cap, mss, step)
    ensures DatagramInv(d', cap, mss)
  {
    hide DatagramInv, DatagramNext;
    match step
    case SendMsgStep(call) => SendMsgInv(d, d', cap, mss, call);
    case InnerStep(inner) => InnerInv(d, d', cap, mss, inner);
    case ArriveStep(g, payload, word, granted) => ArriveInv(d, d', cap, mss, g, payload, word, granted);
    case ReadMsgStep(len, message, out) => ReadMsgInv(d, d', cap, mss, len, message, out);
  }

  // ---- runs ----------------------------------------------------------------------------

  ghost predicate IsDatagramRun(run: seq<Datagrams>, steps: seq<DatagramStep>, cap: int, mss: nat, first: int)
    requires mss > 0
  {
    && |run| == |steps| + 1 && DatagramInit(run[0], cap, first)
    && forall i :: 0 <= i < |steps| ==> DatagramNext(run[i], run[i + 1], cap, mss, steps[i])
  }

  lemma {:induction false} DatagramRunInv(run: seq<Datagrams>, steps: seq<DatagramStep>, cap: int, mss: nat, first: int,
                                          i: nat)
    requires mss > 0 && cap >= 2 && IsDatagramRun(run, steps, cap, mss, first) && i < |run|
    ensures DatagramInv(run[i], cap, mss)
  {
    hide DatagramInv, DatagramNext, DatagramInit;
    if i == 0 {
      DatagramStart(run[0], cap, mss, first);
    } else {
      DatagramRunInv(run, steps, cap, mss, first, i - 1);
      assert DatagramNext(run[i - 1], run[i - 1 + 1], cap, mss, steps[i - 1]);
      DatagramNextInv(run[i - 1], run[i], cap, mss, steps[i - 1]);
    }
  }

  lemma {:induction false} ChooseCalls(d: Datagrams, mss: nat, n: nat) returns (of: seq<nat>)
    requires mss > 0 && Handed(d, mss) && n <= |d.handed|
    ensures |of| == n && forall k :: 0 <= k < n ==> Comes(d, mss, d.handed[k], of[k])
  {
    hide Comes, Spent;
    if n == 0 {
      of := [];
    } else {
      var init := ChooseCalls(d, mss, n - 1);
      var c :| Comes(d, mss, d.handed[n - 1], c);
      of := init + [c];
    }
  }

  lemma DifferentCalls(d: Datagrams, mss: nat, a: Delivery, b: Delivery, i: nat, j: nat)
    requires mss > 0 && Comes(d, mss, a, i) && Comes(d, mss, b, j) && Apart(a.message, b.message)
    requires a.message.first <= a.message.last && b.message.first <= b.message.last
    ensures i != j && (d.calls[i].inOrder ==> i < j)
  {
    hide Blocks;
    if j < i {
      BlocksPrefix(d.calls[..i], mss, j + 1);
      assert d.calls[..i][..j + 1] == d.calls[..j + 1];
    }
  }

  /** In every state of every run: each message returned is the data of one call of sendmsg, cut off at
      the length asked for; no call is returned twice; and after a message that was to be delivered in
      order, only messages of later calls are returned. `of` tells the calls. */
  lemma MessageDelivery(run: seq<Datagrams>, steps: seq<DatagramStep>, cap: int, mss: nat, first: int, i: nat)
    returns (of: seq<nat>)
    requires mss > 0 && cap >= 2 && IsDatagramRun(run, steps, cap, mss, first) && i < |run|
    ensures var (calls, handed) := (run[i].calls, run[i].handed);
            && |of| == |handed|
            && (forall k :: 0 <= k < |handed| ==>
                  of[k] < |calls| && handed[k].out == calls[of[k]].data[..Min(handed[k].len, |calls[of[k]].data|)])
            && (forall j, k :: 0 <= j < k < |handed| ==> of[j] != of[k] && (calls[of[j]].inOrder ==> of[j] < of[k]))
  {
    DatagramRunInv(run, steps, cap, mss, first, i);
    var d := run[i];
    of := ChooseCalls(d, mss, |d.handed|);
    forall j, k | 0 <= j < k < |d.handed| ensures of[j] != of[k] && (d.calls[of[j]].inOrder ==> of[j] < of[k]) {
      DifferentCalls(d, mss, d.handed[j], d.handed[k], of[j], of[k]);
    }
  }

  /** In every state of every run: of a call that was not handed out, exactly the packets that have arrived
      are in the buffer, ready to be handed out. What has arrived is what is acknowledged, and what is
      not missing up to the largest number received. */
  lemma NothingLost(run: seq<Datagrams>, steps: seq<DatagramStep>, cap: int, mss: nat, first: int, i: nat, c: nat)
    requires mss > 0 && cap >= 2 && IsDatagramRun(run, steps, cap, mss, first) && i < |run| && c < |run[i].calls|
    requires var m := CallMessage(run[i].sys.snd.first, run[i].calls, mss, c);
             forall k :: 0 <= k < |run[i].handed| ==> run[i].handed[k].message != m
    ensures var m, r, cells := CallMessage(run[i].sys.snd.first, run[i].calls, mss, c), run[i].sys.rcv, run[i].cells;
            && r.start <= m.first <= m.last
            && forall g :: m.first <= g <= m.last ==>
                 (g in cells && cells[g].flag == 1 <==> g < r.lastAck || (g <= r.curr && g !in r.loss))
  {
    hide Blocks, WordOf, Sents;
    DatagramRunInv(run, steps, cap, mss, first, i);
    var d := run[i];
    CallBlocks(d.calls, mss, c);
    assert IsCall(d.calls[c]);
    assert Untouched(d, CallMessage(d.sys.snd.first, d.calls, mss, c));
  }

  /** What the contract of CRcvBuffer.ReadMsg asks of the buffered words holds in every run. */
  lemma ReadMsgIsAllowed(run: seq<Datagrams>, steps: seq<DatagramStep>, cap: int, mss: nat, first: int, i: nat)
    requires mss > 0 && cap >= 2 && IsDatagramRun(run, steps, cap, mss, first) && i < |run|
    ensures Formed(run[i].cells, LayoutOf(run[i].sys.snd.first, Sents(run[i].calls, mss)))
  {
    DatagramRunInv(run, steps, cap, mss, first, i);
    CellsFormed(run[i], cap, mss);
  }
}
