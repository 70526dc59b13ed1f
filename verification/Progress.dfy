/** Progress: from every state that a run reaches, with everything in flight lost, the endpoints can go
    on until the application has read all that was written, and exactly when. */
module Progress {
  import opened Basics
  import opened SeqNo
  import opened LossNodes
  import opened Protocol
  import opened ProtocolProofs

  // ---- continuations -------------------------------------------------------------------

  /** Steps that follow each other, none of which writes. */
  ghost predicate Path(states: seq<System>, steps: seq<Step>, cap: int, mss: nat)
    requires mss > 0
  {
    && |states| == |steps| + 1
    && forall i :: 0 <= i < |steps| ==> !steps[i].WriteStep? && Next(states[i], states[i + 1], cap, mss, steps[i])
  }

  ghost predicate Leads(t: System, t': System, cap: int, mss: nat)
    requires mss > 0
  {
    exists states, steps :: Path(states, steps, cap, mss) && states[0] == t && states[|steps|] == t'
  }

  lemma LeadsSelf(t: System, cap: int, mss: nat)
    requires mss > 0
    ensures Leads(t, t, cap, mss)
  {
    assert Path([t], [], cap, mss);
  }

  lemma PathsJoin(a: seq<System>, p: seq<Step>, b: seq<System>, q: seq<Step>, cap: int, mss: nat)
    requires mss > 0 && Path(a, p, cap, mss) && Path(b, q, cap, mss) && a[|p|] == b[0]
    ensures var states := a + b[1..];
            Path(states, p + q, cap, mss) && states[0] == a[0] && states[|p + q|] == b[|q|]
  {
    var states, steps := a + b[1..], p + q;
    forall i | 0 <= i < |steps| ensures !steps[i].WriteStep? && Next(states[i], states[i + 1], cap, mss, steps[i]) {
      if i >= |p| {
        assert steps[i] == q[i - |p|] && states[i] == b[i - |p|] && states[i + 1] == b[i - |p| + 1];
      } else {
        assert states[i] == a[i] && states[i + 1] == a[i + 1];
      }
    }
  }

  lemma LeadsOn(t: System, t': System, t'': System, cap: int, mss: nat)
    requires mss > 0 && Leads(t, t', cap, mss) && Leads(t', t'', cap, mss)
    ensures Leads(t, t'', cap, mss)
  {
    var a, p :| Path(a, p, cap, mss) && a[0] == t && a[|p|] == t';
    var b, q :| Path(b, q, cap, mss) && b[0] == t' && b[|q|] == t'';
    PathsJoin(a, p, b, q, cap, mss);
  }

  /** What holds in the states on the way. */
  ghost predicate Fine(t: System, cap: int) {
    2 <= cap < SEQ_TH && Inv(t, cap) && Streamed(t)
  }

  /** What stays the same on the way. */
  predicate SameData(t: System, t': System) {
    t'.snd.first == t.snd.first && t'.snd.blocks == t.snd.blocks && t'.written == t.written
  }

  lemma Move(t: System, t': System, cap: int, mss: nat, step: Step)
    requires mss > 0 && Fine(t, cap) && !step.WriteStep? && Next(t, t', cap, mss, step)
    ensures Leads(t, t', cap, mss) && Fine(t', cap)
  {
    hide Inv, Streamed, Next;
    NextInv(t, t', cap, mss, step);
    NextStreamed(t, t', cap, mss, step);
    assert Path([t, t'], [step], cap, mss);
  }

  // ---- single moves --------------------------------------------------------------------

  lemma UnreadThere(t: System)
    requires Streamed(t)
    ensures Readable(t.rcv)
  {
  }

  /** The receiver after all that is acknowledged was read. */
  function Emptied(r: Receiver): Receiver
    requires Readable(r)
  {
    r.(start := r.lastAck, notch := 0, buf := map g | g in r.buf && g >= r.lastAck :: r.buf[g],
       read := r.read + Unread(r))
  }

  lemma EmptiedReads(r: Receiver)
    requires Readable(r)
    ensures Reads(r, Emptied(r), |Unread(r)|, Unread(r))
  {
    var r', out := Emptied(r), Unread(r);
    assert Unread(r') == [];
    assert out + [] == out;
  }

  /** The application reads all there is. */
  lemma ReadAll(t: System, cap: int, mss: nat) returns (t': System)
    requires mss > 0 && Fine(t, cap)
    ensures Leads(t, t', cap, mss) && Fine(t', cap) && t'.snd == t.snd && t'.net == t.net && t'.written == t.written
    ensures t'.rcv == t.rcv.(start := t.rcv.lastAck, notch := 0, buf := t'.rcv.buf, read := t'.rcv.read)
    ensures forall g :: g in t'.rcv.buf <==> g in t.rcv.buf && g >= t.rcv.lastAck
  {
    hide Inv, Streamed, Reads, Unread, Readable;
    assert Readable(t.rcv) by { UnreadThere(t); }
    var out := Unread(t.rcv);
    EmptiedReads(t.rcv);
    t' := t.(rcv := Emptied(t.rcv));
    Move(t, t', cap, mss, ReadStep(|out|, out));
  }

  lemma ReceiverOrder(t: System, cap: int)
    requires Inv(t, cap)
    ensures ReceiverInv(t.rcv, cap) && SenderInv(t.snd, cap) && !t.snd.broken
    ensures t.snd.first == t.rcv.first && t.rcv.lastAckAck <= t.snd.lastDataAck
    ensures ReceivedUpTo(t.rcv, t.snd.lastAck) && t.snd.lastAck <= t.rcv.curr + 1 <= t.snd.curr + 1
    ensures t.snd.lastAck == t.snd.lastDataAck ==> t.snd.window >= 2
  {
  }

  /** A retransmission that was begun is finished. */
  lemma ClearPicked(t: System, cap: int, mss: nat) returns (t': System)
    requires mss > 0 && Fine(t, cap)
    ensures Leads(t, t', cap, mss) && Fine(t', cap) && t'.rcv == t.rcv && t'.snd == t.snd.(picked := None)
    ensures t.net <= t'.net && t'.written == t.written
  {
    hide Inv, Streamed;
    if t.snd.picked.None? {
      t' := t;
      LeadsSelf(t, cap, mss);
    } else {
      ReceiverOrder(t, cap);
      var (s, packet) := Resend(t.snd);
      t' := t.(snd := s,
               net := if packet.Some? then t.net + {Data(t.snd.picked.value, packet.value, false)} else t.net);
      Move(t, t', cap, mss, ResendStep);
    }
  }

  lemma {:induction false} LeastOf(s: set<int>) returns (m: int)
    requires s != {}
    ensures m in s && forall x :: x in s ==> m <= x
    decreases |s|
  {
    assert (forall x :: x !in s) ==> s == {};
    var x :| x in s;
    if s == {x} {
      m := x;
    } else {
      var rest := s - {x};
      assert rest != {} by { assert rest == {} ==> s == {x}; }
      m := LeastOf(rest);
      if x < m {
        m := x;
      }
      assert forall y :: y in s ==> y == x || y in rest;
    }
  }

  lemma AckNumberOf(r: Receiver) returns (a: int)
    ensures IsAckNumber(r, a)
  {
    if r.loss == {} {
      a := r.curr + 1;
    } else {
      a := LeastOf(r.loss);
    }
  }

  /** The number to acknowledge is the first one that was not received. */
  lemma AckNumberExact(r: Receiver, cap: int, a: int)
    requires ReceiverInv(r, cap)
    ensures IsAckNumber(r, a) <==> r.lastAck <= a && ReceivedUpTo(r, a) && a !in r.buf
  {
    if IsAckNumber(r, a) {
      AckNumberSound(r, cap, a);
    }
    if r.lastAck <= a && ReceivedUpTo(r, a) && a !in r.buf {
      assert a <= r.curr + 1 by {
        assert r.start <= r.curr + 1 < a ==> r.curr + 1 in r.buf;
      }
      forall x | x in r.loss ensures a <= x {
        assert x < a ==> x in r.buf;
      }
    }
  }

  // ---- both sides agree on what was received ---------------------------------------------

  /** Everything received in order is acknowledged, read and released, and nothing is half done. */
  ghost predicate Synced(t: System) {
    var k := t.rcv.lastAck;
    && t.snd.picked.None? && IsAckNumber(t.rcv, k) && t.rcv.start == k
    && t.snd.lastAck == k && t.snd.lastDataAck == k && t.rcv.lastAckAck == k
  }

  lemma HearAck(t: System, cap: int, mss: nat, a: int)
    requires mss > 0 && Fine(t, cap) && t.rcv.lastAck == a && AckMessage(t.rcv, cap) in t.net && a >= t.snd.lastAck
    ensures var m := AckMessage(t.rcv, cap);
            var t' := t.(snd := OnAck(t.snd, a, m.window, m.raised), net := t.net + {Ack2(a)});
            Leads(t, t', cap, mss) && Fine(t', cap) && SameData(t, t') && t'.snd.picked == t.snd.picked
            && t'.snd.lastAck == t'.snd.lastDataAck == a
  {
    hide Inv, Streamed;
    ReceiverOrder(t, cap);
    var m := AckMessage(t.rcv, cap);
    var t' := t.(snd := OnAck(t.snd, a, m.window, m.raised), net := t.net + {Ack2(a)});
    Move(t, t', cap, mss, AckStep(a, m.window, m.raised, true));
  }

  /** The receiver acknowledges, the sender hears it, and the receiver hears that. */
  lemma Acknowledged(t: System, cap: int, mss: nat, a: int) returns (t': System)
    requires mss > 0 && Fine(t, cap) && IsAckNumber(t.rcv, a) && a != t.rcv.lastAckAck
    requires Near(t.rcv.curr + 1, t.rcv.lastAckAck)
    ensures Leads(t, t', cap, mss) && Fine(t', cap) && SameData(t, t') && t'.snd.picked == t.snd.picked
    ensures t'.rcv == t.rcv.(lastAck := a, lastAckAck := a) && t'.snd.lastAck == t'.snd.lastDataAck == a
  {
    hide Inv, Streamed;
    ReceiverOrder(t, cap);
    AckNumberSound(t.rcv, cap, a);
    AckNumberExact(t.rcv, cap, a);
    var r := AckTo(t.rcv, a);
    var m := AckMessage(r, cap);
    var t1 := t.(rcv := r, net := t.net + {m});
    Move(t, t1, cap, mss, SendAckStep(a, true));
    HearAck(t1, cap, mss, a);
    var t2 := t1.(snd := OnAck(t1.snd, a, m.window, m.raised), net := t1.net + {Ack2(a)});
    LeadsOn(t, t1, t2, cap, mss);
    t' := t2.(rcv := OnAck2(t2.rcv, a));
    Move(t2, t', cap, mss, Ack2Step(a));
    LeadsOn(t, t2, t', cap, mss);
  }

  lemma Sync(t: System, cap: int, mss: nat, a: int) returns (t': System)
    requires mss > 0 && Fine(t, cap) && Near(t.rcv.curr + 1, t.rcv.lastAckAck) && IsAckNumber(t.rcv, a)
    ensures Leads(t, t', cap, mss) && Fine(t', cap) && SameData(t, t') && Synced(t') && t'.rcv.lastAck == a
  {
    hide Inv, Streamed;
    var t1 := ClearPicked(t, cap, mss);
    var t2 := t1;
    if a != t.rcv.lastAckAck {
      t2 := Acknowledged(t1, cap, mss, a);
      LeadsOn(t, t1, t2, cap, mss);
    } else {
      ReceiverOrder(t1, cap);
      AckNumberSound(t1.rcv, cap, a);
      AckNumberExact(t1.rcv, cap, a);
    }
    t' := ReadAll(t2, cap, mss);
    LeadsOn(t, t2, t', cap, mss);
    ReceiverOrder(t', cap);
  }

  // ---- the next packet -----------------------------------------------------------------

  /** The packet arrives and is taken. */
  lemma Arrives(t: System, cap: int, mss: nat, g: int, payload: Bytes, granted: bool) returns (t': System)
    requires mss > 0 && Fine(t, cap) && Data(g, payload, granted) in t.net
    requires g == t.rcv.lastAck == t.rcv.start && g !in t.rcv.buf && g <= t.rcv.curr + 1
    ensures Leads(t, t', cap, mss) && Fine(t', cap) && SameData(t, t')
    ensures t'.rcv.lastAck == g && g in t'.rcv.buf && t'.rcv.start == g && t'.rcv.lastAckAck == t.rcv.lastAckAck
  {
    hide Inv, Streamed;
    t' := t.(rcv := OnData(t.rcv, cap, g, payload));
    Move(t, t', cap, mss, DataStep(g, payload, granted));
  }

  /** A packet that was sent is sent again: the timer puts it on the loss list, and it is the first there. */
  lemma SentAgain(t: System, cap: int, mss: nat) returns (t': System, payload: Bytes)
    requires mss > 0 && Fine(t, cap) && Synced(t) && t.rcv.lastAck <= t.snd.curr
    ensures Leads(t, t', cap, mss) && Fine(t', cap) && SameData(t, t') && t'.rcv == t.rcv
    ensures Data(t.rcv.lastAck, payload, false) in t'.net
  {
    hide Inv, Streamed;
    var k := t.rcv.lastAck;
    ReceiverOrder(t, cap);
    var t1 := t.(snd := OnTimeout(t.snd));
    Move(t, t1, cap, mss, TimeoutStep);
    assert k in t1.snd.loss;
    var t2 := t1.(snd := t1.snd.(loss := t1.snd.loss - {k}, picked := Some(k)));
    Move(t1, t2, cap, mss, PickStep(k));
    LeadsOn(t, t1, t2, cap, mss);
    payload := t.snd.blocks[k - t.snd.first];
    t' := t2.(snd := t2.snd.(picked := None), net := t2.net + {Data(k, payload, false)});
    Move(t2, t', cap, mss, ResendStep);
    LeadsOn(t, t2, t', cap, mss);
  }

  /** When everything that was sent is acknowledged, the window lets the next packet out. */
  lemma SentNew(t: System, cap: int, mss: nat) returns (t': System, payload: Bytes, granted: bool)
    requires mss > 0 && Fine(t, cap) && Synced(t) && t.rcv.lastAck == t.snd.curr + 1 < t.snd.first + |t.snd.blocks|
    ensures Leads(t, t', cap, mss) && Fine(t', cap) && SameData(t, t') && t'.rcv == t.rcv
    ensures Data(t.rcv.lastAck, payload, granted) in t'.net
  {
    hide Inv, Streamed;
    ReceiverOrder(t, cap);
    var k := t.rcv.lastAck;
    payload, granted := t.snd.blocks[k - t.snd.first], t.snd.exact;
    t' := t.(snd := SendNew(t.snd), net := t.net + {Data(k, payload, granted)});
    Move(t, t', cap, mss, SendNewStep(t.snd.window));
  }

  /** One more packet gets through. */
  lemma OneMore(t: System, cap: int, mss: nat) returns (t': System)
    requires mss > 0 && Fine(t, cap) && Synced(t) && t.rcv.lastAck < t.snd.first + |t.snd.blocks|
    ensures Leads(t, t', cap, mss) && Fine(t', cap) && SameData(t, t') && Synced(t')
    ensures t.rcv.lastAck < t'.rcv.lastAck
  {
    hide Inv, Streamed, SenderInv, ReceivedUpTo, IsAckNumber, Leads;
    var k := t.rcv.lastAck;
    ReceiverOrder(t, cap);
    AckNumberExact(t.rcv, cap, k);
    var t1, payload, granted;
    if k <= t.snd.curr {
      t1, payload := SentAgain(t, cap, mss);
      granted := false;
    } else {
      t1, payload, granted := SentNew(t, cap, mss);
    }
    var t2 := Arrives(t1, cap, mss, k, payload, granted);
    LeadsOn(t, t1, t2, cap, mss);
    ReceiverOrder(t2, cap);
    var a := AckNumberOf(t2.rcv);
    AckNumberExact(t2.rcv, cap, a);
    t' := Sync(t2, cap, mss, a);
    LeadsOn(t, t2, t', cap, mss);
  }

  lemma AllRead(t: System)
    requires Streamed(t) && t.rcv.start == t.rcv.lastAck == t.snd.first + |t.snd.blocks|
    ensures t.rcv.read == t.written
  {
    assert t.snd.blocks[..|t.snd.blocks|] == t.snd.blocks;
    assert Unread(t.rcv) == [] && t.rcv.read + [] == t.rcv.read;
  }

  lemma {:induction false} Drain(t: System, cap: int, mss: nat) returns (t': System)
    requires mss > 0 && Fine(t, cap) && Synced(t)
    ensures Leads(t, t', cap, mss) && t'.written == t.written && t'.rcv.read == t.written
    decreases t.snd.first + |t.snd.blocks| - t.rcv.lastAck
  {
    hide Inv;
    ReceiverOrder(t, cap);
    if t.rcv.lastAck == t.snd.first + |t.snd.blocks| {
      t' := t;
      LeadsSelf(t, cap, mss);
      AllRead(t);
    } else {
      var t1 := OneMore(t, cap, mss);
      t' := Drain(t1, cap, mss);
      LeadsOn(t, t1, t', cap, mss);
    }
  }

  // ---- a receiver that has fallen silent -------------------------------------------------

  /** The receiver does not compare its numbers any more, and nothing of what it sent is on its way. */
  ghost predicate Silent(t: System, k: int) {
    && !Near(t.rcv.curr + 1, t.rcv.lastAckAck) && t.rcv.lastAckAck <= t.rcv.curr + 1 && t.rcv.lastAck == k
    && forall m :: m in t.net ==> m.Data? || m.Nak?
  }

  lemma StaysSilent(t: System, t': System, cap: int, mss: nat, step: Step, k: int)
    requires mss > 0 && Silent(t, k) && !step.WriteStep? && Next(t, t', cap, mss, step)
    ensures Silent(t', k) && SameData(t, t')
  {
    if step.NakStep? {
      NakKeepsBlocks(t.snd, step.reports);
    }
  }

  lemma {:induction false} SilentPath(states: seq<System>, steps: seq<Step>, cap: int, mss: nat, k: int, i: nat)
    requires mss > 0 && Path(states, steps, cap, mss) && i <= |steps|
    requires Silent(states[0], k) && Fine(states[0], cap)
    ensures Silent(states[i], k) && Fine(states[i], cap) && SameData(states[0], states[i])
  {
    hide Inv, Streamed, Next, Silent;
    if i > 0 {
      SilentPath(states, steps, cap, mss, k, i - 1);
      var t, t' := states[i - 1], states[i];
      assert Next(states[i - 1], states[i - 1 + 1], cap, mss, steps[i - 1]);
      StaysSilent(t, t', cap, mss, steps[i - 1], k);
      Move(t, t', cap, mss, steps[i - 1]);
    }
  }

  lemma {:induction false} FlatShorter(blocks: seq<Bytes>, n: nat)
    requires n < |blocks| && forall k :: 0 <= k < |blocks| ==> |blocks[k]| > 0
    ensures |Flat(blocks[..n])| < |Flat(blocks)|
    decreases |blocks|
  {
    var init := blocks[..|blocks| - 1];
    FlatLast(blocks);
    if n == |init| {
      assert blocks[..n] == init;
    } else {
      FlatShorter(init, n);
      assert init[..n] == blocks[..n];
    }
  }

  /** What is not acknowledged is not read. */
  lemma ShortOf(t: System, cap: int)
    requires Fine(t, cap) && t.rcv.lastAck < t.snd.first + |t.snd.blocks|
    ensures |t.rcv.read| < |t.written|
  {
    ReceiverOrder(t, cap);
    var n := t.rcv.lastAck - t.snd.first;
    FlatShorter(t.snd.blocks, n);
    assert |t.rcv.read| <= |t.rcv.read + Unread(t.rcv)|;
  }

  lemma SilentFails(t: System, t': System, cap: int, mss: nat)
    requires mss > 0 && Fine(t, cap) && Silent(t, t.rcv.lastAck) && t.rcv.lastAck < t.snd.first + |t.snd.blocks|
    requires Leads(t, t', cap, mss)
    ensures t'.rcv.read != t.written
  {
    hide Inv, Streamed;
    var states, steps :| Path(states, steps, cap, mss) && states[0] == t && states[|steps|] == t';
    SilentPath(states, steps, cap, mss, t.rcv.lastAck, |steps|);
    ShortOf(t', cap);
  }

  // ---- progress ------------------------------------------------------------------------

  ghost predicate CanFinish(t: System, cap: int, mss: nat)
    requires mss > 0
  {
    exists t' :: Leads(t, t', cap, mss) && t'.rcv.read == t.written
  }

  /** The receiver is close enough to the last ACK that was acknowledged to compare numbers with it. */
  predicate Comparable(r: Receiver) {
    r.curr + 1 - r.lastAckAck < 0x3FFF_FFFF
  }

  lemma SaneLost(t: System, cap: int)
    requires Sane(t, cap)
    ensures Sane(t.(net := {}), cap)
  {
  }

  lemma Lost(t: System, cap: int)
    requires Fine(t, cap)
    ensures Fine(t.(net := {}), cap)
  {
    hide Sane, Flat, Joined;
    var t' := t.(net := {});
    assert Sane(t', cap) by { SaneLost(t, cap); }
  }

  lemma Finishes(t: System, cap: int, mss: nat)
    requires mss > 0 && Fine(t, cap) && Comparable(t.rcv)
    ensures CanFinish(t, cap, mss)
  {
    hide Inv, Streamed, Leads;
    ReceiverOrder(t, cap);
    var a := AckNumberOf(t.rcv);
    var t1 := Sync(t, cap, mss, a);
    var t2 := Drain(t1, cap, mss);
    LeadsOn(t, t1, t2, cap, mss);
  }

  /** In every state of every run, even if everything in flight is lost: the rest of what was written
      can be read exactly if it is all acknowledged, or the receiver has not run further than the
      comparison threshold ahead of the last ACK that was acknowledged. */
  lemma ProgressExact(run: seq<System>, steps: seq<Step>, cap: int, mss: nat, first: int, i: nat)
    requires mss > 0 && 2 <= cap < 0x3FFF_FFFF && IsRun(run, steps, cap, mss, first) && i < |run|
    ensures var t := run[i].(net := {});
            CanFinish(t, cap, mss) <==> Comparable(t.rcv) || t.rcv.lastAck == t.snd.first + |t.snd.blocks|
  {
    hide Inv, Streamed, IsRun, Leads;
    RunInv(run, steps, cap, mss, first, i);
    RunStreamed(run, steps, cap, mss, first, i);
    Lost(run[i], cap);
    var t := run[i].(net := {});
    ReceiverOrder(t, cap);
    if Comparable(t.rcv) {
      Finishes(t, cap, mss);
    } else if t.rcv.lastAck == t.snd.first + |t.snd.blocks| {
      var t' := ReadAll(t, cap, mss);
      AllRead(t');
    } else {
      forall t' | Leads(t, t', cap, mss) ensures t'.rcv.read != t.written {
        SilentFails(t, t', cap, mss);
      }
    }
  }

  // ---- runs that finish ------------------------------------------------------------------

  function Also(t: System, more: set<Message>): System {
    t.(net := t.net + more)
  }

  /** More messages on their way forbid nothing. */
  lemma NextAlso(t: System, t': System, cap: int, mss: nat, step: Step, more: set<Message>)
    requires mss > 0 && Next(t, t', cap, mss, step)
    ensures Next(Also(t, more), Also(t', more), cap, mss, step)
  {
    forall n: set<Message>, m: Message ensures (n + {m}) + more == (n + more) + {m} {
    }
  }

  lemma PathAlso(states: seq<System>, steps: seq<Step>, cap: int, mss: nat, more: set<Message>)
    returns (states': seq<System>)
    requires mss > 0 && Path(states, steps, cap, mss)
    ensures Path(states', steps, cap, mss)
    ensures forall k :: 0 <= k < |states| ==> states'[k] == Also(states[k], more)
  {
    states' := seq(|states|, k requires 0 <= k < |states| => Also(states[k], more));
    forall k | 0 <= k < |steps| ensures Next(states'[k], states'[k + 1], cap, mss, steps[k]) {
      NextAlso(states[k], states[k + 1], cap, mss, steps[k], more);
    }
  }

  lemma {:induction false} Unwritten(states: seq<System>, steps: seq<Step>, cap: int, mss: nat, i: nat)
    requires mss > 0 && Path(states, steps, cap, mss) && i <= |steps|
    ensures states[i].written == states[0].written
  {
    if i > 0 {
      Unwritten(states, steps, cap, mss, i - 1);
      assert Next(states[i - 1], states[i - 1 + 1], cap, mss, steps[i - 1]);
    }
  }

  /** Every run whose receiver can compare its numbers can be continued without writing to a run in
      which everything is read. */
  lemma Progress(run: seq<System>, steps: seq<Step>, cap: int, mss: nat, first: int)
    returns (run': seq<System>, steps': seq<Step>)
    requires mss > 0 && 2 <= cap < 0x3FFF_FFFF && IsRun(run, steps, cap, mss, first)
    requires Comparable(run[|steps|].rcv)
    ensures IsRun(run', steps', cap, mss, first) && run <= run' && steps <= steps'
    ensures run'[|steps'|].rcv.read == run'[|steps'|].written == run[|steps|].written
  {
    hide Inv, Streamed, Next;
    var now := run[|steps|];
    var t := now.(net := {});
    ProgressExact(run, steps, cap, mss, first, |steps|);
    var t' :| Leads(t, t', cap, mss) && t'.rcv.read == t.written;
    var states, more :| Path(states, more, cap, mss) && states[0] == t && states[|more|] == t';
    Unwritten(states, more, cap, mss, |more|);
    states := PathAlso(states, more, cap, mss, now.net);
    run', steps' := run + states[1..], steps + more;
    forall i | 0 <= i < |steps'| ensures Next(run'[i], run'[i + 1], cap, mss, steps'[i]) {
      if i < |steps| {
        assert run'[i] == run[i] && run'[i + 1] == run[i + 1];
      } else {
        assert run'[i] == states[i - |steps|] && run'[i + 1] == states[i - |steps| + 1]
               && steps'[i] == more[i - |steps|];
      }
    }
  }
}
