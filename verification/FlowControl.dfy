/** Flow control: which packets the window lets out find room at the receiver, and exactly when. */
module FlowControl {
  import opened Basics
  import opened SeqNo
  import opened LossNodes
  import opened Protocol
  import opened ProtocolProofs

  // ---- windows and room --------------------------------------------------------------

  /** Packet g, which is not before the last ACK, would find room. */
  predicate Room(r: Receiver, cap: int, g: int) {
    g - r.lastAck < Avail(r, cap)
  }

  /** The window of an ACK lets out only packets that find room exactly when it was not raised. */
  lemma AdvertisedWindowFits(r: Receiver, cap: int)
    ensures (forall g :: r.lastAck <= g < r.lastAck + AdvertisedWindow(r, cap) ==> Room(r, cap, g)) <==> !Raised(r, cap)
  {
    if Raised(r, cap) {
      assert !Room(r, cap, r.lastAck + 1);
    }
  }

  /** Of the packets that the initial window lets out, exactly the last one finds no room in an
      empty buffer. */
  lemma InitialWindowFits(cap: int, first: int, g: int)
    requires first <= g < first + cap
    ensures Accepts(InitReceiver(first), cap, g) <==> g != first + cap - 1
  {
  }

  /** A lite ACK moves the last ACK forward and leaves the right edge of the window where it was. */
  lemma LiteAckKeepsEdge(s: Sender, ack: int)
    ensures var s' := OnLiteAck(s, ack);
            && s'.lastAck == Max(s.lastAck, ack) && s'.lastAck + s'.window == s.lastAck + s.window
            && s' == s.(lastAck := s'.lastAck, window := s'.window)
  {
  }

  // ---- runs --------------------------------------------------------------------------

  lemma StepForward(t: System, t': System, cap: int, mss: nat, step: Step)
    requires mss > 0 && Next(t, t', cap, mss, step)
    ensures t.rcv.start <= t'.rcv.start
  {
  }

  lemma {:induction false} StartGrows(run: seq<System>, steps: seq<Step>, cap: int, mss: nat, first: int, i: nat,
                                      j: nat)
    requires mss > 0 && IsRun(run, steps, cap, mss, first) && i <= j < |run|
    ensures run[i].rcv.start <= run[j].rcv.start
    decreases j - i
  {
    if i < j {
      StartGrows(run, steps, cap, mss, first, i, j - 1);
      assert Next(run[j - 1], run[j - 1 + 1], cap, mss, steps[j - 1]);
      StepForward(run[j - 1], run[j], cap, mss, steps[j - 1]);
    }
  }

  /** An ACK that is sent in a run grants only packets that find room exactly when its window was
      not raised. */
  lemma AckGrantsRoom(run: seq<System>, steps: seq<Step>, cap: int, mss: nat, first: int, i: nat,
                      ack: int, window: int, raised: bool, r: Receiver)
    requires mss > 0 && IsRun(run, steps, cap, mss, first) && i < |steps| && steps[i].SendAckStep?
    requires Ack(ack, window, raised) in run[i + 1].net && Ack(ack, window, raised) !in run[i].net
    requires r == run[i + 1].rcv
    ensures (forall g :: ack <= g < ack + window ==> Room(r, cap, g)) <==> !raised
  {
    assert Next(run[i], run[i + 1], cap, mss, steps[i]);
    AdvertisedWindowFits(r, cap);
  }

  /** When a new packet is sent, one condition decides whether it finds room in every later state in
      which it is not before the last ACK. */
  lemma NewPacketFits(run: seq<System>, steps: seq<Step>, cap: int, mss: nat, first: int, i: nat)
    requires mss > 0 && cap >= 2 && IsRun(run, steps, cap, mss, first) && i < |steps| && steps[i].SendNewStep?
    ensures var g := run[i].snd.curr + 1;
            (forall j :: i < j < |run| && run[j].rcv.lastAck <= g ==> Room(run[j].rcv, cap, g)) <==>
              g < run[i].rcv.start + cap - 1
  {
    var g := run[i].snd.curr + 1;
    RunInv(run, steps, cap, mss, first, i);
    assert Next(run[i], run[i + 1], cap, mss, steps[i]);
    assert run[i + 1].rcv == run[i].rcv && run[i].rcv.lastAck <= g;
    if g < run[i].rcv.start + cap - 1 {
      forall j | i < j < |run| && run[j].rcv.lastAck <= g ensures Room(run[j].rcv, cap, g) {
        StartGrows(run, steps, cap, mss, first, i, j);
      }
    }
  }

  /** A packet sent under a window that was not raised meets that condition. */
  lemma ExactWindowMeetsIt(run: seq<System>, steps: seq<Step>, cap: int, mss: nat, first: int, i: nat)
    requires mss > 0 && cap >= 2 && IsRun(run, steps, cap, mss, first) && i < |steps| && steps[i].SendNewStep?
    requires run[i].snd.exact
    ensures run[i].snd.curr + 1 < run[i].rcv.start + cap - 1
  {
    RunInv(run, steps, cap, mss, first, i);
    assert Next(run[i], run[i + 1], cap, mss, steps[i]);
  }

  /** A packet sent under an exact window finds room whenever it is not a repetition. */
  lemma GrantedPacketFits(run: seq<System>, steps: seq<Step>, cap: int, mss: nat, first: int, i: nat, g: int, p: Bytes)
    requires mss > 0 && cap >= 2 && IsRun(run, steps, cap, mss, first) && i < |run|
    requires Data(g, p, true) in run[i].net && run[i].rcv.lastAck <= g
    ensures Room(run[i].rcv, cap, g)
    ensures Accepts(run[i].rcv, cap, g) <==> g !in run[i].rcv.buf
  {
    RunInv(run, steps, cap, mss, first, i);
    assert MessageOk(run[i], cap, Data(g, p, true));
  }

  // ---- runs in which a packet finds no room -------------------------------------------

  ghost predicate EndsIn(run: seq<System>, steps: seq<Step>, cap: int, first: int, t: System) {
    IsRun(run, steps, cap, 1, first) && run[|steps|] == t
  }

  lemma Extend(run: seq<System>, steps: seq<Step>, cap: int, first: int, t: System, t': System, step: Step)
    requires EndsIn(run, steps, cap, first, t) && Next(t, t', cap, 1, step)
    ensures EndsIn(run + [t'], steps + [step], cap, first, t')
  {
    var more, steps' := run + [t'], steps + [step];
    forall i | 0 <= i < |steps'| ensures Next(more[i], more[i + 1], cap, 1, steps'[i]) {
      if i < |steps| {
        assert Next(run[i], run[i + 1], cap, 1, steps[i]);
      }
    }
  }

  function Ones(n: nat): Bytes {
    if n == 0 then [] else [7] + Ones(n - 1)
  }

  function OneBlocks(n: nat): (blocks: seq<Bytes>)
    ensures |blocks| == n && forall k :: 0 <= k < n ==> blocks[k] == [7]
  {
    seq(n, _ => [7])
  }

  lemma {:induction false} OnesInBlocks(n: nat)
    ensures |Ones(n)| == n && Chunks(Ones(n), 1) == OneBlocks(n)
  {
    if n > 0 {
      OnesInBlocks(n - 1);
      assert Ones(n)[..1] == [7] && Ones(n)[1..] == Ones(n - 1);
      if n == 1 {
        assert Ones(1) == [7];
      }
    }
  }

  function Packets(first: int, k: nat): set<Message> {
    if k == 0 then {} else Packets(first, k - 1) + {Data(first + k - 1, [7], false)}
  }

  /** cap packets of one byte were written, and the first k of them sent under the initial window. */
  function Sent(cap: nat, first: int, k: nat): System {
    System(InitSender(first, cap).(blocks := OneBlocks(cap), curr := first - 1 + k), InitReceiver(first),
           Packets(first, k), Ones(cap))
  }

  lemma {:induction false} PacketIn(first: int, k: nat, g: int)
    requires first <= g < first + k
    ensures Data(g, [7], false) in Packets(first, k)
  {
    if g < first + k - 1 {
      PacketIn(first, k - 1, g);
    }
  }

  lemma {:induction false} SendSome(cap: nat, first: int, k: nat) returns (run: seq<System>, steps: seq<Step>)
    requires 2 <= cap && k <= cap
    ensures EndsIn(run, steps, cap, first, Sent(cap, first, k))
  {
    if k == 0 {
      var t := System(InitSender(first, cap), InitReceiver(first), {}, []);
      run, steps := [t], [];
      OnesInBlocks(cap);
      assert t.snd.blocks + OneBlocks(cap) == OneBlocks(cap) && [] + Ones(cap) == Ones(cap);
      var t' := Sent(cap, first, 0);
      Extend(run, steps, cap, first, t, t', WriteStep(Ones(cap)));
      run, steps := run + [t'], steps + [WriteStep(Ones(cap))];
    } else {
      run, steps := SendSome(cap, first, k - 1);
      var t, t' := Sent(cap, first, k - 1), Sent(cap, first, k);
      Extend(run, steps, cap, first, t, t', SendNewStep(cap));
      run, steps := run + [t'], steps + [SendNewStep(cap)];
    }
  }

  /** A run whose last step delivers a new packet that is not before the last ACK and not there yet,
      and is refused for lack of room. */
  ghost predicate Overrun(run: seq<System>, steps: seq<Step>, cap: int, first: int) {
    && IsRun(run, steps, cap, 1, first) && |steps| > 0
    && var t, step := run[|steps| - 1], steps[|steps| - 1];
       step.DataStep? && t.rcv.lastAck <= step.g && step.g !in t.rcv.buf && !Room(t.rcv, cap, step.g)
       && run[|steps|].rcv == t.rcv
  }

  /** The delivery of a packet that finds no room ends an overrun. */
  lemma Refused(run: seq<System>, steps: seq<Step>, cap: int, first: int, t: System, g: int)
    requires EndsIn(run, steps, cap, first, t) && Data(g, [7], false) in t.net && Near(g, t.rcv.lastAck)
    requires t.rcv.lastAck <= g && g !in t.rcv.buf && !Room(t.rcv, cap, g)
    ensures Overrun(run + [t], steps + [DataStep(g, [7], false)], cap, first)
  {
    Extend(run, steps, cap, first, t, t, DataStep(g, [7], false));
  }

  /** Under the initial window: the packet that comes first is the last one sent. */
  lemma InitialWindowOverruns(cap: nat, first: int) returns (run: seq<System>, steps: seq<Step>)
    requires 2 <= cap <= SEQ_TH
    ensures Overrun(run, steps, cap, first)
  {
    hide EndsIn, Overrun, Packets, Ones;
    run, steps := SendSome(cap, first, cap);
    var t, g := Sent(cap, first, cap), first + cap - 1;
    PacketIn(first, cap, g);
    Refused(run, steps, cap, first, t, g);
    run, steps := run + [t], steps + [DataStep(g, [7], false)];
  }

  function Buffered(first: int, k: nat): (buf: map<int, Bytes>)
    ensures forall g :: g in buf <==> first <= g < first + k
  {
    if k == 0 then map[] else Buffered(first, k - 1)[first + k - 1 := [7]]
  }

  /** The first k of cap - 1 packets have arrived. */
  function Arrived(cap: nat, first: int, k: nat): System
    requires cap > 0
  {
    Sent(cap, first, cap - 1).(rcv := InitReceiver(first).(curr := first - 1 + k, buf := Buffered(first, k)))
  }

  lemma {:induction false} DeliverSome(cap: nat, first: int, k: nat) returns (run: seq<System>, steps: seq<Step>)
    requires 2 <= cap <= SEQ_TH && k < cap
    ensures EndsIn(run, steps, cap, first, Arrived(cap, first, k))
  {
    if k == 0 {
      run, steps := SendSome(cap, first, cap - 1);
      assert Arrived(cap, first, 0) == Sent(cap, first, cap - 1);
    } else {
      run, steps := DeliverSome(cap, first, k - 1);
      var t, t', g := Arrived(cap, first, k - 1), Arrived(cap, first, k), first + (k - 1);
      PacketIn(first, cap - 1, g);
      assert {} + Range(g, g - 1) == {};
      Extend(run, steps, cap, first, t, t', DataStep(g, [7], false));
      run, steps := run + [t'], steps + [DataStep(g, [7], false)];
    }
  }

  /** Under a raised window: the buffer is full and acknowledged, and the next packet is let out. */
  lemma RaisedWindowOverruns(cap: nat, first: int) returns (run: seq<System>, steps: seq<Step>)
    requires 2 <= cap <= SEQ_TH
    ensures Overrun(run, steps, cap, first)
  {
    hide EndsIn, Overrun, Packets, Ones, Chunks;
    run, steps := DeliverSome(cap, first, cap - 1);
    var t, a := Arrived(cap, first, cap - 1), first + cap - 1;
    var r := AckTo(t.rcv, a);
    var t1 := t.(rcv := r, net := t.net + {Ack(a, 2, true)});
    Extend(run, steps, cap, first, t, t1, SendAckStep(a, true));
    run, steps := run + [t1], steps + [SendAckStep(a, true)];
    var t2 := t1.(snd := OnAck(t1.snd, a, 2, true));
    Extend(run, steps, cap, first, t1, t2, AckStep(a, 2, true, false));
    run, steps := run + [t2], steps + [AckStep(a, 2, true, false)];
    var t3 := t2.(snd := SendNew(t2.snd), net := t2.net + {Data(a, [7], false)});
    Extend(run, steps, cap, first, t2, t3, SendNewStep(2));
    run, steps := run + [t3], steps + [SendNewStep(2)];
    Refused(run, steps, cap, first, t3, a);
    run, steps := run + [t3], steps + [DataStep(a, [7], false)];
  }
}
