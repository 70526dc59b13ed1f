/** One direction of a stream connection as a state machine over unbounded sequence numbers.

    The two endpoints are values; their step functions say what the methods of the sender
    and receiver classes do. The network is a set of messages that only grows: a message
    may be delivered late, in any order, several times or never. */
module Protocol {
  import opened Basics
  import opened SeqNo
  import opened LossNodes
  import opened NakCodec

  function AtLeast(s: set<int>, lo: int): set<int> {
    set x | x in s && x >= lo
  }

  function Flat(blocks: seq<Bytes>): Bytes {
    if blocks == [] then [] else Flat(blocks[..|blocks| - 1]) + blocks[|blocks| - 1]
  }

  /** A user buffer cut into packets of at most mss bytes. */
  function Chunks(data: Bytes, mss: nat): (blocks: seq<Bytes>)
    requires mss > 0
    ensures forall k :: 0 <= k < |blocks| ==> 0 < |blocks[k]| <= mss
  {
    if |data| == 0 then []
    else if |data| <= mss then [data]
    else [data[..mss]] + Chunks(data[mss..], mss)
  }

  // ---- sender ------------------------------------------------------------------------

  /** blocks[k] has the sequence number first + k. `picked` is a number taken from the loss
      list by a packData call that has not yet got the ACK lock. `exact` records whether the
      flow window came from an ACK whose window was not raised to the minimum of 2. */
  datatype Sender = Sender(
    first: int, blocks: seq<Bytes>,
    lastAck: int, lastDataAck: int, curr: int,
    loss: set<int>, window: int, picked: Option<int>,
    broken: bool, exact: bool)

  function InitSender(first: int, window: int): Sender {
    Sender(first, [], first, first, first - 1, {}, window, None, false, false)
  }

  predicate SenderInv(s: Sender, cap: int) {
    && s.first <= s.lastDataAck <= s.lastAck <= s.curr + 1 <= s.first + |s.blocks|
    && (forall x :: x in s.loss ==> s.lastDataAck <= x <= s.curr)
    && (s.picked.Some? ==> Max(s.first, s.curr - cap + 1) <= s.picked.value <= s.curr)
    && s.curr < s.lastDataAck + cap
    && s.lastAck + s.window <= s.lastDataAck + cap
    && (forall k :: 0 <= k < |s.blocks| ==> |s.blocks[k]| > 0)
  }

  function Write(s: Sender, data: Bytes, mss: nat): Sender
    requires mss > 0
  {
    s.(blocks := s.blocks + Chunks(data, mss))
  }

  function OnLiteAck(s: Sender, ack: int): Sender {
    if ack >= s.lastAck then s.(window := s.window - (ack - s.lastAck), lastAck := ack) else s
  }

  function OnAck(s: Sender, ack: int, window: int, raised: bool): Sender {
    if ack > s.curr + 1 then s.(broken := true)
    else
      var s1 := if ack >= s.lastAck then s.(window := window, lastAck := ack, exact := !raised) else s;
      if ack <= s.lastDataAck then s1
      else s1.(lastDataAck := ack, loss := AtLeast(s.loss, ack))
  }

  /** The loss set after one entry of a loss report; None if the entry is refused. */
  function OnReport(s: Sender, loss: set<int>, r: Report): Option<set<int>> {
    match r
    case Span(a, b) =>
      if a > b || b > s.curr then None
      else if a >= s.lastAck then Some(loss + Range(a, b))
      else if b >= s.lastAck then Some(loss + Range(s.lastAck, b))
      else Some(loss)
    case One(n) =>
      if n < s.lastAck then Some(loss)
      else if n > s.curr then None
      else Some(loss + {n})
  }

  /** Entries are applied until one is refused, which breaks the connection. */
  function OnNak(s: Sender, rs: seq<Report>): Sender {
    if rs == [] then s
    else
      var s1 := OnNak(s, rs[..|rs| - 1]);
      if s1.broken then s1
      else match OnReport(s, s1.loss, rs[|rs| - 1])
        case None => s1.(broken := true)
        case Some(loss) => s1.(loss := loss)
  }

  function OnTimeout(s: Sender): Sender {
    if |s.blocks| > s.lastDataAck - s.first && s.curr + 1 != s.lastAck
    then s.(loss := s.loss + Range(s.lastAck, s.curr)) else s
  }

  predicate Picks(s: Sender, s': Sender, x: int) {
    && s.picked.None? && x in s.loss && (forall y :: y in s.loss ==> x <= y)
    && s' == s.(loss := s.loss - {x}, picked := Some(x))
  }

  /** The second half of a retransmission: the number is dropped if it was acknowledged meanwhile. */
  function Resend(s: Sender): (Sender, Option<Bytes>)
    requires s.picked.Some? && s.picked.value < s.first + |s.blocks| && s.first <= s.lastDataAck
  {
    (s.(picked := None),
     if s.picked.value < s.lastDataAck then None else Some(s.blocks[s.picked.value - s.first]))
  }

  predicate MaySendNew(s: Sender, cwnd: int) {
    && s.picked.None?
    && Min(s.window, cwnd) >= s.curr + 2 - s.lastAck
    && s.first <= s.curr + 1 < s.first + |s.blocks|
  }

  function SendNew(s: Sender): Sender {
    s.(curr := s.curr + 1)
  }

  // ---- receiver ----------------------------------------------------------------------

  /** `start` and `notch` give the next byte to read; `read` is what the application has read. */
  datatype Receiver = Receiver(
    first: int, lastAck: int, lastAckAck: int, curr: int,
    loss: set<int>, buf: map<int, Bytes>, start: int, notch: nat, read: Bytes)

  function InitReceiver(first: int): Receiver {
    Receiver(first, first, first, first - 1, {}, map[], first, 0, [])
  }

  function Avail(r: Receiver, cap: int): int {
    cap - (r.lastAck - r.start) - 1
  }

  /** A partly read packet is the first one, and some of it is left. */
  predicate NotchOk(buf: map<int, Bytes>, start: int, lastAck: int, notch: int) {
    notch == 0 || (start < lastAck && start in buf && 0 < notch < |buf[start]|)
  }

  predicate ReceiverInv(r: Receiver, cap: int) {
    && r.first <= r.start <= r.lastAck <= r.curr + 1
    && r.curr < r.start + cap - 1
    && (forall g :: g in r.buf ==> r.start <= g <= r.curr)
    && (forall g :: r.start <= g < r.lastAck ==> g in r.buf)
    && (forall g :: r.lastAck <= g <= r.curr ==> (g in r.buf <==> g !in r.loss))
    && (forall x :: x in r.loss ==> r.lastAck <= x <= r.curr)
    && NotchOk(r.buf, r.start, r.lastAck, r.notch)
    && r.first <= r.lastAckAck <= r.lastAck
  }

  /** Packets with numbers a <= g < b, joined. */
  function Joined(buf: map<int, Bytes>, a: int, b: int): Bytes
    requires forall g :: a <= g < b ==> g in buf
    decreases b - a
  {
    if a >= b then [] else Joined(buf, a, b - 1) + buf[b - 1]
  }

  predicate Readable(r: Receiver) {
    && r.start <= r.lastAck && (forall g :: r.start <= g < r.lastAck ==> g in r.buf)
    && r.notch <= |Joined(r.buf, r.start, r.lastAck)|
  }

  /** Acknowledged bytes that the application has not read. */
  function Unread(r: Receiver): Bytes
    requires Readable(r)
  {
    Joined(r.buf, r.start, r.lastAck)[r.notch..]
  }

  predicate Accepts(r: Receiver, cap: int, g: int) {
    r.lastAck <= g && g - r.lastAck < Avail(r, cap) && g !in r.buf
  }

  function OnData(r: Receiver, cap: int, g: int, payload: Bytes): Receiver {
    if !Accepts(r, cap, g) then r
    else
      r.(buf := r.buf[g := payload],
         loss := if g > r.curr then r.loss + Range(r.curr + 1, g - 1) else r.loss - {g},
         curr := Max(r.curr, g))
  }

  /** The immediate loss report for a packet that leaves a gap. */
  function GapReport(r: Receiver, g: int): seq<Report> {
    if g <= r.curr + 1 then []
    else if r.curr + 1 == g - 1 then [One(g - 1)]
    else [Span(r.curr + 1, g - 1)]
  }

  predicate IsAckNumber(r: Receiver, ack: int) {
    if r.loss == {} then ack == r.curr + 1
    else ack in r.loss && forall x :: x in r.loss ==> ack <= x
  }

  function AckTo(r: Receiver, ack: int): Receiver {
    if ack > r.lastAck then r.(lastAck := ack) else r
  }

  function AdvertisedWindow(r: Receiver, cap: int): int {
    Max(Avail(r, cap), 2)
  }

  /** The room is less than the least window that an ACK may carry. */
  predicate Raised(r: Receiver, cap: int) {
    Avail(r, cap) < 2
  }

  /** An ACK goes out for a new number, or for the old one when the interval for repeating it is over,
      unless that number was acknowledged in turn. */
  predicate SendsAck(r: Receiver, ack: int, due: bool) {
    (ack > r.lastAck || due) && AckTo(r, ack).lastAck > r.lastAckAck
  }

  function OnAck2(r: Receiver, ack: int): Receiver {
    if ack > r.lastAckAck then r.(lastAckAck := ack) else r
  }

  /** Reading up to len bytes hands out the oldest unread bytes and keeps the rest. */
  predicate Reads(r: Receiver, r': Receiver, len: nat, out: Bytes) {
    && Readable(r) && Readable(r')
    && r' == r.(buf := r'.buf, start := r'.start, notch := r'.notch, read := r.read + out)
    && r.start <= r'.start
    && r'.buf == (map g | g in r.buf && g >= r'.start :: r.buf[g])
    && NotchOk(r'.buf, r'.start, r'.lastAck, r'.notch)
    && out + Unread(r') == Unread(r)
    && |out| == Min(len, |Unread(r)|)
  }

  // ---- whole system --------------------------------------------------------------------

  /** `granted` marks a new packet that was sent under an exact window. */
  datatype Message =
    | Data(g: int, payload: Bytes, granted: bool)
    | LiteAck(ack: int)
    | Ack(ack: int, window: int, raised: bool)
    | Ack2(ack: int)
    | Nak(reports: seq<Report>)

  /** The ACK that a receiver sends. */
  function AckMessage(r: Receiver, cap: int): Message {
    Ack(r.lastAck, AdvertisedWindow(r, cap), Raised(r, cap))
  }

  /** `written` is everything the sending application has passed in. */
  datatype System = System(snd: Sender, rcv: Receiver, net: set<Message>, written: Bytes)

  datatype Step =
    | WriteStep(data: Bytes)
    | PickStep(x: int)
    | ResendStep
    | SendNewStep(cwnd: int)
    | TimeoutStep
    | DataStep(g: int, payload: Bytes, granted: bool)
    | LiteAckStep(ack: int)
    | AckStep(ack: int, window: int, raised: bool, reply: bool)
    | NakStep(reports: seq<Report>)
    | SendAckStep(ack: int, due: bool)
    | SendLiteAckStep(ack: int)
    | SendNakStep(reports: seq<Report>)
    | Ack2Step(ack: int)
    | ReadStep(len: nat, out: Bytes)

  predicate Init(t: System, cap: int, first: int) {
    t == System(InitSender(first, cap), InitReceiver(first), {}, [])
  }

  /** A report is fresh when every number in it is near the numbers it is compared with. */
  predicate FreshReport(s: Sender, r: Report) {
    match r
    case Span(a, b) => Near(a, b) && Near(b, s.curr) && Near(a, s.lastAck) && Near(b, s.lastAck)
    case One(n) => Near(n, s.lastAck) && Near(n, s.curr)
  }

  predicate FreshAck(s: Sender, ack: int) {
    Near(ack, s.curr + 1) && Near(ack, s.lastAck) && Near(ack, s.lastDataAck)
  }

  /** One atomic step; delivered messages are not staler than the comparison threshold. */
  ghost predicate Next(t: System, t': System, cap: int, mss: nat, step: Step)
    requires mss > 0
  {
    match step
    case WriteStep(data) =>
      t' == t.(snd := Write(t.snd, data, mss), written := t.written + data)
    case PickStep(x) =>
      Picks(t.snd, t'.snd, x) && t' == t.(snd := t'.snd)
    case ResendStep =>
      && t.snd.picked.Some? && t.snd.picked.value < t.snd.first + |t.snd.blocks| && t.snd.first <= t.snd.lastDataAck
      && var (s, packet) := Resend(t.snd);
         t' == t.(snd := s, net := match packet
                                   case None => t.net
                                   case Some(p) => t.net + {Data(t.snd.picked.value, p, false)})
    case SendNewStep(cwnd) =>
      && MaySendNew(t.snd, cwnd)
      && t' == t.(snd := SendNew(t.snd),
                  net := t.net + {Data(t.snd.curr + 1, t.snd.blocks[t.snd.curr + 1 - t.snd.first], t.snd.exact)})
    case TimeoutStep =>
      t' == t.(snd := OnTimeout(t.snd))
    case DataStep(g, payload, granted) =>
      && Data(g, payload, granted) in t.net && Near(g, t.rcv.lastAck)
      && t' == t.(rcv := OnData(t.rcv, cap, g, payload),
                  net := if Accepts(t.rcv, cap, g) && GapReport(t.rcv, g) != []
                         then t.net + {Nak(GapReport(t.rcv, g))} else t.net)
    case LiteAckStep(ack) =>
      && LiteAck(ack) in t.net && Near(ack, t.snd.lastAck)
      && t' == t.(snd := OnLiteAck(t.snd, ack))
    case AckStep(ack, window, raised, reply) =>
      && Ack(ack, window, raised) in t.net && FreshAck(t.snd, ack)
      && t' == t.(snd := OnAck(t.snd, ack, window, raised), net := if reply then t.net + {Ack2(ack)} else t.net)
    case NakStep(reports) =>
      && Nak(reports) in t.net && (forall k :: 0 <= k < |reports| ==> FreshReport(t.snd, reports[k]))
      && t' == t.(snd := OnNak(t.snd, reports))
    case SendAckStep(ack, due) =>
      && IsAckNumber(t.rcv, ack) && ack != t.rcv.lastAckAck && Near(t.rcv.curr + 1, t.rcv.lastAckAck)
      && var r := AckTo(t.rcv, ack);
         t' == t.(rcv := r, net := if SendsAck(t.rcv, ack, due) then t.net + {AckMessage(r, cap)} else t.net)
    case SendLiteAckStep(ack) =>
      && IsAckNumber(t.rcv, ack) && ack != t.rcv.lastAckAck && Near(t.rcv.curr + 1, t.rcv.lastAckAck)
      && t' == t.(net := t.net + {LiteAck(ack)})
    case SendNakStep(reports) =>
      && reports != [] && WellFormed(reports) && IsPrefixOf(Reported(reports), t.rcv.loss)
      && t' == t.(net := t.net + {Nak(reports)})
    case Ack2Step(ack) =>
      && Ack2(ack) in t.net && Near(ack, t.rcv.lastAckAck)
      && t' == t.(rcv := OnAck2(t.rcv, ack))
    case ReadStep(len, out) =>
      Reads(t.rcv, t'.rcv, len, out) && t' == t.(rcv := t'.rcv)
  }
}
