/** Message mode: what the receiver's buffer holds, seen by sequence number, and the search for a
    message that can be handed out (scanMsg). */
module Messages {
  import opened Basics

  // ---- the message word of a packet header -------------------------------------------

  const FIRST: int := 0x8000_0000
  const LAST: int := 0x4000_0000
  const ORDER: int := 0x2000_0000

  /** The word addBuffer writes: two boundary bits, the order bit and the message number. */
  function MessageWord(msgNo: nat, first: bool, last: bool, inOrder: bool): int {
    msgNo + (if inOrder then ORDER else 0) + (if first then FIRST else 0) + (if last then LAST else 0)
  }

  function Boundary(word: int): int {
    word / LAST
  }

  function OrderFlag(word: int): bool {
    word / ORDER % 2 == 1
  }

  function MessageNumber(word: int): int {
    word % ORDER
  }

  /** The word on the wire: first packet, last packet and order in bits 31, 30 and 29, the number in the
      others; and what the receiver reads from it. */
  lemma WordBack(msgNo: nat, first: bool, last: bool, inOrder: bool)
    requires msgNo < 0x2000_0000
    ensures var w := MessageWord(msgNo, first, last, inOrder);
            && 0 <= w < 0x1_0000_0000
            && w / 0x8000_0000 == (if first then 1 else 0) && w / 0x4000_0000 % 2 == (if last then 1 else 0)
            && w / 0x2000_0000 % 2 == (if inOrder then 1 else 0) && w % 0x2000_0000 == msgNo
            && MessageNumber(w) == msgNo && OrderFlag(w) == inOrder
            && Boundary(w) == (if first then 2 else 0) + if last then 1 else 0
  {
  }

  // ---- the buffer by sequence number -------------------------------------------------

  /** A unit in the buffer: flag 1 is fresh, 2 handed out before its turn, 3 dropped. */
  datatype Cell = Cell(payload: Bytes, word: int, flag: int)

  type Cells = map<int, Cell>

  predicate Ready(c: Cells, g: int) {
    g in c && c[g].flag == 1
  }

  function BoundaryAt(c: Cells, g: int): int
    requires g in c
  {
    Boundary(c[g].word)
  }

  // ---- the search, step by step ------------------------------------------------------

  /** No hole from i up to the end of the message or of what is acknowledged. */
  predicate Good(c: Cells, i: int, ack: int)
    decreases ack - i
  {
    i >= ack || (Ready(c, i) && (BoundaryAt(c, i) == 1 || BoundaryAt(c, i) == 3 || Good(c, i + 1, ack)))
  }

  predicate GoodStart(c: Cells, s: int, ack: int) {
    Ready(c, s) && BoundaryAt(c, s) > 1 && Good(c, s, ack)
  }

  /** Where the bad packets at the beginning end. */
  function SkipTo(c: Cells, s: int, ack: int): (r: int)
    ensures s <= r && (s <= ack ==> r <= ack)
    decreases ack - s
  {
    if s >= ack || GoodStart(c, s, ack) then s else SkipTo(c, s + 1, ack)
  }

  datatype Hit = Hit(found: bool, p: Option<int>, q: int, passack: bool)

  /** What the packet at q makes of the message that began at p. */
  function StartAt(c: Cells, q: int, p: Option<int>): Option<int> {
    if !Ready(c, q) then None else if BoundaryAt(c, q) == 3 || BoundaryAt(c, q) == 2 then Some(q) else p
  }

  predicate EndsAt(c: Cells, q: int, p: Option<int>) {
    Ready(c, q) && (BoundaryAt(c, q) == 3 || (BoundaryAt(c, q) == 1 && p.Some?))
  }

  /** The search loop from q on; passack tells that q is past the acknowledged packets. */
  function Search(c: Cells, q: int, p: Option<int>, passack: bool, ack: int, limit: int): (h: Hit)
    ensures h.found ==> q <= h.q <= limit && Ready(c, h.q)
    ensures !h.found ==> h.q == if q > limit then q else limit + 1
    decreases limit - q
  {
    if q > limit then Hit(false, p, q, passack)
    else if EndsAt(c, q, p) && (!passack || !OrderFlag(c[q].word)) then Hit(true, StartAt(c, q, p), q, passack)
    else Search(c, q + 1, StartAt(c, q, p), passack || q + 1 == ack, ack, limit)
  }

  // ---- messages ----------------------------------------------------------------------

  /** The packets first to last make one message. */
  datatype Message = Message(first: int, last: int, inOrder: bool)

  type Layout = int -> Message

  /** Every number belongs to one message, as when addBuffer cuts messages into packets. */
  ghost predicate Cut(layout: Layout) {
    forall g :: layout(g).first <= g <= layout(g).last &&
                forall h :: layout(g).first <= h <= layout(g).last ==> layout(h) == layout(g)
  }

  /** The packets carry the boundary and order bits of their messages. */
  ghost predicate Formed(c: Cells, layout: Layout) {
    Cut(layout) && forall g :: g in c ==>
      var m := layout(g);
      Boundary(c[g].word) == (if g == m.first then 2 else 0) + (if g == m.last then 1 else 0)
      && OrderFlag(c[g].word) == m.inOrder
  }

  predicate Whole(c: Cells, m: Message) {
    m.first <= m.last && forall g :: m.first <= g <= m.last ==> Ready(c, g)
  }

  /** A message that may be handed out: there without a hole, and acknowledged or out of order. */
  predicate Deliverable(c: Cells, m: Message, ack: int) {
    Whole(c, m) && (m.last < ack || !m.inOrder)
  }

  /** In other words: every packet is there and was not handed out or dropped, and the message may be
      read out of order or is acknowledged. */
  lemma DeliverableExact(c: Cells, m: Message, ack: int)
    requires m.first <= m.last
    ensures Deliverable(c, m, ack) <==>
              (forall g :: m.first <= g <= m.last ==> g in c && c[g].flag == 1) && (!m.inOrder || m.last < ack)
  {
    assert forall g :: Ready(c, g) <==> g in c && c[g].flag == 1;
  }

  /** p is where the message of q - 1 began, if all of it up to q - 1 is there. */
  ghost predicate Tracked(c: Cells, layout: Layout, s: int, q: int, p: Option<int>) {
    match p
    case Some(b) => s <= b < q && layout(q - 1).first == b && forall g :: b <= g < q ==> Ready(c, g)
    case None => q == s || layout(q - 1).first < s || exists g :: layout(q - 1).first <= g < q && !Ready(c, g)
  }

  ghost predicate NonePassed(c: Cells, layout: Layout, s: int, q: int, ack: int) {
    forall g :: s <= layout(g).first && layout(g).last < q ==> !Deliverable(c, layout(g), ack)
  }

  lemma TrackStep(c: Cells, layout: Layout, s: int, q: int, p: Option<int>)
    requires Formed(c, layout) && s <= q && Tracked(c, layout, s, q, p)
    ensures Tracked(c, layout, s, q + 1, StartAt(c, q, p))
    ensures EndsAt(c, q, p) <==> q == layout(q).last && s <= layout(q).first && Whole(c, layout(q))
  {
    var m := layout(q);
    assert m.first <= q <= m.last;
    if Ready(c, q) && q != m.first {
      assert layout(q - 1) == m;
    }
  }

  lemma Ended(c: Cells, layout: Layout, s: int, q: int, p: Option<int>)
    requires Formed(c, layout) && s <= q && Tracked(c, layout, s, q, p) && EndsAt(c, q, p)
    ensures var m := layout(q);
            m.last == q && s <= m.first && Whole(c, m) && StartAt(c, q, p) == Some(m.first)
            && OrderFlag(c[q].word) == m.inOrder
  {
    TrackStep(c, layout, s, q, p);
    assert Tracked(c, layout, s, q + 1, StartAt(c, q, p));
  }

  /** A message that ends at q and is passed by is not deliverable. */
  lemma PassOne(c: Cells, layout: Layout, s: int, q: int, p: Option<int>, ack: int)
    requires Formed(c, layout) && s <= q && Tracked(c, layout, s, q, p) && NonePassed(c, layout, s, q, ack)
    requires !(EndsAt(c, q, p) && (q < ack || !OrderFlag(c[q].word)))
    ensures NonePassed(c, layout, s, q + 1, ack)
  {
    TrackStep(c, layout, s, q, p);
    forall g | s <= layout(g).first && layout(g).last < q + 1 ensures !Deliverable(c, layout(g), ack) {
      if layout(g).last == q {
        assert layout(q) == layout(g);
        if Whole(c, layout(q)) {
          Ended(c, layout, s, q, p);
        }
      }
    }
  }

  /** The search finds the first deliverable message, if there is one in its range. */
  lemma {:induction false} SearchFinds(c: Cells, layout: Layout, s: int, q: int, p: Option<int>, ack: int, limit: int)
    requires Formed(c, layout) && s <= q <= limit + 1 && s <= ack
    requires Tracked(c, layout, s, q, p) && NonePassed(c, layout, s, q, ack)
    ensures var h := Search(c, q, p, q >= ack, ack, limit);
            h.passack == (h.q >= ack) && NonePassed(c, layout, s, h.q, ack) &&
            if h.found then
              h.p == Some(layout(h.q).first) && h.q == layout(h.q).last && s <= layout(h.q).first
              && Deliverable(c, layout(h.q), ack)
            else h.q == limit + 1 && Tracked(c, layout, s, limit + 1, h.p)
    decreases limit - q
  {
    hide Formed, Tracked, Whole, NonePassed, StartAt;
    if q <= limit {
      TrackStep(c, layout, s, q, p);
      if EndsAt(c, q, p) {
        Ended(c, layout, s, q, p);
      }
      if !(EndsAt(c, q, p) && (q < ack || !OrderFlag(c[q].word))) {
        PassOne(c, layout, s, q, p, ack);
        SearchFinds(c, layout, s, q + 1, StartAt(c, q, p), ack, limit);
      }
    }
  }

  /** The packets a to b are there and belong to one message, which begins with a. */
  ghost predicate OneMessage(c: Cells, layout: Layout, a: int, b: int) {
    a <= b && layout(a).first == a && forall g :: a <= g <= b ==> Ready(c, g) && layout(g) == layout(a)
  }

  lemma SearchStart(c: Cells, layout: Layout, s: int, ack: int)
    requires Formed(c, layout)
    ensures Tracked(c, layout, s, s, None) && NonePassed(c, layout, s, s, ack)
  {
  }

  /** How a search without a find ends: still inside the message it began with, or not. */
  lemma SearchEnds(c: Cells, layout: Layout, s: int, ack: int, limit: int)
    requires Formed(c, layout) && s <= ack && s <= limit + 1
    ensures var h := Search(c, s, None, s == ack, ack, limit);
            !h.found ==> (h.p == Some(s) <==> OneMessage(c, layout, s, limit))
  {
    SearchStart(c, layout, s, ack);
    SearchFinds(c, layout, s, s, None, ack, limit);
    assert layout(limit).first <= limit;
  }

  // ---- the beginning of the buffer ---------------------------------------------------

  function From(c: Cells, s: int): Cells {
    map g | g in c && g >= s :: c[g]
  }

  /** Nothing of the message is missing among the acknowledged packets, and nothing was handed out: it
      may still be completed. */
  ghost predicate Waiting(c: Cells, m: Message, ack: int) {
    forall g :: m.first <= g <= m.last && g < ack ==> g in c && c[g].flag == 1
  }

  /** The look-ahead finds no hole exactly if the rest of the message has none before ack. */
  lemma {:induction false} GoodExact(c: Cells, layout: Layout, i: int, ack: int)
    requires Formed(c, layout)
    ensures Good(c, i, ack) <==> forall g :: i <= g <= layout(i).last && g < ack ==> g in c && c[g].flag == 1
    decreases ack - i
  {
    if i < ack && Ready(c, i) && i != layout(i).last {
      assert layout(i + 1) == layout(i);
      GoodExact(c, layout, i + 1, ack);
    }
  }

  lemma GoodStartExact(c: Cells, layout: Layout, s: int, ack: int)
    requires Formed(c, layout) && s < ack
    ensures GoodStart(c, s, ack) <==> layout(s).first == s && Waiting(c, layout(s), ack)
  {
    hide Good;
    GoodExact(c, layout, s, ack);
    assert layout(s).first <= s <= layout(s).last;
  }

  /** Skipping stops at the first number before ack where a message begins that may still be completed,
      and at ack if there is none. */
  lemma {:induction false} SkipExact(c: Cells, layout: Layout, s: int, ack: int)
    requires Formed(c, layout) && s <= ack
    ensures var r := SkipTo(c, s, ack);
            && s <= r <= ack
            && (r < ack ==> layout(r).first == r && Waiting(c, layout(r), ack))
            && forall q :: s <= q < r ==> !(layout(q).first == q && Waiting(c, layout(q), ack))
    decreases ack - s
  {
    hide Formed, Waiting, GoodStart;
    if s < ack {
      GoodStartExact(c, layout, s, ack);
      if !GoodStart(c, s, ack) {
        SkipExact(c, layout, s + 1, ack);
      }
    }
  }

  lemma SkipRange(c: Cells, s: int, ack: int)
    ensures s <= SkipTo(c, s, ack) && (s <= ack ==> SkipTo(c, s, ack) <= ack)
  {
  }

  /** Skipping passes no message that may still be completed. */
  lemma SkipKeeps(c: Cells, layout: Layout, s: int, ack: int, m: int)
    requires Formed(c, layout) && s <= ack && s <= layout(m).first
    requires forall g :: layout(m).first <= g <= layout(m).last && g < ack ==> g in c && c[g].flag == 1
    ensures SkipTo(c, s, ack) <= layout(m).first
  {
    hide SkipTo;
    SkipExact(c, layout, s, ack);
    var f := layout(m).first;
    assert layout(f) == layout(m);
  }

  /** Skipping stops no later than the first whole message. */
  lemma SkipStops(c: Cells, layout: Layout, s: int, ack: int, m: int)
    requires Formed(c, layout) && s <= layout(m).first && Whole(c, layout(m)) && s <= ack
    ensures SkipTo(c, s, ack) <= layout(m).first
  {
    hide SkipTo, Formed;
    forall g | layout(m).first <= g <= layout(m).last ensures g in c && c[g].flag == 1 {
      assert Ready(c, g);
    }
    SkipKeeps(c, layout, s, ack, m);
  }

  /** The search from the first good packet, over what is left after skipping. */
  function Scan(c: Cells, start: int, ack: int, limit: int): Hit
    requires start <= ack
  {
    var s := SkipTo(c, start, ack);
    Search(From(c, s), s, None, s == ack, ack, limit)
  }

  lemma FromFormed(c: Cells, layout: Layout, s: int)
    requires Formed(c, layout)
    ensures Formed(From(c, s), layout)
  {
  }

  lemma WholeInside(c: Cells, m: Message, start: int, limit: int)
    requires Whole(c, m) && forall g :: g in c ==> start <= g <= limit
    ensures start <= m.first <= m.last <= limit
  {
    assert Ready(c, m.first) && Ready(c, m.last);
  }

  lemma WholeFrom(c: Cells, m: Message, s: int)
    requires s <= m.first
    ensures Whole(From(c, s), m) <==> Whole(c, m)
  {
    var d := From(c, s);
    forall g | m.first <= g <= m.last ensures Ready(d, g) <==> Ready(c, g) {
    }
  }

  lemma Passed(c: Cells, layout: Layout, s: int, q: int, ack: int)
    requires NonePassed(c, layout, s, q, ack)
    ensures forall g :: s <= layout(g).first && Deliverable(c, layout(g), ack) ==> q <= layout(g).last
  {
  }

  /** A message found before the acknowledged position is the one at the beginning. */
  lemma AtStart(c: Cells, layout: Layout, start: int, ack: int, q: int)
    requires Formed(c, layout) && start <= ack && q < ack && SkipTo(c, start, ack) <= layout(q).first
    requires forall g :: Deliverable(c, layout(g), ack) ==> q <= layout(g).last
    ensures layout(q).first == SkipTo(c, start, ack)
  {
    var s := SkipTo(c, start, ack);
    SkipExact(c, layout, start, ack);
    var m := layout(s);
    assert layout(q).first <= q;
    assert m.first == s;
    if m.last < ack {
      assert Whole(c, m);
    }
    assert q <= m.last;
    assert layout(q) == m;
  }

  /** What scanMsg finds: the first deliverable message, and it finds one exactly when there is one. */
  lemma ScanFinds(c: Cells, layout: Layout, start: int, ack: int, limit: int)
    requires Formed(c, layout) && start <= ack <= limit + 1 && forall g :: g in c ==> start <= g <= limit
    ensures var h := Scan(c, start, ack, limit);
            h.found <==> exists g :: Deliverable(c, layout(g), ack)
    ensures var h, s := Scan(c, start, ack, limit), SkipTo(c, start, ack);
            h.found ==>
              h.p == Some(layout(h.q).first) && h.q == layout(h.q).last && Deliverable(c, layout(h.q), ack)
              && s <= layout(h.q).first && (h.passack <==> h.q >= ack) && (h.q < ack ==> layout(h.q).first == s)
              && forall g :: Deliverable(c, layout(g), ack) ==> h.q <= layout(g).last
  {
    hide Formed, Whole, NonePassed, Tracked;
    var s := SkipTo(c, start, ack);
    var d := From(c, s);
    FromFormed(c, layout, s);
    SearchStart(d, layout, s, ack);
    SearchFinds(d, layout, s, s, None, ack, limit);
    var h := Search(d, s, None, s == ack, ack, limit);
    forall g | Deliverable(c, layout(g), ack) ensures Deliverable(d, layout(g), ack) && s <= layout(g).first {
      WholeInside(c, layout(g), start, limit);
      SkipStops(c, layout, start, ack, g);
      WholeFrom(c, layout(g), s);
    }
    Passed(d, layout, s, h.q, ack);
    if h.found {
      WholeFrom(c, layout(h.q), s);
      assert Deliverable(c, layout(h.q), ack);
      if h.q < ack {
        AtStart(c, layout, start, ack, h.q);
      }
    } else {
      forall g ensures !Deliverable(c, layout(g), ack) {
        if Deliverable(c, layout(g), ack) {
          WholeInside(c, layout(g), start, limit);
        }
      }
    }
  }

  // ---- handing a message out ---------------------------------------------------------

  /** The payloads of the packets a <= g < b, joined. */
  function TextOf(c: Cells, a: int, b: int): Bytes
    requires forall g :: a <= g < b ==> g in c
    decreases b - a
  {
    if a >= b then [] else TextOf(c, a, b - 1) + c[b - 1].payload
  }

  /** After the packets first <= g < g' were read: they are gone, or marked when they were read
      before their turn. */
  function Taken(c: Cells, passack: bool, first: int, g': int): Cells {
    if passack then map h | h in c :: if first <= h < g' then c[h].(flag := 2) else c[h]
    else From(c, g')
  }

  lemma {:induction false} GoodFrom(c: Cells, s: int, i: int, ack: int)
    requires s <= i
    ensures Good(From(c, s), i, ack) == Good(c, i, ack)
    decreases ack - i
  {
    if i < ack {
      GoodFrom(c, s, i + 1, ack);
    }
  }

  lemma GoodStartFrom(c: Cells, s: int, ack: int)
    ensures GoodStart(From(c, s), s, ack) == GoodStart(c, s, ack)
  {
    GoodFrom(c, s, s, ack);
  }

  lemma SkipStep(c: Cells, s: int, ack: int)
    ensures SkipTo(c, s, ack) == if s >= ack || GoodStart(c, s, ack) then s else SkipTo(c, s + 1, ack)
  {
    hide GoodStart;
  }

  lemma FromTwice(c: Cells, s: int, s': int)
    requires s <= s'
    ensures From(From(c, s), s') == From(c, s')
  {
  }

  lemma FromAll(c: Cells, s: int)
    requires forall g :: g in c ==> s <= g
    ensures From(c, s) == c
  {
  }

  lemma TakenNothing(c: Cells, passack: bool, first: int)
    requires passack || forall g :: g in c ==> first <= g
    ensures Taken(c, passack, first, first) == c
  {
  }

  /** The first len bytes of a text that grows by a payload. */
  lemma Truncated(text: Bytes, more: Bytes, len: nat, out: Bytes, got: Bytes)
    requires out == text[..Min(len, |text|)] && got == more[..Min(len - |out|, |more|)]
    ensures out + got == (text + more)[..Min(len, |text + more|)]
  {
  }

  lemma TextStarts(c: Cells, a: int)
    ensures TextOf(c, a, a) == []
  {
  }

  lemma TextGrows(c: Cells, a: int, b: int)
    requires a <= b && forall g :: a <= g <= b ==> g in c
    ensures TextOf(c, a, b + 1) == TextOf(c, a, b) + c[b].payload
  {
  }

  /** What is left to read of a message is as it was. */
  lemma TakenAt(c: Cells, passack: bool, first: int, g: int)
    requires first <= g && g in c
    ensures var d := Taken(c, passack, first, g);
            g in d && d[g] == c[g] &&
            Taken(c, passack, first, g + 1) == if passack then d[g := d[g].(flag := 2)] else From(d, g + 1)
  {
  }

  lemma {:induction false} TextFrom(c: Cells, s: int, a: int, b: int)
    requires s <= a && forall g :: a <= g < b ==> g in c
    ensures TextOf(From(c, s), a, b) == TextOf(c, a, b)
    decreases b - a
  {
    if a < b {
      TextFrom(c, s, a, b - 1);
    }
  }

  lemma TakenFrom(c: Cells, s: int, m: Message, ack: int)
    requires s <= m.first <= m.last
    ensures m.last < ack ==>
              Taken(From(c, s), false, m.first, m.last + 1) == Taken(From(c, m.last + 1), false, m.first, m.last + 1)
  {
    FromTwice(c, s, m.last + 1);
    FromTwice(c, m.last + 1, m.last + 1);
  }

  /** Handing out the message m: it was the first deliverable one, and its text was given out up to the
      length asked for. Its packets are gone, or marked when it was read before its turn. */
  ghost predicate Delivers(c: Cells, start: int, ack: int, layout: Layout, m: Message, len: nat, out: Bytes,
                           start': int, c': Cells)
  {
    var s := if m.last < ack then m.last + 1 else SkipTo(c, start, ack);
    && (exists g :: layout(g) == m) && Deliverable(c, m, ack)
    && (forall g :: Deliverable(c, layout(g), ack) ==> m.last <= layout(g).last)
    && (forall g :: m.first <= g <= m.last ==> g in c)
    && out == TextOf(c, m.first, m.last + 1)[..Min(len, |TextOf(c, m.first, m.last + 1)|)]
    && start' == s && c' == Taken(From(c, s), m.last >= ack, m.first, m.last + 1)
  }

  /** Reading the first deliverable message from what skipping left is what Delivers says. */
  lemma Delivered(c: Cells, start: int, ack: int, layout: Layout, m: Message, len: nat, out: Bytes, start': int,
                  c': Cells)
    requires (exists g :: layout(g) == m) && Deliverable(c, m, ack)
    requires forall g :: Deliverable(c, layout(g), ack) ==> m.last <= layout(g).last
    requires var s := SkipTo(c, start, ack);
             var d := From(c, s);
             && s <= m.first && start' == (if m.last < ack then m.last + 1 else s)
             && c' == Taken(d, m.last >= ack, m.first, m.last + 1)
             && (forall g :: m.first <= g <= m.last ==> g in d)
             && out == TextOf(d, m.first, m.last + 1)[..Min(len, |TextOf(d, m.first, m.last + 1)|)]
    ensures Delivers(c, start, ack, layout, m, len, out, start', c')
  {
    hide SkipTo, Taken, TextOf;
    var s := SkipTo(c, start, ack);
    forall g | m.first <= g <= m.last ensures g in c {
      assert Ready(c, g);
    }
    TakenFrom(c, s, m, ack);
    TextFrom(c, s, m.first, m.last + 1);
  }

  lemma MessagesApart(layout: Layout, m: Message, g: int)
    requires Cut(layout) && exists h :: layout(h) == m
    ensures m == layout(g) || m.last < layout(g).first || layout(g).last < m.first
  {
    var h :| layout(h) == m;
    assert layout(Max(m.first, layout(g).first)) == m || m.last < layout(g).first;
  }

  /** Handing out a message lets go of no other one that may still be completed. */
  lemma DeliversKeeps(c: Cells, start: int, ack: int, layout: Layout, m: Message, len: nat, out: Bytes, start': int,
                      c': Cells, g: int)
    requires Delivers(c, start, ack, layout, m, len, out, start', c') && Formed(c, layout) && start <= ack
    requires start <= layout(g).first && layout(g) != m
    requires forall h :: layout(g).first <= h <= layout(g).last && h < ack ==> h in c && c[h].flag == 1
    ensures start' <= layout(g).first
    ensures m.last < layout(g).first || layout(g).last < m.first
  {
    hide SkipTo, Taken, TextOf;
    var w := layout(g);
    assert w.first <= g <= w.last;
    MessagesApart(layout, m, g);
    if m.last < ack {
      assert w.last < m.first ==> Deliverable(c, layout(g), ack);
    } else {
      SkipKeeps(c, layout, start, ack, g);
    }
  }

  /** However readMsg ends, only the message it returns is let go among those that may still be
      completed. */
  lemma ReadKeeps(c: Cells, start: int, ack: int, layout: Layout, m: Option<Message>, len: nat, out: Bytes,
                  start': int, c': Cells)
    requires Formed(c, layout) && start <= ack
    requires match m
             case None => start' == SkipTo(c, start, ack)
             case Some(w) => Delivers(c, start, ack, layout, w, len, out, start', c')
    ensures forall g :: start <= layout(g).first && Waiting(c, layout(g), ack) && m != Some(layout(g)) ==>
                          start' <= layout(g).first
  {
    hide SkipTo, Delivers, Formed;
    forall g | start <= layout(g).first && Waiting(c, layout(g), ack) && m != Some(layout(g))
      ensures start' <= layout(g).first
    {
      match m
      case None => SkipKeeps(c, layout, start, ack, g);
      case Some(w) => DeliversKeeps(c, start, ack, layout, w, len, out, start', c', g);
    }
  }

  // ---- dropping ----------------------------------------------------------------------

  /** After the packets before `limit` with this message word were dropped. */
  function Dropped(c: Cells, word: int, limit: int): Cells {
    map g | g in c :: if g < limit && c[g].word == word then c[g].(flag := 3) else c[g]
  }

  lemma DroppedNothing(c: Cells, word: int, limit: int)
    requires forall g :: g in c ==> limit <= g
    ensures Dropped(c, word, limit) == c
  {
  }

  lemma DroppedExact(c: Cells, word: int, limit: int)
    ensures var d := Dropped(c, word, limit);
            d.Keys == c.Keys && forall g :: g in c ==>
              d[g] == if g < limit && c[g].word == word then Cell(c[g].payload, c[g].word, 3) else c[g]
  {
  }

  lemma DroppedNext(c: Cells, word: int, g: int)
    ensures var d := Dropped(c, word, g);
            (g in d <==> g in c) && (g in d ==> d[g] == c[g]) &&
            Dropped(c, word, g + 1) == if g in d && d[g].word == word then d[g := d[g].(flag := 3)] else d
  {
  }

  /** A message number alone is the word of a packet only in the middle of a message that may be read
      out of order: first, last and ordered packets are not dropped. */
  lemma DropSparesMarked(msgNo: nat, other: nat, first: bool, last: bool, inOrder: bool)
    requires msgNo < ORDER && other < ORDER
    ensures MessageWord(other, first, last, inOrder) == msgNo <==>
              other == msgNo && !first && !last && !inOrder
  {
  }

  // ---- messages as addBuffer cuts them -----------------------------------------------

  /** One call of addBuffer: how many packets it made, their message number and order flag. */
  datatype Sent = Sent(count: nat, msgNo: nat, inOrder: bool)

  predicate AllSent(sents: seq<Sent>) {
    forall k :: 0 <= k < |sents| ==> sents[k].count > 0 && sents[k].msgNo < ORDER
  }

  /** The message that packet g belongs to when the calls began at number `first`; numbers that
      were not sent stand for themselves. */
  function MessageOf(first: int, sents: seq<Sent>, g: int): Message
    decreases |sents|
  {
    if sents == [] || g < first then Message(g, g, false)
    else if g < first + sents[0].count then Message(first, first + sents[0].count - 1, sents[0].inOrder)
    else MessageOf(first + sents[0].count, sents[1..], g)
  }

  /** The message word of packet g: the first and the last block of a call are marked. */
  function WordOf(first: int, sents: seq<Sent>, g: int): int
    decreases |sents|
  {
    if sents == [] || g < first then 0
    else if g < first + sents[0].count then
      MessageWord(sents[0].msgNo, g == first, g == first + sents[0].count - 1, sents[0].inOrder)
    else WordOf(first + sents[0].count, sents[1..], g)
  }

  /** The message words of the blocks that one call fills. */
  function CallWords(s: Sent): (words: seq<int>)
    ensures |words| == s.count
    ensures forall k :: 0 <= k < s.count ==> words[k] == MessageWord(s.msgNo, k == 0, k == s.count - 1, s.inOrder)
  {
    seq(s.count, k requires 0 <= k < s.count => MessageWord(s.msgNo, k == 0, k == s.count - 1, s.inOrder))
  }

  function TotalSent(sents: seq<Sent>): nat {
    if sents == [] then 0 else sents[0].count + TotalSent(sents[1..])
  }

  /** All words, call by call. */
  function AllWords(sents: seq<Sent>): (words: seq<int>)
    ensures |words| == TotalSent(sents)
  {
    if sents == [] then [] else CallWords(sents[0]) + AllWords(sents[1..])
  }

  /** The blocks written one after the other carry the words of their numbers. */
  lemma {:induction false} WordsByNumber(first: int, sents: seq<Sent>, g: int)
    requires first <= g < first + TotalSent(sents)
    ensures AllWords(sents)[g - first] == WordOf(first, sents, g)
    decreases |sents|
  {
    var n := sents[0].count;
    if g >= first + n {
      WordsByNumber(first + n, sents[1..], g);
    }
  }

  lemma {:induction false} WordsAppend(sents: seq<Sent>, s: Sent)
    ensures AllWords(sents + [s]) == AllWords(sents) + CallWords(s)
  {
    if sents == [] {
      assert sents + [s] == [s];
      assert AllWords([s]) == CallWords(s) + AllWords([]);
    } else {
      WordsAppend(sents[1..], s);
      assert (sents + [s])[1..] == sents[1..] + [s];
    }
  }

  lemma {:induction false} MessageOfBounds(first: int, sents: seq<Sent>, g: int)
    requires AllSent(sents)
    ensures var m := MessageOf(first, sents, g);
            m.first <= g <= m.last && (g >= first ==> m.first >= first) && (g < first ==> m == Message(g, g, false))
    ensures forall h :: var m := MessageOf(first, sents, g); m.first <= h <= m.last ==> MessageOf(first, sents, h) == m
    decreases |sents|
  {
    if sents != [] && g >= first + sents[0].count {
      MessageOfBounds(first + sents[0].count, sents[1..], g);
    }
  }

  lemma {:induction false} WordOfBits(first: int, sents: seq<Sent>, g: int)
    requires AllSent(sents) && first <= g < first + TotalSent(sents)
    ensures var m, w := MessageOf(first, sents, g), WordOf(first, sents, g);
            Boundary(w) == (if g == m.first then 2 else 0) + (if g == m.last then 1 else 0) && OrderFlag(w) == m.inOrder
    decreases |sents|
  {
    hide Boundary, OrderFlag, MessageWord;
    if g < first + sents[0].count {
      WordBack(sents[0].msgNo, g == first, g == first + sents[0].count - 1, sents[0].inOrder);
    } else {
      WordOfBits(first + sents[0].count, sents[1..], g);
    }
  }

  /** Packets cut by addBuffer form messages, whichever of them have arrived. */
  lemma SentIsFormed(first: int, sents: seq<Sent>, c: Cells)
    requires AllSent(sents)
    requires forall g :: g in c ==> first <= g < first + TotalSent(sents) && c[g].word == WordOf(first, sents, g)
    ensures Formed(c, g => MessageOf(first, sents, g))
  {
    hide Boundary, OrderFlag, MessageOf, WordOf, TotalSent;
    var layout: Layout := g => MessageOf(first, sents, g);
    forall g ensures layout(g).first <= g <= layout(g).last &&
                     forall h :: layout(g).first <= h <= layout(g).last ==> layout(h) == layout(g)
    {
      MessageOfBounds(first, sents, g);
    }
    forall g | g in c
      ensures Boundary(c[g].word) == (if g == layout(g).first then 2 else 0) + (if g == layout(g).last then 1 else 0)
              && OrderFlag(c[g].word) == layout(g).inOrder
    {
      WordOfBits(first, sents, g);
    }
  }
}
