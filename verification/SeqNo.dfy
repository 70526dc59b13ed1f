/** Wrapping 31-bit sequence numbers (class CSeqNo).

    The protocol compares numbers that wrap from 2^31 - 1 to 0. The proofs of the
    other modules follow each packet by an unbounded number n, whose value on the
    wire is W(n). The lemmas here say when arithmetic on wire values agrees with
    arithmetic on the unbounded numbers: exactly while they are closer than SEQ_TH. */
module SeqNo {

  const SEQ_TH: int := 0x3FFF_FFFF
  const MAX_SEQ: int := 0x7FFF_FFFF
  const SEQ_SPACE: int := 0x8000_0000

  type Wire = w: int | 0 <= w <= MAX_SEQ

  function Abs(x: int): nat {
    if x < 0 then -x else x
  }

  function SeqCmp(s1: Wire, s2: Wire): int {
    if Abs(s1 - s2) < SEQ_TH then s1 - s2 else s2 - s1
  }

  function SeqLen(s1: Wire, s2: Wire): int {
    if s1 <= s2 then s2 - s1 + 1 else s2 - s1 + MAX_SEQ + 2
  }

  function SeqOff(s1: Wire, s2: Wire): int {
    if Abs(s1 - s2) < SEQ_TH then s2 - s1
    else if s1 < s2 then s2 - s1 - MAX_SEQ - 1
    else s2 - s1 + MAX_SEQ + 1
  }

  function IncSeq(s: Wire): Wire {
    if s == MAX_SEQ then 0 else s + 1
  }

  function DecSeq(s: Wire): Wire {
    if s == 0 then MAX_SEQ else s - 1
  }

  /** The value of the unbounded number n in a packet header. */
  function W(n: int): Wire {
    n % SEQ_SPACE
  }

  predicate Near(a: int, b: int) {
    Abs(a - b) < SEQ_TH
  }

  lemma WireStep(a: int, d: int)
    requires 0 <= d < SEQ_SPACE
    ensures W(a + d) == if W(a) + d < SEQ_SPACE then W(a) + d else W(a) + d - SEQ_SPACE
  {
  }

  lemma WireId(a: int)
    requires 0 <= a < SEQ_SPACE
    ensures W(a) == a
  {
  }

  lemma IncSeqIsNext(a: int)
    ensures IncSeq(W(a)) == W(a + 1)
  {
    WireStep(a, 1);
  }

  lemma DecSeqIsPrevious(a: int)
    ensures DecSeq(W(a)) == W(a - 1)
  {
    WireStep(a - 1, 1);
  }

  /** The numbers on the wire are those modulo 2^31, and so are the steps. */
  lemma WireExact(a: int)
    ensures W(a) == a % 0x8000_0000
    ensures IncSeq(a % 0x8000_0000) == (a + 1) % 0x8000_0000 && DecSeq(a % 0x8000_0000) == (a - 1) % 0x8000_0000
  {
    IncSeqIsNext(a);
    DecSeqIsPrevious(a);
  }

  /** Near numbers: SeqOff is subtraction and SeqCmp orders like the unbounded numbers. */
  lemma NearArithmetic(a: int, b: int)
    requires Near(a, b)
    ensures SeqOff(W(a), W(b)) == b - a
    ensures SeqCmp(W(a), W(b)) < 0 <==> a < b
    ensures SeqCmp(W(a), W(b)) > 0 <==> a > b
    ensures W(a) == W(b) <==> a == b
  {
    if a <= b {
      WireStep(a, b - a);
    } else {
      WireStep(b, a - b);
    }
  }

  lemma LengthOfInterval(a: int, b: int)
    requires a <= b < a + 0x7FFF_FFFF
    ensures SeqLen(W(a), W(b)) == b - a + 1
  {
    WireStep(a, b - a);
  }

  lemma SeqOffRange(u: Wire, v: Wire)
    ensures SeqOff(0, v) < SEQ_TH && SeqOff(u, 0) > -SEQ_TH
  {
  }

  /** SeqOff is right for every start exactly when the distance is below the threshold. */
  lemma SeqOffExact(d: int)
    ensures (forall a :: SeqOff(W(a), W(a + d)) == d) <==> -0x3FFF_FFFF < d < 0x3FFF_FFFF
  {
    if Abs(d) < SEQ_TH {
      forall a ensures SeqOff(W(a), W(a + d)) == d {
        NearArithmetic(a, a + d);
      }
    } else if d > 0 {
      SeqOffRange(W(0), W(0 + d));
      WireStep(0, 0);
      if d < SEQ_SPACE { WireStep(0, d); }
      assert SeqOff(W(0), W(0 + d)) != d;
    } else {
      SeqOffRange(W(-d), W(-d + d));
      if -d < SEQ_SPACE { WireStep(0, -d); }
      assert SeqOff(W(-d), W(-d + d)) != d;
    }
  }

  /** SeqCmp has the right sign for every start exactly when the distance is below the threshold. */
  lemma SeqCmpExact(d: int)
    requires 0 < d < 0x8000_0000
    ensures (forall a :: SeqCmp(W(a), W(a + d)) < 0) <==> d < 0x3FFF_FFFF
  {
    if d < SEQ_TH {
      forall a ensures SeqCmp(W(a), W(a + d)) < 0 {
        NearArithmetic(a, a + d);
      }
    } else {
      WireStep(0, d);
      assert SeqCmp(W(0), W(0 + d)) >= 0;
    }
  }
}
