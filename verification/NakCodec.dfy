/** The coding of loss reports (NAK packets).

    A report is a list of words. A word below FLAG is one lost number; a word with the
    FLAG bit starts an interval that ends at the number in the next word. */
module NakCodec {
  import opened SeqNo

  const FLAG: int := 0x8000_0000

  datatype Report = One(n: int) | Span(a: int, b: int)

  function EncodeOne(r: Report): seq<int> {
    match r
    case One(n) => [W(n)]
    case Span(a, b) => [W(a) + FLAG, W(b)]
  }

  function Encode(rs: seq<Report>): seq<int> {
    if rs == [] then [] else Encode(rs[..|rs| - 1]) + EncodeOne(rs[|rs| - 1])
  }

  predicate Within(a: int, x: int, b: int) { a <= x <= b }

  /** The numbers a report stands for. */
  function Covers(r: Report): set<int> {
    match r
    case One(n) => {n}
    case Span(a, b) => set x | a <= x <= b && Within(a, x, b)
  }

  function Reported(rs: seq<Report>): set<int> {
    if rs == [] then {} else Reported(rs[..|rs| - 1]) + Covers(rs[|rs| - 1])
  }

  predicate WellFormed(rs: seq<Report>) {
    forall k :: 0 <= k < |rs| && rs[k].Span? ==> rs[k].a < rs[k].b
  }

  /** p holds the smallest numbers of s. */
  ghost predicate IsPrefixOf(p: set<int>, s: set<int>) {
    p <= s && forall x, y :: x in s && y in p && x <= y ==> x in p
  }

  /** The words for one entry: a number below 2^31, or two, of which the first has the top bit set. */
  lemma EncodeExact(r: Report)
    ensures match r
            case One(n) => Encode([r]) == [n % 0x8000_0000]
            case Span(a, b) => Encode([r]) == [a % 0x8000_0000 + 0x8000_0000, b % 0x8000_0000]
  {
    assert [r][..0] == [];
  }

  lemma CoversExact(r: Report, x: int)
    ensures x in Covers(r) <==> match r case One(n) => x == n case Span(a, b) => a <= x <= b
  {
  }

  lemma EncodeAppend(rs: seq<Report>, r: Report)
    ensures Encode(rs + [r]) == Encode(rs) + EncodeOne(r)
  {
    assert (rs + [r])[..|rs|] == rs;
  }

  lemma ReportedAppend(rs: seq<Report>, r: Report)
    ensures Reported(rs + [r]) == Reported(rs) + Covers(r)
  {
    assert (rs + [r])[..|rs|] == rs;
  }
}
