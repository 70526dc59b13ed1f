/** Streaming MD5 (md5.cpp): padding, blocks and counters as in sections 3.1 to 3.4 of RFC 1321. The
    compression of one block is a parameter: what is proved holds for every compression function. */
module Md5 {
  import opened Basics

  type Word = x: int | 0 <= x < 0x1_0000_0000

  datatype Digest = Digest(a: Word, b: Word, c: Word, d: Word)

  type Compress = (Digest, seq<Byte>) -> Digest

  const INITIAL: Digest := Digest(0x67452301, 0xefcdab89, 0x98badcfe, 0x10325476)

  // ---- the function that is computed --------------------------------------------------

  /** Compression over the full blocks of a message, from the left. */
  function Fold(f: Compress, h: Digest, m: seq<Byte>): Digest
    decreases |m|
  {
    if |m| < 64 then h else Fold(f, f(h, m[..64]), m[64..])
  }

  function Tail(m: seq<Byte>): seq<Byte> {
    m[|m| - |m| % 64..]
  }

  function Zeros(n: nat): (z: seq<Byte>)
    ensures |z| == n && forall i :: 0 <= i < n ==> z[i] == 0
  {
    seq(n, _ => 0)
  }

  /** n as k bytes, low order first. */
  function LittleEndian(n: nat, k: nat): (bytes: seq<Byte>)
    ensures |bytes| == k
  {
    if k == 0 then [] else [n % 0x100] + LittleEndian(n / 0x100, k - 1)
  }

  function PadCount(length: nat): (n: nat)
    ensures 1 <= n <= 64 && (length + n) % 64 == 56
  {
    (55 - length) % 64 + 1
  }

  function Padding(n: nat): (p: seq<Byte>)
    requires n > 0
    ensures |p| == n
  {
    [0x80] + Zeros(n - 1)
  }

  function BitCount(length: nat): (n: nat)
    ensures n < 0x1_0000_0000_0000_0000
  {
    8 * length % 0x1_0000_0000_0000_0000
  }

  /** A one bit, zeros up to 56 modulo 64, and the length in bits modulo 2^64. */
  function Padded(m: seq<Byte>): (p: seq<Byte>) {
    m + Padding(PadCount(|m|)) + LittleEndian(BitCount(|m|), 8)
  }

  lemma PaddedBlocks(m: seq<Byte>)
    ensures |Padded(m)| % 64 == 0 && m < Padded(m)
  {
    hide PadCount, BitCount, LittleEndian, Padding;
    assert |Padded(m)| == |m| + PadCount(|m|) + 8;
    assert Padded(m)[..|m|] == m;
  }

  function DigestBytes(h: Digest): (bytes: seq<Byte>)
    ensures |bytes| == 16
  {
    LittleEndian(h.a, 4) + LittleEndian(h.b, 4) + LittleEndian(h.c, 4) + LittleEndian(h.d, 4)
  }

  /** The padded message is a whole number of blocks, so that all of it is compressed. */
  function Hash(f: Compress, m: seq<Byte>): seq<Byte> {
    PaddedBlocks(m);
    assert Padded(m) == Padded(m)[..|Padded(m)| / 64 * 64];
    DigestBytes(Fold(f, INITIAL, Padded(m)))
  }

  // ---- facts about it ----------------------------------------------------------------

  lemma {:induction false} FoldAppend(f: Compress, h: Digest, m: seq<Byte>, more: seq<Byte>)
    requires |m| % 64 == 0
    ensures Fold(f, h, m + more) == Fold(f, Fold(f, h, m), more)
    decreases |m|
  {
    if m == [] {
      assert m + more == more;
    } else {
      assert (m + more)[..64] == m[..64] && (m + more)[64..] == m[64..] + more;
      FoldAppend(f, f(h, m[..64]), m[64..], more);
    }
  }

  /** Only the full blocks count, and what follows them continues from there. */
  lemma FoldFull(f: Compress, h: Digest, m: seq<Byte>, more: seq<Byte>)
    ensures Fold(f, h, m + more) == Fold(f, Fold(f, h, m), Tail(m) + more)
  {
    var k := |m| - |m| % 64;
    assert m == m[..k] + Tail(m);
    assert m + more == m[..k] + (Tail(m) + more);
    FoldAppend(f, h, m[..k], Tail(m));
    FoldAppend(f, h, m[..k], Tail(m) + more);
    assert Fold(f, Fold(f, h, m[..k]), Tail(m)) == Fold(f, h, m[..k]);
  }

  /** Little-endian bytes determine the number, up to their range. */
  function FromBytes(bytes: seq<Byte>): (n: nat) {
    if bytes == [] then 0 else bytes[0] + 0x100 * FromBytes(bytes[1..])
  }

  function Power256(k: nat): (p: nat)
    ensures p > 0
  {
    if k == 0 then 1 else 0x100 * Power256(k - 1)
  }

  lemma ModSplit(n: nat, p: nat)
    requires p > 0
    ensures n % (0x100 * p) == n % 0x100 + 0x100 * (n / 0x100 % p)
  {
    var q, r := n / 0x100, n % 0x100;
    var q', r' := q / p, q % p;
    var rest := r + 0x100 * r';
    assert n == r + 0x100 * (r' + p * q') == rest + 0x100 * p * q';
    assert rest < 0x100 * p by { assert 0x100 * r' <= 0x100 * (p - 1); }
    ModIs(n, 0x100 * p, q', rest);
  }

  lemma {:induction false} LittleEndianBack(n: nat, k: nat)
    ensures FromBytes(LittleEndian(n, k)) == n % Power256(k)
    decreases k
  {
    if k > 0 {
      LittleEndianBack(n / 0x100, k - 1);
      ModSplit(n, Power256(k - 1));
      assert LittleEndian(n, k)[1..] == LittleEndian(n / 0x100, k - 1);
    }
  }

  lemma Power256Of8()
    ensures Power256(4) == 0x1_0000_0000 && Power256(8) == 0x1_0000_0000_0000_0000
  {
    assert Power256(4) == 0x100 * (0x100 * (0x100 * (0x100 * Power256(0))));
    assert Power256(8) == 0x100 * (0x100 * (0x100 * (0x100 * Power256(4))));
  }

  lemma Associate(a: nat, b: nat, c: nat)
    ensures a * b * c == a * (b * c)
  {
  }

  lemma FourBytes(bytes: seq<Byte>)
    requires |bytes| == 4
    ensures var b: seq<int> := bytes; FromBytes(bytes) == b[0] + 0x100 * b[1] + 0x1_0000 * b[2] + 0x100_0000 * b[3]
  {
    var s1, s2, s3 := bytes[1..], bytes[2..], bytes[3..];
    assert s1[1..] == s2 && s2[1..] == s3 && s3[1..] == [];
    assert FromBytes(s3) == s3[0] && FromBytes(s2) == s2[0] + 0x100 * FromBytes(s3);
    assert FromBytes(s1) == s1[0] + 0x100 * FromBytes(s2);
  }

  lemma FromBytesStep(bytes: seq<Byte>, i: nat)
    requires i < |bytes|
    ensures FromBytes(bytes[i..]) == bytes[i] + 0x100 * FromBytes(bytes[i + 1..])
  {
    assert bytes[i..][1..] == bytes[i + 1..];
  }

  lemma EightBytes(bytes: seq<Byte>)
    requires |bytes| == 8
    ensures FromBytes(bytes) == FromBytes(bytes[..4]) + 0x1_0000_0000 * FromBytes(bytes[4..])
  {
    hide FromBytes;
    assert bytes[0..] == bytes;
    FromBytesStep(bytes, 0);
    FromBytesStep(bytes, 1);
    FromBytesStep(bytes, 2);
    FromBytesStep(bytes, 3);
    FourBytes(bytes[..4]);
  }

  lemma BitCountIs(length: nat)
    ensures BitCount(length) == 8 * length % 0x1_0000_0000_0000_0000 == BitCount(length) % 0x1_0000_0000_0000_0000
  {
  }

  /** The padded message, byte by byte: the message, a one bit, zeros up to eight bytes before the end of
      a block, and there the length in bits modulo 2^64, low byte first. */
  lemma PaddedExact(m: seq<Byte>)
    ensures var p := Padded(m);
            && |p| % 64 == 0 && |m| + 9 <= |p| <= |m| + 72
            && p[..|m|] == m && p[|m|] == 0x80
            && (forall i :: |m| < i < |p| - 8 ==> p[i] == 0)
            && var e: seq<int> := p[|p| - 8..];
               e[0] + 0x100 * e[1] + 0x1_0000 * e[2] + 0x100_0000 * e[3]
               + 0x1_0000_0000 * (e[4] + 0x100 * e[5] + 0x1_0000 * e[6] + 0x100_0000 * e[7])
               == 8 * |m| % 0x1_0000_0000_0000_0000
  {
    hide LittleEndian, FromBytes, PadCount, Power256, BitCount;
    PaddedBlocks(m);
    var p := Padded(m);
    var e := p[|p| - 8..];
    assert e == LittleEndian(BitCount(|m|), 8);
    LittleEndianBack(BitCount(|m|), 8);
    BitCountIs(|m|);
    Power256Of8();
    EightBytes(e);
    FourBytes(e[..4]);
    FourBytes(e[4..]);
  }

  lemma WordBytes(w: Word)
    ensures var b: seq<int> := LittleEndian(w, 4); b[0] + 0x100 * b[1] + 0x1_0000 * b[2] + 0x100_0000 * b[3] == w
  {
    hide LittleEndian, FromBytes, Power256;
    LittleEndianBack(w, 4);
    Power256Of8();
    FourBytes(LittleEndian(w, 4));
  }

  /** The digest is the four words left after compressing the blocks of the padded message one after the
      other, from the four words that section 3.3 of RFC 1321 gives, low byte first. */
  lemma HashExact(f: Compress, m: seq<Byte>)
    ensures var h := Fold(f, Digest(0x67452301, 0xefcdab89, 0x98badcfe, 0x10325476), Padded(m));
            var d: seq<int> := Hash(f, m);
            && |d| == 16
            && d[0] + 0x100 * d[1] + 0x1_0000 * d[2] + 0x100_0000 * d[3] == h.a
            && d[4] + 0x100 * d[5] + 0x1_0000 * d[6] + 0x100_0000 * d[7] == h.b
            && d[8] + 0x100 * d[9] + 0x1_0000 * d[10] + 0x100_0000 * d[11] == h.c
            && d[12] + 0x100 * d[13] + 0x1_0000 * d[14] + 0x100_0000 * d[15] == h.d
  {
    hide LittleEndian, Padded, Fold;
    var h := Fold(f, INITIAL, Padded(m));
    WordBytes(h.a);
    WordBytes(h.b);
    WordBytes(h.c);
    WordBytes(h.d);
  }

  lemma LengthField(m: seq<Byte>)
    requires |m| < 0x2000_0000_0000_0000
    ensures var p := Padded(m); |p| >= 8 && FromBytes(p[|p| - 8..]) == 8 * |m|
  {
    hide LittleEndian, FromBytes, PadCount, Padding;
    var p := Padded(m);
    assert p[|p| - 8..] == LittleEndian(BitCount(|m|), 8);
    LittleEndianBack(BitCount(|m|), 8);
    Power256Of8();
    assert BitCount(|m|) == 8 * |m|;
  }

  /** Different lengths give different padding: the padded message determines the message. */
  lemma PaddedInjective(m: seq<Byte>, m': seq<Byte>)
    requires Padded(m) == Padded(m') && |m| < 0x2000_0000_0000_0000 && |m'| < 0x2000_0000_0000_0000
    ensures m == m'
  {
    hide LittleEndian, FromBytes, PadCount, Padding;
    Power256Of8();
    LengthField(m);
    LengthField(m');
    assert m == Padded(m)[..|m|] && m' == Padded(m')[..|m'|];
  }

  // ---- the counter -------------------------------------------------------------------

  const WORDS: int := 0x1_0000_0000

  lemma PadFrom(units: int, length: nat, k: nat)
    requires length == units + 64 * k
    ensures (55 - units) % 64 + 1 == PadCount(length)
  {
  }

  lemma CountOffset(low: Word, high: Word, length: nat)
    requires low + WORDS * high == BitCount(length)
    ensures low / 8 % 64 == length % 64
    ensures (55 - low / 8) % 64 + 1 == PadCount(length)
  {
    var k := 8 * length / 0x1_0000_0000_0000_0000;
    assert 8 * length == low + WORDS * high + 0x1_0000_0000_0000_0000 * k;
    var units := length - 0x2000_0000 * high - 0x2000_0000_0000_0000 * k;
    assert low == 8 * units;
    assert low / 8 == units;
    PadFrom(units, length, 0x80_0000 * high + 0x80_0000_0000_0000 * k);
    ModIs(length, 64, units / 64 + 0x80_0000 * high + 0x80_0000_0000_0000 * k, units % 64);
  }

  lemma CountAdd(low: Word, high: Word, length: nat, n: nat, low': Word, high': Word)
    requires low + WORDS * high == BitCount(length) && 8 * n < WORDS
    requires low' == (low + 8 * n) % WORDS
    requires high' == (high + if low' < 8 * n then 1 else 0) % WORDS
    ensures low' + WORDS * high' == BitCount(length + n)
  {
    var carry := if low' < 8 * n then 1 else 0;
    assert low + 8 * n == low' + WORDS * carry;
    var k := 8 * length / 0x1_0000_0000_0000_0000;
    assert 8 * (length + n) == low' + WORDS * (high + carry) + 0x1_0000_0000_0000_0000 * k;
    assert high + carry == high' || high + carry == high' + WORDS;
    var top := if high + carry == high' then k else k + 1;
    ModIs(8 * (length + n), 0x1_0000_0000_0000_0000, top, low' + WORDS * high');
  }

  // ---- the state ---------------------------------------------------------------------

  lemma NothingYet(f: Compress)
    ensures Fold(f, INITIAL, []) == INITIAL && BitCount(0) == 0 && Tail([]) == []
  {
  }

  lemma {:induction false} LittleEndianSplit(low: nat, high: nat, k: nat, more: nat)
    requires low < Power256(k)
    ensures LittleEndian(low + Power256(k) * high, k + more) == LittleEndian(low, k) + LittleEndian(high, more)
    decreases k
  {
    var n := low + Power256(k) * high;
    if k == 0 {
      assert LittleEndian(low, 0) + LittleEndian(high, more) == LittleEndian(high, more);
    } else {
      var p := Power256(k - 1);
      assert Power256(k) * high == 0x100 * (p * high) by { Associate(0x100, p, high); }
      assert n == low + 0x100 * (p * high);
      assert n % 0x100 == low % 0x100 && n / 0x100 == low / 0x100 + p * high;
      LittleEndianSplit(low / 0x100, high, k - 1, more);
    }
  }

  lemma CountBytes(low: Word, high: Word)
    ensures LittleEndian(low + WORDS * high, 8) == LittleEndian(low, 4) + LittleEndian(high, 4)
  {
    LittleEndianSplit(low, high, 4, 4);
    Power256Of8();
  }

  lemma FoldBlock(f: Compress, m: seq<Byte>, block: seq<Byte>)
    requires |m| % 64 == 0 && |block| == 64
    ensures Fold(f, INITIAL, m + block) == f(Fold(f, INITIAL, m), block)
  {
    FoldAppend(f, INITIAL, m, block);
    assert block[..64] == block && block[64..] == [];
  }

  lemma FoldBlocks(f: Compress, m: seq<Byte>, rest: seq<Byte>)
    requires |m| % 64 == 0 && |rest| < 64
    ensures Fold(f, INITIAL, m + rest) == Fold(f, INITIAL, m)
  {
    FoldAppend(f, INITIAL, m, rest);
  }

  lemma FoldOne(f: Compress, h: Digest, block: seq<Byte>)
    requires |block| <= 64
    ensures Fold(f, h, block) == if |block| == 64 then f(h, block) else h
  {
    if |block| == 64 {
      assert block[..64] == block && block[64..] == [];
    }
  }

  lemma TailLength(m: seq<Byte>)
    ensures |Tail(m)| == |m| % 64
  {
  }

  /** Data that does not go beyond the block that was begun. */
  lemma FoldPiece(f: Compress, m: seq<Byte>, piece: seq<Byte>)
    requires |m| % 64 + |piece| <= 64
    ensures Fold(f, INITIAL, m + piece) ==
            if |m| % 64 + |piece| < 64 then Fold(f, INITIAL, m) else f(Fold(f, INITIAL, m), Tail(m) + piece)
  {
    hide Fold, Tail;
    TailLength(m);
    FoldFull(f, INITIAL, m, piece);
    FoldOne(f, Fold(f, INITIAL, m), Tail(m) + piece);
  }

  lemma TailPiece(m: seq<Byte>, piece: seq<Byte>)
    requires |m| % 64 + |piece| < 64
    ensures Tail(m + piece) == Tail(m) + piece && |m + piece| % 64 == |m| % 64 + |piece|
  {
    ModIs(|m + piece|, 64, |m| / 64, |m| % 64 + |piece|);
    assert (m + piece)[|m| - |m| % 64..] == Tail(m) + piece;
  }

  lemma TailBlocks(m: seq<Byte>, rest: seq<Byte>)
    requires |m| % 64 == 0 && |rest| < 64
    ensures Tail(m + rest) == rest && |m + rest| % 64 == |rest|
  {
  }

  class Md5State {
    var count0: Word
    var count1: Word
    var abcd: Digest
    const buf: array<Byte>
    const compress: Compress
    /** Everything appended so far. */
    ghost var message: seq<Byte>

    ghost predicate Valid()
      reads this, buf
    {
      buf.Length == 64
      && abcd == Fold(compress, INITIAL, message)
      && buf[..|message| % 64] == Tail(message)
      && count0 + WORDS * count1 == BitCount(|message|)
    }

    constructor (compress: Compress)
      ensures Valid() && fresh(buf) && message == [] && this.compress == compress
    {
      hide Fold, BitCount, Tail;
      count0, count1 := 0, 0;
      abcd := INITIAL;
      this.compress := compress;
      buf := new Byte[64](_ => 0);
      message := [];
      NothingYet(compress);
    }

    method Copy(at: nat, data: seq<Byte>, from: nat, n: nat)
      requires at + n <= buf.Length && from + n <= |data|
      modifies buf
      ensures buf[..at] == old(buf[..at]) && buf[at..at + n] == data[from..from + n]
    {
      forall i | 0 <= i < n {
        buf[at + i] := data[from + i];
      }
    }

    /** The message length, in two words. */
    method Count(n: nat)
      requires count0 + WORDS * count1 == BitCount(|message|) && n < 0x1000_0000
      modifies this`count0, this`count1
      ensures count0 + WORDS * count1 == BitCount(|message| + n)
    {
      hide BitCount;
      var nbits := 8 * n % WORDS;
      ghost var low, high := count0, count1;
      count1 := (count1 + n / 0x2000_0000) % WORDS;
      count0 := (count0 + nbits) % WORDS;
      if count0 < nbits {
        count1 := (count1 + 1) % WORDS;
      }
      CountAdd(low, high, |message|, n, count0, count1);
    }

    method FeedBlocks(data: seq<Byte>, start: nat)
      requires buf.Length == 64 && start <= |data| && (|message| + start) % 64 == 0
      requires abcd == Fold(compress, INITIAL, message + data[..start])
      modifies this`abcd, buf
      ensures abcd == Fold(compress, INITIAL, message + data)
      ensures buf[..|message + data| % 64] == Tail(message + data)
    {
      hide Fold, Tail;
      var p, left := start, |data| - start;
      while left >= 64
        invariant 0 <= p <= |data| && left == |data| - p && (|message| + p) % 64 == 0
        invariant abcd == Fold(compress, INITIAL, message + data[..p])
      {
        FoldBlock(compress, message + data[..p], data[p..p + 64]);
        assert message + data[..p + 64] == message + data[..p] + data[p..p + 64];
        abcd := compress(abcd, data[p..p + 64]);
        p, left := p + 64, left - 64;
      }
      FoldBlocks(compress, message + data[..p], data[p..]);
      assert message + data == message + data[..p] + data[p..];
      if left != 0 {
        Copy(0, data, p, left);
      }
      TailBlocks(message + data[..p], data[p..]);
      assert data[p..p + left] == data[p..];
    }

    /** The part of Append behind the counter: full blocks are compressed, the rest is kept. */
    method Feed(data: seq<Byte>, offset: nat)
      requires buf.Length == 64 && offset == |message| % 64 && data != []
      requires abcd == Fold(compress, INITIAL, message) && buf[..offset] == Tail(message)
      modifies this`abcd, buf
      ensures abcd == Fold(compress, INITIAL, message + data)
      ensures buf[..|message + data| % 64] == Tail(message + data)
    {
      hide Fold;
      var p := 0;
      if offset != 0 {
        var copy := if offset + |data| > 64 then 64 - offset else |data|;
        Copy(offset, data, 0, copy);
        assert buf[..offset + copy] == Tail(message) + data[..copy];
        FoldPiece(compress, message, data[..copy]);
        if offset + copy < 64 {
          assert data[..copy] == data;
          TailPiece(message, data);
          return;
        }
        p := p + copy;
        assert buf[..] == buf[..64];
        abcd := compress(abcd, buf[..]);
      } else {
        assert message + data[..0] == message;
      }
      FeedBlocks(data, p);
    }

    /** Adds data of at most 2^28 - 1 bytes. */
    method Append(data: seq<Byte>)
      requires Valid() && |data| < 0x1000_0000
      modifies this, buf
      ensures Valid() && message == old(message) + data
    {
      hide Fold, BitCount;
      CountOffset(count0, count1, |message|);
      var offset := count0 / 8 % 64;
      if |data| == 0 {
        assert message + data == message;
        return;
      }
      Count(|data|);
      Feed(data, offset);
      message := message + data;
    }

    /** The bytes of the digest buffer, once whole blocks were appended. */
    method Digested() returns (digest: seq<Byte>)
      requires Valid()
      ensures digest == DigestBytes(Fold(compress, INITIAL, message))
    {
      digest := DigestBytes(abcd);
    }

    /** The padding and the length go through Append like any other data. */
    method Finish() returns (digest: seq<Byte>)
      requires Valid()
      modifies this, buf
      ensures digest == Hash(compress, old(message))
    {
      hide Fold, LittleEndian, BitCount, PadCount, Padding, Tail, DigestBytes;
      ghost var m := message;
      CountOffset(count0, count1, |m|);
      CountBytes(count0, count1);
      var data := LittleEndian(count0, 4) + LittleEndian(count1, 4);
      var pad := Padding((55 - count0 / 8) % 64 + 1);
      Append(pad);
      Append(data);
      assert message == m + pad + data == Padded(m);
      digest := Digested();
    }
  }

  function Concatenation(chunks: seq<seq<Byte>>): seq<Byte> {
    if chunks == [] then [] else chunks[0] + Concatenation(chunks[1..])
  }

  lemma ConcatenationStep(chunks: seq<seq<Byte>>, i: nat)
    requires i < |chunks|
    ensures Concatenation(chunks[..i + 1]) == Concatenation(chunks[..i]) + chunks[i]
  {
    if i == 0 {
      assert chunks[..1] == [chunks[0]] && chunks[..0] == [];
      assert Concatenation(chunks[..1]) == chunks[0] + Concatenation([]);
    } else {
      ConcatenationStep(chunks[1..], i - 1);
      assert chunks[..i + 1][1..] == chunks[1..][..i] && chunks[..i][1..] == chunks[1..][..i - 1];
    }
  }

  /** However a message is cut into chunks, the digest is that of the whole. */
  method HashChunks(f: Compress, chunks: seq<seq<Byte>>) returns (digest: seq<Byte>)
    requires forall i :: 0 <= i < |chunks| ==> |chunks[i]| < 0x1000_0000
    ensures digest == Hash(f, Concatenation(chunks))
  {
    var state := new Md5State(f);
    for i := 0 to |chunks|
      invariant state.Valid() && fresh(state) && fresh(state.buf) && state.compress == f
      invariant state.message == Concatenation(chunks[..i])
    {
      ConcatenationStep(chunks, i);
      state.Append(chunks[i]);
    }
    assert chunks[..|chunks|] == chunks;
    digest := state.Finish();
  }
}
