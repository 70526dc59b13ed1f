/** The sender's buffer (class CSndBuffer): a circular list of blocks with three cursors. */
module SndBuffer {
  import opened Basics
  import opened Protocol
  import opened Messages

  const MAX_MSG_NO: int := 0x1FFF_FFFF

  class Block {
    var payload: Bytes
    var word: int                // message number, boundary and order bits
    var next: Block?

    constructor ()
      ensures payload == [] && next == null
    {
      payload, word := [], 0;
      next := null;
    }
  }

  function PieceCount(len: nat, mss: nat): nat
    requires mss > 0
  {
    if len % mss != 0 then len / mss + 1 else len / mss
  }

  /** Exactly the first PieceCount pieces start inside the data. */
  lemma PieceStart(len: nat, mss: nat, i: nat)
    requires mss > 0
    ensures i < PieceCount(len, mss) <==> i * mss < len
  {
    assert len == mss * (len / mss) + len % mss;
    MultipleIsFar(mss, len / mss - i);
    MultipleIsFar(mss, i - len / mss);
    assert mss * (len / mss - i) == mss * (len / mss) - i * mss;
  }

  lemma Quotient(x: nat, n: nat)
    requires n > 0
    ensures (x + n) / n == x / n + 1
  {
    var q, r := x / n, x % n;
    assert x + n == n * (q + 1) + r;
    ModIs(x + n, n, q + 1, r);
    assert n * ((x + n) / n) == n * (q + 1);
    MultipleIsFar(n, (x + n) / n - (q + 1));
  }

  /** The number of packets, and where in the data each of them stands. */
  lemma {:induction false} ChunkCount(data: Bytes, mss: nat)
    requires mss > 0
    ensures |Chunks(data, mss)| == PieceCount(|data|, mss)
    decreases |data|
  {
    if |data| > mss {
      ChunkCount(data[mss..], mss);
      ModIs(|data|, mss, (|data| - mss) / mss + 1, (|data| - mss) % mss);
      assert |data| / mss == (|data| - mss) / mss + 1 by { Quotient(|data| - mss, mss); }
    } else if |data| == mss {
      ModIs(mss, mss, 1, 0);
    } else {
      ModIs(|data|, mss, 0, |data|);
    }
  }

  lemma OneLess(i: int, n: int)
    ensures (i - 1) * n == i * n - n
  {
  }

  lemma {:induction false} ChunkAt(data: Bytes, mss: nat, i: nat, at: int)
    requires mss > 0 && i < |Chunks(data, mss)| && at == i * mss
    ensures 0 <= at < |data| && Chunks(data, mss)[i] == data[at..at + Min(mss, |data| - at)]
    decreases |data|
  {
    if i > 0 {
      OneLess(i, mss);
      ChunkAt(data[mss..], mss, i - 1, at - mss);
      var len := Min(mss, |data| - at);
      assert data[mss..][at - mss..at - mss + len] == data[at..at + len];
    } else if |data| <= mss {
      assert data[0..|data|] == data;
    }
  }

  ghost predicate Distinct(blocks: seq<Block>) {
    forall i, j :: 0 <= i < j < |blocks| ==> blocks[i] != blocks[j]
  }

  ghost predicate Apart(a: seq<Block>, b: seq<Block>) {
    forall i, j :: 0 <= i < |a| && 0 <= j < |b| ==> a[i] != b[j]
  }

  ghost predicate Ring(ring: seq<Block>)
    reads ring`next
  {
    && |ring| > 0
    && (forall i {:trigger ring[i].next} :: 0 <= i < |ring| - 1 ==> ring[i].next == ring[i + 1])
    && ring[|ring| - 1].next == ring[0]
    && Distinct(ring)
  }

  ghost function Payloads(blocks: seq<Block>): (p: seq<Bytes>)
    reads blocks`payload
    ensures |p| == |blocks| && forall i :: 0 <= i < |p| ==> p[i] == blocks[i].payload
  {
    if blocks == [] then [] else Payloads(blocks[..|blocks| - 1]) + [blocks[|blocks| - 1].payload]
  }

  ghost function WordsOf(blocks: seq<Block>): (w: seq<int>)
    reads blocks`word
    ensures |w| == |blocks| && forall i :: 0 <= i < |w| ==> w[i] == blocks[i].word
  {
    if blocks == [] then [] else WordsOf(blocks[..|blocks| - 1]) + [blocks[|blocks| - 1].word]
  }

  class CSndBuffer {
    const mss: nat
    const unitSize: nat          // blocks added by each increase
    var firstBlock: Block
    var currBlock: Block
    var lastBlock: Block
    var size: nat
    var count: nat
    var nextMsgNo: nat
    ghost var ring: seq<Block>   // all blocks, from the first one on
    ghost var cursor: nat        // position of the current block

    ghost predicate Valid()
      reads this, ring`next
    {
      && mss > 0 && unitSize > 0 && 0 < nextMsgNo < MAX_MSG_NO
      && Ring(ring) && |ring| == size && count < size && cursor <= count
      && firstBlock == ring[0] && currBlock == ring[cursor] && lastBlock == ring[count]
    }

    /** The packets written and not yet acknowledged. */
    ghost function Pending(): seq<Bytes>
      reads this, ring`next, ring`payload
      requires Valid()
    {
      Payloads(ring[..count])
    }

    /** Their message words. */
    ghost function Words(): seq<int>
      reads this, ring`next, ring`word
      requires Valid()
    {
      WordsOf(ring[..count])
    }

    /** Chains n new blocks behind `front`; returns the chain, front included. */
    method NewBlocks(front: Block, n: nat) returns (ghost chain: seq<Block>, last: Block)
      modifies front
      ensures |chain| == n + 1 && chain[0] == front && chain[n] == last
      ensures forall i :: 1 <= i <= n ==> fresh(chain[i])
      ensures forall i {:trigger chain[i].next} :: 0 <= i < n ==> chain[i].next == chain[i + 1]
      ensures Distinct(chain)
      ensures n == 0 ==> front.next == old(front.next)
      ensures front.payload == old(front.payload) && front.word == old(front.word)
    {
      chain, last := [front], front;
      var i := 0;
      while i < n
        invariant 0 <= i <= n && |chain| == i + 1 && chain[0] == front && chain[i] == last
        invariant forall k :: 1 <= k <= i ==> fresh(chain[k])
        invariant forall k {:trigger chain[k].next} :: 0 <= k < i ==> chain[k].next == chain[k + 1]
        invariant Distinct(chain)
        invariant i == 0 ==> front.next == old(front.next)
        invariant front.payload == old(front.payload) && front.word == old(front.word)
      {
        var block := new Block();
        last.next := block;
        last := block;
        chain := chain + [block];
        i := i + 1;
      }
    }

    constructor (size: nat, mss: nat)
      requires size > 0 && mss > 0
      ensures Valid() && Pending() == [] && Words() == [] && cursor == 0 && fresh(ring) && this.mss == mss
    {
      this.mss := mss;
      this.unitSize := size;
      this.size := size;
      this.count := 0;
      this.cursor := 0;
      this.nextMsgNo := 1;
      var block := new Block();
      this.firstBlock, this.currBlock, this.lastBlock := block, block, block;
      this.ring := [block];
      new;
      ghost var chain;
      var tail;
      chain, tail := NewBlocks(block, size - 1);
      tail.next := firstBlock;
      ring := chain;
    }

    lemma OnlyOne(r0: seq<Block>, c: nat)
      requires Distinct(r0) && c < |r0|
      ensures forall i :: 0 <= i < |r0| && i != c ==> r0[i] != r0[c]
    {
    }

    ghost predicate ChainOf(chain: seq<Block>)
      reads chain`next
    {
      && |chain| > 0
      && (forall i {:trigger chain[i].next} :: 0 <= i < |chain| - 1 ==> chain[i].next == chain[i + 1])
      && Distinct(chain)
    }

    /** Splicing a chain into a ring behind position c gives a ring. */
    lemma Spliced(r0: seq<Block>, chain: seq<Block>, c: nat)
      requires c < |r0| && ChainOf(chain)
      requires Distinct(r0) && Apart(r0, chain)
      requires forall i {:trigger r0[i].next} :: 0 <= i < |r0| - 1 && i != c ==> r0[i].next == r0[i + 1]
      requires c < |r0| - 1 ==> r0[|r0| - 1].next == r0[0] && chain[|chain| - 1].next == r0[c + 1]
      requires c == |r0| - 1 ==> chain[|chain| - 1].next == r0[0]
      requires r0[c].next == chain[0]
      ensures Ring(r0[..c + 1] + chain + r0[c + 1..])
    {
      var r := r0[..c + 1] + chain + r0[c + 1..];
      forall i | 0 <= i < |r| - 1 ensures r[i].next == r[i + 1] {
        if i <= c {
          assert r[i] == r0[i];
        } else if i < c + |chain| {
          assert r[i] == chain[i - c - 1];
        } else if i == c + |chain| {
          assert r[i] == chain[|chain| - 1];
        } else {
          assert r[i] == r0[i - |chain|];
        }
      }
      if c == |r0| - 1 {
        assert r[|r| - 1] == chain[|chain| - 1];
      } else {
        assert r[|r| - 1] == r0[|r0| - 1];
      }
    }

    method SpliceIn(nblk: Block, pb: Block, ghost chain: seq<Block>)
      requires Valid() && ChainOf(chain) && |chain| == unitSize
      requires nblk == chain[0] && pb == chain[|chain| - 1]
      requires Apart(ring, chain)
      modifies this`size, this`ring, lastBlock`next, pb`next
      ensures Valid() && Pending() == old(Pending()) && Words() == old(Words()) && cursor == old(cursor)
              && count == old(count)
      ensures size == old(size) + unitSize
      ensures ring == old(ring[..count + 1]) + chain + old(ring[count + 1..])
    {
      hide Distinct, Payloads, WordsOf;
      ghost var r0, c := ring, count;
      assert r0[c] == lastBlock && forall j :: 0 <= j < |chain| ==> chain[j] != r0[c];
      assert forall i :: 0 <= i < |r0| ==> r0[i] != pb;
      OnlyOne(r0, c);
      OnlyOne(chain, |chain| - 1);
      pb.next := lastBlock.next;
      lastBlock.next := nblk;
      size := size + unitSize;
      ring := r0[..c + 1] + chain + r0[c + 1..];
      Spliced(r0, chain, c);
      assert ring[..c] == r0[..c];
    }

    /** Inserts unitSize new blocks after the last block. */
    method Increase()
      requires Valid()
      modifies this`size, this`ring, lastBlock`next
      ensures Valid() && Pending() == old(Pending()) && Words() == old(Words()) && cursor == old(cursor)
              && count == old(count)
      ensures size == old(size) + unitSize
      ensures forall b :: b in ring ==> b in old(ring) || fresh(b)
    {
      hide Ring, Distinct, Payloads, WordsOf;
      var nblk := new Block();
      ghost var chain;
      var pb;
      chain, pb := NewBlocks(nblk, unitSize - 1);
      assert forall b :: b in chain ==> fresh(b);
      SpliceIn(nblk, pb, chain);
    }

    method NextMessage()
      requires Valid()
      modifies this`nextMsgNo
      ensures Valid() && Pending() == old(Pending()) && Words() == old(Words())
      ensures nextMsgNo == if old(nextMsgNo) == 0x1FFF_FFFE then 1 else old(nextMsgNo) + 1
    {
      hide Ring, Payloads, WordsOf, Distinct;
      nextMsgNo := nextMsgNo + 1;
      if nextMsgNo == MAX_MSG_NO {
        nextMsgNo := 1;
      }
    }

    method Grow(n: nat)
      requires Valid()
      modifies this`size, this`ring, lastBlock`next
      ensures Valid() && Pending() == old(Pending()) && Words() == old(Words()) && cursor == old(cursor)
              && count == old(count)
      ensures count + n < size
      ensures forall b :: b in ring ==> b in old(ring) || fresh(b)
    {
      hide Ring, Payloads, WordsOf, Distinct;
      while n + count >= size
        invariant Valid() && Pending() == old(Pending()) && Words() == old(Words()) && cursor == old(cursor)
                  && count == old(count)
        invariant lastBlock == old(lastBlock)
        invariant forall b :: b in ring ==> b in old(ring) || fresh(b)
        decreases n + count - size
      {
        Increase();
      }
    }

    /** Fills the block at position k of the ring; returns the block after it. */
    method Put(s: Block, ghost k: nat, bytes: Bytes, word: int) returns (after: Block)
      requires Valid() && k + 1 < size && s == ring[k]
      modifies s`payload, s`word
      ensures Valid() && after == ring[k + 1] && ring[k].payload == bytes && ring[k].word == word
      ensures forall j :: 0 <= j < size && j != k ==>
                ring[j].payload == old(ring[j].payload) && ring[j].word == old(ring[j].word)
    {
      hide Payloads, WordsOf, Distinct;
      OnlyOne(ring, k);
      s.payload := bytes;
      s.word := word;
      after := s.next;
    }

    /** The packet number i of the data goes into the block behind the pending ones and i more. */
    method FillOne(data: Bytes, s: Block, i: nat, n: nat, inOrder: bool) returns (after: Block)
      requires Valid() && i < n && count + n < size && s == ring[count + i] && i * mss < |data|
      modifies s`payload, s`word
      ensures Valid() && after == ring[count + i + 1]
      ensures ring[count + i].payload == data[i * mss..i * mss + Min(mss, |data| - i * mss)]
      ensures ring[count + i].word == CallWords(Sent(n, nextMsgNo, inOrder))[i]
      ensures forall j :: 0 <= j < size && j != count + i ==>
                ring[j].payload == old(ring[j].payload) && ring[j].word == old(ring[j].word)
    {
      hide Ring, MessageWord;
      var at := i * mss;
      var len := |data| - at;
      if len > mss {
        len := mss;
      }
      after := Put(s, count + i, data[at..at + len], MessageWord(nextMsgNo, i == 0, i == n - 1, inOrder));
    }

    lemma SameWords(blocks: seq<Block>, w: seq<int>)
      requires |blocks| == |w| && forall k :: 0 <= k < |w| ==> blocks[k].word == w[k]
      ensures WordsOf(blocks) == w
    {
    }

    lemma SamePayloads(blocks: seq<Block>, p: seq<Bytes>)
      requires |blocks| == |p| && forall k :: 0 <= k < |p| ==> blocks[k].payload == p[k]
      ensures Payloads(blocks) == p
    {
    }

    /** Copies the packets of the user's data into the free blocks; returns the block after them. */
    method Fill(data: Bytes, n: nat, inOrder: bool) returns (s: Block)
      requires Valid() && n == PieceCount(|data|, mss) == |Chunks(data, mss)| && count + n < size
      modifies ring`payload, ring`word
      ensures Valid() && s == ring[count + n] && Pending() == old(Pending()) && Words() == old(Words())
      ensures forall k :: 0 <= k < n ==> ring[count + k].payload == Chunks(data, mss)[k]
      ensures var words := CallWords(Sent(n, nextMsgNo, inOrder));
              forall k :: 0 <= k < n ==> ring[count + k].word == words[k]
    {
      hide Ring, Chunks, Payloads, WordsOf, Distinct, PieceCount, CallWords;
      ghost var pieces, words := Chunks(data, mss), CallWords(Sent(n, nextMsgNo, inOrder));
      s := lastBlock;
      var i := 0;
      while i < n
        invariant 0 <= i <= n && Valid() && s == ring[count + i]
        invariant forall k :: 0 <= k < count ==>
                    ring[k].payload == old(ring[k].payload) && ring[k].word == old(ring[k].word)
        invariant forall k :: 0 <= k < i ==>
                    ring[count + k].payload == pieces[k] && ring[count + k].word == words[k]
      {
        PieceStart(|data|, mss, i);
        ChunkAt(data, mss, i, i * mss);
        s := FillOne(data, s, i, n, inOrder);
        i := i + 1;
      }
      SamePayloads(ring[..count], old(Pending()));
      SameWords(ring[..count], old(Words()));
    }

    /** The words behind the pending ones join them. */
    lemma WordsAppended(more: seq<int>)
      requires Valid() && count + |more| < size
      requires forall k :: 0 <= k < |more| ==> ring[count + k].word == more[k]
      ensures WordsOf(ring[..count + |more|]) == Words() + more
    {
      hide Ring;
      var w, n := Words(), count + |more|;
      forall k | 0 <= k < n ensures ring[..n][k].word == (w + more)[k] {
        if k >= count {
          assert ring[count + (k - count)].word == more[k - count];
        } else {
          assert ring[..count][k].word == w[k];
        }
      }
      SameWords(ring[..n], w + more);
    }

    /** The packets behind the pending ones join them. */
    lemma Appended(more: seq<Bytes>)
      requires Valid() && count + |more| < size
      requires forall k :: 0 <= k < |more| ==> ring[count + k].payload == more[k]
      ensures Payloads(ring[..count + |more|]) == Pending() + more
    {
      hide Ring;
      var p, n := Pending(), count + |more|;
      forall k | 0 <= k < n ensures ring[..n][k].payload == (p + more)[k] {
        if k >= count {
          assert ring[count + (k - count)].payload == more[k - count];
        } else {
          assert ring[..count][k].payload == p[k];
        }
      }
      SamePayloads(ring[..n], p + more);
    }

    method Commit(data: Bytes, n: nat, inOrder: bool)
      requires Valid() && n == PieceCount(|data|, mss) && count + n < size
      modifies this`lastBlock, this`count, ring`payload, ring`word
      ensures Valid() && Pending() == old(Pending()) + Chunks(data, mss)
      ensures Words() == old(Words()) + CallWords(Sent(|Chunks(data, mss)|, old(nextMsgNo), inOrder))
    {
      hide Chunks, Ring, Payloads, WordsOf, Distinct, PieceCount, CallWords;
      ChunkCount(data, mss);
      var s := Fill(data, n, inOrder);
      Appended(Chunks(data, mss));
      WordsAppended(CallWords(Sent(n, nextMsgNo, inOrder)));
      lastBlock := s;
      count := count + n;
    }

    /** Cuts the user's data into packets of one message and appends them. */
    method AddBuffer(data: Bytes, inOrder: bool)
      requires Valid()
      modifies this, ring
      ensures Valid() && Pending() == old(Pending()) + Chunks(data, mss) && cursor == old(cursor)
      ensures nextMsgNo == if old(nextMsgNo) == 0x1FFF_FFFE then 1 else old(nextMsgNo) + 1
      ensures Words() == old(Words()) + CallWords(Sent(|Chunks(data, mss)|, old(nextMsgNo), inOrder))
      ensures forall b :: b in ring ==> b in old(ring) || fresh(b)
    {
      hide Chunks, Ring, Payloads, WordsOf, Distinct, CallWords;
      var n := |data| / mss;
      if |data| % mss != 0 {
        n := n + 1;
      }
      Grow(n);
      assert forall k :: 0 <= k < size ==> ring[k] in ring;
      Commit(data, n, inOrder);
      NextMessage();
    }

    /** The next packet that was never sent, if any, and its message word. */
    method ReadData() returns (packet: Option<Bytes>, word: int)
      requires Valid()
      modifies this`currBlock, this`cursor
      ensures Valid() && Pending() == old(Pending()) && Words() == old(Words())
      ensures old(cursor) == |Pending()| ==> packet == None && cursor == old(cursor)
      ensures old(cursor) < |Pending()| ==>
                packet == Some(Pending()[old(cursor)]) && word == Words()[old(cursor)] && cursor == old(cursor) + 1
    {
      word := 0;
      if currBlock == lastBlock {
        return None, word;
      }
      packet, word := Some(currBlock.payload), currBlock.word;
      assert packet == Some(Pending()[cursor]) && word == Words()[cursor];
      currBlock := currBlock.next;
      cursor := cursor + 1;
    }

    /** Follows the links from the first block. */
    method Walk(offset: nat) returns (p: Block)
      requires Valid() && offset < size
      ensures p == ring[offset]
    {
      p := firstBlock;
      var i := 0;
      while i < offset
        invariant 0 <= i <= offset && p == ring[i]
      {
        p := p.next;
        i := i + 1;
      }
    }

    /** The packet at a distance from the first unacknowledged one. */
    method ReadAt(offset: nat) returns (payload: Bytes)
      requires Valid() && offset < |Pending()|
      ensures payload == Pending()[offset]
    {
      var p := Walk(offset);
      payload := p.payload;
    }

    /** The packets and words of the later blocks. */
    lemma PartsOf(r0: seq<Block>, p: seq<Bytes>, w: seq<int>, offset: nat)
      requires offset <= |p| == |w| <= |r0| && p == Payloads(r0[..|p|]) && w == WordsOf(r0[..|p|])
      ensures Payloads(r0[offset..|p|]) == p[offset..] && WordsOf(r0[offset..|p|]) == w[offset..]
    {
      hide Payloads, WordsOf;
      SamePayloads(r0[offset..|p|], p[offset..]);
      SameWords(r0[offset..|p|], w[offset..]);
    }

    lemma RotatedDistinct(r0: seq<Block>, k: nat)
      requires Distinct(r0) && k < |r0|
      ensures Distinct(r0[k..] + r0[..k])
    {
    }

    lemma Rotated(r0: seq<Block>, k: nat)
      requires Ring(r0) && k < |r0|
      ensures Ring(r0[k..] + r0[..k])
    {
      hide Distinct;
      RotatedDistinct(r0, k);
      var r := r0[k..] + r0[..k];
      forall i | 0 <= i < |r| - 1 ensures r[i].next == r[i + 1] {
        if i < |r0| - k - 1 {
          assert r[i] == r0[k + i];
        } else if i == |r0| - k - 1 {
          assert r[i] == r0[|r0| - 1];
        } else {
          assert r[i] == r0[i - (|r0| - k)];
        }
      }
      if k == 0 {
        assert r == r0;
      } else {
        assert r[|r| - 1] == r0[k - 1];
      }
    }

    /** Releases the first packets; all of them must have been sent. */
    method AckData(offset: nat)
      requires Valid() && offset <= cursor
      modifies this`firstBlock, this`count, this`ring, this`cursor
      ensures Valid() && Pending() == old(Pending())[offset..] && cursor == old(cursor) - offset
      ensures Words() == old(Words())[offset..]
      ensures forall b :: b in ring ==> b in old(ring)
    {
      hide Ring, Payloads, WordsOf, Distinct;
      ghost var r0, p, w := ring, Pending(), Words();
      firstBlock := Walk(offset);
      count := count - offset;
      Rotated(r0, offset);
      PartsOf(r0, p, w, offset);
      ring := r0[offset..] + r0[..offset];
      cursor := cursor - offset;
      assert ring[..count] == r0[offset..offset + count];
    }

    method GetCurrBufSize() returns (n: nat)
      requires Valid()
      ensures n == |Pending()|
    {
      n := count;
    }
  }
}
