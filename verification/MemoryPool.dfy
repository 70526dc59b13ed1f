/** The bump allocator of the parser (memory_pool). Addresses are integers; the memory that the
    system hands out is a parameter. */
module MemoryPool {
  import opened Basics

  datatype Region = Region(at: int, size: nat)

  predicate Disjoint(a: Region, b: Region) {
    a.at + a.size <= b.at || b.at + b.size <= a.at
  }

  predicate Inside(a: Region, b: Region) {
    b.at <= a.at && a.at + a.size <= b.at + b.size
  }

  lemma AlignUp(ptr: int, alignment: int)
    requires alignment > 0
    ensures var r := ptr + (alignment - ptr % alignment) % alignment;
            ptr <= r < ptr + alignment && r % alignment == 0
  {
    var m := ptr % alignment;
    var q := ptr / alignment;
    assert ptr == alignment * q + m;
    if m == 0 {
      ModIs(alignment, alignment, 1, 0);
    } else {
      ModIs(alignment - m, alignment, 0, alignment - m);
      ModIs(ptr + (alignment - m), alignment, q + 1, 0);
    }
  }

  /** The next address that is a multiple of the alignment. */
  function Align(ptr: int, alignment: int): (r: int)
    requires alignment > 0
    ensures ptr <= r < ptr + alignment && r % alignment == 0
  {
    AlignUp(ptr, alignment);
    ptr + (alignment - ptr % alignment) % alignment
  }

  class Pool {
    const alignment: int
    const headerSize: nat
    const dynamicSize: nat
    const staticMemory: Region
    var begin: int
    var ptr: int
    var end: int
    /** What stands in the headers, by address: where the previous block begins. */
    var headers: map<int, int>
    /** The blocks, the first one static. */
    ghost var blocks: seq<Region>
    /** Everything in use: block headers and allocations. */
    ghost var taken: seq<Region>
    /** The block that each of them lies in. */
    ghost var home: seq<nat>

    ghost predicate Sizes() {
      alignment > 0 && headerSize > 0
    }

    ghost predicate DifferentStarts()
      reads this`blocks
    {
      forall i, j :: 0 <= i < j < |blocks| ==> blocks[i].at != blocks[j].at
    }

    ghost predicate Blocks()
      reads this`blocks, this`begin, this`end
    {
      && |blocks| > 0 && blocks[0] == staticMemory
      && blocks[|blocks| - 1].at == begin && begin + blocks[|blocks| - 1].size == end
      && (forall i, j :: 0 <= i < j < |blocks| ==> Disjoint(blocks[i], blocks[j])) && DifferentStarts()
    }

    ghost predicate Taken()
      reads this`taken, this`home, this`blocks, this`ptr, this`begin
    {
      && |home| == |taken| && |blocks| > 0
      && (forall i :: 0 <= i < |taken| ==> home[i] < |blocks| && Inside(taken[i], blocks[home[i]]))
      && (forall i :: 0 <= i < |taken| && home[i] == |blocks| - 1 ==> taken[i].at + taken[i].size <= ptr)
      && (forall i, j :: 0 <= i < j < |taken| ==> Disjoint(taken[i], taken[j]))
      && begin <= ptr
    }

    ghost predicate Headed(k: int)
      reads this`blocks, this`headers, this`taken
      requires Sizes() && 0 < k < |blocks|
    {
      var h := Align(blocks[k].at, alignment);
      h in headers && headers[h] == blocks[k - 1].at && Region(h, headerSize) in taken
    }

    /** Each further block begins with an aligned header that names the block before it. */
    ghost predicate Chained()
      reads this`blocks, this`headers, this`taken
      requires Sizes()
    {
      forall k :: 0 < k < |blocks| ==> Headed(k)
    }

    ghost predicate Valid()
      reads this
    {
      Sizes() && Blocks() && Taken() && Chained()
    }

    constructor (alignment: int, headerSize: nat, dynamicSize: nat, staticMemory: Region)
      requires alignment > 0 && headerSize > 0
      ensures Valid() && taken == [] && blocks == [staticMemory]
    {
      this.alignment, this.headerSize, this.dynamicSize := alignment, headerSize, dynamicSize;
      this.staticMemory := staticMemory;
      begin := staticMemory.at;
      ptr := Align(staticMemory.at, alignment);
      end := staticMemory.at + staticMemory.size;
      headers := map[];
      blocks, taken, home := [staticMemory], [], [];
    }

    /** What is asked from the system for a block: two alignments in the worst case, one for the
        header and one for the allocation itself. */
    function RawSize(size: nat): (n: nat)
      requires alignment > 0
      ensures n >= headerSize + 2 * (alignment - 1) + size
    {
      headerSize + (2 * alignment - 2) + if dynamicSize < size then size else dynamicSize
    }

    twostate lemma SameChain()
      requires Sizes() && old(Chained()) && blocks == old(blocks) && headers == old(headers) && old(taken) <= taken
      ensures Chained()
    {
      forall j | 0 < j < |blocks| ensures Headed(j) {
        assert old(Headed(j));
      }
    }

    /** What lies inside the current block at or behind ptr touches nothing that is in use. */
    lemma NothingThere(r: Region)
      requires Blocks() && Taken() && ptr <= r.at && Inside(r, blocks[|blocks| - 1])
      ensures forall i :: 0 <= i < |taken| ==> Disjoint(taken[i], r)
    {
      forall i | 0 <= i < |taken| ensures Disjoint(taken[i], r) {
        if home[i] != |blocks| - 1 {
          assert Disjoint(blocks[home[i]], blocks[|blocks| - 1]);
        }
      }
    }

    /** Uses memory of the current block that lies behind ptr. */
    method Take(r: Region)
      requires Valid() && ptr <= r.at && r.at + r.size <= end
      modifies this`ptr, this`taken, this`home
      ensures Valid() && taken == old(taken) + [r] && ptr == r.at + r.size
      ensures forall i :: 0 <= i < |old(taken)| ==> Disjoint(old(taken)[i], r)
      ensures exists b :: b in blocks && Inside(r, b)
    {
      hide Align, Chained, Headed;
      ghost var k := |blocks| - 1;
      assert blocks[k] in blocks && Inside(r, blocks[k]);
      NothingThere(r);
      ptr := r.at + r.size;
      taken := taken + [r];
      home := home + [k];
      SameChain();
    }

    /** A block behind the others, with its header, continues the chain. */
    twostate lemma StaysChained(block: Region)
      requires Sizes() && old(Chained()) && |old(blocks)| > 0 && blocks == old(blocks) + [block] && old(taken) <= taken
      requires var pool := Align(block.at, alignment);
               && headers == old(headers)[pool := old(blocks)[|old(blocks)| - 1].at]
               && Region(pool, headerSize) in taken
               && forall k :: 0 < k < |old(blocks)| ==> Align(old(blocks)[k].at, alignment) != pool
      ensures Chained()
    {
      hide Align;
      forall k | 0 < k < |blocks| ensures Headed(k) {
        if k < |blocks| - 1 {
          assert old(Headed(k));
          assert blocks[k] == old(blocks)[k] && blocks[k - 1] == old(blocks)[k - 1];
        }
      }
    }

    lemma OutsideBlocks(r: Region, block: Region)
      requires Taken() && Inside(r, block)
      requires forall i :: 0 <= i < |blocks| ==> Disjoint(blocks[i], block)
      ensures forall i :: 0 <= i < |taken| ==> Disjoint(taken[i], r)
    {
      forall i | 0 <= i < |taken| ensures Disjoint(taken[i], r) {
        assert Disjoint(blocks[home[i]], block);
      }
    }

    lemma HeadersElsewhere(header: Region)
      requires Sizes() && Chained() && header.size == headerSize
      requires forall i :: 0 <= i < |taken| ==> Disjoint(taken[i], header)
      ensures forall k :: 0 < k < |blocks| ==> Align(blocks[k].at, alignment) != header.at
    {
      forall k | 0 < k < |blocks| ensures Align(blocks[k].at, alignment) != header.at {
        assert Headed(k);
      }
    }

    /** A new block becomes the current one, with a header that leads back to the old one. */
    method NewBlock(size: nat, raw: int)
      requires Valid()
      requires forall i :: 0 <= i < |blocks| ==>
                 Disjoint(blocks[i], Region(raw, RawSize(size))) && blocks[i].at != raw
      modifies this
      ensures Valid() && blocks == old(blocks) + [Region(raw, RawSize(size))]
      ensures taken == old(taken) + [Region(Align(raw, alignment), headerSize)]
      ensures Align(ptr, alignment) + size <= end
    {
      hide Align, Chained, Headed;
      var pool := Align(raw, alignment);
      ghost var header, block := Region(pool, headerSize), Region(raw, RawSize(size));
      OutsideBlocks(header, block);
      HeadersElsewhere(header);
      headers := headers[pool := begin];
      begin := raw;
      ptr := pool + headerSize;
      end := raw + RawSize(size);
      blocks := blocks + [block];
      taken := taken + [header];
      home := home + [|blocks| - 1];
      assert header == taken[|taken| - 1];
      StaysChained(block);
    }

    /** Room for size bytes. When the current block is full a new one is set up at `raw`, memory that
        does not touch any block in use. */
    method AllocateAligned(size: nat, raw: int) returns (result: int)
      requires Valid()
      requires forall i :: 0 <= i < |blocks| ==>
                 Disjoint(blocks[i], Region(raw, RawSize(size))) && blocks[i].at != raw
      modifies this
      ensures Valid() && result % alignment == 0
      ensures |taken| > 0 && old(taken) <= taken[..|taken| - 1] && taken[|taken| - 1] == Region(result, size)
      ensures forall i :: 0 <= i < |taken| - 1 ==> Disjoint(taken[i], Region(result, size))
      ensures exists b :: b in blocks && Inside(Region(result, size), b)
      ensures blocks == if Align(old(ptr), alignment) + size <= old(end) then old(blocks)
                        else old(blocks) + [Region(raw, RawSize(size))]
    {
      result := Align(ptr, alignment);
      if result + size > end {
        NewBlock(size, raw);
        result := Align(ptr, alignment);
      }
      Take(Region(result, size));
    }

    lemma HeaderLeads(k: int)
      requires Sizes() && Chained() && 0 < k < |blocks|
      ensures var h := Align(blocks[k].at, alignment); h in headers && headers[h] == blocks[k - 1].at
    {
      hide Align;
      assert Headed(k);
    }

    lemma NothingTaken()
      requires taken == [] && home == [] && |blocks| > 0 && begin <= ptr
      ensures Taken()
    {
    }

    /** Gives every block but the static one back, the newest first, following the headers. */
    method Clear() returns (ghost freed: seq<int>)
      requires Valid()
      modifies this
      ensures Valid() && taken == [] && blocks == [staticMemory]
      ensures |freed| == |old(blocks)| - 1
      ensures forall i :: 0 <= i < |freed| ==> freed[i] == old(blocks)[|old(blocks)| - 1 - i].at
    {
      hide Align, Headed, Taken, Disjoint, Inside;
      freed := [];
      ghost var k := |blocks| - 1;
      while begin != staticMemory.at
        invariant 0 <= k < |blocks| && begin == blocks[k].at && |freed| == |blocks| - 1 - k
        invariant forall i :: 0 <= i < |freed| ==> freed[i] == blocks[|blocks| - 1 - i].at
        invariant blocks == old(blocks) && headers == old(headers) && taken == old(taken)
        invariant Chained() && DifferentStarts()
        decreases k
      {
        freed := freed + [begin];
        HeaderLeads(k);
        begin := headers[Align(begin, alignment)];
        k := k - 1;
      }
      ptr := Align(begin, alignment);
      end := staticMemory.at + staticMemory.size;
      headers := map[];
      blocks, taken, home := [staticMemory], [], [];
      NothingTaken();
    }
  }
}
