/** The pool of packet units that the receive buffers share (class CUnitQueue). */
module UnitQueue {
  import opened Basics

  class CUnit {
    var flag: int                 // 0: free, 1: occupied, 2: read before its turn, 3: dropped
    var payload: Bytes
    var word: int                 // the message word of the packet header
    ghost var owner: object?      // the buffer that holds the unit
    ghost var number: int         // its sequence number there

    constructor (payload: Bytes, word: int)
      ensures flag == 0 && this.payload == payload && this.word == word && owner == null
    {
      flag := 0;
      this.word := word;
      this.payload := payload;
      owner := null;
    }
  }

  function Units(entries: seq<seq<CUnit>>): (units: seq<CUnit>) {
    if entries == [] then [] else Units(entries[..|entries| - 1]) + entries[|entries| - 1]
  }

  ghost predicate Different(units: seq<CUnit>) {
    forall i, j :: 0 <= i < j < |units| ==> units[i] != units[j]
  }

  lemma Subset<T>(a: set<T>, b: set<T>)
    requires a <= b
    ensures |a| <= |b|
  {
    assert b == a + (b - a);
  }

  lemma {:induction false} SetSize(units: seq<CUnit>)
    requires Different(units)
    ensures |set u | u in units| == |units|
  {
    if units != [] {
      var init, last := units[..|units| - 1], units[|units| - 1];
      SetSize(init);
      assert (set u | u in units) == (set u | u in init) + {last};
      assert last !in init;
    }
  }

  lemma BothDifferent(a: seq<CUnit>, b: seq<CUnit>)
    requires Different(a) && Different(b) && forall u :: u in b ==> u !in a
    ensures Different(a + b)
  {
    forall i, j | 0 <= i < j < |a + b| ensures (a + b)[i] != (a + b)[j] {
      if i < |a| <= j {
        assert b[j - |a|] in b;
      }
    }
  }

  lemma {:induction false} UnitsPrefix(entries: seq<seq<CUnit>>, e: nat)
    requires e < |entries|
    ensures Units(entries[..e]) + entries[e] <= Units(entries)
    decreases |entries|
  {
    if e == |entries| - 1 {
    } else {
      var init := entries[..|entries| - 1];
      UnitsPrefix(init, e);
      assert init[..e] == entries[..e];
    }
  }

  class CUnitQueue {
    var count: int
    /** The blocks of units, in the order of their ring. */
    var entries: seq<seq<CUnit>>
    var size: int
    var current: nat
    var avail: nat
    ghost var pool: set<CUnit>

    ghost function Used(): set<CUnit>
      reads this`pool, pool`flag
    {
      set u | u in pool && u.flag != 0
    }

    /** A unit is marked as used exactly while some buffer holds it, and count counts those. */
    ghost predicate Valid()
      reads this`count, this`pool, pool`flag, pool`owner
    {
      && count == |Used()|
      && forall u :: u in pool ==> (u.flag != 0 <==> u.owner != null)
    }

    /** The blocks hold the units of the pool, each once. */
    ghost predicate Shaped()
      reads this`entries, this`size, this`current, this`avail, this`pool
    {
      && |entries| > 0 && current < |entries| && avail < |entries[current]|
      && (forall e :: 0 <= e < |entries| ==> |entries[e]| == |entries[0]| > 0)
      && Different(Units(entries)) && size == |Units(entries)|
      && pool == set u | u in Units(entries)
    }

    static method NewUnits(n: nat) returns (units: seq<CUnit>)
      ensures |units| == n && Different(units)
      ensures forall u :: u in units ==> fresh(u) && u.flag == 0 && u.owner == null
    {
      units := [];
      for i := 0 to n
        invariant |units| == i && Different(units)
        invariant forall u :: u in units ==> fresh(u) && u.flag == 0 && u.owner == null
      {
        var u := new CUnit([], 0);
        units := units + [u];
      }
    }

    constructor (size: nat)
      requires size > 0
      ensures Valid() && Shaped() && fresh(pool) && forall u :: u in pool ==> u.flag == 0
      ensures |entries| == 1 && |entries[0]| == size && current == avail == 0 && count == 0
    {
      new;
      var units := NewUnits(size);
      entries := [units];
      this.size, current, avail, count := size, 0, 0, 0;
      pool := set u | u in units;
      assert Units(entries[..0]) == [];
      assert Units(entries) == units;
      assert Used() == {};
    }

    // ---- growing -----------------------------------------------------------------------

    /** The used ones among some units. */
    ghost function UsedIn(units: seq<CUnit>): set<CUnit>
      reads units`flag
    {
      set u | u in units && u.flag != 0
    }

    lemma UsedNext(units: seq<CUnit>, u: CUnit)
      requires u !in units
      ensures |UsedIn(units + [u])| == |UsedIn(units)| + if u.flag != 0 then 1 else 0
    {
      assert UsedIn(units + [u]) == UsedIn(units) + if u.flag != 0 then {u} else {};
    }

    lemma OneMore(e: nat, i: nat)
      requires Shaped() && e < |entries| && i < |entries[e]|
      ensures entries[e][i] !in Units(entries[..e]) + entries[e][..i]
    {
      UnitsPrefix(entries, e);
      var all := Units(entries);
      var k := |Units(entries[..e])|;
      assert Units(entries[..e]) + entries[e][..i] == all[..k + i];
      assert all[k + i] == entries[e][i];
    }

    method CountBlock(e: nat, ghost sofar: int) returns (used: int)
      requires Shaped() && e < |entries| && sofar == |UsedIn(Units(entries[..e]))|
      ensures sofar + used == |UsedIn(Units(entries[..e + 1]))|
    {
      hide Different;
      ghost var before, block := Units(entries[..e]), entries[e];
      assert entries[..e + 1][..e] == entries[..e] && before + block[..0] == before;
      used := 0;
      for i := 0 to |entries[e]|
        invariant sofar + used == |UsedIn(before + block[..i])|
      {
        OneMore(e, i);
        UsedNext(before + block[..i], block[i]);
        assert before + block[..i + 1] == before + block[..i] + [block[i]];
        if entries[e][i].flag != 0 {
          used := used + 1;
        }
      }
      assert before + block[..|block|] == Units(entries[..e + 1]);
    }

    /** Counts the used units one by one. */
    method Recount() returns (used: int)
      requires Valid() && Shaped()
      ensures used == count
    {
      used := 0;
      for e := 0 to |entries|
        invariant used == |UsedIn(Units(entries[..e]))|
      {
        var more := CountBlock(e, used);
        used := used + more;
      }
      assert entries[..|entries|] == entries;
      assert UsedIn(Units(entries)) == Used();
    }

    method AddBlock(units: seq<CUnit>)
      requires Valid() && Shaped() && |units| == |entries[0]| && Different(units)
      requires forall u :: u in units ==> u !in pool && u.flag == 0 && u.owner == null
      modifies this`entries, this`size, this`pool
      ensures Valid() && Shaped() && entries == old(entries) + [units] && pool == old(pool) + set u | u in units
      ensures old(pool) < pool
    {
      ghost var all := Units(entries);
      entries := entries + [units];
      assert entries[..|entries| - 1] == old(entries);
      BothDifferent(all, units);
      size := size + |units|;
      assert units[0] in units && units[0] !in pool;
      pool := pool + set u | u in units;
      assert Used() == old(Used());
    }

    /** Corrects the count, which changes nothing, and adds a block if nine tenths are in use. */
    method Increase()
      requires Valid() && Shaped()
      modifies this`count, this`entries, this`size, this`pool
      ensures Valid() && Shaped() && count == old(count)
      ensures if 10 * count < 9 * old(size) then entries == old(entries) && pool == old(pool)
              else |entries| == |old(entries)| + 1 && old(entries) < entries && old(pool) < pool
                   && forall u :: u in pool && u !in old(pool) ==> fresh(u) && u.flag == 0 && u.owner == null
    {
      count := Recount();
      if 10 * count < 9 * size {
        return;
      }
      var units := NewUnits(|entries[0]|);
      AddBlock(units);
    }

    // ---- looking for a free unit -------------------------------------------------------

    /** Whether the search that starts at (entrance, from) looks at unit i of block e: it skips the last
        unit of each block, unless that is the only one, and in the first block those before its start. */
    predicate Tested(entries: seq<seq<CUnit>>, entrance: nat, from: nat, e: nat, i: nat)
      requires e < |entries| && i < |entries[e]|
    {
      i == 0 || (i < |entries[e]| - 1 && (e != entrance || i >= from))
    }

    /** What the search misses: in every block but those of one unit the last one, and in the first block
        what stands before its start, except for the first unit. */
    lemma TestedExact(entries: seq<seq<CUnit>>, entrance: nat, from: nat, e: nat, i: nat)
      requires e < |entries| && i < |entries[e]|
      ensures !Tested(entries, entrance, from, e, i) <==>
                0 < i && (i == |entries[e]| - 1 || (e == entrance && i < from))
    {
    }

    lemma InPool(e: nat, i: nat)
      requires Shaped() && e < |entries| && i < |entries[e]|
      ensures entries[e][i] in pool
    {
      UnitsPrefix(entries, e);
      var k := |Units(entries[..e])|;
      assert Units(entries)[k + i] == entries[e][i];
    }

    lemma CountFits()
      requires Valid() && Shaped()
      ensures count <= size && size > 0
    {
      SetSize(Units(entries));
      assert Used() <= pool;
      Subset(Used(), pool);
      InPool(0, 0);
    }

    /** A block that was added has its first unit free. */
    lemma FirstOfNew(before: seq<seq<CUnit>>)
      requires Valid() && Shaped() && |entries| == |before| + 1 && before < entries
      requires forall u :: u in pool && u !in Units(before) ==> u.flag == 0
      ensures Tested(entries, current, avail, |before|, 0) && entries[|before|][0].flag == 0
      ensures count < size
    {
      var e := |before|;
      InPool(e, 0);
      assert entries[..e] == before;
      OneMore(e, 0);
      assert entries[e][..0] == [];
      SetSize(Units(entries));
      assert entries[e][0] !in Used() && Used() <= pool - {entries[e][0]};
      Subset(Used(), pool - {entries[e][0]});
    }

    /** The blocks that the first turns of a round from `entrance` visit. */
    predicate Passed(e: nat, entrance: nat, turns: int, n: nat) {
      (if e >= entrance then e - entrance else e - entrance + n) < turns
    }

    /** One block, from avail to the unit before the last, and then the first unit. */
    method SearchBlock() returns (unit: CUnit?, ghost at: nat)
      requires Shaped()
      modifies this`avail
      ensures Shaped()
      ensures unit != null ==>
                at == avail && unit == entries[current][at] && unit.flag == 0
                && (at == 0 || old(avail) <= at < |entries[current]| - 1)
      ensures unit == null ==>
                entries[current][0].flag != 0 &&
                forall i :: old(avail) <= i < |entries[current]| - 1 ==> entries[current][i].flag != 0
    {
      hide Units, Different;
      at := 0;
      while avail != |entries[current]| - 1
        invariant Shaped() && old(avail) <= avail
        invariant forall i :: old(avail) <= i < avail ==> entries[current][i].flag != 0
        decreases |entries[current]| - avail
      {
        if entries[current][avail].flag == 0 {
          return entries[current][avail], avail;
        }
        avail := avail + 1;
      }
      if entries[current][0].flag == 0 {
        avail := 0;
        return entries[current][0], 0;
      }
      return null, 0;
    }

    /** The round through the blocks. */
    method Search() returns (unit: CUnit?)
      requires Valid() && Shaped()
      modifies this`current, this`avail
      ensures Shaped()
      ensures unit != null ==>
                unit in pool && unit.flag == 0 && unit == entries[current][avail]
                && Tested(entries, old(current), old(avail), current, avail)
      ensures unit == null <==>
                forall e, i | 0 <= e < |entries| && 0 <= i < |entries[e]|
                              && Tested(entries, old(current), old(avail), e, i) :: entries[e][i].flag != 0
    {
      hide Units, Different;
      var entrance := current;
      ghost var from, turns := avail, 0;
      var more := true;
      while more
        invariant Shaped() && 0 <= turns <= |entries| && (if turns == 0 then avail == from else avail == 0)
        invariant current == if entrance + turns < |entries| then entrance + turns else entrance + turns - |entries|
        invariant more <==> turns < |entries|
        invariant forall e, i | 0 <= e < |entries| && 0 <= i < |entries[e]| && Tested(entries, entrance, from, e, i)
                                && Passed(e, entrance, turns, |entries|) :: entries[e][i].flag != 0
        decreases |entries| - turns
      {
        ghost var at;
        unit, at := SearchBlock();
        if unit != null {
          assert Tested(entries, entrance, from, current, at);
          InPool(current, at);
          return;
        }
        current := if current + 1 == |entries| then 0 else current + 1;
        avail := 0;
        turns := turns + 1;
        more := current != entrance;
      }
      return null;
    }

    /** A free unit. There is always one above nine tenths in use, since a block is added; below, null
        is returned exactly when every tested unit is in use. */
    method GetNextAvailUnit() returns (unit: CUnit?)
      requires Valid() && Shaped()
      modifies this`count, this`entries, this`size, this`pool, this`current, this`avail
      ensures Valid() && Shaped() && count == old(count) && old(entries) <= entries && old(pool) <= pool
      ensures forall u :: u in pool && u !in old(pool) ==> fresh(u) && u.flag == 0 && u.owner == null
      ensures unit != null ==> unit in pool && unit.flag == 0 && unit == entries[current][avail]
      ensures unit != null && 10 * count <= 9 * old(size) ==>
                entries == old(entries) && Tested(entries, old(current), old(avail), current, avail)
      ensures unit == null <==>
                10 * count <= 9 * old(size) &&
                forall e, i | 0 <= e < |old(entries)| && 0 <= i < |old(entries)[e]|
                              && Tested(old(entries), old(current), old(avail), e, i) :: old(entries)[e][i].flag != 0
    {
      ghost var before := entries;
      CountFits();
      if count * 10 > size * 9 {
        Increase();
        FirstOfNew(before);
      }
      if count >= size {
        assert false;
        return null;
      }
      unit := Search();
      if unit == null {
        Increase();
      }
    }
  }
}
