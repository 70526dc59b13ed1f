/** The receiver's socket list (CRcvUList), ordered by the time of the last visit, and the timer loop
    of the receiving thread over it. */
module RcvTimerList {

  class CRNode {
    var timeStamp: int
    var prev: CRNode?
    var next: CRNode?
    var onList: bool

    constructor ()
      ensures !onList && prev == null && next == null
    {
      timeStamp, prev, next, onList := 1, null, null, false;
    }
  }

  function Without(s: seq<CRNode>, n: CRNode): (r: seq<CRNode>) {
    if s == [] then [] else if s[0] == n then s[1..] else [s[0]] + Without(s[1..], n)
  }

  lemma {:induction false} WithoutAt(s: seq<CRNode>, k: nat)
    requires k < |s| && forall i :: 0 <= i < k ==> s[i] != s[k]
    ensures Without(s, s[k]) == s[..k] + s[k + 1..]
  {
    if k == 0 {
      assert s[..0] == [];
    } else {
      WithoutAt(s[1..], k - 1);
      assert [s[0]] + s[1..][..k - 1] == s[..k];
    }
  }

  /** Those of the nodes that are in a set. */
  function Those(s: seq<CRNode>, alive: set<CRNode>): (r: seq<CRNode>)
    ensures forall i :: 0 <= i < |r| ==> r[i] in s && r[i] in alive
  {
    if s == [] then []
    else Those(s[..|s| - 1], alive) + if s[|s| - 1] in alive then [s[|s| - 1]] else []
  }

  lemma {:induction false} ThoseExact(s: seq<CRNode>, alive: set<CRNode>)
    ensures forall n :: n in Those(s, alive) <==> n in s && n in alive
  {
    if s != [] {
      var init, last := s[..|s| - 1], s[|s| - 1];
      ThoseExact(init, alive);
      assert s == init + [last];
    }
  }

  lemma ThoseAppend(s: seq<CRNode>, n: CRNode, alive: set<CRNode>)
    ensures Those(s + [n], alive) == Those(s, alive) + if n in alive then [n] else []
  {
    assert (s + [n])[..|s|] == s;
  }

  lemma OneMore<T>(s: seq<T>, i: nat)
    requires i < |s|
    ensures s[..i + 1] == s[..i] + [s[i]]
  {
  }

  ghost predicate Different(s: seq<CRNode>) {
    forall i, j :: 0 <= i < j < |s| ==> s[i] != s[j]
  }

  ghost function At(s: seq<CRNode>, i: int): CRNode? {
    if 0 <= i < |s| then s[i] else null
  }

  ghost predicate Sorted(s: seq<CRNode>)
    reads s`timeStamp
  {
    forall i, j :: 0 <= i < j < |s| ==> s[i].timeStamp <= s[j].timeStamp
  }

  ghost predicate AllOn(s: seq<CRNode>)
    reads s`onList
  {
    forall n :: n in s ==> n.onList
  }

  ghost predicate AllUpTo(s: seq<CRNode>, time: int)
    reads s`timeStamp
  {
    forall n :: n in s ==> n.timeStamp <= time
  }

  lemma SortedSkip(s: seq<CRNode>, k: nat)
    requires k < |s| && Sorted(s) && AllOn(s)
    ensures var r := s[..k] + s[k + 1..];
            Sorted(r) && AllOn(r) && forall n :: n in r ==> n in s
  {
  }

  lemma UpToLater(s: seq<CRNode>, time: int, time': int)
    requires AllUpTo(s, time) && time <= time'
    ensures AllUpTo(s, time')
  {
  }

  lemma UpToPart(s: seq<CRNode>, r: seq<CRNode>, time: int)
    requires AllUpTo(s, time) && forall n :: n in r ==> n in s
    ensures AllUpTo(r, time)
  {
  }

  lemma SortedAppend(s: seq<CRNode>, n: CRNode)
    requires Sorted(s) && AllUpTo(s, n.timeStamp) && AllOn(s) && n.onList
    ensures Sorted(s + [n]) && AllOn(s + [n])
  {
  }

  lemma AtIs(s: seq<CRNode>, i: int)
    ensures At(s, i) == if 0 <= i < |s| then s[i] else null
  {
  }

  ghost function TimesOf(s: seq<CRNode>): (times: seq<int>)
    reads s`timeStamp
    ensures |times| == |s| && forall j :: 0 <= j < |s| ==> times[j] == s[j].timeStamp
  {
    if s == [] then [] else [s[0].timeStamp] + TimesOf(s[1..])
  }

  ghost function FlagsOf(s: seq<CRNode>): (on: seq<bool>)
    reads s`onList
    ensures |on| == |s| && forall j :: 0 <= j < |s| ==> on[j] == s[j].onList
  {
    if s == [] then [] else [s[0].onList] + FlagsOf(s[1..])
  }

  /** The first i of the nodes s, with the time stamps `times`, were visited: the others stand first in
      the list, unchanged, then those that live, with new stamps; the dead ones have left. */
  ghost predicate Visited(s: seq<CRNode>, times: seq<int>, stamps: seq<int>, on: seq<bool>, list: seq<CRNode>,
                          i: nat, alive: set<CRNode>, ctime: int)
    requires i <= |s| == |times| == |stamps| == |on|
  {
    && list == s[i..] + Those(s[..i], alive)
    && (forall j :: i <= j < |s| ==> stamps[j] == times[j])
    && (forall j :: 0 <= j < i ==> times[j] < ctime)
    && (forall j :: 0 <= j < i && s[j] in alive ==> ctime <= stamps[j])
    && (forall j :: 0 <= j < i && s[j] !in alive ==> !on[j])
  }

  lemma VisitedNext(s: seq<CRNode>, times: seq<int>, stamps: seq<int>, on: seq<bool>, list: seq<CRNode>,
                    i: nat, alive: set<CRNode>, ctime: int, stamp: int, flag: bool)
    requires i < |s| == |times| == |stamps| == |on| && Visited(s, times, stamps, on, list, i, alive, ctime)
    requires times[i] < ctime && (s[i] in alive ==> ctime <= stamp) && (s[i] !in alive ==> !flag)
    ensures Visited(s, times, stamps[i := stamp], on[i := flag],
                    list[1..] + (if s[i] in alive then [s[i]] else []), i + 1, alive, ctime)
  {
    ThoseAppend(s[..i], s[i], alive);
    assert s[..i + 1] == s[..i] + [s[i]];
  }

  class CRcvUList {
    var pUList: CRNode?
    var pLast: CRNode?
    /** The nodes from the first to the last. */
    ghost var list: seq<CRNode>

    ghost predicate Linked()
      reads this, list`prev, list`next
    {
      && Different(list)
      && pUList == At(list, 0) && pLast == At(list, |list| - 1)
      && forall i :: 0 <= i < |list| ==> list[i].next == At(list, i + 1) && list[i].prev == At(list, i - 1)
    }

    ghost predicate Valid()
      reads this, list
    {
      Linked() && Sorted(list) && AllOn(list)
    }

    constructor ()
      ensures Valid() && list == []
    {
      pUList, pLast, list := null, null, [];
    }

    ghost function Last(): set<CRNode>
      reads this`pLast
    {
      if pLast == null then {} else {pLast}
    }

    method Append(n: CRNode)
      requires Linked() && n !in list
      modifies this, n`prev, n`next, Last()`next
      ensures Linked() && list == old(list) + [n]
    {
      hide At;
      ghost var s := list;
      AtIs(s, 0);
      AtIs(s, |s| - 1);
      if pUList == null {
        n.prev, n.next := null, null;
        pUList, pLast := n, n;
      } else {
        assert pLast == s[|s| - 1];
        n.prev := pLast;
        n.next := null;
        pLast.next := n;
        pLast := n;
      }
      list := list + [n];
      forall i | 0 <= i < |list| ensures list[i].next == At(list, i + 1) && list[i].prev == At(list, i - 1) {
        AtIs(list, i + 1);
        AtIs(list, i - 1);
        AtIs(s, i + 1);
        AtIs(s, i - 1);
        if i < |s| {
          assert list[i] == s[i] && s[i] != n;
        }
      }
      AtIs(list, 0);
      AtIs(list, |s|);
    }

    /** A node with the latest time fits behind all others. */
    method Visit(ghost r: seq<CRNode>, n: CRNode, now: int)
      requires n !in r && Sorted(r) && AllOn(r) && AllUpTo(r, now) && n.onList
      modifies n`timeStamp
      ensures n.timeStamp == now && Sorted(r + [n]) && AllOn(r + [n])
    {
      n.timeStamp := now;
      SortedAppend(r, n);
    }

    /** Appends a node, with the time on the clock. */
    method Insert(n: CRNode, now: int)
      requires Valid() && n !in list && n.onList && AllUpTo(list, now)
      modifies this, n`timeStamp, n`prev, n`next, Last()`next
      ensures Valid() && list == old(list) + [n] && n.timeStamp == now
    {
      hide At, Different, Linked, Sorted, AllOn, AllUpTo;
      Visit(list, n, now);
      Append(n);
    }

    lemma LastIsIn()
      requires Linked()
      ensures forall m :: m in Last() ==> m in list
    {
    }

    lemma LinkedApart(k: nat)
      requires Linked() && k < |list|
      ensures forall j :: 0 <= j < |list| && j != k ==> list[j] != list[k]
      ensures list[k] !in list[..k] + list[k + 1..]
      ensures list[k].next == null <==> k == |list| - 1
    {
    }

    static lemma Shifted(s: seq<CRNode>, k: nat, i: int)
      requires k < |s|
      ensures At(s[..k] + s[k + 1..], i) == At(s, if i < k then i else i + 1)
    {
    }

    static lemma Apart(s: seq<CRNode>, k: nat)
      requires k < |s| && Different(s)
      ensures forall j :: 0 <= j < |s| && j != k ==> s[j] != s[k]
    {
    }

    /** Leads the links around the node at k. */
    method Bypass(n: CRNode, ghost k: nat)
      requires Linked() && k < |list| && list[k] == n
      modifies this`pUList, this`pLast, list`prev, list`next
      ensures pUList == At(list, if k == 0 then 1 else 0)
      ensures pLast == At(list, if k == |list| - 1 then k - 1 else |list| - 1)
      ensures forall j :: 0 <= j < |list| && j != k ==>
                list[j].next == At(list, if j == k - 1 then k + 1 else j + 1) &&
                list[j].prev == At(list, if j == k + 1 then k - 1 else j - 1)
    {
      hide Different, At;
      Apart(list, k);
      if k > 0 { Apart(list, k - 1); }
      if k + 1 < |list| { Apart(list, k + 1); }
      AtIs(list, k - 1);
      AtIs(list, k + 1);
      AtIs(list, 0);
      AtIs(list, 1);
      AtIs(list, |list| - 1);
      if n.prev == null {
        pUList := n.next;
        if pUList == null {
          pLast := null;
        } else {
          pUList.prev := null;
        }
      } else {
        n.prev.next := n.next;
        if n.next == null {
          pLast := n.prev;
        } else {
          n.next.prev := n.prev;
        }
      }
    }

    static lemma Skipped(s: seq<CRNode>, k: nat)
      requires k < |s| && Different(s)
      ensures Different(s[..k] + s[k + 1..]) && s[k] !in s[..k] + s[k + 1..]
    {
    }

    method Unlink(n: CRNode, ghost k: nat)
      requires Linked() && k < |list| && list[k] == n
      modifies this, list`prev, list`next
      ensures Linked() && list == old(list)[..k] + old(list)[k + 1..]
    {
      hide Different, At;
      ghost var s := list;
      Bypass(n, k);
      list := s[..k] + s[k + 1..];
      Skipped(s, k);
      Shifted(s, k, 0);
      Shifted(s, k, |list| - 1);
      forall i | 0 <= i < |list| ensures list[i].next == At(list, i + 1) && list[i].prev == At(list, i - 1) {
        ghost var j := if i < k then i else i + 1;
        assert list[i] == s[j] && j != k;
        Shifted(s, k, i + 1);
        Shifted(s, k, i - 1);
      }
    }

    method TakeOut(n: CRNode)
      requires Linked() && Sorted(list) && AllOn(list) && n in list
      modifies this, list`prev, list`next
      ensures Linked() && list == Without(old(list), n) && n !in list
      ensures Sorted(list) && AllOn(list) && forall m :: m in list ==> m in old(list)
    {
      hide Different, At, Linked, Sorted, AllOn, Without;
      ghost var k :| 0 <= k < |list| && list[k] == n;
      LinkedApart(k);
      WithoutAt(list, k);
      SortedSkip(list, k);
      Unlink(n, k);
    }

    method ClearLinks(n: CRNode)
      requires Linked() && n !in list
      modifies n`prev, n`next
      ensures Linked()
    {
      n.next, n.prev := null, null;
    }

    /** Takes a node off the list. */
    method Remove(n: CRNode)
      requires Valid() && (n.onList ==> n in list)
      modifies this, list`prev, list`next
      ensures Valid() && list == if n.onList then Without(old(list), n) else old(list)
    {
      hide Different, At, Linked, Sorted, AllOn, Without;
      if !n.onList {
        return;
      }
      TakeOut(n);
      ClearLinks(n);
    }

    /** The last node keeps its place. */
    method Stamp(n: CRNode, now: int)
      requires Valid() && n in list && n.onList && n.next == null && AllUpTo(list, now)
      modifies n`timeStamp
      ensures Valid() && n.timeStamp == now && list == Without(list, n) + [n]
    {
      hide Different, At, Linked, Sorted, AllOn, AllUpTo, Without;
      ghost var k :| 0 <= k < |list| && list[k] == n;
      LinkedApart(k);
      WithoutAt(list, k);
      ghost var r := list[..k];
      assert list[k + 1..] == [] && list[..k] + list[k + 1..] == r && list == r + [n];
      SortedSkip(list, k);
      UpToPart(list, r, now);
      Visit(r, n, now);
    }

    /** A node that is not the last one goes to the end. */
    method Relocate(n: CRNode, now: int)
      requires Valid() && n.onList && n in list && AllUpTo(list, now)
      modifies this, list`prev, list`next, n`timeStamp, n`prev, n`next
      ensures Valid() && list == Without(old(list), n) + [n] && n.timeStamp == now
    {
      hide Different, At, Linked, Sorted, AllOn, AllUpTo, Without, Last;
      ghost var s := list;
      TakeOut(n);
      UpToPart(s, list, now);
      LastIsIn();
      Insert(n, now);
    }

    /** Marks a node as visited now: it goes to the end. */
    method Update(n: CRNode, now: int)
      requires Valid() && (n.onList ==> n in list) && AllUpTo(list, now)
      modifies this, list`prev, list`next, n`timeStamp, n`prev, n`next
      ensures Valid()
      ensures list == if n.onList then Without(old(list), n) + [n] else old(list)
      ensures n.onList ==> n.timeStamp == now
    {
      if !n.onList {
        return;
      }
      hide Different, At, Linked, Sorted, AllOn, AllUpTo, Without;
      if n.next == null {
        Stamp(n, now);
        return;
      }
      Relocate(n, now);
    }

    lemma FirstIs(u: CRNode)
      requires Linked() && list != [] && pUList == u
      ensures u == list[0] && u in list && u !in list[1..] && Without(list, u) == list[1..]
    {
    }

    /** One turn of the timer loop: a live socket is visited and goes to the end, a dead one leaves. */
    method VisitFirst(u: CRNode, alive: set<CRNode>, now: int)
      requires Valid() && list != [] && pUList == u && AllUpTo(list, now)
      modifies this, list`prev, list`next, u
      ensures Valid() && AllUpTo(list, now) && u == old(list)[0]
      ensures list == old(list)[1..] + if u in alive then [u] else []
      ensures u in alive ==> u.timeStamp == now
      ensures u !in alive ==> !u.onList
    {
      hide Different, Linked, Sorted;
      FirstIs(u);
      ghost var s := list;
      if u in alive {
        Update(u, now);
      } else {
        Remove(u);
        u.onList := false;
      }
    }

    /** After the first i nodes of s were visited; times are the time stamps before. */
    ghost predicate Turned(s: seq<CRNode>, times: seq<int>, i: nat, alive: set<CRNode>, ctime: int)
      reads this`list, s`timeStamp, s`onList
      requires i <= |s| == |times|
    {
      Different(s) && Visited(s, times, TimesOf(s), FlagsOf(s), list, i, alive, ctime)
    }

    lemma NotTurned(s: seq<CRNode>, times: seq<int>, alive: set<CRNode>, ctime: int)
      requires Linked() && s == list && times == TimesOf(s)
      ensures Turned(s, times, 0, alive, ctime)
    {
    }

    lemma AllTurned(s: seq<CRNode>, times: seq<int>, i: nat, alive: set<CRNode>, ctime: int)
      requires i <= |s| == |times| && Turned(s, times, i, alive, ctime)
      requires forall n :: n in list ==> ctime <= n.timeStamp
      ensures list == s[i..] + Those(s[..i], alive)
      ensures forall j :: 0 <= j < |s| ==> (s[j] in s[..i] <==> times[j] < ctime)
      ensures forall n :: n in s[..i] && n !in alive ==> !n.onList
      ensures forall n :: n in s[..i] && n in alive ==> n in list
    {
      ThoseExact(s[..i], alive);
      forall j | 0 <= j < |s| ensures s[j] in s[..i] <==> times[j] < ctime {
        if j >= i {
          assert s[j] == s[i..][j - i] && s[j] in list;
        } else {
          assert s[j] == s[..i][j];
        }
      }
    }

    lemma StampOf(s: seq<CRNode>, times: seq<int>, i: nat, alive: set<CRNode>, ctime: int)
      requires i < |s| == |times| && Turned(s, times, i, alive, ctime)
      ensures times[i] == s[i].timeStamp
    {
    }

    lemma HeadTurned(s: seq<CRNode>, times: seq<int>, i: nat, u: CRNode, alive: set<CRNode>, ctime: int)
      requires i <= |s| == |times| && Turned(s, times, i, alive, ctime)
      requires list != [] && list[0] == u && u.timeStamp < ctime
      ensures i < |s| && u == s[i] && forall j :: 0 <= j < |s| && j != i ==> s[j] != u
    {
      var those := Those(s[..i], alive);
      assert forall k :: 0 <= k < |those| ==> ctime <= those[k].timeStamp;
      assert i == |s| ==> list == those;
    }

    lemma HeadOf()
      requires Linked()
      ensures pUList != null ==> list != [] && list[0] == pUList
      ensures pUList == null ==> list == []
    {
    }

    method TimerTurn(ghost s: seq<CRNode>, ghost times: seq<int>, ghost i: nat, u: CRNode, alive: set<CRNode>,
                     ctime: int, now: int)
      requires Valid() && i <= |s| == |times| && Turned(s, times, i, alive, ctime)
      requires pUList == u && u.timeStamp < ctime <= now && AllUpTo(list, now)
      modifies this, list`prev, list`next, u
      ensures Valid() && AllUpTo(list, now) && i < |s| && u == s[i] && Turned(s, times, i + 1, alive, ctime)
      ensures forall k :: 0 <= k < |list| ==> list[k] in old(list)
    {
      hide At, Linked, Without, Sorted, AllUpTo, AllOn, Different, Those, Visited, TimesOf, FlagsOf;
      HeadOf();
      HeadTurned(s, times, i, u, alive, ctime);
      ghost var stamps, on, before := TimesOf(s), FlagsOf(s), list;
      assert times[i] < ctime by { StampOf(s, times, i, alive, ctime); }
      VisitFirst(u, alive, now);
      assert TimesOf(s) == stamps[i := u.timeStamp];
      assert FlagsOf(s) == on[i := u.onList];
      VisitedNext(s, times, stamps, on, before, i, alive, ctime, u.timeStamp, u.onList);
    }

    lemma NoneStale(ctime: int)
      requires Linked() && Sorted(list) && (pUList == null || pUList.timeStamp >= ctime)
      ensures forall n :: n in list ==> ctime <= n.timeStamp
    {
      forall n | n in list ensures ctime <= n.timeStamp {
        var k :| 0 <= k < |list| && list[k] == n;
        assert k > 0 ==> list[0].timeStamp <= list[k].timeStamp;
      }
    }

    /** The timer loop visits exactly the sockets that were not visited since ctime, in order. */
    method CheckTimers(ctime: int, alive: set<CRNode>, clock: nat -> int) returns (visited: seq<CRNode>)
      requires Valid() && AllUpTo(list, clock(0)) && ctime <= clock(0)
      requires forall i, j :: 0 <= i <= j ==> clock(i) <= clock(j)
      modifies this, list
      ensures Valid() && visited <= old(list)
      ensures forall n :: n in old(list) ==> (n in visited <==> old(n.timeStamp) < ctime)
      ensures list == old(list)[|visited|..] + Those(visited, alive)
      ensures forall n :: n in list ==> ctime <= n.timeStamp
      ensures forall n :: n in visited && n !in alive ==> !n.onList
      ensures forall n :: n in visited && n in alive ==> n in list
    {
      hide At, Linked, Without, Different, Sorted, AllUpTo, AllOn, Turned, Those;
      ghost var s := list;
      ghost var times := TimesOf(s);
      visited := [];
      var ul := pUList;
      NotTurned(s, times, alive, ctime);
      while ul != null && ul.timeStamp < ctime
        invariant Valid() && ul == pUList && |visited| <= |s| && visited == s[..|visited|]
        invariant |times| == |s| && Turned(s, times, |visited|, alive, ctime)
        invariant AllUpTo(list, clock(|visited|)) && forall k :: 0 <= k < |list| ==> list[k] in s
        decreases |s| - |visited|
      {
        ghost var i := |visited|;
        HeadOf();
        TimerTurn(s, times, i, ul, alive, ctime, clock(|visited|));
        OneMore(s, i);
        visited := visited + [ul];
        UpToLater(list, clock(i), clock(i + 1));
        ul := pUList;
      }
      HeadOf();
      NoneStale(ctime);
      AllTurned(s, times, |visited|, alive, ctime);
    }
  }
}
