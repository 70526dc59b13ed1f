/** The socket registry (CUDTUnited): live and closed sockets, the queues of listeners, and the
    multiplexers that sockets share. */
module Registry {
  import opened Basics

  datatype Status = Init | Opened | Listening | Connected | Closed

  /** listenSocket is the listener a connection came in at, 0 for other sockets; muxID is -1 until
      the socket has a multiplexer, and port is that of its own address from then on. */
  datatype Socket = Socket(status: Status, listenSocket: int, muxID: int, port: int, broken: bool,
                           listener: bool, queued: set<int>, accepted: set<int>)

  datatype Mux = Mux(refCount: int, port: int, ipVersion: int, mss: int, reusable: bool)

  type Sockets = map<int, Socket>

  // ---- what holds between operations -------------------------------------------------

  /** The sockets that name a multiplexer. */
  ghost function Users(all: Sockets, mid: int): set<int> {
    set u | u in all && all[u].muxID == mid
  }

  /** A multiplexer lives exactly as long as sockets name it, and counts them; its port is theirs. */
  ghost predicate Counted(all: Sockets, muxes: map<int, Mux>) {
    && (forall u :: u in all && all[u].muxID != -1 ==>
          all[u].muxID in muxes && muxes[all[u].muxID].port == all[u].port)
    && (forall m :: m in muxes ==> m != -1 && muxes[m].refCount == |Users(all, m)| && Users(all, m) != {})
  }

  ghost predicate Queues(all: Sockets, l: int, q: int) {
    l in all && q in all[l].queued
  }

  /** A queued socket is live, belongs to that listener, and the application does not know it yet. */
  ghost predicate Queued(all: Sockets, live: set<int>, known: set<int>) {
    forall l, q :: Queues(all, l, q) ==>
      q in live && q in all && all[q].listenSocket == l && q !in known && all[l].listener
  }

  /** A socket has no multiplexer before it is opened, and has one while it is open. */
  ghost predicate Staged(sockets: Sockets) {
    forall u :: u in sockets ==>
      (sockets[u].status == Init ==> sockets[u].muxID == -1)
      && (sockets[u].status in {Opened, Listening, Connected} ==> sockets[u].muxID != -1)
  }

  ghost predicate Numbered(all: Sockets, muxes: map<int, Mux>, lastID: int) {
    && 0 < lastID && (forall u :: u in all ==> lastID <= u) && (forall m :: m in muxes ==> lastID <= m)
    && (forall u :: u in all ==> all[u].muxID == -1 || lastID <= all[u].muxID)
    && (forall m :: m in muxes && m in all ==> all[m].muxID == m)
    && (forall u :: u in all ==> all[u].listenSocket == 0 || lastID <= all[u].listenSocket)
  }

  // ---- effects on the invariants -----------------------------------------------------

  lemma CountedNew(all: Sockets, muxes: map<int, Mux>, u: int, s: Socket)
    requires Counted(all, muxes) && u !in all && s.muxID == -1
    ensures Counted(all[u := s], muxes)
  {
    forall m | m in muxes ensures Users(all[u := s], m) == Users(all, m) {
    }
  }

  /** Changing anything but the multiplexer and the port of a socket does not matter. */
  lemma CountedSame(all: Sockets, all': Sockets, muxes: map<int, Mux>)
    requires Counted(all, muxes) && all.Keys == all'.Keys
    requires forall u :: u in all ==> all'[u].muxID == all[u].muxID && all'[u].port == all[u].port
    ensures Counted(all', muxes)
  {
    forall m ensures Users(all', m) == Users(all, m) {
      forall u ensures u in Users(all', m) <==> u in Users(all, m) {
      }
    }
  }

  lemma CountedShare(all: Sockets, muxes: map<int, Mux>, u: int, s: Socket, mid: int)
    requires Counted(all, muxes) && (u in all ==> all[u].muxID == -1) && mid in muxes && s.muxID == mid
    requires s.port == muxes[mid].port
    ensures Counted(all[u := s], muxes[mid := muxes[mid].(refCount := muxes[mid].refCount + 1)])
  {
    var all' := all[u := s];
    assert Users(all', mid) == Users(all, mid) + {u};
    forall m | m in muxes && m != mid ensures Users(all', m) == Users(all, m) {
    }
  }

  lemma CountedOwn(all: Sockets, muxes: map<int, Mux>, u: int, s: Socket, mux: Mux)
    requires Counted(all, muxes) && (u in all ==> all[u].muxID == -1) && u !in muxes && u != -1
    requires s.muxID == u && mux.refCount == 1 && s.port == mux.port
    ensures Counted(all[u := s], muxes[u := mux])
  {
    var all' := all[u := s];
    assert forall v :: v in all ==> all[v].muxID != u;
    assert Users(all', u) == {u};
    forall m | m in muxes ensures Users(all', m) == Users(all, m) {
    }
  }

  lemma CountedRemove(all: Sockets, muxes: map<int, Mux>, u: int)
    requires Counted(all, muxes) && u in all
    ensures var mid := all[u].muxID;
            mid in muxes ==>
              var n := muxes[mid].refCount - 1;
              Counted(all - {u}, if n == 0 then muxes - {mid} else muxes[mid := muxes[mid].(refCount := n)])
    ensures all[u].muxID !in muxes ==> Counted(all - {u}, muxes)
  {
    var all' := all - {u};
    forall m | m in muxes ensures Users(all', m) == if m == all[u].muxID then Users(all, m) - {u} else Users(all, m) {
    }
    var mid := all[u].muxID;
    if mid in muxes {
      assert u in Users(all, mid);
      assert |Users(all', mid)| == muxes[mid].refCount - 1;
      assert Users(all', mid) == {} <==> muxes[mid].refCount == 1;
    }
  }

  /** A socket keeps its multiplexer, or gets one that exists or that is its own. */
  lemma NumberedSet(all: Sockets, muxes: map<int, Mux>, muxes': map<int, Mux>, lastID: int, u: int, s: Socket)
    requires Numbered(all, muxes, lastID) && u in all && s.listenSocket == all[u].listenSocket
    requires muxes.Keys <= muxes'.Keys <= muxes.Keys + {u}
    requires if s.muxID == all[u].muxID then muxes'.Keys == muxes.Keys
             else all[u].muxID == -1 && s.muxID in muxes' && (u in muxes' ==> s.muxID == u)
    ensures Numbered(all[u := s], muxes', lastID)
  {
  }

  lemma NumberedNew(all: Sockets, muxes: map<int, Mux>, u: int, s: Socket)
    requires Numbered(all, muxes, u + 1) && u > 0 && s.muxID == -1 && s.listenSocket == 0
    ensures Numbered(all[u := s], muxes, u)
  {
  }

  lemma StagedSet(sockets: Sockets, u: int, s: Socket)
    requires Staged(sockets) && (s.status == Init ==> s.muxID == -1)
    requires s.status in {Opened, Listening, Connected} ==> s.muxID != -1
    ensures Staged(sockets[u := s])
  {
  }

  lemma StagedRemove(sockets: Sockets, u: int)
    requires Staged(sockets)
    ensures Staged(sockets - {u})
  {
  }

  /** One more element is done: what was taken from one set and added to the other so far. */
  lemma OneMore(from: set<int>, to: set<int>, done: set<int>, todo: set<int>, q: int)
    requires q in todo && done !! todo
    ensures from - done - {q} == from - (done + {q}) && to + done + {q} == to + (done + {q})
    ensures (done + {q}) + (todo - {q}) == done + todo && done + {q} !! todo - {q}
    ensures |todo - {q}| < |todo|
  {
  }

  lemma Card(s: set<int>)
    requires s != {}
    ensures |s| > 0
  {
  }

  lemma SomeMember(s: set<int>)
    requires |s| > 0
    ensures exists x :: x in s
  {
    assert (forall x :: x !in s) ==> s == {};
  }

  predicate Found(sockets: Sockets, u: int) {
    u in sockets && sockets[u].status != Closed
  }

  /** A request whose sender has a working connection already. */
  predicate Repeated(sockets: Sockets, prior: Option<int>) {
    prior.Some? && prior.value in sockets && !sockets[prior.value].broken
  }

  /** The queue of a listener, without a broken connection of the same peer. */
  function Waiting(sockets: Sockets, listen: int, prior: Option<int>): set<int> {
    if listen !in sockets then {}
    else sockets[listen].queued - if prior.Some? then {prior.value} else {}
  }

  // ---- the registry ------------------------------------------------------------------

  lemma QueuedNew(all: Sockets, live: set<int>, known: set<int>, u: int, s: Socket)
    requires Queued(all, live, known) && u !in all && s.queued == {}
    requires forall l :: l in all ==> all[l].listenSocket != u
    requires s.listenSocket != u
    ensures Queued(all[u := s], live + {u}, known) && Queued(all[u := s], live + {u}, known + {u})
  {
  }

  lemma QueuedTold(all: Sockets, live: set<int>, known: set<int>, q: int)
    requires Queued(all, live, known) && forall l :: l in all ==> q !in all[l].queued
    ensures Queued(all, live, known + {q})
  {
  }

  lemma QueuedJoin(all: Sockets, live: set<int>, known: set<int>, l: int, r: int)
    requires Queued(all, live, known) && l in all && r in all && r in live && r !in known
    requires all[r].listenSocket == l && all[l].listener
    ensures Queued(all[l := all[l].(queued := all[l].queued + {r})], live, known)
  {
  }

  lemma EnqueueProof(all: Sockets, muxes: map<int, Mux>, live: set<int>, known: set<int>, l: int, r: int, s: Socket,
                     mid: int)
    requires Counted(all, muxes) && Queued(all, live, known) && mid in muxes && l in all && all[l].listener
    requires r !in all && r !in known && s == Socket(Connected, l, mid, muxes[mid].port, false, false, {}, {})
    requires forall k :: k in all ==> all[k].listenSocket != r
    ensures var all' := all[r := s][l := all[l].(queued := all[l].queued + {r})];
            Counted(all', muxes[mid := muxes[mid].(refCount := muxes[mid].refCount + 1)]) &&
            Queued(all', live + {r}, known)
  {
    hide Counted, Queued;
    CountedShare(all, muxes, r, s, mid);
    CountedSame(all[r := s], all[r := s][l := all[l].(queued := all[l].queued + {r})],
                muxes[mid := muxes[mid].(refCount := muxes[mid].refCount + 1)]);
    QueuedNew(all, live, known, r, s);
    QueuedJoin(all[r := s], live + {r}, known, l, r);
  }

  lemma EnqueueNumbers(all: Sockets, muxes: map<int, Mux>, l: int, r: int, s: Socket, mid: int)
    requires Numbered(all, muxes, r + 1) && r > 0 && l in all && mid in muxes && s.muxID == mid && s.listenSocket == l
    ensures Numbered(all[r := s][l := all[l].(queued := all[l].queued + {r})],
                     muxes[mid := muxes[mid].(refCount := muxes[mid].refCount + 1)], r)
  {
  }

  lemma QueuedMove(all: Sockets, live: set<int>, known: set<int>, u: int)
    requires Queued(all, live, known) && forall l :: l in all ==> u !in all[l].queued
    ensures Queued(all, live - {u}, known)
  {
  }

  lemma QueuedRemove(all: Sockets, live: set<int>, known: set<int>, u: int)
    requires Queued(all, live, known) && u in all && u !in live && all[u].queued == {}
    ensures Queued(all - {u}, live, known)
  {
  }

  lemma QueuedSame(all: Sockets, all': Sockets, live: set<int>, known: set<int>)
    requires Queued(all, live, known) && all.Keys == all'.Keys
    requires forall u :: u in all ==> all'[u].listenSocket == all[u].listenSocket
    requires forall u :: u in all ==> all'[u].queued <= all[u].queued && (all[u].listener ==> all'[u].listener)
    ensures Queued(all', live, known)
  {
  }

  class CUDTUnited {
    var lastID: int
    var sockets: Sockets
    var closed: Sockets
    var muxes: map<int, Mux>
    /** The ids that were handed to the application. */
    ghost var known: set<int>

    /** Sockets that are not destroyed yet. */
    ghost function Alive(): Sockets
      reads this
    {
      closed + sockets
    }

    ghost predicate Valid()
      reads this
    {
      && sockets.Keys !! closed.Keys
      && Counted(Alive(), muxes) && Queued(Alive(), sockets.Keys, known) && Numbered(Alive(), muxes, lastID)
      && (forall u :: u in known ==> lastID <= u)
      && Staged(sockets)
    }

    constructor (firstID: int)
      requires firstID > 0
      ensures Valid() && sockets == map[] && closed == map[] && muxes == map[] && lastID == firstID
    {
      lastID := firstID;
      sockets, closed, muxes, known := map[], map[], map[], {};
    }

    method Locate(u: int) returns (s: Option<Socket>)
      ensures s == if u in sockets && sockets[u].status != Closed then Some(sockets[u]) else None
    {
      if u !in sockets || sockets[u].status == Closed {
        return None;
      }
      return Some(sockets[u]);
    }

    lemma NextID()
      requires Valid()
      ensures forall k :: k in Alive() ==>
                lastID <= k && (Alive()[k].listenSocket == 0 || lastID <= Alive()[k].listenSocket)
      ensures forall k :: k in known ==> lastID <= k
    {
    }

    method NewSocket() returns (u: int)
      requires Valid() && lastID > 1
      modifies this
      ensures u == lastID == old(lastID) - 1
      ensures Valid() && u !in old(Alive()) && u in known && closed == old(closed) && muxes == old(muxes)
      ensures sockets == old(sockets)[u := Socket(Init, 0, -1, 0, false, false, {}, {})]
    {
      hide Counted, Queued, Numbered, Staged;
      NextID();
      lastID := lastID - 1;
      u := lastID;
      var s := Socket(Init, 0, -1, 0, false, false, {}, {});
      CountedNew(Alive(), muxes, u, s);
      QueuedNew(Alive(), sockets.Keys, known, u, s);
      NumberedNew(Alive(), muxes, u, s);
      StagedSet(sockets, u, s);
      sockets := sockets[u := s];
      known := known + {u};
      assert Alive() == old(Alive())[u := s];
      assert sockets.Keys == old(sockets.Keys) + {u};
    }

    method Least(s: set<int>) returns (m: int)
      requires |s| > 0
      ensures m in s && forall x :: x in s ==> m <= x
    {
      SomeMember(s);
      m :| m in s;
      var todo := s - {m};
      while |todo| > 0
        invariant m in s && todo <= s && forall x :: x in s && x !in todo ==> m <= x
        decreases |todo|
      {
        SomeMember(todo);
        var x :| x in todo;
        if x < m {
          m := x;
        }
        todo := todo - {x};
      }
    }

    predicate Matches(m: Mux, port: int, ipVersion: int, mss: int) {
      m.ipVersion == ipVersion && m.mss == mss && m.reusable && m.port == port
    }

    /** The first multiplexer that a socket with these properties may share. */
    method FindReusable(port: int, ipVersion: int, mss: int) returns (mid: Option<int>)
      ensures mid.Some? ==> mid.value in muxes && Matches(muxes[mid.value], port, ipVersion, mss)
      ensures forall m :: m in muxes && (mid.Some? ==> m < mid.value) ==> !Matches(muxes[m], port, ipVersion, mss)
    {
      var todo := muxes.Keys;
      while |todo| > 0
        invariant todo <= muxes.Keys
        invariant forall m :: m in muxes && m !in todo ==> !Matches(muxes[m], port, ipVersion, mss)
        decreases |todo|
      {
        var m := Least(todo);
        if Matches(muxes[m], port, ipVersion, mss) {
          return Some(m);
        }
        todo := todo - {m};
      }
      return None;
    }

    /** The first multiplexer at a port. */
    method FindPort(port: int) returns (mid: Option<int>)
      ensures mid.Some? ==> mid.value in muxes && muxes[mid.value].port == port
      ensures forall m :: m in muxes && (mid.Some? ==> m < mid.value) ==> muxes[m].port != port
    {
      var todo := muxes.Keys;
      while |todo| > 0
        invariant todo <= muxes.Keys
        invariant forall m :: m in muxes && m !in todo ==> muxes[m].port != port
        decreases |todo|
      {
        var m := Least(todo);
        if muxes[m].port == port {
          return Some(m);
        }
        todo := todo - {m};
      }
      return None;
    }

    lemma MuxIDs()
      requires Valid()
      ensures -1 !in muxes
    {
    }

    /** A socket that has no multiplexer has none under its own id either. */
    lemma Fresh(u: int)
      requires Valid() && u in sockets && sockets[u].muxID == -1
      ensures u !in muxes && u != -1
    {
    }

    /** The socket gets a multiplexer of its own. */
    method Own(u: int, status: Status, mux: Mux)
      requires Valid() && u in sockets && sockets[u].muxID == -1 && status != Init && mux.refCount == 1
      modifies this`sockets, this`muxes
      ensures Valid() && u !in old(muxes)
      ensures sockets == old(sockets)[u := old(sockets)[u].(muxID := u, port := mux.port, status := status)]
      ensures muxes == old(muxes)[u := mux]
    {
      hide Counted, Queued, Numbered, Staged;
      Fresh(u);
      var s := sockets[u].(muxID := u, port := mux.port, status := status);
      CountedOwn(Alive(), muxes, u, s, mux);
      QueuedSame(Alive(), Alive()[u := s], sockets.Keys, known);
      NumberedSet(Alive(), muxes, muxes[u := mux], lastID, u, s);
      StagedSet(sockets, u, s);
      muxes := muxes[u := mux];
      sockets := sockets[u := s];
      assert Alive() == old(Alive())[u := s];
    }

    /** The socket shares the multiplexer mid. */
    method Join(u: int, mid: int, status: Status)
      requires Valid() && u in sockets && sockets[u].muxID == -1 && status != Init && mid in muxes
      modifies this`sockets, this`muxes
      ensures Valid()
      ensures sockets == old(sockets)[u := old(sockets)[u].(muxID := mid, port := old(muxes)[mid].port,
                                                            status := status)]
      ensures muxes == old(muxes)[mid := old(muxes)[mid].(refCount := old(muxes)[mid].refCount + 1)]
    {
      hide Counted, Queued, Numbered, Staged;
      Fresh(u);
      MuxIDs();
      var s := sockets[u].(muxID := mid, port := muxes[mid].port, status := status);
      CountedShare(Alive(), muxes, u, s, mid);
      QueuedSame(Alive(), Alive()[u := s], sockets.Keys, known);
      ghost var counted := muxes[mid := muxes[mid].(refCount := muxes[mid].refCount + 1)];
      NumberedSet(Alive(), muxes, counted, lastID, u, s);
      StagedSet(sockets, u, s);
      muxes := muxes[mid := muxes[mid].(refCount := muxes[mid].refCount + 1)];
      sockets := sockets[u := s];
      assert Alive() == old(Alive())[u := s];
    }

    /** Gives a socket a multiplexer: when it may be shared, the first one with the wanted port, IP version
        and packet size that may be shared, or else its own at boundPort. */
    method UpdateMux(u: int, status: Status, reuse: bool, port: Option<int>, ipVersion: int, mss: int, boundPort: int)
      requires Valid() && u in sockets && sockets[u].muxID == -1 && status != Init
      modifies this`sockets, this`muxes
      ensures Valid() && u in sockets && u !in old(muxes) && sockets[u].muxID in muxes
      ensures sockets == old(sockets)[u := old(sockets)[u].(muxID := sockets[u].muxID,
                                                            port := muxes[sockets[u].muxID].port, status := status)]
      ensures sockets[u].muxID != u ==>
                var mid := sockets[u].muxID;
                && mid in old(muxes) && reuse && port.Some?
                && old(muxes)[mid].port == port.value && old(muxes)[mid].ipVersion == ipVersion
                && old(muxes)[mid].mss == mss && old(muxes)[mid].reusable
                && muxes == old(muxes)[mid := old(muxes)[mid].(refCount := old(muxes)[mid].refCount + 1)]
      ensures sockets[u].muxID == u ==> muxes == old(muxes)[u := Mux(1, boundPort, ipVersion, mss, reuse)]
      ensures forall m :: m in old(muxes) && (m < sockets[u].muxID || sockets[u].muxID == u) ==>
                !(reuse && port == Some(old(muxes)[m].port) && old(muxes)[m].ipVersion == ipVersion
                  && old(muxes)[m].mss == mss && old(muxes)[m].reusable)
    {
      hide Counted, Queued, Numbered, Staged;
      Fresh(u);
      if reuse && port.Some? {
        var found := FindReusable(port.value, ipVersion, mss);
        if found.Some? {
          var mid := found.value;
          Join(u, mid, status);
          return;
        }
      }
      Own(u, status, Mux(1, boundPort, ipVersion, mss, reuse));
    }

    lemma StageOf(u: int)
      requires Valid() && u in sockets
      ensures sockets[u].status == Init ==> sockets[u].muxID == -1
      ensures sockets[u].status in {Opened, Listening, Connected} ==> sockets[u].muxID != -1
    {
    }

    /** Binds a socket that was not bound before; false is an error return. A multiplexer is shared
        exactly when one with this port, IP version and packet size may be. */
    method Bind(u: int, reuse: bool, port: int, ipVersion: int, mss: int, boundPort: int) returns (ok: bool)
      requires Valid()
      modifies this`sockets, this`muxes
      ensures Valid() && sockets.Keys == old(sockets.Keys)
      ensures ok == (u in old(sockets) && old(sockets)[u].status == Init)
      ensures !ok ==> sockets == old(sockets) && muxes == old(muxes)
      ensures ok ==>
                && sockets[u].muxID in muxes
                && sockets == old(sockets)[u := old(sockets)[u].(muxID := sockets[u].muxID,
                                                                 port := muxes[sockets[u].muxID].port,
                                                                 status := Opened)]
      ensures ok ==>
                (sockets[u].muxID != u <==>
                   exists m :: m in old(muxes) && old(muxes)[m].port == port && old(muxes)[m].ipVersion == ipVersion
                               && old(muxes)[m].mss == mss && old(muxes)[m].reusable && reuse)
      ensures ok && sockets[u].muxID != u ==>
                var mid := sockets[u].muxID;
                && mid in old(muxes) && old(muxes)[mid].port == port && old(muxes)[mid].ipVersion == ipVersion
                && old(muxes)[mid].mss == mss && old(muxes)[mid].reusable && reuse
                && muxes == old(muxes)[mid := old(muxes)[mid].(refCount := old(muxes)[mid].refCount + 1)]
      ensures ok && sockets[u].muxID == u ==> muxes == old(muxes)[u := Mux(1, boundPort, ipVersion, mss, reuse)]
    {
      hide Counted, Queued, Numbered, Staged;
      var s := Locate(u);
      if s.None? || s.value.status != Init {
        return false;
      }
      StageOf(u);
      UpdateMux(u, Opened, reuse, Some(port), ipVersion, mss, boundPort);
      return true;
    }

    /** Changes a socket in ways that matter neither to multiplexers nor to queues. */
    method Change(u: int, s: Socket)
      requires Valid() && u in sockets && s.muxID == sockets[u].muxID && s.listenSocket == sockets[u].listenSocket
      requires s.queued <= sockets[u].queued && (sockets[u].listener ==> s.listener) && s.port == sockets[u].port
      requires s.status != Init && (s.status != Closed ==> sockets[u].muxID != -1)
      modifies this`sockets
      ensures Valid() && sockets == old(sockets)[u := s]
    {
      hide Counted, Queued, Numbered, Staged;
      CountedSame(Alive(), Alive()[u := s], muxes);
      QueuedSame(Alive(), Alive()[u := s], sockets.Keys, known);
      NumberedSet(Alive(), muxes, muxes, lastID, u, s);
      StagedSet(sockets, u, s);
      sockets := sockets[u := s];
      assert Alive() == old(Alive())[u := s];
      assert sockets.Keys == old(sockets.Keys);
    }

    /** The registry's part of connecting: a socket that is not bound gets a multiplexer of its own. */
    method Connect(u: int, reuse: bool, ipVersion: int, mss: int, boundPort: int) returns (ok: bool)
      requires Valid()
      modifies this`sockets, this`muxes
      ensures Valid() && sockets.Keys == old(sockets.Keys)
      ensures ok == (u in old(sockets) && old(sockets)[u].status in {Init, Opened})
      ensures !ok ==> sockets == old(sockets) && muxes == old(muxes)
      ensures ok ==> var s := old(sockets)[u];
                     && sockets == old(sockets)[u := s.(status := Connected,
                                                        muxID := if s.status == Init then u else s.muxID,
                                                        port := if s.status == Init then boundPort else s.port)]
                     && muxes == if s.status == Init then old(muxes)[u := Mux(1, boundPort, ipVersion, mss, reuse)]
                                 else old(muxes)
    {
      hide Counted, Queued, Numbered, Staged, Alive;
      var s := Locate(u);
      if s.None? {
        return false;
      }
      StageOf(u);
      if s.value.status == Init {
        UpdateMux(u, Opened, reuse, None, ipVersion, mss, boundPort);
      } else if s.value.status != Opened {
        return false;
      }
      StageOf(u);
      Change(u, sockets[u].(status := Connected));
      return true;
    }

    method Listen(u: int) returns (ok: bool)
      requires Valid()
      modifies this`sockets
      ensures Valid()
      ensures ok == (u in old(sockets) && old(sockets)[u].status in {Opened, Listening})
      ensures sockets == if ok && old(sockets)[u].status == Opened
                         then old(sockets)[u := old(sockets)[u].(status := Listening, listener := true,
                                                                 queued := {}, accepted := {})]
                         else old(sockets)
    {
      var s := Locate(u);
      if s.None? {
        return false;
      }
      if s.value.status == Listening {
        return true;
      }
      if s.value.status != Opened {
        return false;
      }
      Change(u, sockets[u].(status := Listening, listener := true, queued := {}, accepted := {}));
      return true;
    }

    /** A broken connection with the same peer is given up. */
    method DropPrior(listen: int, prior: int)
      requires Valid() && listen in sockets && prior in sockets && sockets[listen].status == Listening
      requires sockets[listen].listener
      modifies this`sockets
      ensures Valid() && sockets.Keys == old(sockets.Keys) && sockets[listen].listener
      ensures sockets[listen].port == old(sockets)[listen].port && sockets[listen].muxID == old(sockets)[listen].muxID
      ensures sockets[listen].status == if listen == prior then Closed else Listening
      ensures sockets[prior].status == Closed && sockets[listen].queued == old(sockets)[listen].queued - {prior}
      ensures forall u :: u in sockets && u != listen ==>
                sockets[u] == if u == prior then old(sockets)[u].(status := Closed) else old(sockets)[u]
      ensures prior != listen ==>
                sockets[listen] == old(sockets)[listen].(queued := old(sockets)[listen].queued - {prior},
                                                         accepted := old(sockets)[listen].accepted - {prior})
    {
      hide Counted, Queued, Numbered, Staged;
      StageOf(listen);
      Change(prior, sockets[prior].(status := Closed));
      var l := sockets[listen];
      Change(listen, l.(queued := l.queued - {prior}, accepted := l.accepted - {prior}));
    }

    /** The new socket shares a multiplexer and joins the listener's queue. */
    method Enqueue(listen: int, mid: int) returns (r: int)
      requires Valid() && lastID > 1 && listen in sockets && sockets[listen].listener && mid in muxes
      modifies this
      ensures Valid() && closed == old(closed) && known == old(known) && r > 0
      ensures r !in old(sockets) && r !in old(closed) && sockets.Keys == old(sockets.Keys) + {r}
      ensures var l := old(sockets)[listen];
              sockets == old(sockets)[r := Socket(Connected, listen, mid, old(muxes)[mid].port, false, false, {}, {})]
                                     [listen := l.(queued := l.queued + {r})]
      ensures muxes == old(muxes)[mid := old(muxes)[mid].(refCount := old(muxes)[mid].refCount + 1)]
    {
      hide Counted, Queued, Numbered, Staged;
      NextID();
      MuxIDs();
      StageOf(listen);
      lastID := lastID - 1;
      r := lastID;
      var s, l := Socket(Connected, listen, mid, muxes[mid].port, false, false, {}, {}), sockets[listen];
      var l' := l.(queued := l.queued + {r});
      EnqueueProof(Alive(), muxes, sockets.Keys, known, listen, r, s, mid);
      EnqueueNumbers(Alive(), muxes, listen, r, s, mid);
      StagedSet(sockets, r, s);
      StagedSet(sockets[r := s], listen, l');
      muxes := muxes[mid := muxes[mid].(refCount := muxes[mid].refCount + 1)];
      sockets := sockets[r := s][listen := l'];
      assert Alive() == old(Alive())[r := s][listen := l'];
      assert sockets.Keys == old(sockets.Keys) + {r};
    }

    lemma LiveHasMux(u: int)
      requires Valid() && u in sockets && sockets[u].status in {Opened, Listening, Connected}
      ensures sockets[u].muxID in muxes && muxes[sockets[u].muxID].port == sockets[u].port
    {
      assert Alive()[u] == sockets[u];
    }

    /** Unless the listener's queue is full, a new socket joins it, with the first multiplexer at the
        listener's port. */
    method Admit(listen: int, backlog: int, ghost own: int) returns (r: int)
      requires Valid() && lastID > 1 && listen in sockets && sockets[listen].listener
      requires own in muxes && muxes[own].port == sockets[listen].port
      modifies this
      ensures Valid() && closed == old(closed) && known == old(known) && (r == -1 || r > 0)
      ensures r > 0 <==> |old(sockets)[listen].queued| < backlog
      ensures r == -1 ==> sockets == old(sockets) && muxes == old(muxes)
      ensures r > 0 ==> r !in old(sockets) && r !in old(closed) && sockets.Keys == old(sockets.Keys) + {r}
      ensures r > 0 ==>
                var l, mid := old(sockets)[listen], sockets[r].muxID;
                && sockets == old(sockets)[r := Socket(Connected, listen, mid, l.port, false, false, {}, {})]
                                          [listen := l.(queued := l.queued + {r})]
                && mid in old(muxes) && old(muxes)[mid].port == l.port
                && (forall m :: m in old(muxes) && old(muxes)[m].port == l.port ==> mid <= m)
                && muxes == old(muxes)[mid := old(muxes)[mid].(refCount := old(muxes)[mid].refCount + 1)]
    {
      hide Counted, Queued, Numbered, Staged, Alive, Valid;
      if |sockets[listen].queued| >= backlog {
        return -1;
      }
      var mid := FindPort(sockets[listen].port);
      r := Enqueue(listen, mid.value);
    }

    /** A connection request at a listener. `prior` is a socket with the same peer, if there is one.
        Returns the new socket's id, 0 for a repeated request that is answered again, or -1 for a
        refusal. The new socket gets the first multiplexer at the listener's port, whatever its IP version
        and packet size; that is the listener's own exactly if no other one at that port comes first. */
    method NewConnection(listen: int, prior: Option<int>, backlog: int) returns (r: int)
      requires Valid() && lastID > 1 && (prior.Some? ==> prior.value in sockets)
      requires listen in sockets && sockets[listen].status != Closed ==>
                 sockets[listen].status == Listening && sockets[listen].listener
      modifies this
      ensures Valid() && closed == old(closed) && known == old(known)
      ensures r <= 0 || (r !in old(sockets) && r !in old(closed) && sockets.Keys == old(sockets.Keys) + {r})
      ensures r == 0 <==> listen in old(sockets) && old(sockets)[listen].status != Closed
                          && prior.Some? && !old(sockets)[prior.value].broken
      ensures r > 0 <==> listen in old(sockets) && old(sockets)[listen].status != Closed
                         && (prior.Some? ==> old(sockets)[prior.value].broken)
                         && |old(sockets)[listen].queued - (if prior.Some? then {prior.value} else {})| < backlog
      ensures !Found(old(sockets), listen) || Repeated(old(sockets), prior) ==> sockets == old(sockets)
      ensures forall u :: u in old(sockets) && u != listen && prior != Some(u) ==>
                u in sockets && sockets[u] == old(sockets)[u]
      ensures Found(old(sockets), listen) && !Repeated(old(sockets), prior) && prior.Some? && prior.value != listen ==>
                prior.value in sockets && sockets[prior.value] == old(sockets)[prior.value].(status := Closed)
      ensures listen in old(sockets) && prior != Some(listen) ==>
                listen in sockets
                && sockets[listen].(queued := {}, accepted := {}) == old(sockets)[listen].(queued := {}, accepted := {})
      ensures Found(old(sockets), listen) && !Repeated(old(sockets), prior) ==>
                listen in sockets && sockets[listen].queued ==
                  (if r > 0 then Waiting(old(sockets), listen, prior) + {r} else Waiting(old(sockets), listen, prior))
      ensures r > 0 ==>
                && listen in sockets && r in sockets[listen].queued
                && var mid, port := sockets[r].muxID, old(sockets)[listen].port;
                   && sockets[r] == Socket(Connected, listen, mid, port, false, false, {}, {})
                   && mid in old(muxes) && old(muxes)[mid].port == port
                   && (forall m :: m in old(muxes) && old(muxes)[m].port == port ==> mid <= m)
                   && muxes == old(muxes)[mid := old(muxes)[mid].(refCount := old(muxes)[mid].refCount + 1)]
      ensures r > 0 ==>
                var own := old(sockets)[listen].muxID;
                (sockets[r].muxID == own <==>
                   forall m :: m in old(muxes) && old(muxes)[m].port == old(sockets)[listen].port ==> own <= m)
      ensures r <= 0 ==> sockets.Keys == old(sockets.Keys) && muxes == old(muxes)
    {
      hide Counted, Queued, Numbered, Staged, Alive;
      var ls := Locate(listen);
      if ls.None? {
        return -1;
      }
      LiveHasMux(listen);
      if prior.Some? {
        if !sockets[prior.value].broken {
          return 0;
        }
        DropPrior(listen, prior.value);
      }
      r := Admit(listen, backlog, sockets[listen].muxID);
    }

    lemma QueuedFacts(l: int, q: int)
      requires Valid() && l in sockets && q in sockets[l].queued
      ensures q in sockets && lastID <= q && sockets[q].listenSocket == l
      ensures forall k :: k in Alive() && k != l ==> q !in Alive()[k].queued
    {
      assert Alive()[l] == sockets[l];
    }

    /** Hands the first queued connection to the application; None if nothing is queued. */
    method Accept(listen: int) returns (u: Option<int>)
      requires Valid()
      modifies this`sockets, this`known
      ensures Valid() && sockets.Keys == old(sockets.Keys)
      ensures u.Some? <==> listen in old(sockets) && old(sockets)[listen].status == Listening
                           && old(sockets)[listen].queued != {}
      ensures u.None? ==> sockets == old(sockets) && known == old(known)
      ensures u.Some? ==>
                && u.value in old(sockets)[listen].queued && u.value in sockets && known == old(known) + {u.value}
                && (forall q :: q in old(sockets)[listen].queued ==> u.value <= q)
                && sockets[listen].queued == old(sockets)[listen].queued - {u.value}
                && sockets[listen].accepted == old(sockets)[listen].accepted + {u.value}
    {
      hide Counted, Numbered, Queued, Staged;
      var ls := Locate(listen);
      if ls.None? || ls.value.status != Listening || |ls.value.queued| == 0 {
        return None;
      }
      var l := sockets[listen];
      var q := Least(l.queued);
      QueuedFacts(listen, q);
      StageOf(listen);
      Change(listen, l.(queued := l.queued - {q}, accepted := l.accepted + {q}));
      QueuedTold(Alive(), sockets.Keys, known, q);
      known := known + {q};
      return Some(q);
    }

    // ---- closing -----------------------------------------------------------------------

    ghost predicate NotQueued(u: int)
      reads this
    {
      forall l :: l in Alive() ==> u !in Alive()[l].queued
    }

    lemma KnownIsNotQueued(u: int)
      requires Valid() && u in known
      ensures NotQueued(u)
    {
    }

    /** A socket that is not queued goes from the live to the closed ones. */
    method Move(u: int, s: Socket)
      requires Valid() && u in sockets && s.muxID == sockets[u].muxID && s.listenSocket == sockets[u].listenSocket
      requires s.queued == sockets[u].queued && s.listener == sockets[u].listener && s.port == sockets[u].port
      requires NotQueued(u)
      modifies this`sockets, this`closed
      ensures Valid() && sockets == old(sockets) - {u} && closed == old(closed)[u := s]
      ensures forall l :: l in Alive() ==> l in old(Alive()) && Alive()[l].queued == old(Alive())[l].queued
      ensures Alive().Keys == old(Alive().Keys)
    {
      hide Counted, Queued, Numbered, Staged;
      CountedSame(Alive(), Alive()[u := s], muxes);
      QueuedSame(Alive(), Alive()[u := s], sockets.Keys, known);
      QueuedMove(Alive()[u := s], sockets.Keys, known, u);
      NumberedSet(Alive(), muxes, muxes, lastID, u, s);
      StagedRemove(sockets, u);
      closed := closed[u := s];
      sockets := sockets - {u};
      assert Alive() == old(Alive())[u := s];
      assert sockets.Keys == old(sockets.Keys) - {u};
    }

    /** Closes a socket the application knows. A listener is only marked; others leave the live map. */
    method Close(u: int) returns (ok: bool)
      requires Valid() && (u in sockets ==> u in known)
      modifies this`sockets, this`closed
      ensures Valid() && ok == (u in old(sockets) && old(sockets)[u].status != Closed)
      ensures !ok ==> sockets == old(sockets) && closed == old(closed)
      ensures ok && old(sockets)[u].status == Listening ==>
                sockets == old(sockets)[u := old(sockets)[u].(broken := true)] && closed == old(closed)
      ensures ok && old(sockets)[u].status != Listening ==>
                sockets == old(sockets) - {u} && closed == old(closed)[u := old(sockets)[u].(status := Closed)]
    {
      hide Counted, Queued, Numbered, Staged, Alive;
      var s := Locate(u);
      if s.None? {
        return false;
      }
      if s.value.status == Listening {
        if s.value.broken {
          assert sockets == sockets[u := sockets[u].(broken := true)];
          return true;
        }
        StageOf(u);
        Change(u, sockets[u].(broken := true));
        return true;
      }
      KnownIsNotQueued(u);
      Move(u, sockets[u].(status := Closed));
      return true;
    }

    /** Takes q off the queues of the listener l, wherever that is. */
    method Unqueue(l: int, q: int)
      requires Valid() && l in Alive()
      modifies this`sockets, this`closed
      ensures Valid() && sockets.Keys == old(sockets.Keys) && closed.Keys == old(closed.Keys)
      ensures Alive() == old(Alive())[l := old(Alive())[l].(queued := old(Alive())[l].queued - {q},
                                                            accepted := old(Alive())[l].accepted - {q})]
      ensures forall u :: u in sockets && u != l ==> sockets[u] == old(sockets)[u]
      ensures forall u :: u in closed && u != l ==> closed[u] == old(closed)[u]
    {
      hide Counted, Queued, Numbered, Staged;
      ghost var s := Alive()[l].(queued := Alive()[l].queued - {q}, accepted := Alive()[l].accepted - {q});
      CountedSame(Alive(), Alive()[l := s], muxes);
      QueuedSame(Alive(), Alive()[l := s], sockets.Keys, known);
      NumberedSet(Alive(), muxes, muxes, lastID, l, s);
      if l in sockets {
        StageOf(l);
        StagedSet(sockets, l, s);
        sockets := sockets[l := sockets[l].(queued := sockets[l].queued - {q}, accepted := sockets[l].accepted - {q})];
      } else {
        closed := closed[l := closed[l].(queued := closed[l].queued - {q}, accepted := closed[l].accepted - {q})];
      }
      assert Alive() == old(Alive())[l := s];
      assert sockets.Keys == old(sockets.Keys);
    }

    lemma OnlyItsListener(u: int)
      requires Valid() && u in sockets
      ensures forall l :: l in Alive() && u in Alive()[l].queued ==> l == sockets[u].listenSocket
    {
      assert Alive()[u] == sockets[u];
    }

    /** A broken socket leaves the live map and its listener's queues. */
    method CloseBroken(u: int)
      requires Valid() && u in sockets
      modifies this`sockets, this`closed
      ensures Valid() && sockets.Keys == old(sockets.Keys) - {u} && closed.Keys == old(closed.Keys) + {u}
      ensures Alive().Keys == old(Alive().Keys)
      ensures forall v :: v in sockets ==>
                sockets[v].broken == old(sockets)[v].broken && sockets[v].listenSocket == old(sockets)[v].listenSocket
    {
      hide Counted, Queued, Numbered, Staged;
      var l := sockets[u].listenSocket;
      OnlyItsListener(u);
      if l in sockets || l in closed {
        Unqueue(l, u);
      }
      Move(u, sockets[u].(status := Closed));
    }

    method CloseIfBroken(u: int, waiting: set<int>) returns (now: bool)
      requires Valid() && u in sockets
      modifies this`sockets, this`closed
      ensures Valid() && now == (old(sockets)[u].broken && u !in waiting)
      ensures !now ==> sockets == old(sockets) && closed == old(closed)
      ensures now ==> sockets.Keys == old(sockets.Keys) - {u} && closed.Keys == old(closed.Keys) + {u}
      ensures forall v :: v in sockets ==>
                sockets[v].broken == old(sockets)[v].broken && sockets[v].listenSocket == old(sockets)[v].listenSocket
    {
      hide Counted, Queued, Numbered, Staged, Alive, Valid;
      now := sockets[u].broken && u !in waiting;
      if now {
        CloseBroken(u);
      }
    }

    method CloseAllBroken(waiting: set<int>) returns (ghost tbc: set<int>)
      requires Valid()
      modifies this`sockets, this`closed
      ensures Valid() && tbc <= old(sockets.Keys)
      ensures forall u :: u in old(sockets) ==> (u in tbc <==> old(sockets)[u].broken && u !in waiting)
      ensures sockets.Keys == old(sockets.Keys) - tbc && closed.Keys == old(closed.Keys) + tbc
      ensures forall u :: u in sockets ==>
                sockets[u].broken == old(sockets)[u].broken && sockets[u].listenSocket == old(sockets)[u].listenSocket
    {
      hide Counted, Queued, Numbered, Staged, Alive, Valid;
      ghost var live := sockets;
      tbc := {};
      var todo := sockets.Keys;
      while |todo| > 0
        invariant Valid() && todo <= live.Keys && tbc !! todo && tbc <= live.Keys
        invariant sockets.Keys == live.Keys - tbc && closed.Keys == old(closed.Keys) + tbc
        invariant forall u :: u in sockets ==>
                    sockets[u].broken == live[u].broken && sockets[u].listenSocket == live[u].listenSocket
        invariant forall u :: u in live && u !in todo ==> (u in tbc <==> live[u].broken && u !in waiting)
        decreases |todo|
      {
        SomeMember(todo);
        var u :| u in todo;
        OneMore(live.Keys, old(closed.Keys), tbc, todo, u);
        todo := todo - {u};
        var now := CloseIfBroken(u, waiting);
        if now {
          tbc := tbc + {u};
        }
      }
      assert todo == {};
    }

    lemma KeysOf()
      ensures Alive().Keys == sockets.Keys + closed.Keys
    {
    }

    lemma InClosed(u: int)
      requires Valid() && u in closed
      ensures u !in sockets && u in Alive() && Alive()[u] == closed[u]
    {
    }

    lemma QueueIsLive(u: int)
      requires Valid() && u in closed
      ensures closed[u].queued <= sockets.Keys && u !in closed[u].queued
      ensures forall q :: q in closed[u].queued ==> sockets[q].listenSocket == u
    {
      InClosed(u);
      forall q | q in closed[u].queued ensures q in sockets && q != u && sockets[q].listenSocket == u {
        assert q in Alive()[u].queued && Alive()[q] == sockets[q];
      }
    }

    method CloseQueued(u: int, q: int)
      requires Valid() && u in closed && q in closed[u].queued && q in sockets && q != u
      modifies this`sockets, this`closed
      ensures Valid() && u in closed && closed[u].queued == old(closed)[u].queued - {q}
      ensures closed[u].muxID == old(closed)[u].muxID
      ensures sockets.Keys == old(sockets.Keys) - {q} && closed.Keys == old(closed.Keys) + {q}
      ensures Alive().Keys == old(Alive().Keys)
      ensures forall v :: v in sockets ==> sockets[v] == old(sockets)[v]
    {
      hide Counted, Queued, Numbered, Staged;
      InClosed(u);
      OnlyItsListener(q);
      assert u == sockets[q].listenSocket;
      Unqueue(u, q);
      InClosed(u);
      Move(q, sockets[q].(broken := true, status := Closed));
    }

    /** Closes every connection in the queue of a closed listener. */
    method CloseQueue(u: int)
      requires Valid() && u in closed
      modifies this`sockets, this`closed
      ensures Valid() && u in closed && closed[u].queued == {} && closed[u].muxID == old(closed)[u].muxID
      ensures sockets.Keys == old(sockets.Keys) - old(closed)[u].queued
      ensures closed.Keys == old(closed.Keys) + old(closed)[u].queued
      ensures Alive().Keys == old(Alive().Keys)
      ensures forall v :: v in sockets ==> sockets[v] == old(sockets)[v]
    {
      hide Counted, Queued, Numbered, Staged, Alive, Valid;
      KeysOf();
      var todo := closed[u].queued;
      ghost var moved: set<int> := {};
      while |todo| > 0
        invariant Valid() && u in closed && closed[u].queued == todo && closed[u].muxID == old(closed)[u].muxID
        invariant moved + todo == old(closed)[u].queued && moved !! todo
        invariant sockets.Keys == old(sockets.Keys) - moved && closed.Keys == old(closed.Keys) + moved
        invariant Alive().Keys == old(Alive().Keys)
        invariant forall v :: v in sockets ==> sockets[v] == old(sockets)[v]
        decreases |todo|
      {
        SomeMember(todo);
        var q :| q in todo;
        QueueIsLive(u);
        OneMore(old(sockets.Keys), old(closed.Keys), moved, todo, q);
        CloseQueued(u, q);
        todo := todo - {q};
        moved := moved + {q};
      }
      assert todo == {};
    }

    lemma NobodyQueues(u: int)
      requires Valid() && u in closed
      ensures NotQueued(u)
    {
    }

    /** Deletes the socket and counts its multiplexer down. */
    method DestroySocket(u: int, mid: int)
      requires Valid() && u in closed && closed[u].muxID == mid && closed[u].queued == {} && NotQueued(u)
      modifies this`closed, this`muxes
      ensures Valid() && closed == old(closed) - {u} && Alive().Keys == old(Alive().Keys) - {u}
      ensures muxes == if mid !in old(muxes) then old(muxes)
                       else if old(muxes)[mid].refCount == 1 then old(muxes) - {mid}
                       else old(muxes)[mid := old(muxes)[mid].(refCount := old(muxes)[mid].refCount - 1)]
    {
      hide Counted, Queued, Staged;
      InClosed(u);
      CountedRemove(Alive(), muxes, u);
      QueuedRemove(Alive(), sockets.Keys, known, u);
      closed := closed - {u};
      assert Alive() == old(Alive()) - {u};
      if mid !in muxes {
        return;
      }
      muxes := muxes[mid := muxes[mid].(refCount := muxes[mid].refCount - 1)];
      if muxes[mid].refCount == 0 {
        muxes := muxes - {mid};
        assert muxes == old(muxes) - {mid};
      }
    }

    /** Destroys a closed socket. Connections that wait in its queue are closed, and its multiplexer
        goes with the last socket that names it. */
    method RemoveSocket(u: int)
      requires Valid()
      modifies this`sockets, this`closed, this`muxes
      ensures Valid()
      ensures u !in old(closed) ==> sockets == old(sockets) && closed == old(closed) && muxes == old(muxes)
      ensures u in old(closed) ==>
                && sockets.Keys == old(sockets.Keys) - old(closed)[u].queued
                && closed.Keys == old(closed.Keys) + old(closed)[u].queued - {u}
                && Alive().Keys == old(Alive().Keys) - {u}
                && var mid := old(closed)[u].muxID;
                   muxes == if mid !in old(muxes) then old(muxes)
                            else if old(muxes)[mid].refCount == 1 then old(muxes) - {mid}
                            else old(muxes)[mid := old(muxes)[mid].(refCount := old(muxes)[mid].refCount - 1)]
      ensures forall v :: v in sockets ==> sockets[v] == old(sockets)[v]
      ensures forall v :: v in old(sockets) && v !in sockets ==> old(sockets)[v].listenSocket == u
    {
      hide Counted, Queued, Numbered, Staged;
      if u !in closed {
        return;
      }
      var mid := closed[u].muxID;
      QueueIsLive(u);
      CloseQueue(u);
      NobodyQueues(u);
      DestroySocket(u, mid);
    }

    method RemoveDue(due: set<int>)
      requires Valid()
      modifies this`sockets, this`closed, this`muxes
      ensures Valid() && sockets.Keys <= old(sockets.Keys)
      ensures forall u :: u in sockets ==> sockets[u].broken == old(sockets)[u].broken
      ensures Alive().Keys == old(Alive().Keys) - old(closed.Keys) * due
      ensures forall u :: u in old(sockets) && u !in sockets ==> old(sockets)[u].listenSocket in due
    {
      hide Counted, Queued, Numbered, Staged, Alive, Valid;
      var tbr := closed.Keys * due;
      ghost var gone: set<int> := {};
      while |tbr| > 0
        invariant Valid() && tbr <= closed.Keys && sockets.Keys <= old(sockets.Keys)
        invariant forall u :: u in sockets ==> sockets[u] == old(sockets)[u]
        invariant forall u :: u in old(sockets) && u !in sockets ==> old(sockets)[u].listenSocket in due
        invariant Alive().Keys == old(Alive().Keys) - gone && gone !! tbr
        invariant gone + tbr == old(closed.Keys) * due
        decreases |tbr|
      {
        SomeMember(tbr);
        var u :| u in tbr;
        tbr := tbr - {u};
        RemoveSocket(u);
        gone := gone + {u};
      }
      assert tbr == {};
    }

    /** The garbage collector's round. `waiting` are the broken sockets that get more time, `due` the
        closed ones whose time is over. */
    method CheckBrokenSockets(waiting: set<int>, due: set<int>)
      requires Valid()
      modifies this`sockets, this`closed, this`muxes
      ensures Valid() && sockets.Keys <= old(sockets.Keys)
      ensures forall u :: u in sockets && old(sockets)[u].broken ==> u in waiting
      ensures forall u :: u in old(sockets) && u !in sockets ==>
                (old(sockets)[u].broken && u !in waiting) || old(sockets)[u].listenSocket in due
      ensures Alive().Keys <= old(Alive().Keys)
      ensures forall u :: u in old(Alive()) ==>
                (u !in Alive() <==>
                   u in due && (u in old(closed) || (u in old(sockets) && old(sockets)[u].broken && u !in waiting)))
    {
      hide Counted, Queued, Numbered, Staged, Alive, Valid;
      KeysOf();
      ghost var tbc := CloseAllBroken(waiting);
      KeysOf();
      RemoveDue(due);
      KeysOf();
    }

    /** A socket's own port is that of its multiplexer, whether it asked for that port or was given it. */
    lemma PortsAgree(u: int)
      requires Valid() && u in Alive() && Alive()[u].muxID != -1
      ensures Alive()[u].muxID in muxes && muxes[Alive()[u].muxID].port == Alive()[u].port
    {
    }

    /** No multiplexer outlives its last socket, and none goes before it. */
    lemma MuxLifetime(mid: int)
      requires Valid() && mid != -1
      ensures mid in muxes <==> exists u :: u in Alive() && Alive()[u].muxID == mid
    {
      if mid in muxes {
        assert Users(Alive(), mid) != {};
        Card(Users(Alive(), mid));
        SomeMember(Users(Alive(), mid));
      }
    }
  }

  /** A new socket with a multiplexer of its own at port 9000. */
  method BoundSocket(united: CUDTUnited, ipVersion: int) returns (u: int)
    requires united.Valid() && united.lastID > 1
    modifies united
    ensures united.Valid() && u == united.lastID == old(united.lastID) - 1 && united.closed == old(united.closed)
    ensures united.sockets == old(united.sockets)[u := Socket(Opened, 0, u, 9000, false, false, {}, {})]
    ensures united.muxes == old(united.muxes)[u := Mux(1, 9000, ipVersion, 1500, false)]
  {
    hide Counted, Queued, Numbered, Staged, CUDTUnited.Valid, CUDTUnited.Alive;
    u := united.NewSocket();
    var ok := united.Bind(u, false, 9000, ipVersion, 1500, 9000);
  }

  /** Two sockets bound to one port in the two IP versions: a connection that comes in at the first one
      gets the multiplexer of the other. */
  method WrongMultiplexer() returns (united: CUDTUnited, listen: int, other: int, r: int)
    ensures united.Valid() && listen in united.sockets && other in united.sockets && r in united.sockets
    ensures r in united.sockets[listen].queued
    ensures united.sockets[r].muxID == united.sockets[other].muxID != united.sockets[listen].muxID
    ensures united.muxes == map[listen := Mux(1, 9000, 4, 1500, false), other := Mux(2, 9000, 6, 1500, false)]
  {
    hide Counted, Queued, Numbered, Staged, CUDTUnited.Valid, CUDTUnited.Alive;
    united := new CUDTUnited(10);
    listen := BoundSocket(united, 4);
    other := BoundSocket(united, 6);
    ghost var muxes := united.muxes;
    assert muxes == map[listen := Mux(1, 9000, 4, 1500, false), other := Mux(1, 9000, 6, 1500, false)];
    assert united.sockets[listen] == Socket(Opened, 0, listen, 9000, false, false, {}, {});
    assert united.sockets[other] == Socket(Opened, 0, other, 9000, false, false, {}, {});
    var ok := united.Listen(listen);
    assert united.sockets[listen].queued == {} && united.sockets[listen].port == 9000;
    r := united.NewConnection(listen, None, 5);
    assert other in muxes && muxes[other].port == 9000;
  }
}
