/** Connections as values, and the live objects that links lead to
    (were/were_connect.h). */
module Links {

  /** A signal of an object; signal 0 is `destroyed`. */
  datatype Signal = Signal(owner: nat, index: nat)

  /** What a connection's handler does: collapse its context, as were::link makes it,
      something that leaves the signals alone, or anything at all. */
  datatype Handler = LinkHandler | Note(tag: nat) | Free

  datatype Conn = Conn(id: nat, signal: Signal, context: nat, handler: Handler)

  function Destroyed(o: nat): Signal { Signal(o, 0) }

  predicate Touches(c: Conn, o: nat) { c.signal.owner == o || c.context == o }

  /** c makes the collapse of x collapse y. */
  predicate Edge(c: Conn, x: nat, y: nat) {
    c.handler == LinkHandler && c.signal == Destroyed(x) && c.context == y
  }

  // ---------- reachability

  ghost predicate Linked(conns: seq<Conn>, x: nat, y: nat) {
    exists c :: c in conns && Edge(c, x, y)
  }

  /** A path of live objects along links. */
  ghost predicate Path(conns: seq<Conn>, live: set<nat>, path: seq<nat>) {
    && path != []
    && (forall i :: 0 <= i < |path| ==> path[i] in live)
    && (forall i :: 0 <= i < |path| - 1 ==> Linked(conns, path[i], path[i + 1]))
  }

  ghost predicate PathFromTo(conns: seq<Conn>, live: set<nat>, path: seq<nat>, o: nat, p: nat) {
    Path(conns, live, path) && path[0] == o && path[|path| - 1] == p
  }

  ghost predicate Leads(conns: seq<Conn>, live: set<nat>, o: nat, p: nat) {
    exists path :: PathFromTo(conns, live, path, o, p)
  }

  /** The live objects that a collapse of o spreads to, o included. */
  ghost function Reach(conns: seq<Conn>, live: set<nat>, o: nat): set<nat> {
    set p | p in live && Leads(conns, live, o, p)
  }

  /** Fewer connections and fewer live objects lead to less. */
  lemma ReachMonotone(conns: seq<Conn>, live: set<nat>, conns': seq<Conn>, live': set<nat>, o: nat)
    requires (forall c :: c in conns' ==> c in conns) && live' <= live
    ensures Reach(conns', live', o) <= Reach(conns, live, o)
  {
    forall p | p in Reach(conns', live', o)
      ensures p in Reach(conns, live, o)
    {
      var path :| PathFromTo(conns', live', path, o, p);
      PathKept(conns', live', conns, live, path);
      assert PathFromTo(conns, live, path, o, p);
    }
  }

  /** A path stays one if its objects stay live and its links connected. */
  lemma PathKept(conns: seq<Conn>, live: set<nat>, conns': seq<Conn>, live': set<nat>, path: seq<nat>)
    requires Path(conns, live, path)
    requires forall i :: 0 <= i < |path| ==> path[i] in live'
    requires forall c, i :: 0 <= i < |path| - 1 && c in conns && Edge(c, path[i], path[i + 1]) ==> c in conns'
    ensures Path(conns', live', path)
  {
    forall i | 0 <= i < |path| - 1
      ensures Linked(conns', path[i], path[i + 1])
    {
      assert Linked(conns, path[i], path[i + 1]);
      var c :| c in conns && Edge(c, path[i], path[i + 1]);
      assert c in conns';
    }
  }

  lemma SelfReached(conns: seq<Conn>, live: set<nat>, o: nat)
    requires o in live
    ensures o in Reach(conns, live, o)
  {
    assert PathFromTo(conns, live, [o], o, o);
  }

  /** A link extends what is reached by what its target reaches. */
  lemma ReachStep(conns: seq<Conn>, live: set<nat>, c: Conn, o: nat)
    requires c in conns && Edge(c, o, c.context) && o in live
    ensures Reach(conns, live, c.context) <= Reach(conns, live, o)
  {
    forall p | p in Reach(conns, live, c.context)
      ensures p in Reach(conns, live, o)
    {
      var path :| PathFromTo(conns, live, path, c.context, p);
      PathCons(conns, live, c, o, path);
      assert PathFromTo(conns, live, [o] + path, o, p);
    }
  }

  lemma PathCons(conns: seq<Conn>, live: set<nat>, c: Conn, o: nat, path: seq<nat>)
    requires Path(conns, live, path) && c in conns && Edge(c, o, path[0]) && o in live
    ensures Path(conns, live, [o] + path)
  {
    var longer := [o] + path;
    forall i | 0 <= i < |longer| - 1
      ensures Linked(conns, longer[i], longer[i + 1])
    {
      if i > 0 {
        assert Linked(conns, path[i - 1], path[i - 1 + 1]);
      }
    }
  }

  lemma PathTail(conns: seq<Conn>, live: set<nat>, path: seq<nat>)
    requires Path(conns, live, path) && |path| > 1
    ensures Path(conns, live, path[1..]) && Linked(conns, path[0], path[1])
  {
    assert Linked(conns, path[0], path[0 + 1]);
    var rest := path[1..];
    forall i | 0 <= i < |rest| - 1
      ensures Linked(conns, rest[i], rest[i + 1])
    {
      assert Linked(conns, path[i + 1], path[i + 1 + 1]);
    }
  }

  /** Whatever an object in Reach leads to is in Reach. */
  lemma ReachClosed(conns: seq<Conn>, live: set<nat>, o: nat, p: nat)
    requires p in Reach(conns, live, o)
    ensures Reach(conns, live, p) <= Reach(conns, live, o)
  {
    var path :| PathFromTo(conns, live, path, o, p);
    ReachAlong(conns, live, path);
  }

  lemma {:induction false} ReachAlong(conns: seq<Conn>, live: set<nat>, path: seq<nat>)
    requires Path(conns, live, path)
    ensures Reach(conns, live, path[|path| - 1]) <= Reach(conns, live, path[0])
    decreases |path|
  {
    if |path| > 1 {
      PathTail(conns, live, path);
      ReachAlong(conns, live, path[1..]);
      var c :| c in conns && Edge(c, path[0], path[1]);
      ReachStep(conns, live, c, path[0]);
    }
  }

  /** Whoever leads to p is o itself or linked to somebody who leads to p. */
  lemma ReachSplit(conns: seq<Conn>, live: set<nat>, o: nat, p: nat) returns (c: Conn)
    requires p in Reach(conns, live, o) && p != o
    ensures c in conns && Edge(c, o, c.context) && c.context in live && p in Reach(conns, live, c.context)
  {
    var path :| PathFromTo(conns, live, path, o, p);
    PathTail(conns, live, path);
    c :| c in conns && Edge(c, path[0], path[1]);
    assert PathFromTo(conns, live, path[1..], path[1], p);
  }

  ghost predicate Simple(path: seq<nat>) {
    forall i, j :: 0 <= i < j < |path| ==> path[i] != path[j]
  }

  /** A path without detours. */
  lemma {:induction false} SimplePath(conns: seq<Conn>, live: set<nat>, path: seq<nat>) returns (short: seq<nat>)
    requires Path(conns, live, path)
    ensures PathFromTo(conns, live, short, path[0], path[|path| - 1]) && Simple(short)
    decreases |path|
  {
    if |path| == 1 {
      short := path;
    } else {
      PathTail(conns, live, path);
      var rest := SimplePath(conns, live, path[1..]);
      if path[0] in rest {
        var k :| 0 <= k < |rest| && rest[k] == path[0];
        short := rest[k..];
        PathSuffix(conns, live, rest, k);
      } else {
        var c :| c in conns && Edge(c, path[0], path[1]);
        PathCons(conns, live, c, path[0], rest);
        short := [path[0]] + rest;
      }
    }
  }

  lemma PathSuffix(conns: seq<Conn>, live: set<nat>, path: seq<nat>, k: nat)
    requires Path(conns, live, path) && k < |path|
    ensures Path(conns, live, path[k..])
  {
    var rest := path[k..];
    forall i | 0 <= i < |rest| - 1
      ensures Linked(conns, rest[i], rest[i + 1])
    {
      assert Linked(conns, path[k + i], path[k + i + 1]);
    }
  }

  // ---------- removing connections

  ghost function Minus(conns: seq<Conn>, gone: set<Conn>): seq<Conn> {
    if conns == [] then []
    else (if conns[0] in gone then [] else [conns[0]]) + Minus(conns[1..], gone)
  }

  lemma {:induction false} MinusMembers(conns: seq<Conn>, gone: set<Conn>, c: Conn)
    ensures c in Minus(conns, gone) <==> c in conns && c !in gone
  {
    if conns != [] { MinusMembers(conns[1..], gone, c); }
  }

  lemma AllMinusMembers(conns: seq<Conn>, gone: set<Conn>)
    ensures forall c :: c in Minus(conns, gone) <==> c in conns && c !in gone
  {
    forall c
      ensures c in Minus(conns, gone) <==> c in conns && c !in gone
    {
      MinusMembers(conns, gone, c);
    }
  }

  /** Older connections come first. */
  ghost predicate Sorted(conns: seq<Conn>) {
    forall i, j :: 0 <= i < j < |conns| ==> conns[i].id < conns[j].id
  }

  lemma {:induction false} MinusSorted(conns: seq<Conn>, gone: set<Conn>)
    requires Sorted(conns)
    ensures Sorted(Minus(conns, gone))
  {
    if conns != [] {
      var rest := Minus(conns[1..], gone);
      MinusSorted(conns[1..], gone);
      AllMinusMembers(conns[1..], gone);
      forall j | 0 <= j < |rest|
        ensures conns[0].id < rest[j].id
      {
        assert rest[j] in conns[1..];
      }
    }
  }

  lemma {:induction false} MinusShorter(conns: seq<Conn>, gone: set<Conn>)
    ensures |Minus(conns, gone)| <= |conns|
    ensures (exists c :: c in conns && c in gone) ==> |Minus(conns, gone)| < |conns|
  {
    if conns != [] { MinusShorter(conns[1..], gone); }
  }
}
