/** The cascade of a collapse as a function: which objects it disintegrates, which
    connections it leaves, when it ends, and how often an object emits `destroyed`
    (were/were_connect.h, were/were_capability_integrator.cpp). */
module Cascade {

  import opened Lists
  import opened Links

  /** The connected connections, oldest first; the integrated objects; and the objects
      whose `destroyed` was emitted, in order. */
  datatype Scene = Scene(conns: seq<Conn>, live: set<nat>, emitted: seq<nat>)

  /** What an entry of a `destroyed` list does: follow a link, break a connection, or
      nothing to the scene. */
  datatype Act = Go(c: Conn) | Cut(c: Conn) | Idle(c: Conn)

  /** What a connection contributes to the list of o, in the order of were::connect. */
  ghost function ActsIn(c: Conn, o: nat): seq<Act> {
    (if c.signal == Destroyed(o) then [if c.handler == LinkHandler then Go(c) else Idle(c)] else []) +
    (if c.signal.owner == o then [Cut(c)] else []) +
    (if c.context == o then [Cut(c)] else [])
  }

  ghost function Acts(conns: seq<Conn>, o: nat): seq<Act> {
    if conns == [] then [] else ActsIn(conns[0], o) + Acts(conns[1..], o)
  }

  /** disintegrate, with d nested emissions left on the stack: None when they do not
      suffice.  The object stays integrated while it emits. */
  ghost function Collapse(w: Scene, o: nat, d: nat): Option<Scene>
    decreases d, 0, 0
  {
    if o !in w.live then Some(w)
    else if d == 0 then None
    else
      match Perform(w.(emitted := w.emitted + [o]), Acts(w.conns, o), d - 1)
      case None => None
      case Some(v) => Some(v.(live := v.live - {o}))
  }

  /** An emission: the entries listed at its beginning, one after the other. */
  ghost function Perform(w: Scene, acts: seq<Act>, d: nat): Option<Scene>
    decreases d, 1, |acts|
  {
    if acts == [] then Some(w)
    else
      match Do(w, acts[0], d)
      case None => None
      case Some(v) => Perform(v, acts[1..], d)
  }

  ghost function Do(w: Scene, a: Act, d: nat): Option<Scene>
    decreases d, 0, 1
  {
    match a
    case Go(c) => Collapse(w, c.context, d)
    case Cut(c) => Some(w.(conns := Minus(w.conns, {c})))
    case Idle(_) => Some(w)
  }

  // ---------- entries and connections

  lemma {:induction false} ActOwner(conns: seq<Conn>, o: nat, a: Act)
    requires a in Acts(conns, o)
    ensures a.c in conns && a in ActsIn(a.c, o)
  {
    if a !in ActsIn(conns[0], o) { ActOwner(conns[1..], o, a); }
  }

  lemma {:induction false} ActListed(conns: seq<Conn>, o: nat, a: Act)
    requires a.c in conns && a in ActsIn(a.c, o)
    ensures a in Acts(conns, o)
  {
    if a.c != conns[0] { ActListed(conns[1..], o, a); }
  }

  /** The entries of the list of o, whatever is left of them. */
  ghost predicate ActsOf(acts: seq<Act>, conns: seq<Conn>, o: nat) {
    forall a :: a in acts ==> a.c in conns && a in ActsIn(a.c, o)
  }

  lemma AllActsOf(conns: seq<Conn>, o: nat)
    ensures ActsOf(Acts(conns, o), conns, o)
    ensures forall c :: c in conns && Edge(c, o, c.context) ==> Go(c) in Acts(conns, o)
    ensures forall c :: c in conns && Touches(c, o) ==> Cut(c) in Acts(conns, o)
  {
    forall a | a in Acts(conns, o)
      ensures a.c in conns && a in ActsIn(a.c, o)
    {
      ActOwner(conns, o, a);
    }
    forall c | c in conns && Edge(c, o, c.context)
      ensures Go(c) in Acts(conns, o)
    {
      ActListed(conns, o, Go(c));
    }
    forall c | c in conns && Touches(c, o)
      ensures Cut(c) in Acts(conns, o)
    {
      ActListed(conns, o, Cut(c));
    }
  }

  // ---------- what only shrinks

  ghost predicate Shrinks(w: Scene, v: Scene) {
    && (forall c :: c in v.conns ==> c in w.conns) && v.live <= w.live && w.emitted <= v.emitted
    && |v.conns| <= |w.conns| && (Sorted(w.conns) ==> Sorted(v.conns))
  }

  lemma CutShrinks(w: Scene, c: Conn)
    ensures Shrinks(w, w.(conns := Minus(w.conns, {c}))) && c !in Minus(w.conns, {c})
  {
    AllMinusMembers(w.conns, {c});
    MinusShorter(w.conns, {c});
    if Sorted(w.conns) { MinusSorted(w.conns, {c}); }
  }

  lemma {:induction false} CollapseShrinks(w: Scene, o: nat, d: nat)
    ensures Collapse(w, o, d).Some? ==> Shrinks(w, Collapse(w, o, d).value) && o !in Collapse(w, o, d).value.live
    decreases d, 0, 0
  {
    if o in w.live && d > 0 {
      PerformShrinks(w.(emitted := w.emitted + [o]), Acts(w.conns, o), d - 1);
    }
  }

  lemma {:induction false} PerformShrinks(w: Scene, acts: seq<Act>, d: nat)
    ensures Perform(w, acts, d).Some? ==> Shrinks(w, Perform(w, acts, d).value)
    decreases d, 1, |acts|
  {
    if acts != [] {
      DoShrinks(w, acts[0], d);
      match Do(w, acts[0], d)
      case None =>
      case Some(v) => PerformShrinks(v, acts[1..], d);
    }
  }

  lemma {:induction false} DoShrinks(w: Scene, a: Act, d: nat)
    ensures Do(w, a, d).Some? ==> Shrinks(w, Do(w, a, d).value)
    decreases d, 0, 1
  {
    match a
    case Go(c) => CollapseShrinks(w, c.context, d);
    case Cut(c) => CutShrinks(w, c);
    case Idle(_) =>
  }

  // ---------- nothing beyond reach changes

  ghost predicate Within(w: Scene, v: Scene, reach: set<nat>) {
    && w.live - reach <= v.live
    && (forall c :: c in w.conns && (forall p :: p in reach ==> !Touches(c, p)) ==> c in v.conns)
  }

  lemma WithinTwice(w: Scene, u: Scene, v: Scene, small: set<nat>, reach: set<nat>)
    requires Within(w, u, small) && small <= reach && Within(u, v, reach)
    ensures Within(w, v, reach)
  {
  }

  lemma {:induction false} CollapseWithin(w: Scene, o: nat, d: nat)
    requires Collapse(w, o, d).Some?
    ensures Within(w, Collapse(w, o, d).value, Reach(w.conns, w.live, o))
    decreases d, 0, 0
  {
    if o in w.live {
      SelfReached(w.conns, w.live, o);
      AllActsOf(w.conns, o);
      PerformWithin(w, w.(emitted := w.emitted + [o]), Acts(w.conns, o), o, d - 1);
    }
  }

  lemma {:induction false} PerformWithin(w0: Scene, w: Scene, acts: seq<Act>, o: nat, d: nat)
    requires Perform(w, acts, d).Some? && o in w0.live && ActsOf(acts, w0.conns, o)
    requires (forall c :: c in w.conns ==> c in w0.conns) && w.live <= w0.live
    ensures Within(w, Perform(w, acts, d).value, Reach(w0.conns, w0.live, o))
    decreases d, 1, |acts|
  {
    hide Reach, Minus;
    if acts != [] {
      var reach, a := Reach(w0.conns, w0.live, o), acts[0];
      var v := Do(w, a, d).value;
      DoShrinks(w, a, d);
      PerformWithin(w0, v, acts[1..], o, d);
      match a {
        case Go(c) =>
          CollapseWithin(w, c.context, d);
          ReachMonotone(w0.conns, w0.live, w.conns, w.live, c.context);
          ReachStep(w0.conns, w0.live, c, o);
          WithinTwice(w, v, Perform(w, acts, d).value, Reach(w.conns, w.live, c.context), reach);
        case Cut(c) =>
          AllMinusMembers(w.conns, {c});
          SelfReached(w0.conns, w0.live, o);
          assert Within(w, v, reach);
        case Idle(_) =>
      }
    }
  }

  // ---------- the dead are disconnected, and broken links lead to the dead

  /** In a list, a link comes before the breaker of its connection. */
  ghost predicate GoFirst(acts: seq<Act>) {
    forall i, j :: 0 <= i < j < |acts| && acts[i].Cut? ==> acts[j] != Go(acts[i].c)
  }

  /** The links whose turn is over lead to the dead. */
  ghost predicate Followed(w: Scene, acts: seq<Act>, o: nat) {
    forall c :: Cut(c) in acts && Edge(c, o, c.context) && Go(c) !in acts ==> c.context !in w.live
  }

  lemma {:induction false} ActsGoFirst(conns: seq<Conn>, o: nat)
    requires Sorted(conns)
    ensures GoFirst(Acts(conns, o))
  {
    if conns != [] {
      ActsGoFirst(conns[1..], o);
      var first, rest := ActsIn(conns[0], o), Acts(conns[1..], o);
      var all: seq<Act> := first + rest;
      forall i, j | 0 <= i < j < |all| && all[i].Cut?
        ensures all[j] != Go(all[i].c)
      {
        if i < |first| <= j {
          ActOwner(conns[1..], o, rest[j - |first|]);
          assert forall c :: c in conns[1..] ==> conns[0].id < c.id;
        }
      }
    }
  }

  lemma GoFirstTail(acts: seq<Act>)
    requires GoFirst(acts) && acts != []
    ensures GoFirst(acts[1..]) && (acts[0].Cut? ==> Go(acts[0].c) !in acts[1..])
  {
  }

  /** A link that is gone, among the connections of w, leads to the dead, or to o. */
  ghost predicate GoneMeansDead(w: Scene, v: Scene, o: Option<nat>) {
    forall c :: c in w.conns && c !in v.conns && Edge(c, c.signal.owner, c.context) ==>
      c.context !in v.live || Some(c.context) == o
  }

  ghost predicate DeadAlone(w: Scene, v: Scene) {
    forall c, x :: c in v.conns && x in w.live && x !in v.live ==> !Touches(c, x)
  }

  lemma {:induction false} CollapseGone(w: Scene, o: nat, d: nat)
    requires Collapse(w, o, d).Some? && Sorted(w.conns)
    ensures GoneMeansDead(w, Collapse(w, o, d).value, None) && DeadAlone(w, Collapse(w, o, d).value)
    decreases d, 0, 0
  {
    hide Minus, Acts, ActsIn, Perform, Sorted;
    if o in w.live {
      AllActsOf(w.conns, o);
      ActsGoFirst(w.conns, o);
      var u, acts := w.(emitted := w.emitted + [o]), Acts(w.conns, o);
      PerformGone(u, acts, o, d - 1);
      PerformShrinks(u, acts, d - 1);
      EndsAlone(u, Perform(u, acts, d - 1).value, o);
    }
  }

  /** When o itself dies last, nothing being connected to it. */
  lemma EndsAlone(u: Scene, v: Scene, o: nat)
    requires GoneMeansDead(u, v, Some(o)) && DeadAlone(u, v) && forall c :: c in v.conns ==> !Touches(c, o)
    ensures var v' := v.(live := v.live - {o}); GoneMeansDead(u, v', None) && DeadAlone(u, v')
  {
  }

  lemma {:induction false} PerformGone(w: Scene, acts: seq<Act>, o: nat, d: nat)
    requires Perform(w, acts, d).Some? && Sorted(w.conns) && GoFirst(acts) && Followed(w, acts, o)
    requires forall a :: a in acts ==> a in ActsIn(a.c, o)
    ensures var v := Perform(w, acts, d).value;
            && GoneMeansDead(w, v, Some(o)) && DeadAlone(w, v)
            && forall c :: Cut(c) in acts ==> c !in v.conns
    decreases d, 1, |acts|
  {
    hide Minus, Collapse;
    if acts != [] {
      var a, rest := acts[0], acts[1..];
      var u, v := Do(w, a, d).value, Perform(w, acts, d).value;
      DoShrinks(w, a, d);
      PerformShrinks(u, rest, d);
      GoFirstTail(acts);
      assert forall b :: b in rest ==> b in acts;
      assert forall b :: b in acts ==> b == a || b in rest;
      match a {
        case Go(c) =>
          CollapseShrinks(w, c.context, d);
          CollapseGone(w, c.context, d);
        case Cut(c) =>
          AllMinusMembers(w.conns, {c});
        case Idle(_) =>
      }
      assert Followed(u, rest, o);
      PerformGone(u, rest, o, d);
    }
  }

  // ---------- exactly what is reached

  /** A collapse that ends disintegrates exactly what o reaches and leaves exactly the
      connections that touch none of it, cycles or not. */
  lemma CollapseExactly(w: Scene, o: nat, d: nat)
    requires Collapse(w, o, d).Some? && Sorted(w.conns)
    ensures var v, reach := Collapse(w, o, d).value, Reach(w.conns, w.live, o);
            && v.live == w.live - reach
            && forall c :: c in v.conns <==> c in w.conns && forall p :: p in reach ==> !Touches(c, p)
  {
    hide Collapse;
    var v, reach := Collapse(w, o, d).value, Reach(w.conns, w.live, o);
    CollapseShrinks(w, o, d);
    CollapseWithin(w, o, d);
    CollapseGone(w, o, d);
    forall p | p in reach
      ensures p !in v.live
    {
      var path :| PathFromTo(w.conns, w.live, path, o, p);
      DeadAlong(w, v, path);
    }
  }

  /** Death spreads along links. */
  lemma {:induction false} DeadAlong(w: Scene, v: Scene, path: seq<nat>)
    requires GoneMeansDead(w, v, None) && DeadAlone(w, v)
    requires Path(w.conns, w.live, path) && path[0] !in v.live
    ensures path[|path| - 1] !in v.live
    decreases |path|
  {
    if |path| > 1 {
      PathTail(w.conns, w.live, path);
      var c :| c in w.conns && Edge(c, path[0], path[1]);
      assert c !in v.conns;
      DeadAlong(w, v, path[1..]);
    }
  }

  // ---------- once, without cycles

  ghost predicate Once(es: seq<nat>, objects: set<nat>) {
    && (forall p :: p in es <==> p in objects)
    && (forall i, j :: 0 <= i < j < |es| ==> es[i] != es[j])
  }

  lemma OnceMore(a: seq<nat>, x: set<nat>, b: seq<nat>, y: set<nat>)
    requires Once(a, x) && Once(b, y) && x !! y
    ensures Once(a + b, x + y)
  {
    forall i, j | 0 <= i < j < |a + b|
      ensures (a + b)[i] != (a + b)[j]
    {
      if i < |a| <= j {
        assert a[i] in x && b[j - |a|] in y;
      }
    }
  }

  /** No live object that o reaches leads back to itself. */
  ghost predicate Acyclic(conns: seq<Conn>, live: set<nat>, o: nat) {
    forall c, x :: c in conns && x in Reach(conns, live, o) && Edge(c, x, c.context) ==>
      x !in Reach(conns, live, c.context)
  }

  lemma AcyclicBelow(w0: Scene, w: Scene, c: Conn, o: nat)
    requires Acyclic(w0.conns, w0.live, o) && o in w0.live && c in w0.conns && Edge(c, o, c.context)
    requires (forall e :: e in w.conns ==> e in w0.conns) && w.live <= w0.live
    ensures Acyclic(w.conns, w.live, c.context) && o !in Reach(w.conns, w.live, c.context)
  {
    hide Reach;
    ReachMonotone(w0.conns, w0.live, w.conns, w.live, c.context);
    ReachStep(w0.conns, w0.live, c, o);
    SelfReached(w0.conns, w0.live, o);
    forall e, x | e in w.conns && x in Reach(w.conns, w.live, c.context) && Edge(e, x, e.context)
      ensures x !in Reach(w.conns, w.live, e.context)
    {
      ReachMonotone(w0.conns, w0.live, w.conns, w.live, e.context);
    }
  }

  /** What a scene lost has emitted once each. */
  ghost predicate EmittedOnce(w: Scene, v: Scene, lost: set<nat>) {
    w.emitted <= v.emitted && Once(v.emitted[|w.emitted|..], lost)
  }

  lemma EmittedMore(w: Scene, u: Scene, v: Scene)
    requires EmittedOnce(w, u, w.live - u.live) && EmittedOnce(u, v, u.live - v.live) && v.live <= u.live <= w.live
    ensures EmittedOnce(w, v, w.live - v.live)
  {
    var a, b := u.emitted[|w.emitted|..], v.emitted[|u.emitted|..];
    OnceMore(a, w.live - u.live, b, u.live - v.live);
    assert v.emitted[|w.emitted|..] == a + b;
    assert (w.live - u.live) + (u.live - v.live) == w.live - v.live;
  }

  /** Without cycles every object reached emits `destroyed` exactly once. */
  lemma {:induction false} CollapseOnce(w: Scene, o: nat, d: nat)
    requires Collapse(w, o, d).Some? && Sorted(w.conns) && Acyclic(w.conns, w.live, o)
    ensures EmittedOnce(w, Collapse(w, o, d).value, Reach(w.conns, w.live, o))
    decreases d, 0, 0
  {
    hide Reach, Acts, Perform, Sorted, Acyclic;
    CollapseExactly(w, o, d);
    CollapseShrinks(w, o, d);
    var v' := Collapse(w, o, d).value;
    assert Reach(w.conns, w.live, o) == w.live - v'.live by {
      ReachIsLive(w.conns, w.live, o);
    }
    if o in w.live {
      AllActsOf(w.conns, o);
      var u := w.(emitted := w.emitted + [o]);
      PerformShrinks(u, Acts(w.conns, o), d - 1);
      PerformOnce(w, u, Acts(w.conns, o), o, d - 1);
      var v := Perform(u, Acts(w.conns, o), d - 1).value;
      OnceMore([o], {o}, v.emitted[|u.emitted|..], u.live - v.live);
      assert v.emitted[|w.emitted|..] == [o] + v.emitted[|u.emitted|..];
      assert {o} + (u.live - v.live) == w.live - v'.live;
    } else {
      assert w.emitted[|w.emitted|..] == [];
    }
  }

  lemma ReachIsLive(conns: seq<Conn>, live: set<nat>, o: nat)
    ensures Reach(conns, live, o) <= live
  {
  }

  lemma {:induction false} PerformOnce(w0: Scene, w: Scene, acts: seq<Act>, o: nat, d: nat)
    requires Perform(w, acts, d).Some? && Sorted(w.conns) && Acyclic(w0.conns, w0.live, o)
    requires o in w0.live && o in w.live && ActsOf(acts, w0.conns, o)
    requires (forall c :: c in w.conns ==> c in w0.conns) && w.live <= w0.live
    ensures var v := Perform(w, acts, d).value; o in v.live && EmittedOnce(w, v, w.live - v.live)
    decreases d, 1, |acts|
  {
    hide Reach, Collapse, Sorted, Acyclic, Minus;
    if acts == [] {
      assert w.emitted[|w.emitted|..] == [];
    } else {
      var a := acts[0];
      var u, v := Do(w, a, d).value, Perform(w, acts, d).value;
      DoShrinks(w, a, d);
      PerformShrinks(u, acts[1..], d);
      match a {
        case Go(c) =>
          AcyclicBelow(w0, w, c, o);
          CollapseOnce(w, c.context, d);
          CollapseExactly(w, c.context, d);
          ReachIsLive(w.conns, w.live, c.context);
          assert Reach(w.conns, w.live, c.context) == w.live - u.live;
        case _ =>
          assert u.emitted[|w.emitted|..] == [];
      }
      PerformOnce(w0, u, acts[1..], o, d);
      EmittedMore(w, u, v);
    }
  }

  // ---------- a self-link never ends

  /** s links the live object p to itself. */
  ghost predicate SelfLink(w: Scene, p: nat, s: Conn) {
    p in w.live && s in w.conns && Edge(s, p, p)
  }

  /** As long as anything comes back, the self-linked object is untouched: collapsing it
      does not come back. */
  lemma {:induction false} SelfLinkStays(w: Scene, o: nat, d: nat, p: nat, s: Conn)
    requires SelfLink(w, p, s) && Sorted(w.conns)
    ensures Collapse(w, o, d).Some? ==> o != p && SelfLink(Collapse(w, o, d).value, p, s)
    decreases d, 0, 0
  {
    hide Acts, Perform, Sorted;
    if o in w.live && d > 0 {
      AllActsOf(w.conns, o);
      ActsGoFirst(w.conns, o);
      PerformStays(w.(emitted := w.emitted + [o]), Acts(w.conns, o), o, d - 1, p, s);
    }
  }

  lemma {:induction false} PerformStays(w: Scene, acts: seq<Act>, o: nat, d: nat, p: nat, s: Conn)
    requires SelfLink(w, p, s) && Sorted(w.conns) && GoFirst(acts) && forall a :: a in acts ==> a in ActsIn(a.c, o)
    requires o == p ==> Go(s) in acts
    ensures Perform(w, acts, d).Some? ==> o != p && SelfLink(Perform(w, acts, d).value, p, s)
    decreases d, 1, |acts|
  {
    hide Collapse, Minus;
    if acts != [] {
      var a, rest := acts[0], acts[1..];
      GoFirstTail(acts);
      assert forall b :: b in acts ==> b == a || b in rest;
      DoShrinks(w, a, d);
      match a {
        case Go(c) =>
          SelfLinkStays(w, c.context, d, p, s);
        case Cut(c) =>
          AllMinusMembers(w.conns, {c});
        case Idle(_) =>
      }
      if Do(w, a, d).Some? {
        PerformStays(Do(w, a, d).value, rest, o, d, p, s);
      }
    }
  }

  /** Nor does collapsing anything that leads to it. */
  lemma {:induction false} NeverEnds(w: Scene, path: seq<nat>, d: nat, s: Conn)
    requires Path(w.conns, w.live, path) && Simple(path) && Sorted(w.conns) && SelfLink(w, path[|path| - 1], s)
    ensures Collapse(w, path[0], d) == None
    decreases d, 0, 0
  {
    hide Acts, ActsIn, Perform, Sorted, Reach;
    var o := path[0];
    if |path| == 1 {
      SelfLinkStays(w, o, d, o, s);
    } else if d > 0 {
      PathTail(w.conns, w.live, path);
      var c :| c in w.conns && Edge(c, o, path[1]);
      AllActsOf(w.conns, o);
      ActsGoFirst(w.conns, o);
      var u := w.(emitted := w.emitted + [o]);
      PerformNeverEnds(u, Acts(w.conns, o), path, c, d - 1, s);
    }
  }

  lemma {:induction false} PerformNeverEnds(w: Scene, acts: seq<Act>, path: seq<nat>, c: Conn, d: nat, s: Conn)
    requires |path| > 1 && Simple(path) && Path(w.conns, w.live, path[1..]) && SelfLink(w, path[|path| - 1], s)
    requires Sorted(w.conns) && forall a :: a in acts ==> a in ActsIn(a.c, path[0])
    requires Go(c) in acts && Edge(c, path[0], path[1])
    ensures Perform(w, acts, d) == None
    decreases d, 1, |acts|
  {
    hide Collapse, Minus, Reach;
    var o, rest, a := path[0], path[1..], acts[0];
    assert Simple(rest) && rest[|rest| - 1] == path[|path| - 1];
    if a == Go(c) {
      NeverEnds(w, rest, d, s);
    } else {
      DoShrinks(w, a, d);
      if Do(w, a, d).Some? {
        var u := Do(w, a, d).value;
        match a {
          case Go(e) =>
            StaysBeyond(w, e.context, d, rest, s);
          case Cut(e) =>
            AllMinusMembers(w.conns, {e});
            PathKept(w.conns, w.live, u.conns, u.live, rest);
          case Idle(_) =>
        }
        PerformNeverEnds(u, acts[1..], path, c, d, s);
      }
    }
  }

  /** What comes back did not touch the path to the self-linked object. */
  lemma {:induction false} StaysBeyond(w: Scene, t: nat, d: nat, path: seq<nat>, s: Conn)
    requires Path(w.conns, w.live, path) && Sorted(w.conns) && SelfLink(w, path[|path| - 1], s)
    requires Collapse(w, t, d).Some?
    ensures var v := Collapse(w, t, d).value; Path(v.conns, v.live, path) && SelfLink(v, path[|path| - 1], s)
    decreases d, 0, 1
  {
    hide Reach, Collapse;
    var v, reach, p := Collapse(w, t, d).value, Reach(w.conns, w.live, t), path[|path| - 1];
    SelfLinkStays(w, t, d, p, s);
    CollapseExactly(w, t, d);
    forall i | 0 <= i < |path|
      ensures path[i] !in reach
    {
      if path[i] in reach {
        PathSuffix(w.conns, w.live, path, i);
        ReachAlong(w.conns, w.live, path[i..]);
        ReachClosed(w.conns, w.live, t, path[i]);
        SelfReached(w.conns, w.live, p);
        assert false;
      }
    }
    PathKept(w.conns, w.live, v.conns, v.live, path);
  }

  // ---------- everything else ends

  /** A deeper stack changes nothing for what ends. */
  lemma {:induction false} CollapseDeeper(w: Scene, o: nat, d: nat, e: nat)
    requires Collapse(w, o, d).Some? && d <= e
    ensures Collapse(w, o, e) == Collapse(w, o, d)
    decreases d, 0, 0
  {
    if o in w.live {
      PerformDeeper(w.(emitted := w.emitted + [o]), Acts(w.conns, o), d - 1, e - 1);
    }
  }

  lemma {:induction false} PerformDeeper(w: Scene, acts: seq<Act>, d: nat, e: nat)
    requires Perform(w, acts, d).Some? && d <= e
    ensures Perform(w, acts, e) == Perform(w, acts, d)
    decreases d, 1, |acts|
  {
    if acts != [] {
      DoDeeper(w, acts[0], d, e);
      PerformDeeper(Do(w, acts[0], d).value, acts[1..], d, e);
    }
  }

  lemma {:induction false} DoDeeper(w: Scene, a: Act, d: nat, e: nat)
    requires Do(w, a, d).Some? && d <= e
    ensures Do(w, a, e) == Do(w, a, d)
    decreases d, 0, 1
  {
    if a.Go? { CollapseDeeper(w, a.c.context, d, e); }
  }

  ghost predicate NoSelfLinks(w: Scene, o: nat) {
    forall p, s :: p in Reach(w.conns, w.live, o) && s in w.conns ==> !Edge(s, p, p)
  }

  /** Entries follow the age of their connections. */
  ghost predicate ByAge(acts: seq<Act>) {
    forall i, j :: 0 <= i < j < |acts| ==> acts[i].c.id <= acts[j].c.id
  }

  lemma {:induction false} ActsByAge(conns: seq<Conn>, o: nat)
    requires Sorted(conns)
    ensures ByAge(Acts(conns, o))
  {
    if conns != [] {
      ActsByAge(conns[1..], o);
      var first, rest := ActsIn(conns[0], o), Acts(conns[1..], o);
      var all: seq<Act> := first + rest;
      forall i, j | 0 <= i < j < |all|
        ensures all[i].c.id <= all[j].c.id
      {
        if i < |first| <= j {
          ActOwner(conns[1..], o, rest[j - |first|]);
          assert forall c :: c in conns[1..] ==> conns[0].id < c.id;
        }
      }
    }
  }

  /** One connection less is shorter. */
  lemma {:induction false} LostIsShorter(a: seq<Conn>, b: seq<Conn>, e: Conn)
    requires Sorted(a) && Sorted(b) && (forall c :: c in b ==> c in a) && e in a && e !in b
    ensures |b| < |a|
  {
    SortedSize(a);
    SortedSize(b);
    SubsetSize(Elements(b), Elements(a) - {e});
  }

  ghost function Elements(a: seq<Conn>): set<Conn> { set c | c in a }

  lemma {:induction false} SubsetSize(y: set<Conn>, x: set<Conn>)
    requires y <= x
    ensures |y| <= |x|
  {
    if y != {} {
      var c :| c in y;
      SubsetSize(y - {c}, x - {c});
    }
  }

  lemma {:induction false} SortedSize(a: seq<Conn>)
    requires Sorted(a)
    ensures |Elements(a)| == |a|
  {
    if a != [] {
      SortedSize(a[1..]);
      assert a == [a[0]] + a[1..];
      assert Elements(a) == {a[0]} + Elements(a[1..]);
      assert a[0] !in a[1..];
    }
  }

  /** The connection by which the collapse came to o, if by any; k is its age. */
  ghost predicate Entered(w: Scene, o: nat, via: Option<Conn>, k: nat) {
    match via
    case None => forall c :: c in w.conns ==> c.id < k
    case Some(e) => e in w.conns && e.context == o && k == e.id
  }

  /** Links whose turn is still to come are connected, or lead to the dead. */
  ghost predicate Fresh(w: Scene, acts: seq<Act>) {
    forall c :: Go(c) in acts ==> c in w.conns || c.context !in w.live
  }

  /** Without a self-link in reach the cascade ends.  Every further step into it goes by
      an older connection, or the one it came by is broken. */
  lemma {:induction false} Ends(w: Scene, o: nat, via: Option<Conn>, k: nat) returns (d: nat)
    requires Sorted(w.conns) && NoSelfLinks(w, o) && Entered(w, o, via, k)
    ensures Collapse(w, o, d).Some?
    decreases |w.conns|, k, 1, 0
  {
    hide Acts, Perform, Sorted, ActsIn, NoSelfLinks;
    d := 0;
    if o in w.live {
      var u, acts := w.(emitted := w.emitted + [o]), Acts(w.conns, o);
      AllActsOf(w.conns, o);
      ActsGoFirst(w.conns, o);
      ActsByAge(w.conns, o);
      d := PerformEnds(w, u, acts, o, via, k);
      d := d + 1;
    }
  }

  lemma {:induction false} PerformEnds(w0: Scene, w: Scene, acts: seq<Act>, o: nat, via: Option<Conn>, k: nat)
    returns (d: nat)
    requires Sorted(w0.conns) && Sorted(w.conns) && NoSelfLinks(w0, o) && Entered(w0, o, via, k) && o in w0.live
    requires ActsOf(acts, w0.conns, o) && GoFirst(acts) && ByAge(acts) && Fresh(w, acts)
    requires (forall c :: c in w.conns ==> c in w0.conns) && w.live <= w0.live && |w.conns| <= |w0.conns|
    requires via.Some? && via.value in w.conns ==> Cut(via.value) in acts
    ensures Perform(w, acts, d).Some?
    decreases |w0.conns|, k, 0, |acts|
  {
    hide Minus, Reach, Sorted, Collapse;
    d := 0;
    if acts != [] {
      var a, rest := acts[0], acts[1..];
      GoFirstTail(acts);
      assert forall b :: b in acts ==> b == a || b in rest;
      var d1 := 0;
      if a.Go? && a.c.context in w.live {
        EntersOlder(w0, w, acts, o, via, k);
        NoSelfLinksBelow(w0, w, a.c, o);
        d1 := Ends(w, a.c.context, Some(a.c), a.c.id);
      } else if a.Go? {
        DeadIsDone(w, a.c.context);
      }
      var u := Do(w, a, d1).value;
      DoShrinks(w, a, d1);
      match a {
        case Go(c) =>
          CollapseGone(w, c.context, d1);
        case Cut(c) =>
          AllMinusMembers(w.conns, {c});
        case Idle(_) =>
      }
      var d2 := PerformEnds(w0, u, rest, o, via, k);
      d := if d1 < d2 then d2 else d1;
      DoDeeper(w, a, d1, d);
      PerformDeeper(u, rest, d2, d);
    }
  }

  lemma DeadIsDone(w: Scene, o: nat)
    requires o !in w.live
    ensures Collapse(w, o, 0) == Some(w)
  {
  }

  lemma NoSelfLinksBelow(w0: Scene, w: Scene, c: Conn, o: nat)
    requires NoSelfLinks(w0, o) && o in w0.live && c in w0.conns && Edge(c, o, c.context)
    requires (forall e :: e in w.conns ==> e in w0.conns) && w.live <= w0.live
    ensures NoSelfLinks(w, c.context)
  {
    hide Reach;
    ReachMonotone(w0.conns, w0.live, w.conns, w.live, c.context);
    ReachStep(w0.conns, w0.live, c, o);
  }

  /** The next link is older than the one that led here, or that one is gone. */
  lemma EntersOlder(w0: Scene, w: Scene, acts: seq<Act>, o: nat, via: Option<Conn>, k: nat)
    requires Sorted(w0.conns) && Sorted(w.conns) && NoSelfLinks(w0, o) && Entered(w0, o, via, k) && o in w0.live
    requires ActsOf(acts, w0.conns, o) && ByAge(acts) && Fresh(w, acts) && acts != [] && acts[0].Go?
    requires acts[0].c.context in w.live
    requires (forall c :: c in w.conns ==> c in w0.conns) && w.live <= w0.live && |w.conns| <= |w0.conns|
    requires via.Some? && via.value in w.conns ==> Cut(via.value) in acts
    ensures acts[0].c in w.conns && Edge(acts[0].c, o, acts[0].c.context)
    ensures |w.conns| < |w0.conns| || (|w.conns| == |w0.conns| && acts[0].c.id < k)
  {
    hide Reach;
    var c := acts[0].c;
    assert Go(c) in acts;
    if via.Some? {
      var e := via.value;
      if e in w.conns {
        var j :| 0 <= j < |acts| && acts[j] == Cut(e);
        SelfReached(w0.conns, w0.live, o);
        assert c.id <= e.id;
        assert c.id == e.id ==> c == e;
      } else {
        LostIsShorter(w0.conns, w.conns, e);
      }
    }
  }

  /** A collapse ends exactly when no live object in its reach is linked to itself: longer
      cycles break up, because an object cuts the link by which it was reached. */
  lemma EndsExactly(w: Scene, o: nat)
    requires Sorted(w.conns)
    ensures (exists d :: Collapse(w, o, d).Some?) <==> NoSelfLinks(w, o)
  {
    hide Collapse;
    if NoSelfLinks(w, o) {
      var d := Ends(w, o, None, if w.conns == [] then 0 else w.conns[|w.conns| - 1].id + 1);
    } else {
      var p, s :| p in Reach(w.conns, w.live, o) && s in w.conns && Edge(s, p, p);
      var path :| PathFromTo(w.conns, w.live, path, o, p);
      var short := SimplePath(w.conns, w.live, path);
      forall d
        ensures !Collapse(w, o, d).Some?
      {
        NeverEnds(w, short, d, s);
      }
    }
  }

  /** Two objects linked to each other: the cascade ends, with one of them emitting twice. */
  lemma CycleEmitsTwice()
    ensures var a, b := Conn(0, Destroyed(0), 1, LinkHandler), Conn(3, Destroyed(1), 0, LinkHandler);
            Collapse(Scene([a, b], {0, 1}, []), 0, 3) == Some(Scene([], {}, [0, 1, 0]))
  {
    hide Collapse, Perform, Acts, Minus;
    var a, b := Conn(0, Destroyed(0), 1, LinkHandler), Conn(3, Destroyed(1), 0, LinkHandler);
    PairOf(a, b, 0);
    PairOf(a, b, 1);
    PairOf(b, b, 0);
    NoneLeft(b);
    NoneLeft(a);
    assert Acts([a, b], 0) == [Go(a)] + ([Cut(a)] + [Cut(b)]);
    assert Acts([a, b], 1) == [Cut(a)] + ([Go(b)] + [Cut(b)]);
    assert Acts([b], 0) == [Cut(b)];
    var w1, w2 := Scene([a, b], {0, 1}, [0]), Scene([a, b], {0, 1}, [0, 1]);
    var w3, w4 := Scene([b], {0, 1}, [0, 1]), Scene([b], {0, 1}, [0, 1, 0]);
    var w5, w6 := Scene([], {1}, [0, 1, 0]), Scene([], {}, [0, 1, 0]);
    assert [0, 1] + [0] == [0, 1, 0] && [0] + [1] == [0, 1] && [] + [0] == [0];
    assert {0, 1} - {0} == {1} && {1} - {1} == {} && {} - {0} == {};
    assert w3.(emitted := w3.emitted + [0]) == w4 && w1.(emitted := w1.emitted + [1]) == w2;
    OneCut(w4, b, 0);
    Emits(w3, 0, 1, w4.(conns := []));
    PerformStep(w2, Cut(a), [Go(b)] + [Cut(b)], 1);
    PerformStep(w3, Go(b), [Cut(b)], 1);
    OneCut(w5, b, 1);
    Emits(w1, 1, 2, w5);
    PerformStep(w1, Go(a), [Cut(a)] + [Cut(b)], 2);
    PerformStep(w6, Cut(a), [Cut(b)], 2);
    OneCut(w6, b, 2);
    Emits(Scene([a, b], {0, 1}, []), 0, 3, w6);
  }

  lemma Emits(w: Scene, o: nat, d: nat, v: Scene)
    requires o in w.live && d > 0 && Perform(w.(emitted := w.emitted + [o]), Acts(w.conns, o), d - 1) == Some(v)
    ensures Collapse(w, o, d) == Some(v.(live := v.live - {o}))
  {
  }

  lemma NoneLeft(c: Conn)
    ensures Minus([], {c}) == []
  {
  }

  lemma PairOf(a: Conn, b: Conn, o: nat)
    ensures Acts([b], o) == ActsIn(b, o) && Acts([a, b], o) == ActsIn(a, o) + ActsIn(b, o)
    ensures Minus([b], {a}) == if a == b then [] else [b]
    ensures Minus([a, b], {a}) == Minus([b], {a})
  {
    assert [a, b][1..] == [b] && [b][1..] == [];
    assert ActsIn(b, o) + Acts([], o) == ActsIn(b, o);
    assert Minus([], {a}) == [] && [] + Minus([b], {a}) == Minus([b], {a});
  }

  lemma PerformStep(w: Scene, a: Act, rest: seq<Act>, d: nat)
    requires Do(w, a, d).Some?
    ensures Perform(w, [a] + rest, d) == Perform(Do(w, a, d).value, rest, d)
  {
    assert ([a] + rest)[1..] == rest;
  }

  lemma OneCut(w: Scene, c: Conn, d: nat)
    ensures Perform(w, [Cut(c)], d) == Some(w.(conns := Minus(w.conns, {c})))
  {
    PerformStep(w, Cut(c), [], d);
    assert [Cut(c)] + [] == [Cut(c)];
  }
}
