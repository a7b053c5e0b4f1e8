/** What emitting a signal does when handlers may connect, break, collapse and emit
    (were/were_signal.h, were/were_connect.h, were/were_capability_integrator.cpp). */
module Emission {

  import opened Lists
  import opened Links

  datatype State = Initial | Integrated | Disintegrated

  /** What a handler may do, any number of times. */
  datatype Op =
    | OpConnect(signal: Signal, context: nat, handler: Handler)
    | OpBreak(k: nat)
    | OpCollapse(o: nat)
    | OpEmit(s: Signal)

  /** The objects; the connected connections, oldest first; every connection ever made; the
      next id; the objects whose collapse emitted `destroyed` and the connections whose
      handlers ran, in order; and what the handlers still to be called do, call by call. */
  datatype Snap = Snap(state: seq<State>, conns: seq<Conn>, made: seq<Conn>, next: nat,
                       emitted: seq<nat>, ran: seq<Conn>, plan: seq<seq<Op>>)

  function Disintegrate(state: seq<State>, o: nat): seq<State> {
    if o < |state| then state[o := Disintegrated] else state
  }

  predicate Live(w: Snap, o: nat) { o < |w.state| && w.state[o] == Integrated }

  // ---------- the meaning of an emission

  /** An entry of a signal's list calls the handler of a connection or breaks one. */
  datatype Turn = Call(c: Conn) | Cut(c: Conn)

  ghost function TurnsIn(c: Conn, s: Signal): seq<Turn> {
    (if c.signal == s then [Call(c)] else []) +
    (if Destroyed(c.signal.owner) == s then [Cut(c)] else []) +
    (if Destroyed(c.context) == s then [Cut(c)] else [])
  }

  ghost function Turns(conns: seq<Conn>, s: Signal): seq<Turn> {
    if conns == [] then [] else TurnsIn(conns[0], s) + Turns(conns[1..], s)
  }

  /** disintegrate, with d nested emissions left on the stack: None when they do not
      suffice. */
  ghost function Collapse(w: Snap, o: nat, d: nat): Option<Snap>
    decreases d, 0, 0
  {
    if !Live(w, o) then Some(w)
    else if d == 0 then None
    else
      match Emit(w.(emitted := w.emitted + [o]), Destroyed(o), d - 1)
      case None => None
      case Some(v) => Some(v.(state := Disintegrate(v.state, o)))
  }

  /** All that is listed at the beginning, in the order of connection. */
  ghost function Emit(w: Snap, s: Signal, d: nat): Option<Snap>
    decreases d, 6, 0
  {
    TakeAll(w, Turns(w.conns, s), d)
  }

  ghost function TakeAll(w: Snap, turns: seq<Turn>, d: nat): Option<Snap>
    decreases d, 5, |turns|
  {
    if turns == [] then Some(w)
    else
      match Take(w, turns[0], d)
      case None => None
      case Some(v) => TakeAll(v, turns[1..], d)
  }

  ghost function Take(w: Snap, t: Turn, d: nat): Option<Snap>
    decreases d, 4, 0
  {
    match t
    case Cut(c) => Some(w.(conns := Minus(w.conns, {c})))
    case Call(c) =>
      var u := w.(ran := w.ran + [c]);
      match c.handler
      case LinkHandler => Collapse(u, c.context, d)
      case Note(_) => Some(u)
      case Free => Behave(u, d)
  }

  /** A free handler does what is next in the plan. */
  ghost function Behave(w: Snap, d: nat): Option<Snap>
    decreases d, 3, 0
  {
    if w.plan == [] then Some(w) else DoAll(w.(plan := w.plan[1..]), w.plan[0], d)
  }

  ghost function DoAll(w: Snap, ops: seq<Op>, d: nat): Option<Snap>
    decreases d, 2, |ops|
  {
    if ops == [] then Some(w)
    else
      match Do(w, ops[0], d)
      case None => None
      case Some(v) => DoAll(v, ops[1..], d)
  }

  ghost function Do(w: Snap, op: Op, d: nat): Option<Snap>
    decreases d, 1, 0
  {
    match op
    case OpConnect(signal, context, handler) =>
      var c := Conn(w.next, signal, context, handler);
      Some(w.(conns := w.conns + [c], made := w.made + [c], next := w.next + 3))
    case OpBreak(k) => if k < |w.made| then Some(w.(conns := Minus(w.conns, {w.made[k]}))) else Some(w)
    case OpCollapse(o) => Collapse(w, o, d)
    case OpEmit(s) => if d == 0 then None else Emit(w, s, d - 1)
  }

  // ---------- what everything keeps

  /** Nothing that ran is forgotten, objects only disintegrate, and the plan is used up from
      the front. */
  ghost predicate Onward(w: Snap, v: Snap) {
    && |v.state| == |w.state| && w.made <= v.made && w.emitted <= v.emitted && w.ran <= v.ran
    && (forall o :: Live(v, o) ==> Live(w, o))
    && |v.plan| <= |w.plan| && v.plan == w.plan[|w.plan| - |v.plan|..]
  }

  lemma OnwardTwice(u: Snap, v: Snap, w: Snap)
    requires Onward(u, v) && Onward(v, w)
    ensures Onward(u, w)
  {
  }

  /** How many of the handlers that ran were free ones. */
  ghost function Frees(ran: seq<Conn>): nat {
    if ran == [] then 0 else Frees(ran[..|ran| - 1]) + if ran[|ran| - 1].handler == Free then 1 else 0
  }

  /** Each free handler that ran has taken the next entry of the plan, as long as there was
      one. */
  ghost predicate Consumed(w: Snap, v: Snap) {
    |w.plan| - |v.plan| == Least(|w.plan|, Frees(v.ran) - Frees(w.ran))
  }

  function Least(a: int, b: int): int { if a < b then a else b }

  ghost predicate Goes(w: Snap, r: Option<Snap>) { r.Some? ==> Onward(w, r.value) && Consumed(w, r.value) }

  lemma GoesTwice(w: Snap, u: Snap, r: Option<Snap>)
    requires Onward(w, u) && Consumed(w, u) && Goes(u, r)
    ensures Goes(w, r)
  {
    if r.Some? {
      FreesGrow(w.ran, u.ran);
      FreesGrow(u.ran, r.value.ran);
    }
  }

  lemma {:induction false} FreesGrow(a: seq<Conn>, b: seq<Conn>)
    requires a <= b
    ensures Frees(a) <= Frees(b)
    decreases |b|
  {
    if a != b { FreesGrow(a, b[..|b| - 1]); }
  }

  lemma {:induction false} CollapseGoes(w: Snap, o: nat, d: nat)
    ensures Goes(w, Collapse(w, o, d)) && (Collapse(w, o, d).Some? ==> !Live(Collapse(w, o, d).value, o))
    decreases d, 0, 0
  {
    if Live(w, o) && d > 0 {
      var u := w.(emitted := w.emitted + [o]);
      EmitGoes(u, Destroyed(o), d - 1);
      GoesTwice(w, u, Emit(u, Destroyed(o), d - 1));
    }
  }

  lemma {:induction false} EmitGoes(w: Snap, s: Signal, d: nat)
    ensures Goes(w, Emit(w, s, d))
    decreases d, 6, 0
  {
    TakeAllGoes(w, Turns(w.conns, s), d);
  }

  lemma {:induction false} TakeAllGoes(w: Snap, turns: seq<Turn>, d: nat)
    ensures Goes(w, TakeAll(w, turns, d))
    decreases d, 5, |turns|
  {
    if turns != [] {
      TakeGoes(w, turns[0], d);
      match Take(w, turns[0], d)
      case None =>
      case Some(v) =>
        TakeAllGoes(v, turns[1..], d);
        GoesTwice(w, v, TakeAll(v, turns[1..], d));
    }
  }

  lemma {:induction false} TakeGoes(w: Snap, t: Turn, d: nat)
    ensures Goes(w, Take(w, t, d)) && (t.Call? && Take(w, t, d).Some? ==> w.ran + [t.c] <= Take(w, t, d).value.ran)
    decreases d, 4, 0
  {
    if t.Call? {
      var c := t.c;
      var u := w.(ran := w.ran + [c]);
      assert u.ran[..|u.ran| - 1] == w.ran;
      match c.handler {
        case LinkHandler =>
          CollapseGoes(u, c.context, d);
          GoesTwice(w, u, Collapse(u, c.context, d));
        case Note(_) =>
        case Free => BehaveGoes(w, u, d);
      }
    }
  }

  /** From before the call of a free handler on. */
  lemma {:induction false} BehaveGoes(w: Snap, u: Snap, d: nat)
    requires Onward(w, u) && u.plan == w.plan && Frees(u.ran) == Frees(w.ran) + 1
    ensures Goes(w, Behave(u, d)) && (Behave(u, d).Some? ==> u.ran <= Behave(u, d).value.ran)
    decreases d, 3, 0
  {
    if u.plan != [] {
      var v := u.(plan := u.plan[1..]);
      DoAllGoes(v, u.plan[0], d);
      GoesTwice(w, v, DoAll(v, u.plan[0], d));
    }
  }

  lemma {:induction false} DoAllGoes(w: Snap, ops: seq<Op>, d: nat)
    ensures Goes(w, DoAll(w, ops, d))
    decreases d, 2, |ops|
  {
    if ops != [] {
      DoGoes(w, ops[0], d);
      match Do(w, ops[0], d)
      case None =>
      case Some(v) =>
        DoAllGoes(v, ops[1..], d);
        GoesTwice(w, v, DoAll(v, ops[1..], d));
    }
  }

  lemma {:induction false} DoGoes(w: Snap, op: Op, d: nat)
    ensures Goes(w, Do(w, op, d))
    decreases d, 1, 0
  {
    match op
    case OpConnect(_, _, _) =>
    case OpBreak(_) =>
    case OpCollapse(o) => CollapseGoes(w, o, d);
    case OpEmit(s) => if d > 0 { EmitGoes(w, s, d - 1); }
  }

  // ---------- what an emission that ends has done

  lemma {:induction false} TurnListed(conns: seq<Conn>, s: Signal, c: Conn, t: Turn)
    requires c in conns && t in TurnsIn(c, s)
    ensures t in Turns(conns, s)
  {
    if c != conns[0] { TurnListed(conns[1..], s, c, t); }
  }

  /** The handlers called by turns, in order. */
  ghost function Calls(turns: seq<Turn>): seq<Conn> {
    if turns == [] then [] else (if turns[0].Call? then [turns[0].c] else []) + Calls(turns[1..])
  }

  /** The connections to s, in order. */
  ghost function Listeners(conns: seq<Conn>, s: Signal): seq<Conn> {
    if conns == [] then [] else (if conns[0].signal == s then [conns[0]] else []) + Listeners(conns[1..], s)
  }

  lemma {:induction false} CallsListeners(conns: seq<Conn>, s: Signal)
    ensures Calls(Turns(conns, s)) == Listeners(conns, s)
  {
    hide TurnsIn, Calls;
    if conns == [] {
      NoCalls();
    } else {
      CallsListeners(conns[1..], s);
      CallsOwn(conns[0], s);
      CallsAppend(TurnsIn(conns[0], s), Turns(conns[1..], s));
    }
  }

  lemma NoCalls()
    ensures Calls([]) == []
  {
  }

  lemma CallsOwn(c: Conn, s: Signal)
    ensures Calls(TurnsIn(c, s)) == if c.signal == s then [c] else []
  {
    var u := if Destroyed(c.signal.owner) == s then [Cut(c)] else [];
    var v := if Destroyed(c.context) == s then [Cut(c)] else [];
    CutsCallNone(u, v);
    if c.signal == s {
      assert TurnsIn(c, s)[1..] == u + v;
    } else {
      assert TurnsIn(c, s) == u + v;
    }
  }

  lemma CutsCallNone(u: seq<Turn>, v: seq<Turn>)
    requires |u| <= 1 && |v| <= 1 && (u != [] ==> u[0].Cut?) && (v != [] ==> v[0].Cut?)
    ensures Calls(u + v) == []
  {
    if v != [] {
      assert v[1..] == [];
    }
    if u != [] {
      assert (u + v)[1..] == v;
    } else {
      assert u + v == v;
    }
  }

  lemma CallsCons(t: Turn, rest: seq<Turn>)
    ensures Calls([t] + rest) == (if t.Call? then [t.c] else []) + Calls(rest)
  {
    assert ([t] + rest)[1..] == rest;
  }

  lemma {:induction false} CallsAppend(a: seq<Turn>, b: seq<Turn>)
    ensures Calls(a + b) == Calls(a) + Calls(b)
  {
    hide Calls;
    NoCalls();
    if a == [] {
      assert a + b == b;
    } else {
      CallsAppend(a[1..], b);
      CallsCons(a[0], a[1..]);
      CallsCons(a[0], a[1..] + b);
      assert [a[0]] + a[1..] == a && [a[0]] + (a[1..] + b) == a + b;
    }
  }

  /** a is b without some of its elements. */
  ghost predicate Within(a: seq<Conn>, b: seq<Conn>)
    decreases |b|
  {
    a == [] || (b != [] && ((a[0] == b[0] && Within(a[1..], b[1..])) || Within(a, b[1..])))
  }

  lemma {:induction false} WithinLonger(a: seq<Conn>, b: seq<Conn>, more: seq<Conn>)
    requires Within(a, b)
    ensures Within(a, more + b)
    decreases |more|
  {
    if more == [] {
      assert more + b == b;
    } else {
      assert (more + b)[1..] == more[1..] + b;
      WithinLonger(a, b, more[1..]);
    }
  }

  /** An emission that ends has run the handlers of exactly the connections listed at the
      beginning, in their order; others ran between them, which these called. */
  lemma EmitRuns(w: Snap, s: Signal, d: nat)
    requires Emit(w, s, d).Some?
    ensures w.ran <= Emit(w, s, d).value.ran
    ensures Within(Listeners(w.conns, s), Emit(w, s, d).value.ran[|w.ran|..])
  {
    CallsListeners(w.conns, s);
    TakeAllRuns(w, Turns(w.conns, s), d);
  }

  lemma {:induction false} TakeAllRuns(w: Snap, turns: seq<Turn>, d: nat)
    requires TakeAll(w, turns, d).Some?
    ensures w.ran <= TakeAll(w, turns, d).value.ran
    ensures Within(Calls(turns), TakeAll(w, turns, d).value.ran[|w.ran|..])
    decreases |turns|
  {
    if turns != [] {
      var t, u, v := turns[0], Take(w, turns[0], d).value, TakeAll(w, turns, d).value;
      TakeGoes(w, t, d);
      TakeAllRuns(u, turns[1..], d);
      RunsOn(w.ran, u.ran, v.ran, if t.Call? then [t.c] else [], Calls(turns[1..]));
    }
  }

  lemma RunsOn(a: seq<Conn>, b: seq<Conn>, c: seq<Conn>, first: seq<Conn>, rest: seq<Conn>)
    requires a + first <= b <= c && |first| <= 1 && Within(rest, c[|b|..])
    ensures a <= c && Within(first + rest, c[|a|..])
  {
    var more := c[|a| + |first|..|b|];
    assert c[|a| + |first|..] == more + c[|b|..];
    WithinLonger(rest, c[|b|..], more);
    if first == [] {
      assert first + rest == rest;
    } else {
      assert (first + rest)[1..] == rest;
      assert c[|a|] == first[0] && c[|a|..][1..] == c[|a| + 1..];
    }
  }

  /** Connections that nobody makes again never come back. */
  ghost predicate NoneBack(w: Snap, v: Snap) {
    w.next <= v.next && forall c :: c in v.conns ==> c in w.conns || c.id >= w.next
  }

  ghost predicate Stays(w: Snap, r: Option<Snap>) { r.Some? ==> NoneBack(w, r.value) }

  lemma StaysTwice(w: Snap, u: Snap, r: Option<Snap>)
    requires NoneBack(w, u) && Stays(u, r)
    ensures Stays(w, r)
  {
  }

  lemma CutStays(w: Snap, c: Conn)
    ensures NoneBack(w, w.(conns := Minus(w.conns, {c}))) && c !in Minus(w.conns, {c})
  {
    AllMinusMembers(w.conns, {c});
  }

  lemma {:induction false} CollapseStays(w: Snap, o: nat, d: nat)
    ensures Stays(w, Collapse(w, o, d))
    decreases d, 0, 0
  {
    if Live(w, o) && d > 0 { EmitStays(w.(emitted := w.emitted + [o]), Destroyed(o), d - 1); }
  }

  lemma {:induction false} EmitStays(w: Snap, s: Signal, d: nat)
    ensures Stays(w, Emit(w, s, d))
    decreases d, 6, 0
  {
    TakeAllStays(w, Turns(w.conns, s), d);
  }

  lemma {:induction false} TakeAllStays(w: Snap, turns: seq<Turn>, d: nat)
    ensures Stays(w, TakeAll(w, turns, d))
    decreases d, 5, |turns|
  {
    if turns != [] {
      TakeStays(w, turns[0], d);
      match Take(w, turns[0], d)
      case None =>
      case Some(v) =>
        TakeAllStays(v, turns[1..], d);
        StaysTwice(w, v, TakeAll(v, turns[1..], d));
    }
  }

  lemma {:induction false} TakeStays(w: Snap, t: Turn, d: nat)
    ensures Stays(w, Take(w, t, d)) && (t.Cut? ==> t.c !in Take(w, t, d).value.conns)
    decreases d, 4, 0
  {
    match t
    case Cut(c) => CutStays(w, c);
    case Call(c) =>
      var u := w.(ran := w.ran + [c]);
      match c.handler
      case LinkHandler => CollapseStays(u, c.context, d);
      case Note(_) =>
      case Free => BehaveStays(u, d);
  }

  lemma {:induction false} BehaveStays(w: Snap, d: nat)
    ensures Stays(w, Behave(w, d))
    decreases d, 3, 0
  {
    if w.plan != [] { DoAllStays(w.(plan := w.plan[1..]), w.plan[0], d); }
  }

  lemma {:induction false} DoAllStays(w: Snap, ops: seq<Op>, d: nat)
    ensures Stays(w, DoAll(w, ops, d))
    decreases d, 2, |ops|
  {
    if ops != [] {
      DoStays(w, ops[0], d);
      match Do(w, ops[0], d)
      case None =>
      case Some(v) =>
        DoAllStays(v, ops[1..], d);
        StaysTwice(w, v, DoAll(v, ops[1..], d));
    }
  }

  lemma {:induction false} DoStays(w: Snap, op: Op, d: nat)
    ensures Stays(w, Do(w, op, d))
    decreases d, 1, 0
  {
    match op
    case OpConnect(_, _, _) =>
    case OpBreak(k) => if k < |w.made| { CutStays(w, w.made[k]); }
    case OpCollapse(o) => CollapseStays(w, o, d);
    case OpEmit(s) => if d > 0 { EmitStays(w, s, d - 1); }
  }

  /** A connection that a turn breaks is gone at the end. */
  lemma {:induction false} TakeAllCuts(w: Snap, turns: seq<Turn>, d: nat, c: Conn)
    requires TakeAll(w, turns, d).Some? && Cut(c) in turns && c.id < w.next
    ensures c !in TakeAll(w, turns, d).value.conns
    decreases |turns|
  {
    var u := Take(w, turns[0], d).value;
    TakeStays(w, turns[0], d);
    if turns[0] == Cut(c) {
      TakeAllStays(u, turns[1..], d);
    } else {
      TakeAllCuts(u, turns[1..], d, c);
    }
  }

  /** What an operation of a handler has done when it is over. */
  lemma OpDone(w: Snap, op: Op, d: nat)
    requires Do(w, op, d).Some? && forall c :: c in w.conns ==> c.id < w.next
    ensures var v := Do(w, op, d).value;
            match op
            case OpConnect(signal, context, handler) =>
              var c := Conn(w.next, signal, context, handler); c in v.conns && c in v.made
            case OpBreak(k) => k < |w.made| ==> w.made[k] !in v.conns
            case OpCollapse(o) =>
              !Live(v, o) && (Live(w, o) ==> forall c :: c in w.conns && Touches(c, o) ==> c !in v.conns)
            case OpEmit(s) => w.ran <= v.ran && Within(Listeners(w.conns, s), v.ran[|w.ran|..])
  {
    match op
    case OpConnect(_, _, _) =>
    case OpBreak(k) => if k < |w.made| { CutStays(w, w.made[k]); }
    case OpCollapse(o) =>
      CollapseGoes(w, o, d);
      if Live(w, o) { CollapseCuts(w, o, d); }
    case OpEmit(s) => EmitRuns(w, s, d - 1);
  }

  lemma CollapseCuts(w: Snap, o: nat, d: nat)
    requires Live(w, o) && Collapse(w, o, d).Some? && forall c :: c in w.conns ==> c.id < w.next
    ensures forall c :: c in w.conns && Touches(c, o) ==> c !in Collapse(w, o, d).value.conns
  {
    var u, turns := w.(emitted := w.emitted + [o]), Turns(w.conns, Destroyed(o));
    forall c | c in w.conns && Touches(c, o)
      ensures c !in Collapse(w, o, d).value.conns
    {
      assert Cut(c) in TurnsIn(c, Destroyed(o));
      TurnListed(w.conns, Destroyed(o), c, Cut(c));
      TakeAllCuts(u, turns, d - 1, c);
    }
  }

  // ---------- the stack

  /** More room on the stack changes nothing. */
  lemma {:induction false} CollapseDeeper(w: Snap, o: nat, d: nat, e: nat)
    requires d <= e && Collapse(w, o, d).Some?
    ensures Collapse(w, o, e) == Collapse(w, o, d)
    decreases d, 0, 0
  {
    if Live(w, o) { EmitDeeper(w.(emitted := w.emitted + [o]), Destroyed(o), d - 1, e - 1); }
  }

  lemma {:induction false} EmitDeeper(w: Snap, s: Signal, d: nat, e: nat)
    requires d <= e && Emit(w, s, d).Some?
    ensures Emit(w, s, e) == Emit(w, s, d)
    decreases d, 6, 0
  {
    TakeAllDeeper(w, Turns(w.conns, s), d, e);
  }

  lemma {:induction false} TakeAllDeeper(w: Snap, turns: seq<Turn>, d: nat, e: nat)
    requires d <= e && TakeAll(w, turns, d).Some?
    ensures TakeAll(w, turns, e) == TakeAll(w, turns, d)
    decreases d, 5, |turns|
  {
    if turns != [] {
      TakeDeeper(w, turns[0], d, e);
      TakeAllDeeper(Take(w, turns[0], d).value, turns[1..], d, e);
    }
  }

  lemma {:induction false} TakeDeeper(w: Snap, t: Turn, d: nat, e: nat)
    requires d <= e && Take(w, t, d).Some?
    ensures Take(w, t, e) == Take(w, t, d)
    decreases d, 4, 0
  {
    if t.Call? {
      var u := w.(ran := w.ran + [t.c]);
      if t.c.handler == LinkHandler { CollapseDeeper(u, t.c.context, d, e); }
      if t.c.handler == Free { BehaveDeeper(u, d, e); }
    }
  }

  lemma {:induction false} BehaveDeeper(w: Snap, d: nat, e: nat)
    requires d <= e && Behave(w, d).Some?
    ensures Behave(w, e) == Behave(w, d)
    decreases d, 3, 0
  {
    if w.plan != [] { DoAllDeeper(w.(plan := w.plan[1..]), w.plan[0], d, e); }
  }

  lemma {:induction false} DoAllDeeper(w: Snap, ops: seq<Op>, d: nat, e: nat)
    requires d <= e && DoAll(w, ops, d).Some?
    ensures DoAll(w, ops, e) == DoAll(w, ops, d)
    decreases d, 2, |ops|
  {
    if ops != [] {
      DoDeeper(w, ops[0], d, e);
      DoAllDeeper(Do(w, ops[0], d).value, ops[1..], d, e);
    }
  }

  lemma {:induction false} DoDeeper(w: Snap, op: Op, d: nat, e: nat)
    requires d <= e && Do(w, op, d).Some?
    ensures Do(w, op, e) == Do(w, op, d)
    decreases d, 1, 0
  {
    match op
    case OpConnect(_, _, _) =>
    case OpBreak(_) =>
    case OpCollapse(o) => CollapseDeeper(w, o, d, e);
    case OpEmit(s) => EmitDeeper(w, s, d - 1, e - 1);
  }

  /** A signal other than `destroyed` that only notes listen to: the emission ends on every
      stack, and does nothing but run them. */
  lemma QuietEmit(w: Snap, s: Signal, d: nat)
    requires s.index != 0 && forall c :: c in w.conns && c.signal == s ==> c.handler.Note?
    ensures Emit(w, s, d) == Some(w.(ran := w.ran + Listeners(w.conns, s)))
  {
    CallsListeners(w.conns, s);
    QuietTurns(w.conns, s);
    QuietTakes(w, Turns(w.conns, s), d);
  }

  ghost predicate Quiet(turns: seq<Turn>) { forall t :: t in turns ==> t.Call? && t.c.handler.Note? }

  lemma {:induction false} QuietTurns(conns: seq<Conn>, s: Signal)
    requires s.index != 0 && forall c :: c in conns && c.signal == s ==> c.handler.Note?
    ensures Quiet(Turns(conns, s))
  {
    if conns != [] { QuietTurns(conns[1..], s); }
  }

  lemma {:induction false} QuietTakes(w: Snap, turns: seq<Turn>, d: nat)
    requires Quiet(turns)
    ensures TakeAll(w, turns, d) == Some(w.(ran := w.ran + Calls(turns)))
    decreases |turns|
  {
    if turns == [] {
      assert w.ran + [] == w.ran;
    } else {
      var u := w.(ran := w.ran + [turns[0].c]);
      QuietTakes(u, turns[1..], d);
      assert w.ran + [turns[0].c] + Calls(turns[1..]) == w.ran + ([turns[0].c] + Calls(turns[1..]));
    }
  }
}
