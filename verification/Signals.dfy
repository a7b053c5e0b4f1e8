/** Objects, signals and connections that break themselves, and the cascade of a collapse
    (were/were_connect.h, were/were_signal.h, were/were_capability_integrator.cpp). */
module Signals {

  import opened Lists
  import opened Links
  import C = Cascade
  import opened E = Emission

  /** One entry that a breaker removes. */
  datatype Item = Item(signal: Signal, id: nat)

  datatype Call = Handle(handler: Handler, context: nat) | Break(items: seq<Item>)

  datatype Entry = Entry(id: nat, call: Call)

  // ---------- the entries of a connection

  function Items(c: Conn): seq<Item> {
    [Item(c.signal, c.id), Item(Destroyed(c.signal.owner), c.id + 1), Item(Destroyed(c.context), c.id + 2)]
  }

  /** What were::connect adds to the list of s. */
  ghost function EntriesIn(c: Conn, s: Signal): seq<Entry> {
    (if c.signal == s then [Entry(c.id, Handle(c.handler, c.context))] else []) +
    (if Destroyed(c.signal.owner) == s then [Entry(c.id + 1, Break(Items(c)))] else []) +
    (if Destroyed(c.context) == s then [Entry(c.id + 2, Break(Items(c)))] else [])
  }

  /** The list of s when exactly conns are connected. */
  ghost function ListOf(conns: seq<Conn>, s: Signal): seq<Entry> {
    if conns == [] then [] else EntriesIn(conns[0], s) + ListOf(conns[1..], s)
  }

  /** Every connection has three ids of its own, in the order of connection. */
  ghost predicate OwnIds(conns: seq<Conn>, next: nat) {
    next % 3 == 0 && Sorted(conns) && forall c :: c in conns ==> c.id % 3 == 0 && c.id < next
  }

  lemma {:induction false} ListOfAppend(conns: seq<Conn>, c: Conn, s: Signal)
    ensures ListOf(conns + [c], s) == ListOf(conns, s) + EntriesIn(c, s)
  {
    hide EntriesIn;
    if conns == [] {
      assert conns + [c] == [c] && [c][1..] == [];
    } else {
      assert (conns + [c])[1..] == conns[1..] + [c];
      ListOfAppend(conns[1..], c, s);
    }
  }

  /** An entry of a list belongs to a connection, and says which. */
  lemma {:induction false} EntryOwner(conns: seq<Conn>, s: Signal, e: Entry) returns (c: Conn)
    requires e in ListOf(conns, s)
    ensures c in conns && e in EntriesIn(c, s)
  {
    if e in EntriesIn(conns[0], s) {
      c := conns[0];
    } else {
      c := EntryOwner(conns[1..], s, e);
    }
  }

  lemma {:induction false} EntryListed(conns: seq<Conn>, s: Signal, c: Conn, e: Entry)
    requires c in conns && e in EntriesIn(c, s)
    ensures e in ListOf(conns, s)
  {
    if c != conns[0] { EntryListed(conns[1..], s, c, e); }
  }

  // ---------- removing entries

  /** A copy of the list without the entries of an id. */
  function Without(list: seq<Entry>, id: nat): seq<Entry> {
    if list == [] then []
    else (if list[0].id == id then [] else [list[0]]) + Without(list[1..], id)
  }

  lemma {:induction false} WithoutAppend(a: seq<Entry>, b: seq<Entry>, id: nat)
    ensures Without(a + b, id) == Without(a, id) + Without(b, id)
  {
    if a == [] {
      assert a + b == b;
    } else {
      assert (a + b)[1..] == a[1..] + b;
      WithoutAppend(a[1..], b, id);
    }
  }

  lemma {:induction false} WithoutAbsent(list: seq<Entry>, id: nat)
    requires forall e :: e in list ==> e.id != id
    ensures Without(list, id) == list
  {
    if list != [] { WithoutAbsent(list[1..], id); }
  }

  /** What a breaker makes of the list of s: it removes the items of s, one by one. */
  ghost function Broken(list: seq<Entry>, s: Signal, items: seq<Item>): seq<Entry>
    decreases |items|
  {
    if items == [] then list
    else Broken(if items[0].signal == s then Without(list, items[0].id) else list, s, items[1..])
  }

  lemma {:induction false} BrokenAppend(a: seq<Entry>, b: seq<Entry>, s: Signal, items: seq<Item>)
    ensures Broken(a + b, s, items) == Broken(a, s, items) + Broken(b, s, items)
    decreases |items|
  {
    if items != [] {
      var i := items[0];
      WithoutAppend(a, b, i.id);
      BrokenAppend(if i.signal == s then Without(a, i.id) else a,
                   if i.signal == s then Without(b, i.id) else b, s, items[1..]);
    }
  }

  lemma {:induction false} BrokenAbsent(list: seq<Entry>, s: Signal, items: seq<Item>)
    requires forall e, i :: e in list && i in items ==> e.id != i.id
    ensures Broken(list, s, items) == list
    decreases |items|
  {
    if items != [] {
      assert items[0] in items;
      WithoutAbsent(list, items[0].id);
      BrokenAbsent(list, s, items[1..]);
    }
  }

  /** A breaker takes all entries of its connection. */
  lemma BreaksOwn(c: Conn, s: Signal)
    ensures Broken(EntriesIn(c, s), s, Items(c)) == []
  {
    hide Broken;
    var h := Entry(c.id, Handle(c.handler, c.context));
    var u, v := Entry(c.id + 1, Break(Items(c))), Entry(c.id + 2, Break(Items(c)));
    var hs := if c.signal == s then [h] else [];
    var us := if Destroyed(c.signal.owner) == s then [u] else [];
    var vs := if Destroyed(c.context) == s then [v] else [];
    assert EntriesIn(c, s) == hs + (us + (vs + []));
    BreaksFirst(hs, us + (vs + []), s, Items(c));
    BreaksFirst(us, vs + [], s, Items(c)[1..]);
    BreaksFirst(vs, [], s, Items(c)[1..][1..]);
    BrokenAbsent([], s, Items(c)[1..][1..][1..]);
  }

  lemma BreaksFirst(own: seq<Entry>, rest: seq<Entry>, s: Signal, items: seq<Item>)
    requires items != [] && |own| <= 1
    requires (own != [] ==> own[0].id == items[0].id) && (own != [] <==> items[0].signal == s)
    requires forall e :: e in rest ==> e.id != items[0].id
    ensures Broken(own + rest, s, items) == Broken(rest, s, items[1..])
  {
    TakesFirst(own, rest, s, items[0]);
  }

  lemma TakesFirst(own: seq<Entry>, rest: seq<Entry>, s: Signal, i: Item)
    requires |own| <= 1 && (own != [] ==> own[0].id == i.id) && (own != [] <==> i.signal == s)
    requires forall e :: e in rest ==> e.id != i.id
    ensures (if i.signal == s then Without(own + rest, i.id) else own + rest) == rest
  {
    if i.signal == s {
      assert (own + rest)[1..] == rest;
      WithoutAbsent(rest, i.id);
    }
  }

  predicate SameIds(c: Conn, d: Conn) { -3 < c.id - d.id < 3 }

  lemma SparesOthers(c: Conn, d: Conn, s: Signal)
    requires !SameIds(c, d)
    ensures Broken(EntriesIn(d, s), s, Items(c)) == EntriesIn(d, s)
  {
    forall e, i | e in EntriesIn(d, s) && i in Items(c)
      ensures e.id != i.id
    {
      EntryIds(d, s, e);
      ItemIds(c, i);
    }
    BrokenAbsent(EntriesIn(d, s), s, Items(c));
  }

  lemma EntryIds(d: Conn, s: Signal, e: Entry)
    requires e in EntriesIn(d, s)
    ensures d.id <= e.id <= d.id + 2
  {
  }

  lemma ItemIds(c: Conn, i: Item)
    requires i in Items(c)
    ensures c.id <= i.id <= c.id + 2
  {
  }

  /** A breaker turns the lists into those of the other connections, whether its own
      connection is still there or not. */
  lemma {:induction false} BreakList(conns: seq<Conn>, c: Conn, s: Signal)
    requires forall d :: d in conns ==> d == c || !SameIds(c, d)
    ensures Broken(ListOf(conns, s), s, Items(c)) == ListOf(Minus(conns, {c}), s)
    decreases |conns|
  {
    hide EntriesIn, Items;
    if conns == [] {
      BrokenAbsent([], s, Items(c));
    } else {
      var d, rest := conns[0], Minus(conns[1..], {c});
      BrokenAppend(EntriesIn(d, s), ListOf(conns[1..], s), s, Items(c));
      BreakList(conns[1..], c, s);
      if d == c {
        BreaksOwn(c, s);
        assert [] + rest == rest;
      } else {
        SparesOthers(c, d, s);
        assert ([d] + rest)[1..] == rest;
      }
    }
  }

  lemma BreakersSayWhich(c: Conn, d: Conn)
    requires Items(c) == Items(d)
    ensures c.id == d.id
  {
    assert Items(c)[0] == Items(d)[0];
  }

  lemma OthersKeepIds(conns: seq<Conn>, made: seq<Conn>, next: nat, c: Conn)
    requires OwnIds(made, next) && c in made && forall d :: d in conns ==> d in made
    ensures forall d :: d in conns ==> d == c || !SameIds(c, d)
  {
  }

  lemma NextIds(conns: seq<Conn>, c: Conn, next: nat)
    requires OwnIds(conns, next) && c.id == next
    ensures OwnIds(conns + [c], next + 3)
  {
  }

  lemma NextSorted(conns: seq<Conn>, c: Conn)
    requires Sorted(conns) && forall d :: d in conns ==> d.id < c.id
    ensures Sorted(conns + [c])
  {
  }

  lemma Assoc(a: seq<Entry>, b: seq<Entry>, c: seq<Entry>, d: seq<Entry>)
    ensures a + b + c + d == a + (b + c + d)
  {
  }

  function Ids(list: seq<Entry>): seq<nat> { seq(|list|, i requires 0 <= i < |list| => list[i].id) }

  lemma EntryKinds(c: Conn, s: Signal, e: Entry)
    requires e in EntriesIn(c, s)
    ensures e.call.Handle? ==> e == Entry(c.id, Handle(c.handler, c.context)) && c.signal == s
    ensures e.call.Break? ==> e.call.items == Items(c)
  {
  }

  // ---------- entries and acts

  /** What an entry of a `destroyed` list does to the scene. */
  ghost predicate Matches(e: Entry, a: C.Act) {
    match a
    case Go(c) => e.call == Handle(LinkHandler, c.context)
    case Cut(c) => e.call == Break(Items(c))
    case Idle(c) => e.call == Handle(c.handler, c.context) && c.handler != LinkHandler
  }

  ghost predicate AllMatch(list: seq<Entry>, acts: seq<C.Act>) {
    |list| == |acts| && forall k :: 0 <= k < |list| ==> Matches(list[k], acts[k])
  }

  /** The turn of an emission that an entry is. */
  ghost predicate IsTurn(e: Entry, t: E.Turn) {
    match t
    case Call(c) => e.call == Handle(c.handler, c.context)
    case Cut(c) => e.call == Break(Items(c))
  }

  /** The entries of a list are the turns of an emission, in order. */
  ghost predicate AllTurns(conns: seq<Conn>, s: Signal, list: seq<Entry>, turns: seq<E.Turn>) {
    |list| == |turns| && forall k :: 0 <= k < |list| ==> OneTurn(conns, s, list[k], turns[k])
  }

  ghost predicate OneTurn(conns: seq<Conn>, s: Signal, e: Entry, t: E.Turn) {
    t.c in conns && e in EntriesIn(t.c, s) && IsTurn(e, t)
  }

  lemma {:induction false} ListTurns(conns: seq<Conn>, s: Signal)
    ensures AllTurns(conns, s, ListOf(conns, s), E.Turns(conns, s))
  {
    if conns != [] {
      ListTurns(conns[1..], s);
      OwnTurns(conns[0], s);
      var a, b := EntriesIn(conns[0], s), ListOf(conns[1..], s);
      var x, y := E.TurnsIn(conns[0], s), E.Turns(conns[1..], s);
      forall k | 0 <= k < |a + b|
        ensures OneTurn(conns, s, (a + b)[k], (x + y)[k])
      {
        if k < |a| {
          assert OneTurn([conns[0]], s, a[k], x[k]);
        } else {
          assert OneTurn(conns[1..], s, b[k - |a|], y[k - |a|]);
        }
      }
    }
  }

  lemma OwnTurns(c: Conn, s: Signal)
    ensures AllTurns([c], s, EntriesIn(c, s), E.TurnsIn(c, s))
  {
    hide Items;
  }

  lemma TakeNext(w: Snap, turns: seq<E.Turn>, k: nat, d: nat)
    requires k < |turns|
    ensures E.TakeAll(w, turns[k..], d) ==
            match E.Take(w, turns[k], d)
            case None => None
            case Some(v) => E.TakeAll(v, turns[k + 1..], d)
  {
    assert turns[k..][1..] == turns[k + 1..];
  }

  lemma TakeNone(w: Snap, d: nat)
    ensures E.TakeAll(w, [], d) == Some(w)
  {
  }

  lemma DoNext(w: Snap, ops: seq<Op>, k: nat, d: nat)
    requires k < |ops|
    ensures E.DoAll(w, ops[k..], d) ==
            match E.Do(w, ops[k], d)
            case None => None
            case Some(v) => E.DoAll(v, ops[k + 1..], d)
  {
    assert ops[k..][1..] == ops[k + 1..];
  }

  lemma DoNone(w: Snap, d: nat)
    ensures E.DoAll(w, [], d) == Some(w)
  {
  }

  lemma AllMatchAppend(a: seq<Entry>, x: seq<C.Act>, b: seq<Entry>, y: seq<C.Act>)
    requires AllMatch(a, x) && AllMatch(b, y)
    ensures AllMatch(a + b, x + y)
  {
  }

  lemma {:induction false} ListMatches(conns: seq<Conn>, o: nat)
    ensures AllMatch(ListOf(conns, Destroyed(o)), C.Acts(conns, o))
  {
    if conns != [] {
      ListMatches(conns[1..], o);
      OwnMatch(conns[0], o);
      AllMatchAppend(EntriesIn(conns[0], Destroyed(o)), C.ActsIn(conns[0], o),
                     ListOf(conns[1..], Destroyed(o)), C.Acts(conns[1..], o));
    }
  }

  lemma OwnMatch(c: Conn, o: nat)
    ensures AllMatch(EntriesIn(c, Destroyed(o)), C.ActsIn(c, o))
  {
    hide Items;
    assert Destroyed(c.signal.owner) == Destroyed(o) <==> c.signal.owner == o;
    assert Destroyed(c.context) == Destroyed(o) <==> c.context == o;
  }

  /** No handler but links and notes. */
  ghost predicate Inert(conns: seq<Conn>) { forall c :: c in conns ==> c.handler != Free }

  // ---------- what every step keeps

  /** Objects only disintegrate, and a connection that is gone never comes back. */
  ghost predicate Later(a: Snap, b: Snap) {
    && |b.state| == |a.state| && a.made <= b.made && a.next <= b.next && a.emitted <= b.emitted
    && (forall p :: 0 <= p < |a.state| ==>
          b.state[p] == a.state[p] || (a.state[p] == Integrated && b.state[p] == Disintegrated))
    && (forall c :: c in b.conns ==> c in a.conns || c.id >= a.next)
  }

  lemma LaterSelf(a: Snap)
    ensures Later(a, a)
  {
  }

  lemma LaterMade(a: Snap, b: Snap)
    requires Later(a, b)
    ensures a.next <= b.next && forall c :: c in a.made ==> c in b.made
  {
  }

  lemma PerformNone(w: C.Scene, d: nat)
    ensures C.Perform(w, [], d) == Some(w)
  {
  }

  lemma LaterTwice(a: Snap, b: Snap, c: Snap)
    requires Later(a, b) && Later(b, c)
    ensures Later(a, c)
  {
  }

  /** The breakers that have run have removed their connections. */
  ghost predicate AllCut(conns0: seq<Conn>, run: seq<Entry>, conns: seq<Conn>) {
    forall c, e :: c in conns0 && e in run && e.call == Break(Items(c)) ==> c !in conns
  }

  lemma AllCutMore(conns0: seq<Conn>, run: seq<Entry>, e: Entry, a: Snap, b: Snap)
    requires AllCut(conns0, run, a.conns) && Later(a, b) && forall c :: c in conns0 ==> c.id < a.next
    requires forall c :: c in conns0 && e.call == Break(Items(c)) ==> c !in b.conns
    ensures AllCut(conns0, run + [e], b.conns)
  {
    hide Items;
  }

  /** Whatever touches o has a breaker in its list. */
  lemma TouchingIsCut(conns0: seq<Conn>, o: nat, conns: seq<Conn>)
    requires AllCut(conns0, ListOf(conns0, Destroyed(o)), conns)
    ensures forall c :: c in conns0 && Touches(c, o) ==> c !in conns
  {
    hide Items, ListOf;
    forall c | c in conns0 && Touches(c, o)
      ensures c !in conns
    {
      var e := if c.signal.owner == o then Entry(c.id + 1, Break(Items(c))) else Entry(c.id + 2, Break(Items(c)));
      assert e in EntriesIn(c, Destroyed(o));
      EntryListed(conns0, Destroyed(o), c, e);
    }
  }

  // ---------- the world of objects

  class World {
    var state: seq<State>
    var lists: map<Signal, seq<Entry>>
    var nextId: nat
    /** Every connection ever made, oldest first: whoever connected holds its breaker. */
    var made: seq<Conn>
    /** What the handlers still to be called do, call by call; later ones do nothing. */
    var plan: seq<seq<Op>>
    /** The connected connections, oldest first, and the objects whose collapse emitted
        `destroyed`, in order. */
    ghost var conns: seq<Conn>
    ghost var emitted: seq<nat>
    /** The connections whose handlers ran, in order. */
    ghost var ran: seq<Conn>

    function List(s: Signal): seq<Entry>
      reads this
    {
      if s in lists then lists[s] else []
    }

    /** Every list holds exactly the entries of the connected connections, in the order
        of connection: of a connection's three entries all are present or none. */
    ghost predicate Valid()
      reads this
    {
      && OwnIds(made, nextId) && Sorted(conns) && (forall c :: c in conns ==> c in made)
      && forall s :: List(s) == ListOf(conns, s)
    }

    ghost function Now(): Snap
      reads this
    {
      Snap(state, conns, made, nextId, emitted, ran, plan)
    }

    ghost function Live(): set<nat>
      reads this
    {
      set o | 0 <= o < |state| && state[o] == Integrated
    }

    ghost function View(): C.Scene
      reads this
    {
      C.Scene(conns, Live(), emitted)
    }

    constructor (count: nat, plan: seq<seq<Op>>)
      ensures Valid() && conns == [] && emitted == [] && ran == [] && |state| == count && this.plan == plan
      ensures forall o :: 0 <= o < count ==> state[o] == Initial
    {
      state := seq(count, _ => Initial);
      lists, nextId, made, conns, emitted, ran := map[], 0, [], [], [], [];
      this.plan := plan;
    }

    method AddConnection(s: Signal, call: Call, id: nat)
      modifies `lists
      ensures forall t :: List(t) == old(List(t)) + if t == s then [Entry(id, call)] else []
    {
      lists := lists[s := List(s) + [Entry(id, call)]];
    }

    method RemoveConnection(s: Signal, id: nat)
      modifies `lists
      ensures List(s) == Without(old(List(s)), id)
      ensures forall t :: t != s ==> List(t) == old(List(t))
    {
      lists := lists[s := Without(List(s), id)];
    }

    method Connect(signal: Signal, context: nat, handler: Handler) returns (c: Conn)
      requires Valid()
      modifies `lists, `nextId, `made, `conns
      ensures Valid() && c == Conn(old(nextId), signal, context, handler) && Later(old(Now()), Now())
      ensures conns == old(conns) + [c] && made == old(made) + [c] && nextId == old(nextId) + 3
    {
      hide ListOf, Items, OwnIds, Sorted;
      c := Conn(nextId, signal, context, handler);
      NextIds(made, c, nextId);
      IdsBelow(made, nextId);
      NextSorted(conns, c);
      ghost var before := conns;
      nextId := nextId + 3;
      made := made + [c];
      conns := conns + [c];
      AddConnection(signal, Handle(handler, context), c.id);
      AddConnection(Destroyed(signal.owner), Break(Items(c)), c.id + 1);
      AddConnection(Destroyed(context), Break(Items(c)), c.id + 2);
      forall s
        ensures List(s) == ListOf(conns, s)
      {
        ListOfAppend(before, c, s);
        assert old(List(s)) == ListOf(before, s);
        Assoc(ListOf(before, s), if s == signal then [Entry(c.id, Handle(handler, context))] else [],
              if s == Destroyed(signal.owner) then [Entry(c.id + 1, Break(Items(c)))] else [],
              if s == Destroyed(context) then [Entry(c.id + 2, Break(Items(c)))] else []);
      }
    }

    /** were_breaker: removes its items one after the other. */
    method RunBreaker(ghost c: Conn, items: seq<Item>)
      requires Valid() && items == Items(c) && c in made
      modifies `lists, `conns
      ensures Valid() && conns == Minus(old(conns), {c}) && c !in conns && Later(old(Now()), Now())
    {
      hide Items, ListOf, Without, OwnIds, Sorted;
      OthersKeepIds(conns, made, nextId, c);
      ghost var before := conns;
      var k := 0;
      while k < |items|
        invariant k <= |items| && conns == before
        invariant forall s :: Broken(List(s), s, items[k..]) == Broken(ListOf(before, s), s, items)
      {
        ghost var was := lists;
        RemoveConnection(items[k].signal, items[k].id);
        assert items[k..][1..] == items[k + 1..];
        k := k + 1;
      }
      conns := Minus(conns, {c});
      assert items[k..] == [];
      forall s
        ensures List(s) == ListOf(conns, s)
      {
        BreakList(before, c, s);
      }
      AllMinusMembers(before, {c});
      MinusSorted(before, {c});
    }

    /** integrate: the integrators do what the plan says; refuses (by an exception) any
        state but the initial one. */
    method Integrate(o: nat, depth: nat) returns (ok: bool)
      requires Valid() && o < |state|
      modifies this
      ensures Valid() && |state| == old(|state|)
      ensures old(state[o]) != Initial ==> !ok && Now() == old(Now())
      ensures ok ==> state[o] == Integrated
      ensures old(state[o]) == Initial ==>
                match E.Behave(old(Now()), depth)
                case None => !ok
                case Some(v) => ok && o < |v.state| && Now() == v.(state := v.state[o := Integrated])
    {
      if state[o] != Initial {
        return false;
      }
      ok := Behave(depth);
      if ok {
        state := state[o := Integrated];
      }
    }

    /** disintegrate, with depth nested emissions left on the stack; ok is false when they
        do not suffice.  Whatever handlers do, the connections that touched o when it began
        are gone at the end.  With links and notes alone it is the cascade. */
    method Collapse(o: nat, depth: nat) returns (ok: bool)
      requires Valid()
      modifies this
      ensures Valid() && Later(old(Now()), Now()) && |plan| <= |old(plan)|
      ensures ok && o in old(Live()) ==>
                state[o] == Disintegrated && forall c :: c in old(conns) && Touches(c, o) ==> c !in conns
      ensures Inert(old(conns)) ==> plan == old(plan) && Inert(conns)
      ensures Inert(old(conns)) ==> C.Collapse(old(View()), o, depth) == if ok then Some(View()) else None
      ensures E.Collapse(old(Now()), o, depth) == if ok then Some(Now()) else None
      decreases depth, 0, 0
    {
      hide ListOf, OwnIds, Sorted, Inert, E.Emit;
      if o >= |state| || state[o] != Integrated {
        return true;
      }
      if depth == 0 {
        return false;
      }
      emitted := emitted + [o];
      ghost var began := Now();
      var called;
      called, ok := Emit(Destroyed(o), depth - 1);
      LaterTwice(old(Now()), began, Now());
      if ok {
        ghost var ended := Now();
        LiveWithout(state, o);
        state := state[o := Disintegrated];
        LaterTwice(old(Now()), ended, Now());
      }
    }

    /** Emits a signal: calls exactly the entries listed at the beginning, in their order,
        whatever the handlers do to the lists meanwhile. */
    method Emit(s: Signal, depth: nat) returns (called: seq<nat>, ok: bool)
      requires Valid()
      modifies this
      ensures Valid() && Later(old(Now()), Now()) && |plan| <= |old(plan)|
      ensures called <= Ids(ListOf(old(conns), s)) && (ok ==> called == Ids(ListOf(old(conns), s)))
      ensures ok && s.index == 0 ==> forall c :: c in old(conns) && Touches(c, s.owner) ==> c !in conns
      ensures Inert(old(conns)) ==> plan == old(plan) && Inert(conns)
      ensures Inert(old(conns)) && s.index == 0 ==>
                C.Perform(old(View()), C.Acts(old(conns), s.owner), depth) == if ok then Some(View()) else None
      ensures E.Emit(old(Now()), s, depth) == if ok then Some(Now()) else None
      decreases depth, 4, 0
    {
      hide E.TakeAll, E.Take, E.Turns, OneTurn;
      hide ListOf, EntriesIn, Items, OwnIds, Sorted, Inert, AllCut, Later, Matches, C.Perform, C.Do, C.Acts, C.ActsIn;
      ghost var start, conns0, acts := Now(), conns, C.Acts(conns, s.owner);
      ghost var inert, lowered := Inert(conns), s.index == 0;
      var snapshot := List(s);
      if lowered {
        ListMatches(conns, s.owner);
        assert s == Destroyed(s.owner);
      }
      ghost var turns := E.Turns(conns, s);
      ListTurns(conns, s);
      assert turns[0..] == turns;
      IdsBelow(made, nextId);
      NothingCut(conns0, conns);
      LaterSelf(start);
      called, ok := [], true;
      var k := 0;
      assert snapshot[..0] == [] && acts[0..] == acts;
      while k < |snapshot| && ok
        invariant k <= |snapshot| && Valid() && Later(start, Now()) && |plan| <= |old(plan)|
        invariant |called| <= |snapshot| && called == Ids(snapshot[..|called|]) && (ok ==> |called| == k)
        invariant ok ==> AllCut(conns0, snapshot[..k], conns)
        invariant inert ==> plan == old(plan) && Inert(conns)
        invariant E.TakeAll(start, turns, depth) == if ok then E.TakeAll(Now(), turns[k..], depth) else None
        invariant inert && lowered ==>
                    C.Perform(old(View()), acts, depth) == if ok then C.Perform(View(), acts[k..], depth) else None
        decreases |snapshot| - k, ok
      {
        var e := snapshot[k];
        ghost var before, scene := Now(), View();
        ghost var c := turns[k].c;
        TurnOf(conns0, s, e, turns[k]);
        EntryKinds(c, s, e);
        TakeNext(before, turns, k, depth);
        LaterMade(start, before);
        called := called + [e.id];
        assert snapshot[..k + 1] == snapshot[..k] + [e];
        ghost var a := if lowered then acts[k] else C.Idle(c);
        InertEntry(conns0, made, nextId, e, c, a);
        if lowered {
          PerformNext(scene, acts, k, depth);
          C.ActOwner(conns0, s.owner, a);
        }
        ok := CallEntry(e, turns[k], depth, a);
        LaterTwice(start, before, Now());
        LaterMade(start, Now());
        if ok {
          OwnCut(conns0, made, nextId, e, c, conns);
          AllCutMore(conns0, snapshot[..k], e, before, Now());
          k := k + 1;
        }
      }
      if ok {
        assert snapshot[..k] == snapshot && turns[k..] == [];
        TakeNone(Now(), depth);
        if lowered {
          assert acts[k..] == [];
          PerformNone(View(), depth);
          TouchingIsCut(conns0, s.owner, conns);
        }
      }
    }

    /** One entry of an emission. */
    method CallEntry(e: Entry, ghost t: E.Turn, depth: nat, ghost a: C.Act) returns (ok: bool)
      requires Valid() && t.c in made && IsTurn(e, t)
      modifies this
      ensures Valid() && Later(old(Now()), Now()) && |plan| <= |old(plan)|
      ensures ok && e.call.Break? ==> t.c !in conns
      ensures Inert(old(conns)) && !IsFree(e) ==> plan == old(plan) && Inert(conns)
      ensures Inert(old(conns)) && Matches(e, a) && (a.Cut? ==> a.c == t.c) && !IsFree(e) ==>
                C.Do(old(View()), a, depth) == if ok then Some(View()) else None
      ensures E.Take(old(Now()), t, depth) == if ok then Some(Now()) else None
      decreases depth, 3, 0
    {
      hide ListOf, OwnIds, Sorted, Items, E.Collapse, E.Behave;
      ok := true;
      match e.call {
        case Handle(LinkHandler, o) =>
          ran := ran + [t.c];
          ok := Collapse(o, depth);
        case Handle(Note(_), _) =>
          ran := ran + [t.c];
        case Handle(Free, _) =>
          ran := ran + [t.c];
          ok := Behave(depth);
        case Break(items) =>
          RunBreaker(t.c, items);
          AllMinusMembers(old(conns), {t.c});
      }
    }

    /** A handler that does as the plan says. */
    method Behave(depth: nat) returns (ok: bool)
      requires Valid()
      modifies this
      ensures Valid() && Later(old(Now()), Now()) && |plan| <= |old(plan)|
      ensures E.Behave(old(Now()), depth) == if ok then Some(Now()) else None
      decreases depth, 2, 0
    {
      hide ListOf, OwnIds, Sorted, E.DoAll, E.Do;
      if plan == [] {
        return true;
      }
      var ops := plan[0];
      plan := plan[1..];
      ghost var start := Now();
      ok := true;
      var k := 0;
      assert ops[0..] == ops;
      while k < |ops| && ok
        invariant k <= |ops| && Valid() && Later(start, Now()) && |plan| <= |old(plan)|
        invariant E.DoAll(start, ops, depth) == if ok then E.DoAll(Now(), ops[k..], depth) else None
        decreases |ops| - k
      {
        ghost var before := Now();
        DoNext(before, ops, k, depth);
        ok := Perform(ops[k], depth);
        LaterTwice(start, before, Now());
        k := k + 1;
      }
      if ok {
        assert ops[k..] == [];
        DoNone(Now(), depth);
      }
    }

    /** One operation of a handler. */
    method Perform(op: Op, depth: nat) returns (ok: bool)
      requires Valid()
      modifies this
      ensures Valid() && Later(old(Now()), Now()) && |plan| <= |old(plan)|
      ensures E.Do(old(Now()), op, depth) == if ok then Some(Now()) else None
      decreases depth, 1, 0
    {
      hide ListOf, OwnIds, Sorted, Items, E.Collapse, E.Emit;
      ok := true;
      match op {
        case OpConnect(signal, context, handler) =>
          var c := Connect(signal, context, handler);
        case OpBreak(k) =>
          if k < |made| {
            RunBreaker(made[k], Items(made[k]));
          }
        case OpCollapse(o) =>
          ok := Collapse(o, depth);
        case OpEmit(s) =>
          ok := depth > 0;
          if ok {
            var called;
            called, ok := Emit(s, depth - 1);
          }
      }
    }
  }

  lemma TurnOf(conns: seq<Conn>, s: Signal, e: Entry, t: E.Turn)
    requires OneTurn(conns, s, e, t)
    ensures t.c in conns && e in EntriesIn(t.c, s) && IsTurn(e, t)
  {
  }

  predicate IsFree(e: Entry) { e.call.Handle? && e.call.handler == Free }

  /** An entry of an inert list, and the connection that its act is about. */
  lemma InertEntry(conns0: seq<Conn>, made: seq<Conn>, next: nat, e: Entry, c: Conn, a: C.Act)
    requires OwnIds(made, next) && c in conns0 && (forall d :: d in conns0 ==> d in made)
    requires e.call.Handle? ==> e.call.handler == c.handler
    requires e.call.Break? ==> e.call.items == Items(c)
    ensures Inert(conns0) ==> !IsFree(e)
    ensures Matches(e, a) && a.Cut? && a.c in conns0 ==> a.c == c
  {
    hide Items;
    if Matches(e, a) && a.Cut? && a.c in conns0 {
      BreakersSayWhich(a.c, c);
    }
  }

  lemma IdsBelow(made: seq<Conn>, next: nat)
    requires OwnIds(made, next)
    ensures forall c :: c in made ==> c.id < next
  {
  }

  lemma NothingCut(conns0: seq<Conn>, conns: seq<Conn>)
    ensures AllCut(conns0, [], conns)
  {
  }

  /** A breaker is the breaker of one connection only. */
  lemma OwnCut(conns0: seq<Conn>, made: seq<Conn>, next: nat, e: Entry, c: Conn, conns: seq<Conn>)
    requires OwnIds(made, next) && c in made && (forall d :: d in conns0 ==> d in made)
    requires e.call.Break? ==> e.call.items == Items(c) && c !in conns
    ensures forall d :: d in conns0 && e.call == Break(Items(d)) ==> d !in conns
  {
    hide Items;
    forall d | d in conns0 && e.call == Break(Items(d))
      ensures d !in conns
    {
      BreakersSayWhich(c, d);
    }
  }

  lemma LiveWithout(state: seq<State>, o: nat)
    requires o < |state|
    ensures var after := state[o := Disintegrated];
            (set p | 0 <= p < |after| && after[p] == Integrated)
            == (set p | 0 <= p < |state| && state[p] == Integrated) - {o}
  {
  }

  lemma PerformNext(w: C.Scene, acts: seq<C.Act>, k: nat, d: nat)
    requires k < |acts|
    ensures C.Perform(w, acts[k..], d) ==
            match C.Do(w, acts[k], d)
            case None => None
            case Some(v) => C.Perform(v, acts[k + 1..], d)
  {
    assert acts[k..][1..] == acts[k + 1..];
  }
}
