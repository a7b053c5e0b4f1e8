/** Event sources and their lifecycle under arbitrary callbacks
    (foreign/wayland/src/event-loop.c). */
module EventLoop {

  import opened Lists

  /** A source in memory; fd is -1 for idle sources and after removal. */
  datatype Source = Source(fd: int, idle: bool)

  /** What a callback does to the loop. */
  datatype Op = AddFd(fd: int, watched: bool) | AddIdle | Mark(source: nat) | Remove(source: nat)

  /** One callback: its calls into the loop, and the value it returns. */
  datatype Behaviour = Behaviour(ops: seq<Op>, result: int)

  /** Where the loop calls back from; following is the source that the recheck pass has
      read already, or -1. */
  datatype Place = InIdle(current: nat) | InEvents | InRecheck(following: int)

  // ---------- lists

  /** wl_list_remove. */
  function Unlink(list: seq<nat>, s: nat): seq<nat> {
    if list == [] then []
    else (if list[0] == s then [] else [list[0]]) + Unlink(list[1..], s)
  }

  lemma {:induction false} UnlinkMembers(list: seq<nat>, s: nat)
    ensures forall x :: x in Unlink(list, s) <==> x in list && x != s
  {
    if list != [] {
      UnlinkMembers(list[1..], s);
    }
  }

  lemma {:induction false} UnlinkNoDup(list: seq<nat>, s: nat)
    requires NoDup(list)
    ensures NoDup(Unlink(list, s))
  {
    if list != [] {
      UnlinkNoDup(list[1..], s);
      UnlinkMembers(list[1..], s);
      assert list[0] !in list[1..];
    }
  }

  lemma {:induction false} UnlinkAbsent(list: seq<nat>, s: nat)
    requires s !in list
    ensures Unlink(list, s) == list
  {
    if list != [] { UnlinkAbsent(list[1..], s); }
  }

  lemma UnlinkHead(list: seq<nat>)
    requires NoDup(list) && list != []
    ensures Unlink(list, list[0]) == list[1..]
  {
    UnlinkAbsent(list[1..], list[0]);
  }

  lemma {:induction false} UnlinkAppend(a: seq<nat>, b: seq<nat>, s: nat)
    ensures Unlink(a + b, s) == Unlink(a, s) + Unlink(b, s)
  {
    if a == [] {
      assert a + b == b;
    } else {
      assert (a + b)[1..] == a[1..] + b;
      UnlinkAppend(a[1..], b, s);
    }
  }

  /** The sources of a list that are not gone, in order. */
  ghost function Remaining(list: seq<nat>, gone: set<nat>): seq<nat> {
    if list == [] then []
    else (if list[0] in gone then [] else [list[0]]) + Remaining(list[1..], gone)
  }

  lemma {:induction false} RemainingMembers(list: seq<nat>, gone: set<nat>)
    ensures forall x :: x in Remaining(list, gone) <==> x in list && x !in gone
  {
    if list != [] {
      RemainingMembers(list[1..], gone);
    }
  }

  lemma {:induction false} RemainingAppend(a: seq<nat>, b: seq<nat>, gone: set<nat>)
    ensures Remaining(a + b, gone) == Remaining(a, gone) + Remaining(b, gone)
  {
    if a == [] {
      assert a + b == b;
    } else {
      assert (a + b)[1..] == a[1..] + b;
      RemainingAppend(a[1..], b, gone);
    }
  }

  lemma {:induction false} NoneGone(list: seq<nat>, gone: set<nat>)
    requires forall x :: x in list ==> x !in gone
    ensures Remaining(list, gone) == list
  {
    if list != [] { NoneGone(list[1..], gone); }
  }

  lemma {:induction false} RemainingAgain(list: seq<nat>, gone: set<nat>, gone': set<nat>)
    ensures Remaining(Remaining(list, gone), gone') == Remaining(list, gone + gone')
  {
    if list != [] {
      var rest := Remaining(list[1..], gone);
      RemainingAgain(list[1..], gone, gone');
      if list[0] in gone {
        assert [] + rest == rest;
      } else {
        assert ([list[0]] + rest)[1..] == rest;
      }
    }
  }

  lemma {:induction false} RemainingAgree(list: seq<nat>, gone: set<nat>, gone': set<nat>)
    requires forall x :: x in list ==> (x in gone <==> x in gone')
    ensures Remaining(list, gone) == Remaining(list, gone')
  {
    if list != [] { RemainingAgree(list[1..], gone, gone'); }
  }

  lemma RemainingPrefix(a: seq<nat>, b: seq<nat>, gone: set<nat>)
    requires a <= b
    ensures Remaining(a, gone) <= Remaining(b, gone)
  {
    RemainingAppend(a, b[|a|..], gone);
    assert a + b[|a|..] == b;
  }

  /** list' is what remains of list, with sources added at the end. */
  ghost predicate GoesOn(list: seq<nat>, list': seq<nat>, gone: set<nat>) { Remaining(list, gone) <= list' }

  lemma GoesOnTwice(a: seq<nat>, b: seq<nat>, c: seq<nat>, gone: set<nat>, gone': set<nat>)
    requires GoesOn(a, b, gone) && GoesOn(b, c, gone') && gone <= gone'
    ensures GoesOn(a, c, gone')
  {
    RemainingPrefix(Remaining(a, gone), b, gone');
    RemainingAgain(a, gone, gone');
    assert gone + gone' == gone';
  }

  lemma GoesOnMarked(list: seq<nat>, gone: set<nat>, s: nat)
    requires forall x :: x in list ==> x !in gone
    ensures GoesOn(list, list, gone) && GoesOn(list, list + [s], gone)
  {
    NoneGone(list, gone);
  }

  lemma GoesOnRemoved(list: seq<nat>, gone: set<nat>, s: nat)
    requires forall x :: x in list ==> x !in gone
    ensures GoesOn(list, Unlink(list, s), gone + {s})
  {
    NoneGone(list, gone);
    CancelOne(list, gone, s);
  }

  lemma {:induction false} CancelOne(added: seq<nat>, cancelled: set<nat>, s: nat)
    ensures Remaining(added, cancelled + {s}) == Unlink(Remaining(added, cancelled), s)
  {
    if added != [] {
      var rest := Remaining(added[1..], cancelled);
      CancelOne(added[1..], cancelled, s);
      if added[0] in cancelled {
        assert [] + rest == rest;
      } else {
        assert ([added[0]] + rest)[1..] == rest;
      }
    }
  }

  lemma {:induction false} AddOne(added: seq<nat>, cancelled: set<nat>, s: nat)
    requires s !in cancelled
    ensures Remaining(added + [s], cancelled) == Remaining(added, cancelled) + [s]
  {
    if added == [] {
      assert added + [s] == [s] && [s][1..] == [];
    } else {
      var first, rest := if added[0] in cancelled then [] else [added[0]], Remaining(added[1..], cancelled);
      assert (added + [s])[0] == added[0] && (added + [s])[1..] == added[1..] + [s];
      AddOne(added[1..], cancelled, s);
      assert first + (rest + [s]) == first + rest + [s];
    }
  }

  // ---------- the invariant

  /** Memory, lists and epoll set agree.  removed holds every source ever removed, freed
      every source ever freed. */
  ghost predicate Sound(heap: map<nat, Source>, check: seq<nat>, idle: seq<nat>, destroy: seq<nat>,
                        registered: set<nat>, next: nat, removed: set<nat>, freed: seq<nat>) {
    && NoDup(check) && NoDup(idle) && NoDup(destroy) && NoDup(freed)
    && (forall s :: s in check ==> s in heap && heap[s].fd >= 0)
    && (forall s :: s in idle <==> s in heap && heap[s].idle && s !in removed)
    && (forall s :: s in destroy <==> s in heap && s in removed)
    && (forall s :: s in heap ==> s < next && -1 <= heap[s].fd && (heap[s].fd >= 0 <==> !heap[s].idle && s !in removed))
    && (forall s :: s in registered <==> s in heap && heap[s].fd >= 0)
    && (forall s :: s in removed ==> s in heap || s in freed)
    && (forall s :: s in freed ==> s in removed && s !in heap && s < next)
  }

  // ---------- what the operations of a callback do

  /** The memory, the lists and the epoll set. */
  datatype Picture = Picture(heap: map<nat, Source>, check: seq<nat>, idle: seq<nat>, destroy: seq<nat>,
                             registered: set<nat>, next: nat, removed: set<nat>)

  ghost predicate Marks(p: Picture, s: nat) {
    s in p.heap && s !in p.removed && !p.heap[s].idle && s !in p.check
  }

  ghost predicate Removes(p: Picture, s: nat, place: Place) {
    s in p.heap && (place.InRecheck? ==> s != place.following)
  }

  ghost function Effect(op: Op, place: Place, p: Picture): Picture {
    match op
    case AddFd(fd, watched) =>
      if fd < 0 || !watched then p
      else p.(heap := p.heap[p.next := Source(fd, false)], registered := p.registered + {p.next}, next := p.next + 1)
    case AddIdle => p.(heap := p.heap[p.next := Source(-1, true)], idle := p.idle + [p.next], next := p.next + 1)
    case Mark(s) => if Marks(p, s) then p.(check := p.check + [s]) else p
    case Remove(s) =>
      if Removes(p, s, place)
      then p.(heap := p.heap[s := p.heap[s].(fd := -1)], check := Unlink(p.check, s), idle := Unlink(p.idle, s),
              destroy := [s] + Unlink(p.destroy, s), registered := p.registered - {s}, removed := p.removed + {s})
      else p
  }

  ghost function Effects(ops: seq<Op>, place: Place, p: Picture): Picture {
    if ops == [] then p else Effects(ops[1..], place, Effect(ops[0], place, p))
  }

  lemma EffectsNext(ops: seq<Op>, k: nat, place: Place, p: Picture)
    requires k < |ops|
    ensures Effects(ops[k..], place, p) == Effects(ops[k + 1..], place, Effect(ops[k], place, p))
  {
    assert ops[k..][1..] == ops[k + 1..];
  }

  lemma NoEffects(place: Place, p: Picture)
    ensures Effects([], place, p) == p
  {
  }

  /** What the first callback of a plan does; without a plan it does nothing and returns 0. */
  function FirstOps(plan: seq<Behaviour>): seq<Op> { if plan == [] then [] else plan[0].ops }

  function FirstResult(plan: seq<Behaviour>): int { if plan == [] then 0 else plan[0].result }

  datatype History = History(now: Picture, freed: seq<nat>, idleAdded: seq<nat>, idleCancelled: set<nat>,
                             idleRun: seq<nat>, invoked: seq<nat>, results: seq<int>, passes: seq<Pass>)

  /** What a source or task can have come to since: nothing is forgotten except by removal,
      and no idle task except by running it or by cancelling it. */
  ghost predicate Further(a: History, b: History) {
    && a.now.removed <= b.now.removed && a.freed <= b.freed && a.idleCancelled <= b.idleCancelled
    && a.idleAdded <= b.idleAdded && a.idleRun <= b.idleRun
    && a.invoked <= b.invoked && a.results <= b.results && a.passes <= b.passes
    && (forall s :: s in a.now.registered ==> s in b.now.registered || s in b.now.removed)
    && (forall s :: s in a.now.check ==> s in b.now.check || s in b.now.removed)
    && (forall s :: s in a.now.idle ==> s in b.now.idle || s in b.idleRun || s in b.idleCancelled)
  }

  lemma FurtherTwice(a: History, b: History, c: History)
    requires Further(a, b) && Further(b, c)
    ensures Further(a, c)
  {
  }

  lemma FurtherOn(a: History, b: History, c: History)
    requires Further(a, b) && Further(b, c) && Kept(a.now.heap, b.now.heap) && Kept(b.now.heap, c.now.heap)
    ensures Further(a, c) && Kept(a.now.heap, c.now.heap)
    ensures a.now.removed <= b.now.removed <= c.now.removed
  {
    FurtherTwice(a, b, c);
    KeptTwice(a.now.heap, b.now.heap, c.now.heap);
    FurtherLogs(a, b);
    FurtherLogs(b, c);
  }

  lemma FurtherLogs(a: History, b: History)
    requires Further(a, b)
    ensures a.now.removed <= b.now.removed && a.freed <= b.freed && a.idleCancelled <= b.idleCancelled
    ensures a.idleAdded <= b.idleAdded && a.idleRun <= b.idleRun
    ensures a.invoked <= b.invoked && a.results <= b.results && a.passes <= b.passes
  {
  }

  ghost predicate Kept(heap: map<nat, Source>, heap': map<nat, Source>) {
    forall s :: s in heap ==> s in heap' && heap'[s].idle == heap[s].idle
  }

  lemma KeptTwice(a: map<nat, Source>, b: map<nat, Source>, c: map<nat, Source>)
    requires Kept(a, b) && Kept(b, c)
    ensures Kept(a, c)
  {
  }

  /** Sources and logs were only added to. */
  lemma GrewFurther(a: History, b: History)
    requires a.now.removed == b.now.removed && a.freed == b.freed && a.idleCancelled == b.idleCancelled
    requires a.idleAdded <= b.idleAdded && a.idleRun == b.idleRun
    requires a.invoked <= b.invoked && a.results <= b.results && a.passes <= b.passes
    requires a.now.registered <= b.now.registered && a.now.check <= b.now.check && a.now.idle <= b.now.idle
    requires forall s :: s in a.now.heap ==> s in b.now.heap && a.now.heap[s] == b.now.heap[s]
    ensures Further(a, b) && Kept(a.now.heap, b.now.heap)
  {
  }

  /** One source was removed. */
  lemma RemoveFurther(a: History, b: History, s: nat, place: Place)
    requires s in a.now.heap && Removes(a.now, s, place) && b.now == Effect(Remove(s), place, a.now)
    requires a.freed == b.freed && a.idleAdded == b.idleAdded
    requires a.invoked == b.invoked && a.results == b.results && a.passes == b.passes
    requires a.idleRun <= b.idleRun && a.idleCancelled <= b.idleCancelled
    requires s in a.now.idle ==> s in b.idleRun || s in b.idleCancelled
    ensures Further(a, b) && Kept(a.now.heap, b.now.heap)
  {
    UnlinkMembers(a.now.check, s);
    UnlinkMembers(a.now.idle, s);
  }

  lemma KeptAll(a: map<nat, Source>, b: map<nat, Source>)
    requires Kept(a, b)
    ensures forall s :: s in a ==> s in b && b[s].idle == a[s].idle
  {
  }

  lemma Self(a: History)
    ensures Further(a, a) && Kept(a.now.heap, a.now.heap)
  {
  }

  /** A recheck pass: the list that it started with, the sources that it skipped, and how
      many calls had been made and idle tasks added when it started. */
  datatype Pass = Pass(list: seq<nat>, skipped: set<nat>, calls: nat, idles: nat)

  ghost predicate AllZero(results: seq<int>) { forall r :: r in results ==> r == 0 }

  /** The idle tasks added are those run, those waiting, in order, and those cancelled. */
  ghost predicate Booked(added: seq<nat>, cancelled: set<nat>, run: seq<nat>, idle: seq<nat>, removed: set<nat>,
                         next: nat) {
    && Remaining(added, cancelled) == run + idle
    && (forall s :: s in run ==> s in removed)
    && (forall s :: s in cancelled ==> s < next)
  }

  class Loop {
    /** The sources that are allocated. */
    var heap: map<nat, Source>
    var checkList: seq<nat>
    var idleList: seq<nat>
    var destroyList: seq<nat>
    /** The sources that epoll watches. */
    var registered: set<nat>
    var next: nat
    /** How the callbacks still to come behave; later ones do nothing and return 0. */
    var plan: seq<Behaviour>
    ghost var removed: set<nat>
    ghost var freed: seq<nat>
    /** The idle tasks ever added, in order; those that a callback removed; and those that
        the loop ran, in order. */
    ghost var idleAdded: seq<nat>
    ghost var idleCancelled: set<nat>
    ghost var idleRun: seq<nat>
    /** The sources whose dispatch functions were called, in order. */
    ghost var invoked: seq<nat>
    /** What they returned. */
    ghost var results: seq<int>
    ghost var passes: seq<Pass>

    ghost predicate Valid()
      reads this
    {
      && |results| == |invoked|
      && Sound(heap, checkList, idleList, destroyList, registered, next, removed, freed)
      && Booked(idleAdded, idleCancelled, idleRun, idleList, removed, next)
    }

    ghost function Now(): Picture
      reads this
    {
      Picture(heap, checkList, idleList, destroyList, registered, next, removed)
    }

    /** Allocated and not removed. */
    ghost predicate Alive(s: nat)
      reads this
    {
      s in heap && s !in removed
    }

    ghost function Past(): History
      reads this
    {
      History(Now(), freed, idleAdded, idleCancelled, idleRun, invoked, results, passes)
    }

    twostate predicate Onward()
      reads this
    {
      Further(old(Past()), Past())
    }

    /** Nothing has been freed. */
    twostate predicate Grown()
      reads this
    {
      Kept(old(heap), heap)
    }

    constructor (plan: seq<Behaviour>)
      ensures Valid() && heap == map[] && this.plan == plan
    {
      heap, checkList, idleList, destroyList, registered, next := map[], [], [], [], {}, 0;
      removed, freed, idleAdded, idleCancelled, idleRun, invoked := {}, [], [], {}, [], [];
      results, passes := [], [];
      this.plan := plan;
    }

    // ---------- what callbacks may call

    /** add_source; watched says whether epoll accepts the descriptor.  A source that
        cannot be added is freed at once, and nobody has seen it. */
    method AddFd(fd: int, watched: bool) returns (s: int)
      requires Valid()
      modifies `heap, `registered, `next
      ensures Valid() && (s == -1 <==> fd < 0 || !watched)
      ensures s == -1 ==> heap == old(heap) && registered == old(registered)
      ensures s != -1 ==> s == old(next) && s !in old(heap) && heap == old(heap)[s := Source(fd, false)] && Alive(s)
      ensures s != -1 ==> registered == old(registered) + {s}
      ensures next == old(next) + if s == -1 then 0 else 1
    {
      hide NoDup, Remaining;
      if fd < 0 || !watched {
        return -1;
      }
      s := next;
      heap := heap[s := Source(fd, false)];
      registered := registered + {s};
      next := next + 1;
    }

    method AddIdle() returns (s: nat)
      requires Valid()
      modifies `heap, `idleList, `next, `idleAdded
      ensures Valid() && s == old(next) && s !in old(heap) && heap == old(heap)[s := Source(-1, true)] && Alive(s)
      ensures idleList == old(idleList) + [s] && idleAdded == old(idleAdded) + [s] && next == old(next) + 1
    {
      hide Remaining, Sound;
      s := next;
      AddOne(idleAdded, idleCancelled, s);
      IdleKeepsSound(heap, checkList, idleList, destroyList, registered, next, removed, freed);
      assert idleRun + (idleList + [s]) == idleRun + idleList + [s];
      heap := heap[s := Source(-1, true)];
      idleList := idleList + [s];
      next := next + 1;
      idleAdded := idleAdded + [s];
    }

    /** wl_event_source_check, for a source that is not marked yet; WlList.InsertedAgain is
        about one that is. */
    method Check(s: nat)
      requires Valid() && Alive(s) && !heap[s].idle && s !in checkList
      modifies `checkList
      ensures Valid() && checkList == old(checkList) + [s]
    {
      hide Remaining;
      checkList := checkList + [s];
    }

    /** The stores of wl_event_source_remove. */
    method TakeOff(s: nat)
      requires s in heap && -1 <= heap[s].fd && (heap[s].fd < 0 ==> s !in registered)
      modifies `heap, `checkList, `idleList, `destroyList, `registered
      ensures heap == old(heap)[s := old(heap[s]).(fd := -1)] && registered == old(registered) - {s}
      ensures checkList == Unlink(old(checkList), s) && idleList == Unlink(old(idleList), s)
      ensures destroyList == [s] + Unlink(old(destroyList), s)
    {
      hide Unlink;
      var f := heap[s];
      if f.fd >= 0 {
        registered := registered - {s};
        f := f.(fd := -1);
      }
      heap := heap[s := f];
      checkList := Unlink(checkList, s);
      idleList := Unlink(idleList, s);
      destroyList := [s] + Unlink(destroyList, s);
    }

    /** wl_event_source_remove, of any source that was not freed yet, also of one that was
        removed before; runs tells the removal of the idle task that the loop is running. */
    method RemoveSource(s: nat, ghost runs: bool)
      requires Valid() && s in heap && (runs && s !in removed ==> idleList != [] && idleList[0] == s)
      modifies `heap, `checkList, `idleList, `destroyList, `registered, `removed, `idleCancelled, `idleRun
      ensures Valid() && removed == old(removed) + {s} && heap == old(heap)[s := old(heap[s]).(fd := -1)]
      ensures checkList == Unlink(old(checkList), s) && idleList == Unlink(old(idleList), s)
      ensures destroyList == [s] + Unlink(old(destroyList), s) && registered == old(registered) - {s}
      ensures idleRun == old(idleRun) + if runs && s !in old(removed) then [s] else []
      ensures idleCancelled == old(idleCancelled) + if !runs && s !in old(removed) then {s} else {}
    {
      hide Remaining, Sound, NoDup, Unlink, Booked;
      SourceFacts(heap, checkList, idleList, destroyList, registered, next, removed, freed, s);
      RemoveKeepsSound(heap, checkList, idleList, destroyList, registered, next, removed, freed, s);
      RemoveKeepsBooks(idleAdded, idleCancelled, idleRun, idleList, removed, next, s, runs);
      TakeOff(s);
      idleRun := idleRun + if runs && s !in removed then [s] else [];
      idleCancelled := idleCancelled + if !runs && s !in removed then {s} else {};
      removed := removed + {s};
    }

    // ---------- callbacks

    /** What a callback may do: it refers to sources that are allocated, marks one that is
        alive and no idle task, and marks it once (WlList.InsertedAgain), and during the
        recheck pass it does not remove the source that the pass has read already
        (WlList.PassEndsExactly). */
    predicate Admissible(op: Op, place: Place, gone: set<nat>)
      reads this
    {
      match op
      case AddFd(_, _) => true
      case AddIdle => true
      case Mark(s) => s in heap && s !in gone && !heap[s].idle && s !in checkList
      case Remove(s) => s in heap && (place.InRecheck? ==> s != place.following)
    }

    /** An idle task that the loop is running: it is still the first, or removed itself. */
    ghost predicate Running(s: nat)
      reads this
    {
      s in heap && (s !in removed ==> idleList != [] && idleList[0] == s)
    }

    /** Only the idle task that is running may count as run, when it removes itself. */
    twostate predicate OnlyCurrentRan(place: Place)
      reads this
    {
      idleRun == old(idleRun) +
        if place.InIdle? && place.current !in old(removed) && place.current in removed then [place.current] else []
    }

    /** The recheck pass can go on. */
    twostate predicate PassGoesOn(following: int)
      reads this
    {
      GoesOn(old(checkList), checkList, removed) && (following !in old(removed) ==> following !in removed)
    }

    method CallbackRemoves(s: nat, place: Place)
      requires Valid() && (place.InIdle? ==> Running(place.current))
      requires s in heap && (place.InRecheck? ==> s != place.following)
      modifies `heap, `checkList, `idleList, `destroyList, `registered, `removed, `idleCancelled, `idleRun
      ensures Valid() && OnlyCurrentRan(place) && Onward() && Grown()
      ensures place.InIdle? ==> Running(place.current)
      ensures place.InRecheck? ==> PassGoesOn(place.following)
      ensures Now() == Effect(Remove(s), place, old(Now()))
    {
      hide Remaining, Sound, NoDup, Unlink, GoesOn, Further, Kept;
      ListAlive(heap, checkList, idleList, destroyList, registered, next, removed, freed);
      SourceFacts(heap, checkList, idleList, destroyList, registered, next, removed, freed, s);
      UnlinkMembers(checkList, s);
      UnlinkMembers(idleList, s);
      GoesOnRemoved(checkList, removed, s);
      if place.InIdle? && place.current !in removed && place.current != s {
        UnlinkTail(idleList, s);
      }
      RemoveSource(s, place.InIdle? && place.current == s);
      RemoveFurther(old(Past()), Past(), s, place);
    }

    method CallbackAdds(op: Op, place: Place)
      requires Valid() && (place.InIdle? ==> Running(place.current)) && (op.AddFd? || op.AddIdle?)
      modifies `heap, `registered, `idleList, `next, `idleAdded
      ensures Valid() && OnlyCurrentRan(place) && Onward() && Grown()
      ensures place.InIdle? ==> Running(place.current)
      ensures place.InRecheck? ==> PassGoesOn(place.following)
      ensures Now() == Effect(op, place, old(Now()))
    {
      hide Remaining, Sound, NoDup, Unlink, GoesOn, Further, Kept, Booked;
      ListAlive(heap, checkList, idleList, destroyList, registered, next, removed, freed);
      GoesOnMarked(checkList, removed, 0);
      if op.AddFd? {
        var s := AddFd(op.fd, op.watched);
      } else {
        var s := AddIdle();
      }
      GrewFurther(old(Past()), Past());
    }

    method CallbackMarks(s: nat, place: Place)
      requires Valid() && (place.InIdle? ==> Running(place.current)) && Marks(Now(), s)
      modifies `checkList
      ensures Valid() && OnlyCurrentRan(place) && Onward() && Grown()
      ensures place.InIdle? ==> Running(place.current)
      ensures place.InRecheck? ==> PassGoesOn(place.following)
      ensures checkList == old(checkList) + [s]
    {
      hide Remaining, Sound, NoDup, Unlink, GoesOn, Further, Kept, Booked;
      ListAlive(heap, checkList, idleList, destroyList, registered, next, removed, freed);
      GoesOnMarked(checkList, removed, s);
      Check(s);
      GrewFurther(old(Past()), Past());
    }

    /** One call of a callback into the loop, if the callback may make it. */
    method Perform(op: Op, place: Place)
      requires Valid() && (place.InIdle? ==> Running(place.current))
      modifies `heap, `registered, `checkList, `idleList, `destroyList, `next, `removed, `idleAdded, `idleCancelled,
        `idleRun
      ensures Valid() && OnlyCurrentRan(place) && Onward() && Grown()
      ensures place.InIdle? ==> Running(place.current)
      ensures place.InRecheck? ==> PassGoesOn(place.following)
      ensures Now() == Effect(op, place, old(Now()))
    {
      hide Remaining, Sound, NoDup, Unlink, GoesOn, Further, Kept, Booked;
      if op.AddFd? || op.AddIdle? {
        CallbackAdds(op, place);
        return;
      }
      var s := op.source;
      if s in heap {
        RemovedOrAlive(heap, checkList, idleList, destroyList, registered, next, removed, freed, s);
      }
      if Admissible(op, place, set d | d in destroyList) {
        if op.Mark? {
          CallbackMarks(s, place);
        } else {
          CallbackRemoves(s, place);
        }
      } else {
        ListAlive(heap, checkList, idleList, destroyList, registered, next, removed, freed);
        GoesOnMarked(checkList, removed, s);
        Self(Past());
      }
    }

    /** The calls of one callback, in order. */
    method PerformAll(ops: seq<Op>, place: Place)
      requires Valid() && (place.InIdle? ==> Running(place.current))
      modifies `heap, `registered, `checkList, `idleList, `destroyList, `next, `removed, `idleAdded, `idleCancelled,
        `idleRun
      ensures Valid() && OnlyCurrentRan(place) && Onward() && Grown()
      ensures place.InIdle? ==> Running(place.current)
      ensures place.InRecheck? ==> PassGoesOn(place.following)
      ensures Now() == Effects(ops, place, old(Now()))
    {
      hide Remaining, Sound, NoDup, Unlink, GoesOn, Effect, Effects, Further, Kept, Booked;
      ListAlive(heap, checkList, idleList, destroyList, registered, next, removed, freed);
      GoesOnMarked(checkList, removed, 0);
      Self(Past());
      var k := 0;
      assert ops[0..] == ops;
      while k < |ops|
        invariant k <= |ops| && Effects(ops, place, old(Now())) == Effects(ops[k..], place, Now())
        invariant Valid() && OnlyCurrentRan(place) && Onward() && Grown()
        invariant place.InIdle? ==> Running(place.current)
        invariant place.InRecheck? ==> PassGoesOn(place.following)
      {
        ghost var past := Past();
        EffectsNext(ops, k, place, Now());
        Perform(ops[k], place);
        FurtherOn(old(Past()), past, Past());
        if place.InRecheck? {
          GoesOnTwice(old(checkList), past.now.check, checkList, past.now.removed, removed);
        }
        k := k + 1;
      }
      assert ops[k..] == [];
      NoEffects(place, Now());
    }

    /** Calls the dispatch function of a source, which must be alive. */
    method Invoke(s: nat, place: Place) returns (result: int)
      requires Valid() && Alive(s) && (place.InIdle? ==> place.current == s && Running(s))
      modifies `heap, `registered, `checkList, `idleList, `destroyList, `next, `removed, `idleAdded, `idleCancelled,
        `idleRun
      modifies `plan, `invoked, `results
      ensures Valid() && OnlyCurrentRan(place)
      ensures plan == if old(plan) == [] then [] else old(plan)[1..]
      ensures old(plan) == [] ==>
                result == 0 && checkList == old(checkList) && idleList == old(idleList) && removed == old(removed)
      ensures Onward() && Grown() && invoked == old(invoked) + [s]
      ensures place.InIdle? ==> Running(s)
      ensures place.InRecheck? ==> PassGoesOn(place.following)
      ensures Now() == Effects(FirstOps(old(plan)), place, old(Now())) && result == FirstResult(old(plan))
      ensures results == old(results) + [result]
    {
      hide Remaining, Sound, NoDup, Unlink, GoesOn, Effect, Effects, Further, Kept, Booked;
      result := FirstResult(plan);
      var ops := FirstOps(plan);
      NoEffects(place, Now());
      invoked := invoked + [s];
      results := results + [result];
      plan := if plan == [] then [] else plan[1..];
      ghost var past := Past();
      GrewFurther(old(Past()), past);
      PerformAll(ops, place);
      FurtherOn(old(Past()), past, Past());
    }

    // ---------- the loop

    /** Frees every removed source, each while it is still allocated. */
    method ProcessDestroyList()
      requires Valid()
      modifies `heap, `destroyList, `freed
      ensures Valid() && destroyList == [] && freed == old(freed) + old(destroyList)
      ensures forall s :: s in heap <==> s in old(heap) && s !in removed
    {
      hide Remaining, Sound, NoDup;
      FreeKeepsSound(heap, checkList, idleList, destroyList, registered, next, removed, freed);
      var k := 0;
      assert heap - Elements(destroyList[..0]) == heap;
      while k < |destroyList|
        invariant destroyList == old(destroyList) && k <= |destroyList| && freed == old(freed) + destroyList[..k]
        invariant heap == old(heap) - Elements(destroyList[..k])
      {
        var s := destroyList[k];
        AllocatedYet(destroyList, k);
        assert s in destroyList && s in heap;
        heap := heap - {s};
        freed := freed + [s];
        assert destroyList[..k + 1] == destroyList[..k] + [s];
        k := k + 1;
      }
      assert destroyList[..k] == destroyList;
      destroyList := [];
    }

    /** The idle task that has run leaves the list, if it has not done so itself. */
    method FinishTask(s: nat)
      requires Valid() && Running(s) && heap[s].idle
      modifies `heap, `checkList, `idleList, `destroyList, `registered, `removed, `idleCancelled, `idleRun
      ensures Valid() && Onward() && Grown()
      ensures idleRun == old(idleRun) + if s !in old(removed) then [s] else []
      ensures idleList == if s !in old(removed) then old(idleList)[1..] else old(idleList)
    {
      hide Remaining, Sound, NoDup, Unlink, Further, Kept, Booked;
      SourceFacts(heap, checkList, idleList, destroyList, registered, next, removed, freed, s);
      if s in removed {
        UnlinkAbsent(idleList, s);
      } else {
        UnlinkHead(idleList);
      }
      UnlinkMembers(idleList, s);
      RemoveSource(s, true);
      RemoveFurther(old(Past()), Past(), s, InIdle(s));
    }

    /** Runs the first idle task and takes it off the list, if it has not done so itself. */
    method RunIdle()
      requires Valid() && idleList != []
      modifies this
      ensures Valid() && Onward() && Grown() && freed == old(freed) && passes == old(passes)
      ensures old(plan) == [] ==> plan == [] && |idleList| < |old(idleList)|
      ensures old(plan) != [] ==> |plan| < |old(plan)|
      ensures idleRun == old(idleRun) + [old(idleList[0])] && invoked == old(invoked) + [old(idleList[0])]
    {
      hide Remaining, Sound, NoDup, Unlink, Further, Effects, Booked;
      var s := idleList[0];
      IdleAlive(heap, checkList, idleList, destroyList, registered, next, removed, freed, s);
      SourceFacts(heap, checkList, idleList, destroyList, registered, next, removed, freed, s);
      var result := Invoke(s, InIdle(s));
      ghost var past := Past();
      FinishTask(s);
      FurtherOn(old(Past()), past, Past());
    }

    /** Runs idle tasks until none is left: the tasks that were not cancelled, each once
        and in the order they were added. */
    method DispatchIdle()
      requires Valid()
      modifies this
      ensures Valid() && idleList == [] && idleRun == Remaining(idleAdded, idleCancelled)
      ensures Onward() && Grown() && freed == old(freed) && |plan| <= |old(plan)| && passes == old(passes)
      ensures idleRun == old(idleRun) + invoked[|old(invoked)|..]
    {
      hide Remaining, Sound, NoDup, Unlink, Further, Kept;
      Self(Past());
      while idleList != []
        invariant Valid() && freed == old(freed) && |plan| <= |old(plan)| && passes == old(passes)
        invariant Onward() && Grown()
        invariant old(invoked) <= invoked && idleRun == old(idleRun) + invoked[|old(invoked)|..]
        decreases |plan|, |idleList|
      {
        ghost var past := Past();
        FurtherLogs(old(Past()), past);
        RunIdle();
        FurtherOn(old(Past()), past, Past());
      }
      assert idleRun + idleList == idleRun;
    }

    /** One recheck pass.  The next source is read from the list before the current one is
        dispatched; the sources on the list at the start are dispatched in order, except
        skipped ones that were removed. */
    method PostDispatchCheck() returns (needsRecheck: bool, ghost skipped: set<nat>)
      requires Valid()
      modifies this
      ensures Valid() && freed == old(freed) && idleRun == old(idleRun)
      ensures |plan| <= |old(plan)| && (needsRecheck ==> |plan| < |old(plan)|)
      ensures Onward() && Grown()
      ensures skipped <= removed && Remaining(old(checkList), skipped) <= invoked[|old(invoked)|..]
      ensures passes == old(passes) + [Pass(old(checkList), skipped, old(|invoked|), old(|idleAdded|))]
      ensures needsRecheck <==> !AllZero(results[|old(results)|..])
    {
      hide Remaining, Sound, NoDup, Unlink, GoesOn, Walking, Next, Effects, AllZero, Further, Kept;
      NoResults();
      assert results[|results|..] == [];
      Self(Past());
      needsRecheck, skipped := false, {};
      var current := if checkList == [] then -1 else checkList[0];
      ghost var pre: seq<nat>, todo: seq<nat>, done: seq<nat> := [], checkList, [];
      PassStarts(checkList, current, removed);
      while current >= 0
        invariant Valid() && freed == old(freed) && idleRun == old(idleRun)
        invariant |plan| <= |old(plan)| && (needsRecheck ==> |plan| < |old(plan)|)
        invariant Onward() && Grown() && invoked == old(invoked) + done
        invariant passes == old(passes) && old(results) <= results
                  && (needsRecheck <==> !AllZero(results[|old(results)|..]))
        invariant Walking(old(checkList), skipped, done, current, checkList, pre, todo, removed)
        decreases |plan|, if current >= 0 then |todo| else 0
      {
        CurrentListed(old(checkList), skipped, done, current, checkList, pre, todo, removed);
        CheckAlive(heap, checkList, idleList, destroyList, registered, next, removed, freed, current);
        ListAlive(heap, checkList, idleList, destroyList, registered, next, removed, freed);
        var following := Next(checkList, current);
        ghost var list, gone := checkList, removed;
        ghost var before, past := results, Past();
        FurtherLogs(old(Past()), past);
        var result := Invoke(current, InRecheck(following));
        FurtherOn(old(Past()), past, Past());
        OneResult(before, |old(results)|, result);
        needsRecheck := needsRecheck || result != 0;
        skipped, pre, todo := PassStep(old(checkList), skipped, done, current, list, pre, todo, gone, following,
                                       checkList, removed);
        done := done + [current];
        current := following;
      }
      PassEnds(old(checkList), skipped, done, current, checkList, pre, todo, removed);
      ghost var past := Past();
      passes := passes + [Pass(old(checkList), skipped, old(|invoked|), old(|idleAdded|))];
      GrewFurther(past, Past());
      FurtherOn(old(Past()), past, Past());
    }

    /** One reported source, unless it was removed meanwhile. */
    method DispatchEvent(source: nat) returns (taken: bool)
      requires Valid() && source in heap && !heap[source].idle
      modifies this
      ensures Valid() && freed == old(freed) && idleRun == old(idleRun) && |plan| <= |old(plan)|
      ensures Onward() && Grown() && passes == old(passes)
      ensures invoked == old(invoked) + if taken then [source] else []
      ensures !taken ==> source in removed
    {
      hide Remaining, Sound, NoDup, Unlink, Effects, Further, Kept, Booked;
      Self(Past());
      SourceFacts(heap, checkList, idleList, destroyList, registered, next, removed, freed, source);
      taken := heap[source].fd != -1;
      if taken {
        var unused := Invoke(source, InEvents);
      }
    }

    /** The events of one epoll_wait, in order: skips the sources that were removed meanwhile. */
    method DispatchEvents(events: seq<nat>) returns (ghost taken: seq<bool>)
      requires Valid() && forall e :: e in events ==> e in heap && !heap[e].idle
      modifies this
      ensures Valid() && freed == old(freed) && idleRun == old(idleRun) && |plan| <= |old(plan)|
      ensures Onward() && Grown()
      ensures |taken| == |events| && invoked == old(invoked) + Taken(events, taken) && passes == old(passes)
      ensures forall i :: 0 <= i < |events| && !taken[i] ==> events[i] in removed
    {
      hide Remaining, Sound, NoDup, Unlink, Effects, Taken, Further, Kept, Booked;
      Self(Past());
      var i := 0;
      taken := [];
      TakenNone();
      assert events[..0] == [];
      while i < |events|
        invariant i <= |events| && Valid() && freed == old(freed) && idleRun == old(idleRun) && |plan| <= |old(plan)|
        invariant Onward() && Grown()
        invariant |taken| == i && invoked == old(invoked) + Taken(events[..i], taken) && passes == old(passes)
        invariant forall k :: 0 <= k < i && !taken[k] ==> events[k] in removed
      {
        var source := events[i];
        assert source in events;
        ghost var past := Past();
        KeptAll(old(heap), heap);
        var take := DispatchEvent(source);
        TakenMore(events[..i], taken, source, take);
        FurtherOn(old(Past()), past, Past());
        assert events[..i + 1] == events[..i] + [source];
        taken := taken + [take];
        i := i + 1;
      }
      assert events[..i] == events;
    }

    /** Recheck passes until one of them needs no other: in the last one every call, and in
        no other one every call, has returned 0. */
    method Recheck() returns (ghost skipped: set<nat>)
      requires Valid()
      modifies this
      ensures Valid() && Onward() && freed == old(freed) && idleRun == old(idleRun)
      ensures skipped <= removed && Remaining(old(checkList), skipped) <= invoked[|old(invoked)|..]
      ensures |passes| > |old(passes)|
      ensures passes[|old(passes)|] == Pass(old(checkList), skipped, old(|invoked|), old(|idleAdded|))
      ensures Rechecked(passes[|old(passes)|..], invoked, results, removed, true)
    {
      hide Remaining, Sound, NoDup, Unlink, AllZero, Rechecked, Further, Kept;
      var again;
      again, skipped := PostDispatchCheck();
      FurtherLogs(old(Past()), Past());
      FirstPass(passes, |old(passes)|, invoked, results, removed, !again);
      while again
        invariant Valid() && Onward() && freed == old(freed) && idleRun == old(idleRun)
        invariant old(invoked) <= invoked
        invariant skipped <= removed && Remaining(old(checkList), skipped) <= invoked[|old(invoked)|..]
        invariant |passes| > |old(passes)|
        invariant passes[|old(passes)|] == Pass(old(checkList), skipped, old(|invoked|), old(|idleAdded|))
        invariant Rechecked(passes[|old(passes)|..], invoked, results, removed, !again)
        decreases |plan|, again
      {
        ghost var before, was, ps, gone, past := invoked, results, passes, removed, Past();
        ghost var others;
        FurtherLogs(old(Past()), past);
        again, others := PostDispatchCheck();
        FurtherTwice(old(Past()), past, Past());
        FurtherLogs(past, Past());
        NextPass(ps, |old(passes)|, passes, before, was, gone, invoked, results, removed, !again);
        SliceGrows(before, invoked, |old(invoked)|);
      }
    }

    /** wl_event_loop_dispatch, when epoll reports the watched ones among ready.  Idle
        tasks that were waiting are run or cancelled, sources removed before are freed,
        and reported or marked sources are dispatched unless they were removed. */
    method Dispatch(ready: seq<nat>, fails: bool) returns (result: int)
      requires Valid()
      modifies this
      ensures Valid() && Onward() && (result == -1 <==> fails)
      ensures forall s :: s in old(idleList) ==> s in idleRun || s in idleCancelled
      ensures !fails ==> forall s :: s in old(destroyList) ==> s in freed
      ensures !fails ==> forall s :: s in old(registered) && s in First32(ready) ==>
                Called(old(invoked), invoked, s) || s in removed
      ensures !fails ==> forall s :: s in old(checkList) ==> Called(old(invoked), invoked, s) || s in removed
      ensures !fails ==> |passes| > |old(passes)| && Rechecked(passes[|old(passes)|..], invoked, results, removed, true)
      ensures !fails ==> BeforePasses(old(Past()), Past(), First32(ready), passes[|old(passes)|])
    {
      hide Remaining, Sound, NoDup, Unlink, Called, Rechecked, Taken, Further, Kept;
      DestroyedAreRemoved(heap, checkList, idleList, destroyList, registered, next, removed, freed);
      ghost var start := Past();
      DispatchIdle();
      ghost var idled := Past();
      if fails {
        Self(idled);
        IdleServed(start, idled, idled);
        return -1;
      }
      var events := Reported(ready, registered, 32);
      ReportedMembers(ready, registered, 32);
      FirstReported(ready, registered);
      RegisteredKnown(heap, checkList, idleList, destroyList, registered, next, removed, freed);
      ghost var taken := DispatchEvents(events);
      ghost var done := Past();
      TakenCovers(events, taken);
      EventsServed(start, idled, done, First32(ready));
      FurtherLogs(start, done);
      RemovedFreed(heap, checkList, idleList, destroyList, registered, next, removed, freed, start.now.removed);
      ProcessDestroyList();
      ghost var cleared := Past();
      FreedFurther(done, cleared);
      DispatchIdle();
      ghost var quiet := Past();
      FurtherTwice(done, cleared, quiet);
      FurtherTwice(start, done, quiet);
      FurtherTwice(idled, done, quiet);
      AllIdleServed(quiet);
      ghost var skipped := Recheck();
      FurtherTwice(start, quiet, Past());
      FurtherTwice(idled, quiet, Past());
      IdleServed(start, idled, Past());
      FurtherLogs(cleared, quiet);
      FurtherLogs(quiet, Past());
      ChecksServed(start, quiet, Past(), skipped);
      ServedLater(start, done, Past(), First32(ready));
      PassesBegan(start, done, quiet, Past(), First32(ready), passes[|start.passes|]);
      result := 0;
    }
  }

  lemma IdleServed(a: History, b: History, c: History)
    requires Further(a, b) && b.now.idle == [] && Further(b, c)
    ensures forall s :: s in a.now.idle ==> s in c.idleRun || s in c.idleCancelled
  {
  }

  lemma AllIdleServed(a: History)
    requires a.idleRun == Remaining(a.idleAdded, a.idleCancelled)
    ensures forall s :: s in a.idleAdded ==> s in a.idleRun || s in a.idleCancelled
  {
    hide Remaining;
    RemainingMembers(a.idleAdded, a.idleCancelled);
  }

  lemma FreedFurther(a: History, b: History)
    requires a.freed <= b.freed && a.now.registered == b.now.registered && a.now.removed == b.now.removed
    requires a.now.check == b.now.check && a.now.idle == b.now.idle && a.idleCancelled == b.idleCancelled
    requires a.idleAdded == b.idleAdded && a.idleRun == b.idleRun
    requires a.invoked == b.invoked && a.results == b.results && a.passes == b.passes
    ensures Further(a, b)
  {
  }

  /** The sources that were watched, and are among the ready ones. */
  ghost predicate Served(before: History, after: History, calls: seq<nat>, ready: seq<nat>) {
    forall s :: s in before.now.registered && s in ready ==> Called(before.invoked, calls, s) || s in after.now.removed
  }

  lemma EventsServed(a: History, idled: History, done: History, ready: seq<nat>)
    requires Further(a, idled) && Further(idled, done)
    requires forall e :: e in ready && e in idled.now.registered ==>
               e in done.invoked[|idled.invoked|..] || e in done.now.removed
    ensures Further(a, done) && Served(a, done, done.invoked, ready)
  {
    FurtherTwice(a, idled, done);
  }

  lemma ServedLater(a: History, done: History, c: History, ready: seq<nat>)
    requires Served(a, done, done.invoked, ready) && done.invoked <= c.invoked && done.now.removed <= c.now.removed
    requires a.invoked <= done.invoked
    ensures forall s :: s in a.now.registered && s in ready ==> Called(a.invoked, c.invoked, s) || s in c.now.removed
  {
  }

  lemma ChecksServed(a: History, quiet: History, c: History, skipped: set<nat>)
    requires Further(a, quiet) && Further(quiet, c) && skipped <= c.now.removed
    requires Remaining(quiet.now.check, skipped) <= c.invoked[|quiet.invoked|..]
    ensures forall s :: s in a.now.check ==> Called(a.invoked, c.invoked, s) || s in c.now.removed
  {
    hide Remaining;
    RemainingMembers(quiet.now.check, skipped);
  }

  /** When the first recheck pass began, every idle task added so far had been run or
      cancelled, and every reported source called or removed. */
  ghost predicate BeforePasses(before: History, after: History, ready: seq<nat>, first: Pass) {
    && first.idles <= |after.idleAdded| && first.calls <= |after.invoked|
    && (forall s :: s in after.idleAdded[..first.idles] ==> s in after.idleRun || s in after.idleCancelled)
    && Served(before, after, after.invoked[..first.calls], ready)
  }

  lemma PassesBegan(a: History, done: History, quiet: History, c: History, ready: seq<nat>, first: Pass)
    requires Further(done, quiet) && Further(quiet, c) && Served(a, done, done.invoked, ready)
             && a.invoked <= done.invoked
    requires forall s :: s in quiet.idleAdded ==> s in quiet.idleRun || s in quiet.idleCancelled
    requires first.calls == |quiet.invoked| && first.idles == |quiet.idleAdded|
    ensures BeforePasses(a, c, ready, first)
  {
    assert c.invoked[..first.calls] == quiet.invoked && c.idleAdded[..first.idles] == quiet.idleAdded;
  }

  /** The calls of pass k, and what they returned. */
  ghost predicate PassDone(passes: seq<Pass>, k: nat, invoked: seq<nat>, results: seq<int>, removed: set<nat>,
                           quiet: bool)
    requires k < |passes|
  {
    var from := passes[k].calls;
    var to := if k + 1 < |passes| then passes[k + 1].calls else |invoked|;
    && from <= to <= |invoked| == |results| && passes[k].skipped <= removed
    && Remaining(passes[k].list, passes[k].skipped) <= invoked[from..to]
    && (AllZero(results[from..to]) <==> k + 1 == |passes| && quiet)
  }

  /** Each pass has covered its list but for removed sources; a call of each but the last
      has returned something else than 0; quiet says whether all of the last returned 0. */
  ghost predicate Rechecked(passes: seq<Pass>, invoked: seq<nat>, results: seq<int>, removed: set<nat>, quiet: bool) {
    passes != [] &&
    forall k :: 0 <= k < |passes| ==> PassDone(passes, k, invoked, results, removed, quiet)
  }

  lemma FirstPass(passes: seq<Pass>, n: nat, invoked: seq<nat>, results: seq<int>, removed: set<nat>, quiet: bool)
    requires |passes| == n + 1 && passes[n].calls <= |invoked| == |results| && passes[n].skipped <= removed
    requires Remaining(passes[n].list, passes[n].skipped) <= invoked[passes[n].calls..]
    requires AllZero(results[passes[n].calls..]) <==> quiet
    ensures Rechecked(passes[n..], invoked, results, removed, quiet)
  {
    hide Remaining, AllZero;
    var p := passes[n];
    assert invoked[p.calls..|invoked|] == invoked[p.calls..] && results[p.calls..|results|] == results[p.calls..];
    assert PassDone(passes[n..], 0, invoked, results, removed, quiet);
  }

  lemma NextPass(passes: seq<Pass>, n: nat, passes': seq<Pass>, invoked: seq<nat>, results: seq<int>, removed: set<nat>,
                 invoked': seq<nat>, results': seq<int>, removed': set<nat>, quiet: bool)
    requires n < |passes| && Rechecked(passes[n..], invoked, results, removed, false)
    requires |passes'| == |passes| + 1 && passes <= passes' && invoked <= invoked' && results <= results'
    requires removed <= removed' && |invoked'| == |results'| && |invoked| == |results|
    requires var p := passes'[|passes|];
             && p.calls == |invoked| && p.skipped <= removed'
             && Remaining(p.list, p.skipped) <= invoked'[p.calls..] && (AllZero(results'[p.calls..]) <==> quiet)
    ensures Rechecked(passes'[n..], invoked', results', removed', quiet)
  {
    hide Remaining, AllZero;
    var a, b := passes[n..], passes'[n..];
    var p := b[|a|];
    assert p == passes'[|passes|];
    assert invoked'[p.calls..|invoked'|] == invoked'[p.calls..] && results'[p.calls..|results'|] == results'[p.calls..];
    forall k | 0 <= k < |b|
      ensures PassDone(b, k, invoked', results', removed', quiet)
    {
      if k < |a| {
        assert PassDone(a, k, invoked, results, removed, false);
        assert b[k] == a[k];
        var from, to := a[k].calls, if k + 1 < |a| then a[k + 1].calls else |invoked|;
        assert to == if k + 1 < |b| then b[k + 1].calls else |invoked'|;
        assert invoked'[from..to] == invoked[from..to] && results'[from..to] == results[from..to];
      }
    }
  }

  lemma NoResults()
    ensures AllZero([])
  {
  }

  lemma OneResult(results: seq<int>, n: nat, result: int)
    requires n <= |results|
    ensures AllZero((results + [result])[n..]) <==> AllZero(results[n..]) && result == 0
  {
    assert (results + [result])[n..] == results[n..] + [result];
    assert forall r :: r in results[n..] ==> r in results[n..] + [result];
    assert result in results[n..] + [result];
  }

  /** s was called between two states of the log of calls. */
  ghost predicate Called(before: seq<nat>, now: seq<nat>, s: nat) { |before| <= |now| && s in now[|before|..] }

  lemma CallsCount(before: seq<nat>, mid: seq<nat>, now: seq<nat>)
    requires before <= mid <= now
    ensures forall s :: s in now[|mid|..] ==> Called(before, now, s)
  {
  }

  lemma CallsLast(before: seq<nat>, mid: seq<nat>, now: seq<nat>)
    requires before <= mid <= now
    ensures forall s :: Called(before, mid, s) ==> Called(before, now, s)
  {
  }

  lemma SliceGrows(a: seq<nat>, b: seq<nat>, n: nat)
    requires a <= b && n <= |a|
    ensures a[n..] <= b[n..]
  {
  }

  /** The events that were taken. */
  ghost function Taken(events: seq<nat>, taken: seq<bool>): seq<nat>
    requires |taken| == |events|
  {
    if events == [] then []
    else
      var n := |events| - 1;
      Taken(events[..n], taken[..n]) + if taken[n] then [events[n]] else []
  }

  lemma TakenNone()
    ensures Taken([], []) == []
  {
  }

  lemma TakenMore(events: seq<nat>, taken: seq<bool>, e: nat, take: bool)
    requires |taken| == |events|
    ensures Taken(events + [e], taken + [take]) == Taken(events, taken) + if take then [e] else []
  {
    assert (events + [e])[..|events|] == events && (taken + [take])[..|events|] == taken;
  }

  lemma {:induction false} TakenCovers(events: seq<nat>, taken: seq<bool>)
    requires |taken| == |events|
    ensures forall i :: 0 <= i < |events| && taken[i] ==> events[i] in Taken(events, taken)
    ensures forall e :: e in Taken(events, taken) ==> e in events
  {
    if events != [] {
      TakenCovers(events[..|events| - 1], taken[..|events| - 1]);
    }
  }

  function First32(ready: seq<nat>): seq<nat> { if |ready| < 32 then ready else ready[..32] }

  /** Watched sources among the first that are ready are reported. */
  lemma FirstReported(ready: seq<nat>, registered: set<nat>)
    ensures forall e :: e in First32(ready) && e in registered ==> e in Reported(ready, registered, 32)
  {
    ReportsFirst(ready, registered, 32);
  }

  lemma {:induction false} ReportsFirst(ready: seq<nat>, registered: set<nat>, limit: nat)
    ensures forall k :: 0 <= k < |ready| && k < limit && ready[k] in registered ==>
              ready[k] in Reported(ready, registered, limit)
    decreases |ready|
  {
    if ready != [] && limit > 0 {
      var limit' := if ready[0] in registered then limit - 1 else limit;
      ReportsFirst(ready[1..], registered, limit');
      forall k | 0 <= k < |ready| && k < limit && ready[k] in registered
        ensures ready[k] in Reported(ready, registered, limit)
      {
        if k > 0 {
          assert ready[1..][k - 1] == ready[k];
        }
      }
    }
  }

  function Elements(list: seq<nat>): set<nat> { set s | s in list }

  /** What epoll_wait reports: watched sources only, and at most limit of them. */
  function Reported(ready: seq<nat>, registered: set<nat>, limit: nat): seq<nat> {
    if ready == [] || limit == 0 then []
    else if ready[0] in registered then [ready[0]] + Reported(ready[1..], registered, limit - 1)
    else Reported(ready[1..], registered, limit)
  }

  lemma {:induction false} ReportedMembers(ready: seq<nat>, registered: set<nat>, limit: nat)
    ensures forall e :: e in Reported(ready, registered, limit) ==> e in registered
    decreases |ready|
  {
    if ready != [] && limit > 0 {
      ReportedMembers(ready[1..], registered, if ready[0] in registered then limit - 1 else limit);
    }
  }

  /** The place of s in the list, and what follows it; -1 is the list head. */
  function IndexOf(list: seq<nat>, s: nat): (i: nat)
    requires s in list
    ensures i < |list| && list[i] == s
  {
    if list[0] == s then 0 else 1 + IndexOf(list[1..], s)
  }

  function Next(list: seq<nat>, s: nat): int
    requires s in list
  {
    var i := IndexOf(list, s);
    if i + 1 < |list| then list[i + 1] else -1
  }

  /** The source after the first of todo. */
  lemma NextIn(list: seq<nat>, pre: seq<nat>, todo: seq<nat>)
    requires NoDup(list) && list == pre + todo && todo != []
    ensures todo[0] in list && Next(list, todo[0]) == if |todo| > 1 then todo[1] else -1
  {
    assert list[|pre|] == todo[0];
    var i := IndexOf(list, todo[0]);
    assert list[i] == list[|pre|];
    if |todo| > 1 {
      assert list[|pre| + 1] == todo[1];
    }
  }

  /** The sources dispatched are behind the pass, or removed. */
  ghost predicate PassedBy(done: seq<nat>, pre: seq<nat>, gone: set<nat>) {
    forall x :: x in done ==> x in pre || x in gone
  }

  ghost function GoneFrom(list: seq<nat>, gone: set<nat>): set<nat> { set x | x in list && x in gone }

  /** Where a recheck pass stands that started with the sources of start: pre lies behind
      it, and todo, from current on, before it. */
  ghost predicate Walking(start: seq<nat>, skipped: set<nat>, done: seq<nat>, current: int,
                          list: seq<nat>, pre: seq<nat>, todo: seq<nat>, gone: set<nat>) {
    && skipped <= gone
    && if current < 0 then Remaining(start, skipped) <= done
       else
         && list == pre + todo && todo != [] && todo[0] == current
         && Remaining(start, skipped) <= done + todo && PassedBy(done, pre, gone)
  }

  lemma PassStarts(list: seq<nat>, current: int, gone: set<nat>)
    requires current == if list == [] then -1 else list[0]
    ensures Walking(list, {}, [], current, list, [], list, gone)
  {
    NoneGone(list, {});
    assert [] + list == list;
  }

  lemma CurrentListed(start: seq<nat>, skipped: set<nat>, done: seq<nat>, current: int,
                      list: seq<nat>, pre: seq<nat>, todo: seq<nat>, gone: set<nat>)
    requires Walking(start, skipped, done, current, list, pre, todo, gone) && current >= 0
    ensures todo != [] && current in list
  {
    assert list[|pre|] == current;
  }

  lemma PassEnds(start: seq<nat>, skipped: set<nat>, done: seq<nat>, current: int,
                 list: seq<nat>, pre: seq<nat>, todo: seq<nat>, gone: set<nat>)
    requires Walking(start, skipped, done, current, list, pre, todo, gone) && current < 0
    ensures skipped <= gone && Remaining(start, skipped) <= done
  {
  }

  /** The current source was dispatched, and the pass goes on with the one read before. */
  lemma PassStep(start: seq<nat>, skipped: set<nat>, done: seq<nat>, current: nat,
                 list: seq<nat>, pre: seq<nat>, todo: seq<nat>, gone: set<nat>,
                 following: int, list': seq<nat>, gone': set<nat>)
    returns (skipped': set<nat>, pre': seq<nat>, todo': seq<nat>)
    requires Walking(start, skipped, done, current, list, pre, todo, gone)
    requires NoDup(list) && (forall x :: x in list ==> x !in gone) && current in list
             && following == Next(list, current)
    requires gone <= gone' && GoesOn(list, list', gone') && (following !in gone ==> following !in gone')
    ensures Walking(start, skipped', done + [current], following, list', pre', todo', gone')
    ensures list' == list && following >= 0 ==> |todo'| < |todo|
  {
    hide Remaining, NoDup, GoesOn, Next, PassedBy;
    skipped', pre', todo' := skipped, pre, todo;
    NextIn(list, pre, todo);
    if following < 0 {
      assert done + todo == done + [current];
    } else if list' == list {
      SameList(done, pre, todo, gone, gone');
      assert done + todo == done + [current] + todo[1..];
      pre', todo' := pre + [current], todo[1..];
    } else {
      assert following in list;
      var more := PassOn(list, pre, todo, list', gone, gone');
      Skips(start, skipped, done, pre, todo, gone, gone', more);
      skipped' := skipped + GoneFrom(todo[1..], gone');
      pre', todo' := Remaining(pre + [current], gone'), Remaining(todo[1..], gone') + more;
    }
  }

  lemma SameList(done: seq<nat>, pre: seq<nat>, todo: seq<nat>, gone: set<nat>, gone': set<nat>)
    requires todo != [] && PassedBy(done, pre, gone) && gone <= gone'
    ensures pre + todo == pre + [todo[0]] + todo[1..] && PassedBy(done + [todo[0]], pre + [todo[0]], gone')
  {
  }

  /** After the first of todo was dispatched, what remains of the others is still there,
      in order and from the source that follows on. */
  lemma PassOn(list: seq<nat>, pre: seq<nat>, todo: seq<nat>, list': seq<nat>, gone: set<nat>, gone': set<nat>)
    returns (more: seq<nat>)
    requires list == pre + todo && |todo| > 1 && todo[1] !in gone' && GoesOn(list, list', gone')
    ensures list' == Remaining(pre + [todo[0]], gone') + (Remaining(todo[1..], gone') + more)
    ensures Remaining(todo[1..], gone') != [] && Remaining(todo[1..], gone')[0] == todo[1]
  {
    var front, rest := pre + [todo[0]], todo[1..];
    assert list == front + rest;
    RemainingAppend(front, rest, gone');
    more := list'[|Remaining(list, gone')|..];
    assert list' == Remaining(list, gone') + more;
    assert Remaining(front, gone') + Remaining(rest, gone') + more
           == Remaining(front, gone') + (Remaining(rest, gone') + more);
  }

  /** The sources that a callback removed from those still to come are skipped. */
  lemma Skips(start: seq<nat>, skipped: set<nat>, done: seq<nat>, pre: seq<nat>, todo: seq<nat>,
              gone: set<nat>, gone': set<nat>, more: seq<nat>)
    requires NoDup(pre + todo) && todo != [] && (forall x :: x in pre + todo ==> x !in gone) && gone <= gone'
    requires Remaining(start, skipped) <= done + todo && PassedBy(done, pre, gone)
    ensures Remaining(start, skipped + GoneFrom(todo[1..], gone'))
         <= done + [todo[0]] + (Remaining(todo[1..], gone') + more)
    ensures PassedBy(done + [todo[0]], Remaining(pre + [todo[0]], gone'), gone')
  {
    hide Remaining;
    var c, rest := todo[0], todo[1..];
    var x := GoneFrom(rest, gone');
    assert done + todo == done + [c] + rest;
    RemainingPrefix(Remaining(start, skipped), done + [c] + rest, x);
    RemainingAgain(start, skipped, x);
    RemainingAppend(done + [c], rest, x);
    BehindIsDone(done, pre, todo, gone);
    NoneGone(done + [c], x);
    RemainingAgree(rest, x, gone');
    assert done + [c] + (Remaining(rest, gone') + more) == done + [c] + Remaining(rest, gone') + more;
    RemainingMembers(pre + [c], gone');
  }

  lemma NotBefore(pre: seq<nat>, todo: seq<nat>, j: nat)
    requires NoDup(pre + todo) && j < |todo|
    ensures todo[j] !in pre
  {
    var list := pre + todo;
    assert list[|pre| + j] == todo[j];
    assert forall i :: 0 <= i < |pre| ==> list[i] == pre[i];
  }

  /** No source still to come has been dispatched. */
  lemma BehindIsDone(done: seq<nat>, pre: seq<nat>, todo: seq<nat>, gone: set<nat>)
    requires NoDup(pre + todo) && todo != [] && (forall x :: x in pre + todo ==> x !in gone)
             && PassedBy(done, pre, gone)
    ensures forall x :: x in done + [todo[0]] ==> x !in todo[1..]
  {
    var list := pre + todo;
    forall x | x in done + [todo[0]]
      ensures x !in todo[1..]
    {
      if x in todo[1..] {
        var j :| 1 <= j < |todo| && todo[j] == x;
        assert list[|pre| + j] == x && list[|pre|] == todo[0];
        assert x in list;
        NotBefore(pre, todo, j);
      }
    }
  }

  lemma AllocatedYet(destroy: seq<nat>, k: nat)
    requires NoDup(destroy) && k < |destroy|
    ensures destroy[k] !in Elements(destroy[..k])
    ensures Elements(destroy[..k + 1]) == Elements(destroy[..k]) + {destroy[k]}
  {
  }

  lemma FreeKeepsSound(heap: map<nat, Source>, check: seq<nat>, idle: seq<nat>, destroy: seq<nat>,
                       registered: set<nat>, next: nat, removed: set<nat>, freed: seq<nat>)
    requires Sound(heap, check, idle, destroy, registered, next, removed, freed)
    ensures NoDup(destroy) && forall s :: s in destroy ==> s in heap
    ensures forall s :: s in heap - Elements(destroy) <==> s in heap && s !in removed
    ensures Sound(heap - Elements(destroy), check, idle, [], registered, next, removed, freed + destroy)
  {
    NoDupAppend(freed, destroy);
  }

  lemma NoDupAppend(a: seq<nat>, b: seq<nat>)
    requires NoDup(a) && NoDup(b) && forall s :: s in a ==> s !in b
    ensures NoDup(a + b)
  {
    forall i, j | 0 <= i < j < |a + b|
      ensures (a + b)[i] != (a + b)[j]
    {
      if i < |a| <= j {
        assert a[i] in a && b[j - |a|] in b;
      }
    }
  }

  lemma IdleAlive(heap: map<nat, Source>, check: seq<nat>, idle: seq<nat>, destroy: seq<nat>,
                  registered: set<nat>, next: nat, removed: set<nat>, freed: seq<nat>, s: nat)
    requires Sound(heap, check, idle, destroy, registered, next, removed, freed) && s in idle
    ensures NoDup(idle) && s in heap && s !in removed
  {
  }

  lemma CheckAlive(heap: map<nat, Source>, check: seq<nat>, idle: seq<nat>, destroy: seq<nat>,
                   registered: set<nat>, next: nat, removed: set<nat>, freed: seq<nat>, s: nat)
    requires Sound(heap, check, idle, destroy, registered, next, removed, freed) && s in check
    ensures NoDup(check) && s in heap && s !in removed
  {
  }

  lemma ListAlive(heap: map<nat, Source>, check: seq<nat>, idle: seq<nat>, destroy: seq<nat>,
                  registered: set<nat>, next: nat, removed: set<nat>, freed: seq<nat>)
    requires Sound(heap, check, idle, destroy, registered, next, removed, freed)
    ensures NoDup(check) && forall s :: s in check ==> s !in removed
  {
  }

  lemma RegisteredKnown(heap: map<nat, Source>, check: seq<nat>, idle: seq<nat>, destroy: seq<nat>,
                        registered: set<nat>, next: nat, removed: set<nat>, freed: seq<nat>)
    requires Sound(heap, check, idle, destroy, registered, next, removed, freed)
    ensures forall s :: s in registered ==> s in heap && !heap[s].idle
  {
  }

  lemma DestroyedAreRemoved(heap: map<nat, Source>, check: seq<nat>, idle: seq<nat>, destroy: seq<nat>,
                            registered: set<nat>, next: nat, removed: set<nat>, freed: seq<nat>)
    requires Sound(heap, check, idle, destroy, registered, next, removed, freed)
    ensures forall s :: s in destroy ==> s in removed
  {
  }

  lemma RemovedFreed(heap: map<nat, Source>, check: seq<nat>, idle: seq<nat>, destroy: seq<nat>,
                     registered: set<nat>, next: nat, removed: set<nat>, freed: seq<nat>, sources: set<nat>)
    requires Sound(heap, check, idle, destroy, registered, next, removed, freed) && sources <= removed
    ensures forall s :: s in sources ==> s in freed + destroy
  {
  }

  lemma RemovedOrAlive(heap: map<nat, Source>, check: seq<nat>, idle: seq<nat>, destroy: seq<nat>,
                       registered: set<nat>, next: nat, removed: set<nat>, freed: seq<nat>, s: nat)
    requires Sound(heap, check, idle, destroy, registered, next, removed, freed) && s in heap
    ensures s in removed <==> s in destroy
  {
  }

  lemma UnlinkTail(list: seq<nat>, s: nat)
    requires list != [] && list[0] != s
    ensures Unlink(list, s) != [] && Unlink(list, s)[0] == list[0]
  {
  }

  lemma CancelIdle(added: seq<nat>, cancelled: set<nat>, run: seq<nat>, idle: seq<nat>, s: nat)
    requires Remaining(added, cancelled) == run + idle && s !in run
    ensures Remaining(added, cancelled + {s}) == run + Unlink(idle, s)
  {
    CancelOne(added, cancelled, s);
    UnlinkAppend(run, idle, s);
    UnlinkAbsent(run, s);
  }

  lemma RemoveKeepsBooks(added: seq<nat>, cancelled: set<nat>, run: seq<nat>, idle: seq<nat>,
                         removed: set<nat>, next: nat, s: nat, runs: bool)
    requires Booked(added, cancelled, run, idle, removed, next) && s < next && NoDup(idle)
    requires if s in removed then s !in idle else runs ==> idle != [] && idle[0] == s
    ensures Booked(added, cancelled + if !runs && s !in removed then {s} else {},
                   run + if runs && s !in removed then [s] else [], Unlink(idle, s), removed + {s}, next)
  {
    hide Remaining, NoDup, Unlink;
    if s in removed {
      UnlinkAbsent(idle, s);
      assert run + [] == run && cancelled + {} == cancelled;
    } else if runs {
      FinishIdle(run, idle, s);
      assert cancelled + {} == cancelled;
    } else {
      CancelIdle(added, cancelled, run, idle, s);
      assert run + [] == run;
    }
  }

  lemma FinishIdle(run: seq<nat>, idle: seq<nat>, s: nat)
    requires NoDup(idle) && idle != [] && idle[0] == s
    ensures run + idle == run + [s] + Unlink(idle, s)
  {
    UnlinkHead(idle);
    assert idle == [s] + idle[1..];
  }

  lemma IdleKeepsSound(heap: map<nat, Source>, check: seq<nat>, idle: seq<nat>, destroy: seq<nat>,
                       registered: set<nat>, next: nat, removed: set<nat>, freed: seq<nat>)
    requires Sound(heap, check, idle, destroy, registered, next, removed, freed)
    ensures next !in heap && next !in removed
    ensures Sound(heap[next := Source(-1, true)], check, idle + [next], destroy, registered, next + 1, removed, freed)
  {
  }

  lemma SourceFacts(heap: map<nat, Source>, check: seq<nat>, idle: seq<nat>, destroy: seq<nat>,
                    registered: set<nat>, next: nat, removed: set<nat>, freed: seq<nat>, s: nat)
    requires Sound(heap, check, idle, destroy, registered, next, removed, freed) && s in heap
    ensures s < next && heap[s].fd >= -1 && (heap[s].fd < 0 ==> s !in registered)
    ensures NoDup(idle) && (s in check ==> s !in removed && !heap[s].idle) && (s in removed ==> s !in idle)
    ensures s !in removed ==> (heap[s].idle <==> s in idle) && (heap[s].fd >= 0 <==> !heap[s].idle)
    ensures heap[s].fd >= 0 ==> s !in removed
    ensures heap[s].fd == -1 ==> s in removed || heap[s].idle
  {
  }

  lemma RemoveKeepsSound(heap: map<nat, Source>, check: seq<nat>, idle: seq<nat>, destroy: seq<nat>,
                         registered: set<nat>, next: nat, removed: set<nat>, freed: seq<nat>, s: nat)
    requires Sound(heap, check, idle, destroy, registered, next, removed, freed) && s in heap
    ensures Sound(heap[s := heap[s].(fd := -1)], Unlink(check, s), Unlink(idle, s), [s] + Unlink(destroy, s),
                  registered - {s}, next, removed + {s}, freed)
  {
    hide Unlink;
    UnlinkMembers(check, s);
    UnlinkMembers(idle, s);
    UnlinkMembers(destroy, s);
    UnlinkNoDup(check, s);
    UnlinkNoDup(idle, s);
    UnlinkNoDup(destroy, s);
    ConsNoDup(s, Unlink(destroy, s));
  }

  lemma ConsNoDup(s: nat, list: seq<nat>)
    requires NoDup(list) && s !in list
    ensures NoDup([s] + list)
  {
  }
}
