/** The reference that a sparkle_resource holds for its Wayland listener, under any
    nesting of collapses and resource destructions (sparkle_common/sparkle_resource.cpp). */
module Resource {

  /** An entry of the object's own `destroyed` list: the resource's handler, one of the
      two breakers of that self-connection, or anybody else's connection. */
  datatype Entry = Handler | SelfBreaker | Foreign

  /** An emission of `destroyed` under way: the rest of its snapshot, and whether a
      foreign entry of it is running. */
  datatype Frame = Frame(rest: seq<Entry>, inForeign: bool)

  /** hasResource is resource_ != nullptr; listening says that the listener is on the
      resource's list; released counts the decrements of the listener's reference; the
      innermost emission is the last frame; crashed says that NULL was dereferenced. */
  datatype State = State(list: seq<Entry>, integrated: bool, hasResource: bool, listening: bool,
                         released: nat, frames: seq<Frame>, crashed: bool)

  /** After integration, with before connected ahead of the handler. */
  function Start(before: seq<Entry>): State {
    State(before + [Handler, SelfBreaker, SelfBreaker], true, true, true, 0, [], false)
  }

  function Top(s: State): Frame
    requires s.frames != []
  {
    s.frames[|s.frames| - 1]
  }

  function WithTop(s: State, f: Frame): State
    requires s.frames != []
  {
    s.(frames := s.frames[|s.frames| - 1 := f])
  }

  /** Foreign code is in control: outside all emissions, or within a foreign entry. */
  predicate ForeignTurn(s: State) { s.frames == [] || Top(s).inForeign }

  // ---------- the resource's own code

  /** collapse: starts an emission over a snapshot, unless already disintegrated. */
  function Collapse(s: State): State {
    if s.integrated then s.(frames := s.frames + [Frame(s.list, false)]) else s
  }

  /** destroy_, which only a listener that is on the list gets. */
  function NotifyDestroy(s: State): State {
    Collapse(s.(hasResource := false, listening := false, released := s.released + 1))
  }

  /** The handler of the self-connection: wl_list_remove, which dereferences the links of
      the listener and leaves them NULL (WlList.Removes), and then the decrement. */
  function RunHandler(s: State): State {
    if !s.hasResource then s
    else if !s.listening then s.(crashed := true)
    else s.(listening := false, released := s.released + 1)
  }

  /** A breaker of the self-connection removes its three entries. */
  function RunSelfBreaker(s: State): State { s.(list := Others(s.list)) }

  function Others(list: seq<Entry>): seq<Entry> {
    if list == [] then [] else (if list[0] == Foreign then [Foreign] else []) + Others(list[1..])
  }

  // ---------- steps

  /** The next entry of the innermost emission is called. */
  ghost predicate CallEntry(s: State, t: State) {
    && s.frames != [] && !Top(s).inForeign && Top(s).rest != []
    && var e, rest := Top(s).rest[0], Top(s).rest[1..];
       match e
       case Handler => t == RunHandler(WithTop(s, Frame(rest, false)))
       case SelfBreaker => t == RunSelfBreaker(WithTop(s, Frame(rest, false)))
       case Foreign => t == WithTop(s, Frame(rest, true))
  }

  /** The innermost emission ends. */
  ghost predicate EndEmission(s: State, t: State) {
    s.frames != [] && Top(s) == Frame([], false) && t == s.(frames := s.frames[..|s.frames| - 1], integrated := false)
  }

  /** A foreign entry returns, or foreign code acts. */
  ghost predicate ForeignReturns(s: State, t: State) {
    s.frames != [] && Top(s).inForeign && t == WithTop(s, Frame(Top(s).rest, false))
  }

  ghost predicate ForeignCollapses(s: State, t: State) { ForeignTurn(s) && t == Collapse(s) }

  ghost predicate ResourceDestroyed(s: State, t: State) {
    ForeignTurn(s) && t == if s.listening then NotifyDestroy(s) else s
  }

  ghost predicate ForeignConnects(s: State, t: State) {
    ForeignTurn(s) && t == s.(list := s.list + [Foreign])
  }

  ghost predicate ForeignBreaks(s: State, t: State) {
    ForeignTurn(s) &&
    exists i :: 0 <= i < |s.list| && s.list[i] == Foreign && t == s.(list := s.list[..i] + s.list[i + 1..])
  }

  /** Nothing follows a crash. */
  ghost predicate Step(s: State, t: State) {
    && !s.crashed
    && (|| CallEntry(s, t) || EndEmission(s, t) || ForeignReturns(s, t)
        || ForeignCollapses(s, t) || ResourceDestroyed(s, t) || ForeignConnects(s, t) || ForeignBreaks(s, t))
  }

  ghost predicate Run(run: seq<State>) {
    run != [] && forall i :: 0 <= i < |run| - 1 ==> Step(run[i], run[i + 1])
  }

  // ---------- the invariant

  /** A list that still has the handler starts with it. */
  predicate HandlerFirst(list: seq<Entry>) {
    Handler in list ==> list[0] == Handler && Handler !in list[1..] && |list| > 1 && list[1] == SelfBreaker
  }

  /** The self-connection is about to be broken. */
  predicate Breaking(s: State) {
    s.frames != [] && !Top(s).inForeign && Top(s).rest != [] && Top(s).rest[0] == SelfBreaker
  }

  ghost predicate FrameOk(s: State, i: nat)
    requires i < |s.frames|
  {
    var f := s.frames[i];
    && HandlerFirst(f.rest)
    && (Handler in f.rest ==> i == |s.frames| - 1 && !f.inForeign)
    && (Handler !in f.rest ==> !s.listening)
  }

  ghost predicate Inv(s: State) {
    && !s.crashed
    && s.released == (if s.listening then 0 else 1)
    && (s.listening ==> s.hasResource)
    && HandlerFirst(s.list)
    && (Handler in s.list && s.hasResource && !s.listening ==> Breaking(s))
    && (Handler !in s.list ==> !s.listening)
    && (forall i :: 0 <= i < |s.frames| ==> FrameOk(s, i))
    && (s.frames != [] && Handler in Top(s).rest && s.hasResource ==> s.listening)
    && (!s.integrated ==> !s.listening)
  }

  lemma {:induction false} OthersAreForeign(list: seq<Entry>)
    ensures Handler !in Others(list)
  {
    if list != [] { OthersAreForeign(list[1..]); }
  }

  lemma CallKeepsInv(s: State, t: State)
    requires Inv(s) && CallEntry(s, t)
    ensures Inv(t)
  {
    OthersAreForeign(s.list);
    var n := |s.frames| - 1;
    assert FrameOk(s, n);
    forall i | 0 <= i < |t.frames|
      ensures FrameOk(t, i)
    {
      assert FrameOk(s, i);
      if i < n {
        assert t.frames[i] == s.frames[i];
      }
    }
  }

  lemma CollapseKeepsInv(s: State)
    requires Inv(s) && ForeignTurn(s)
    ensures Inv(Collapse(s))
  {
    var t := Collapse(s);
    forall i | 0 <= i < |t.frames|
      ensures FrameOk(t, i)
    {
      if i < |s.frames| {
        assert FrameOk(s, i);
      }
    }
  }

  lemma DestroyKeepsInv(s: State)
    requires Inv(s) && ForeignTurn(s) && s.listening
    ensures Inv(NotifyDestroy(s))
  {
    var t := s.(hasResource := false, listening := false, released := s.released + 1);
    forall i | 0 <= i < |t.frames|
      ensures FrameOk(t, i)
    {
      assert FrameOk(s, i);
    }
    CollapseKeepsInv(t);
  }

  lemma EndKeepsInv(s: State, t: State)
    requires Inv(s) && (EndEmission(s, t) || ForeignReturns(s, t))
    ensures Inv(t)
  {
    assert FrameOk(s, |s.frames| - 1);
    forall i | 0 <= i < |t.frames|
      ensures FrameOk(t, i)
    {
      assert FrameOk(s, i);
    }
    if EndEmission(s, t) && t.frames != [] {
      assert FrameOk(s, |t.frames| - 1);
      assert Handler !in Top(t).rest;
    }
  }

  lemma ListKeepsInv(s: State, t: State)
    requires Inv(s) && (ForeignConnects(s, t) || ForeignBreaks(s, t))
    ensures Inv(t)
  {
    forall i | 0 <= i < |t.frames|
      ensures FrameOk(t, i)
    {
      assert FrameOk(s, i);
    }
    if ForeignBreaks(s, t) {
      var i :| 0 <= i < |s.list| && s.list[i] == Foreign && t == s.(list := s.list[..i] + s.list[i + 1..]);
      RemoveForeign(s.list, i);
    } else {
      AppendForeign(s.list);
    }
  }

  lemma RemoveForeign(list: seq<Entry>, i: nat)
    requires HandlerFirst(list) && i < |list| && list[i] == Foreign
    ensures var l := list[..i] + list[i + 1..]; HandlerFirst(l) && (Handler in l <==> Handler in list)
  {
  }

  lemma AppendForeign(list: seq<Entry>)
    requires HandlerFirst(list)
    ensures var l := list + [Foreign]; HandlerFirst(l) && (Handler in l <==> Handler in list)
  {
  }

  lemma StepKeepsInv(s: State, t: State)
    requires Inv(s) && Step(s, t)
    ensures Inv(t)
  {
    hide Inv;
    if CallEntry(s, t) {
      CallKeepsInv(s, t);
    } else if EndEmission(s, t) || ForeignReturns(s, t) {
      EndKeepsInv(s, t);
    } else if ForeignCollapses(s, t) {
      CollapseKeepsInv(s);
    } else if ResourceDestroyed(s, t) {
      if s.listening {
        DestroyKeepsInv(s);
      }
    } else {
      ListKeepsInv(s, t);
    }
  }

  /** With the handler connected first, no run crashes or releases the reference twice, the
      listener is dropped together with it, and once a collapse is complete or the resource
      is gone it has been released. */
  lemma {:induction false} ReleasedOnce(run: seq<State>, i: nat)
    requires Run(run) && run[0] == Start([]) && i < |run|
    ensures Inv(run[i]) && !run[i].crashed
    ensures run[i].released <= 1 && (run[i].released == 1 <==> !run[i].listening)
    ensures !run[i].integrated || !run[i].hasResource ==> run[i].released == 1
  {
    if i == 0 {
      assert [] + [Handler, SelfBreaker, SelfBreaker] == [Handler, SelfBreaker, SelfBreaker];
    } else {
      ReleasedOnce(run, i - 1);
      assert Step(run[i - 1], run[i - 1 + 1]);
      StepKeepsInv(run[i - 1], run[i]);
    }
  }

  // ---------- when the handler is not first

  ghost predicate Counted(s: State) {
    s.released == (if s.listening then 0 else 1) && (s.listening ==> s.hasResource)
  }

  /** Wherever the handler stands, the reference is never released twice: what would
      release it again crashes before. */
  lemma {:induction false} NeverTwice(before: seq<Entry>, run: seq<State>, i: nat)
    requires Run(run) && run[0] == Start(before) && i < |run|
    ensures run[i].released == (if run[i].listening then 0 else 1) && (run[i].listening ==> run[i].hasResource)
  {
    if i > 0 {
      NeverTwice(before, run, i - 1);
      assert Step(run[i - 1], run[i - 1 + 1]);
      StepCounts(run[i - 1], run[i]);
    }
  }

  lemma StepCounts(s: State, t: State)
    requires Counted(s) && Step(s, t)
    ensures Counted(t)
  {
  }

  function Last(run: seq<State>): State
    requires run != []
  {
    run[|run| - 1]
  }

  lemma Extend(run: seq<State>, t: State)
    requires Run(run) && Step(Last(run), t)
    ensures Run(run + [t]) && (run + [t])[0] == run[0] && Last(run + [t]) == t
  {
  }

  /** The innermost emission runs through its leading foreign entries. */
  lemma {:induction false} RunForeign(run: seq<State>, foreign: nat, rest: seq<Entry>) returns (longer: seq<State>)
    requires Run(run) && Last(run).frames != [] && !Top(Last(run)).inForeign && !Last(run).crashed
    requires Top(Last(run)).rest == seq(foreign, _ => Foreign) + rest
    ensures Run(longer) && longer[0] == run[0] && Last(longer) == WithTop(Last(run), Frame(rest, false))
    decreases foreign
  {
    RunIsNotEmpty(run);
    hide Run, Step;
    var s := Last(run);
    if foreign == 0 {
      assert Top(s).rest == rest;
      longer := run;
      assert Top(s) == Frame(rest, false);
    } else {
      var left := seq(foreign - 1, _ => Foreign) + rest;
      assert Top(s).rest == [Foreign] + left;
      var t := WithTop(s, Frame(left, true));
      var u := WithTop(s, Frame(left, false));
      CallForeign(s, left);
      Extend(run, t);
      Extend(run + [t], u);
      longer := RunForeign(run + [t] + [u], foreign - 1, rest);
    }
  }

  lemma CallForeign(s: State, left: seq<Entry>)
    requires s.frames != [] && Top(s) == Frame([Foreign] + left, false) && !s.crashed
    ensures var t := WithTop(s, Frame(left, true)); Step(s, t) && Step(t, WithTop(s, Frame(left, false)))
  {
  }

  lemma RunIsNotEmpty(run: seq<State>)
    requires Run(run)
    ensures run != []
  {
  }

  const OWN: seq<Entry> := [Handler, SelfBreaker, SelfBreaker]

  /** A foreign entry ahead of the handler that collapses the object again makes the handler
      unlink the listener twice: the outer emission still calls the handler that the inner
      one has disconnected, and the links are NULL by then. */
  lemma UnlinkedTwice(ahead: nat) returns (run: seq<State>)
    requires ahead > 0
    ensures Run(run) && run[0] == Start(seq(ahead, _ => Foreign)) && Last(run).crashed
  {
    var before := seq(ahead, _ => Foreign);
    var all, left := before + OWN, seq(ahead - 1, _ => Foreign) + OWN;
    assert all[1..] == left;
    var s0 := Start(before);
    run := [s0];
    var s1 := Collapse(s0);
    assert ForeignCollapses(s0, s1);
    Extend(run, s1);
    var s2 := WithTop(s1, Frame(left, true));
    assert CallEntry(s1, s2);
    Extend(run + [s1], s2);
    var s3 := Collapse(s2);
    assert ForeignCollapses(s2, s3);
    Extend(run + [s1] + [s2], s3);
    run := RunForeign(run + [s1] + [s2] + [s3], ahead, OWN);
    run := RunOwn(run, Frame(left, true));
    run := RunForeign(run, ahead - 1, OWN);
    var last := Last(run);
    var t := RunHandler(WithTop(last, Frame(OWN[1..], false)));
    assert CallEntry(last, t);
    Extend(run, t);
    run := run + [t];
  }

  /** The inner emission calls the handler and its breakers, and ends. */
  lemma RunOwn(run: seq<State>, outer: Frame) returns (longer: seq<State>)
    requires Run(run) && Last(run).frames == [outer, Frame(OWN, false)] && outer.inForeign
    requires Last(run).hasResource && Last(run).listening && !Last(run).crashed
    ensures Run(longer) && longer[0] == run[0]
    ensures Last(longer).frames == [Frame(outer.rest, false)] && Last(longer).hasResource
    ensures !Last(longer).listening && !Last(longer).crashed
  {
    RunIsNotEmpty(run);
    hide Run;
    var s := Last(run);
    var s1 := RunHandler(WithTop(s, Frame([SelfBreaker, SelfBreaker], false)));
    assert OWN[1..] == [SelfBreaker, SelfBreaker] && CallEntry(s, s1);
    Extend(run, s1);
    var s2 := RunSelfBreaker(WithTop(s1, Frame([SelfBreaker], false)));
    assert [SelfBreaker, SelfBreaker][1..] == [SelfBreaker] && CallEntry(s1, s2);
    Extend(run + [s1], s2);
    var s3 := RunSelfBreaker(WithTop(s2, Frame([], false)));
    assert [SelfBreaker][1..] == [] && CallEntry(s2, s3);
    Extend(run + [s1] + [s2], s3);
    var s4 := s3.(frames := [outer], integrated := false);
    assert s3.frames[..1] == [outer] && EndEmission(s3, s4);
    Extend(run + [s1] + [s2] + [s3], s4);
    var s5 := WithTop(s4, Frame(outer.rest, false));
    assert ForeignReturns(s4, s5);
    Extend(run + [s1] + [s2] + [s3] + [s4], s5);
    longer := run + [s1] + [s2] + [s3] + [s4] + [s5];
  }

  /** No run unlinks an unlinked listener exactly when nothing is connected to `destroyed`
      ahead of the handler. */
  lemma OnlyFirstIsSafe(ahead: nat)
    ensures ahead == 0 <==>
            forall run :: Run(run) && run[0] == Start(seq(ahead, _ => Foreign)) ==> !Last(run).crashed
  {
    if ahead == 0 {
      assert seq(ahead, _ => Foreign) == [];
      forall run | Run(run) && run[0] == Start(seq(ahead, _ => Foreign))
        ensures !Last(run).crashed
      {
        ReleasedOnce(run, |run| - 1);
      }
    } else {
      var run := UnlinkedTwice(ahead);
      assert Last(run).crashed;
    }
  }
}
