/** wl_list: rings through list heads (foreign/wayland/src/wayland-util.c), and what
    marking and removing event sources does to the lists of an event loop
    (foreign/wayland/src/event-loop.c). */
module WlList {

  import opened Lists
  import opened Rings

  /** The links that are set; NULL and what was never set are left out. */
  datatype Links = Links(next: map<nat, nat>, prev: map<nat, nat>)

  /** The four stores of wl_list_insert, which puts x after at. */
  function Insert(l: Links, at: nat, x: nat): Links
    requires at in l.next
  {
    var l1 := l.(prev := l.prev[x := at]);
    var l2 := l1.(next := l1.next[x := l1.next[at]]);
    var l3 := l2.(next := l2.next[at := x]);
    l3.(prev := l3.prev[l3.next[x] := x])
  }

  /** wl_list_remove dereferences both links of x. */
  predicate Linked(l: Links, x: nat) { x in l.next && x in l.prev }

  /** The two stores of wl_list_remove that concern the neighbours. */
  function Join(l: Links, x: nat): Links
    requires Linked(l, x)
  {
    var l1 := l.(next := l.next[l.prev[x] := l.next[x]]);
    l1.(prev := l1.prev[l.next[x] := l.prev[x]])
  }

  /** wl_list_remove, which leaves x without links. */
  function Remove(l: Links, x: nat): Links
    requires Linked(l, x)
  {
    var l1 := Join(l, x);
    Links(l1.next - {x}, l1.prev - {x})
  }

  ghost predicate IsList(l: Links, h: nat, list: seq<nat>) {
    NoDup([h] + list) && Loop(l.next, l.prev, [h] + list)
  }

  /** What lies before the head: the last element. */
  lemma LastOf(l: Links, h: nat, list: seq<nat>)
    requires IsList(l, h, list)
    ensures h in l.prev && l.prev[h] == ([h] + list)[|list|] && l.prev[h] in l.next
  {
    var ring := [h] + list;
    assert LoopAt(l.next, l.prev, ring, 0) && LoopAt(l.next, l.prev, ring, |list|);
  }

  /** Inserting before the head appends a new element. */
  lemma Appends(l: Links, h: nat, list: seq<nat>, x: nat)
    requires IsList(l, h, list) && x !in [h] + list
    ensures h in l.prev && l.prev[h] in l.next && IsList(Insert(l, l.prev[h], x), h, list + [x])
  {
    LastOf(l, h, list);
    var ring, longer, l', n := [h] + list, [h] + (list + [x]), Insert(l, l.prev[h], x), |list| + 1;
    assert longer == ring + [x];
    forall k | 0 <= k < |longer|
      ensures LoopAt(l'.next, l'.prev, longer, k)
    {
      assert LoopAt(l.next, l.prev, ring, n - 1) && LoopAt(l.next, l.prev, ring, 0);
      if k < n {
        assert LoopAt(l.next, l.prev, ring, k) && ring[k] == longer[k] && ring[k] in ring;
      }
    }
  }

  function Without(list: seq<nat>, i: nat): seq<nat>
    requires i < |list|
  {
    list[..i] + list[i + 1..]
  }

  /** Removing takes exactly the element out, and leaves it without links. */
  lemma Removes(l: Links, h: nat, list: seq<nat>, i: nat)
    requires IsList(l, h, list) && i < |list|
    ensures Linked(l, list[i])
    ensures IsList(Remove(l, list[i]), h, Without(list, i)) && !Linked(Remove(l, list[i]), list[i])
  {
    hide NoDup, Loop, Join;
    Joins(l, h, list, i);
    WithoutNoDup(h, list, i);
    var l1, l2 := Join(l, list[i]), Remove(l, list[i]);
    LoopKept(l1.next, l1.prev, l2.next, l2.prev, [h] + Without(list, i));
  }

  lemma Joins(l: Links, h: nat, list: seq<nat>, i: nat)
    requires IsList(l, h, list) && i < |list|
    ensures Linked(l, list[i]) && Loop(Join(l, list[i]).next, Join(l, list[i]).prev, [h] + Without(list, i))
  {
    var ring := [h] + list;
    if |list| == 1 {
      assert LoopAt(l.next, l.prev, ring, 0) && LoopAt(l.next, l.prev, ring, 1);
      assert [h] + Without(list, 0) == [h];
    } else {
      hide Loop, NoDup;
      LoopShrunk(l.next, l.prev, ring, i + 1);
      assert [h] + Without(list, i) == ring[..i + 1] + ring[i + 2..];
    }
  }

  lemma WithoutNoDup(h: nat, list: seq<nat>, i: nat)
    requires NoDup([h] + list) && i < |list|
    ensures NoDup([h] + Without(list, i)) && list[i] !in [h] + Without(list, i)
    ensures forall x :: x in [h] + list ==> x == list[i] || x in [h] + Without(list, i)
  {
    var ring, shorter := [h] + list, [h] + Without(list, i);
    assert ring[i + 1] == list[i];
    assert forall k :: 0 <= k < |shorter| ==> shorter[k] == ring[if k <= i then k else k + 1];
    forall k | 0 <= k < |ring| && k != i + 1
      ensures ring[k] in shorter
    {
      assert ring[k] == shorter[if k <= i then k else k - 1];
    }
  }

  /** wl_list_insert behind the head puts a new element first. */
  lemma Prepends(l: Links, h: nat, list: seq<nat>, x: nat)
    requires IsList(l, h, list) && x !in [h] + list
    ensures h in l.next && IsList(Insert(l, h, x), h, [x] + list)
  {
    assert LoopAt(l.next, l.prev, [h] + list, 0) && ([h] + list)[0] == h;
    var f, l' := if list == [] then h else list[0], Insert(l, h, x);
    assert list != [] ==> ([h] + list)[1] == f;
    assert f != x && h != x;
    LoopGrown(l.next, l.prev, h, list, x);
    assert l'.next == l.next[h := x][x := f] && l'.prev == l.prev[f := x][x := h];
    assert [h, x] + list == [h] + ([x] + list);
    ConsNoDup(h, list, x);
  }

  lemma ConsNoDup(h: nat, list: seq<nat>, x: nat)
    requires NoDup([h] + list) && x !in [h] + list
    ensures NoDup([h] + ([x] + list))
  {
    var ring, longer := [h] + list, [h] + ([x] + list);
    forall i, j | 0 <= i < j < |longer|
      ensures longer[i] != longer[j]
    {
      if i == 1 {
        assert longer[j] == ring[j - 1];
      } else if j == 1 {
        assert longer[i] == ring[i];
      } else {
        assert longer[i] == ring[if i == 0 then 0 else i - 1] && longer[j] == ring[j - 1];
      }
    }
  }

  // ---------- wl_event_source_remove

  /** Moves x from its list to the front of the list of d. */
  function Move(l: Links, d: nat, x: nat): Links
    requires Linked(l, x) && d in Remove(l, x).next
  {
    Insert(Remove(l, x), d, x)
  }

  ghost predicate Apart(a: seq<nat>, b: seq<nat>) { forall x :: x in a ==> x !in b }

  /** Two lists. */
  ghost predicate Lists2(l: Links, h: nat, list: seq<nat>, d: nat, destroy: seq<nat>) {
    IsList(l, h, list) && IsList(l, d, destroy) && Apart([h] + list, [d] + destroy)
  }

  /** A removed source leaves its list and heads the destroy list. */
  lemma Moves(l: Links, h: nat, list: seq<nat>, d: nat, destroy: seq<nat>, i: nat)
    requires Lists2(l, h, list, d, destroy) && i < |list|
    ensures Linked(l, list[i]) && d in Remove(l, list[i]).next
    ensures Lists2(Move(l, d, list[i]), h, Without(list, i), d, [list[i]] + destroy)
  {
    hide NoDup, Loop, Join, Insert;
    var x := list[i];
    Removes(l, h, list, i);
    var l1 := Remove(l, x);
    WithoutNoDup(h, list, i);
    assert x in [h] + list;
    RemoveKeeps(l, h, list, i, d, destroy);
    Prepends(l1, d, destroy, x);
    InsertKeeps(l1, d, destroy, x, h, Without(list, i));
  }

  lemma RemoveKeeps(l: Links, h: nat, list: seq<nat>, i: nat, d: nat, destroy: seq<nat>)
    requires Lists2(l, h, list, d, destroy) && i < |list|
    ensures Linked(l, list[i]) && IsList(Remove(l, list[i]), d, destroy)
  {
    var ring, x := [h] + list, list[i];
    assert LoopAt(l.next, l.prev, ring, i + 1) && ring[i + 1] == x;
    assert l.next[x] in ring && l.prev[x] in ring && x in ring;
    var l' := Remove(l, x);
    LoopKept(l.next, l.prev, l'.next, l'.prev, [d] + destroy);
  }

  lemma InsertKeeps(l: Links, d: nat, destroy: seq<nat>, x: nat, h: nat, list: seq<nat>)
    requires IsList(l, d, destroy) && IsList(l, h, list) && Apart([h] + list, [d] + destroy) && x !in [h] + list
    ensures d in l.next && IsList(Insert(l, d, x), h, list)
  {
    assert LoopAt(l.next, l.prev, [d] + destroy, 0) && ([d] + destroy)[0] == d;
    var l' := Insert(l, d, x);
    assert l.next[d] in [d] + destroy && d in [d] + destroy;
    LoopKept(l.next, l.prev, l'.next, l'.prev, [h] + list);
  }

  /** A source that is removed again before it was freed leaves its place in the destroy
      list and heads it: removal takes it out before it puts it in. */
  lemma MovesAgain(l: Links, d: nat, destroy: seq<nat>, i: nat)
    requires IsList(l, d, destroy) && i < |destroy|
    ensures Linked(l, destroy[i]) && d in Remove(l, destroy[i]).next
    ensures IsList(Move(l, d, destroy[i]), d, [destroy[i]] + Without(destroy, i))
  {
    hide NoDup, Loop, Join, Insert;
    Removes(l, d, destroy, i);
    WithoutNoDup(d, destroy, i);
    Prepends(Remove(l, destroy[i]), d, Without(destroy, i), destroy[i]);
  }

  // ---------- walks

  /** The element k steps on from x. */
  function Follow(next: map<nat, nat>, x: nat, k: nat): nat
    decreases k
  {
    if k == 0 then x else if x in next then Follow(next, next[x], k - 1) else x
  }

  /** A walk along a list comes to its head. */
  lemma {:induction false} WalkEnds(l: Links, h: nat, list: seq<nat>, i: nat)
    requires IsList(l, h, list) && i < |list|
    ensures Follow(l.next, list[i], |list| - i) == h
    decreases |list| - i
  {
    var ring := [h] + list;
    assert LoopAt(l.next, l.prev, ring, i + 1) && ring[i + 1] == list[i];
    if i + 1 < |list| {
      assert ring[i + 2] == list[i + 1];
      WalkEnds(l, h, list, i + 1);
    } else {
      assert Follow(l.next, h, 0) == h;
    }
  }

  /** A walk along a list stays on its ring. */
  lemma {:induction false} WalkStays(l: Links, d: nat, list: seq<nat>, x: nat, k: nat)
    requires Loop(l.next, l.prev, [d] + list) && x in [d] + list
    ensures Follow(l.next, x, k) in [d] + list
    decreases k
  {
    if k > 0 {
      var ring := [d] + list;
      var j :| 0 <= j < |ring| && ring[j] == x;
      assert LoopAt(l.next, l.prev, ring, j);
      WalkStays(l, d, list, l.next[x], k - 1);
    }
  }

  ghost predicate Reaches(next: map<nat, nat>, x: nat, h: nat) { exists k: nat :: Follow(next, x, k) == h }

  /** wl_list_for_each_safe reads the source after the current one before its body runs.
      When the body removes a source of the list, the walk goes on to the head of the list
      exactly if that was not the source already read. */
  lemma PassEndsExactly(l: Links, h: nat, list: seq<nat>, d: nat, destroy: seq<nat>, i: nat, following: nat)
    requires Lists2(l, h, list, d, destroy) && i < |list| && following in list
    ensures Linked(l, list[i]) && d in Remove(l, list[i]).next
    ensures Reaches(Move(l, d, list[i]).next, following, h) <==> following != list[i]
  {
    hide NoDup, Loop, Join, Insert, Remove;
    Moves(l, h, list, d, destroy, i);
    var l', x := Move(l, d, list[i]), list[i];
    if following != x {
      WithoutNoDup(h, list, i);
      NotHead(h, list, following);
      var rest := Without(list, i);
      assert following in [h] + list;
      var j :| 0 <= j < |rest| && rest[j] == following;
      WalkEnds(l', h, rest, j);
    } else {
      forall k: nat
        ensures Follow(l'.next, x, k) != h
      {
        WalkStays(l', d, [x] + destroy, x, k);
        assert h in [h] + Without(list, i);
      }
    }
  }

  lemma NotHead(h: nat, list: seq<nat>, x: nat)
    requires NoDup([h] + list) && x in list
    ensures x != h
  {
    var i :| 0 <= i < |list| && list[i] == x;
    assert ([h] + list)[0] == h && ([h] + list)[i + 1] == x;
  }

  /** Inserting an element again.  The last one becomes its own successor, so that a walk
      from it never comes back to the head; from any other one a walk goes straight to the
      head, past the elements behind it. */
  lemma InsertedAgain(l: Links, h: nat, list: seq<nat>, i: nat)
    requires IsList(l, h, list) && i < |list|
    ensures h in l.prev && l.prev[h] in l.next
    ensures var l', x := Insert(l, l.prev[h], list[i]), list[i];
            x in l'.next && l'.next[x] == if i == |list| - 1 then x else h
    ensures i == |list| - 1 ==> !Reaches(Insert(l, l.prev[h], list[i]).next, list[i], h)
    ensures i < |list| - 1 ==>
              forall k :: 0 <= k < i ==>
                list[k] in l.next && Insert(l, l.prev[h], list[i]).next[list[k]] == list[k + 1]
  {
    LastOf(l, h, list);
    var ring, n := [h] + list, |list|;
    var l', x := Insert(l, l.prev[h], list[i]), list[i];
    assert LoopAt(l.next, l.prev, ring, n) && LoopAt(l.next, l.prev, ring, i + 1) && LoopAt(l.next, l.prev, ring, 0);
    assert ring[i + 1] == x && ring[n] == list[n - 1] && ring[0] == h;
    if i == n - 1 {
      forall k: nat
        ensures Follow(l'.next, x, k) != h
      {
        Stuck(l'.next, x, k);
      }
    } else {
      forall k | 0 <= k < i
        ensures list[k] in l.next && l'.next[list[k]] == list[k + 1]
      {
        assert LoopAt(l.next, l.prev, ring, k + 1) && ring[k + 1] == list[k] && ring[k + 2] == list[k + 1];
      }
    }
  }

  lemma {:induction false} Stuck(next: map<nat, nat>, x: nat, k: nat)
    requires x in next && next[x] == x
    ensures Follow(next, x, k) == x
    decreases k
  {
    if k > 0 { Stuck(next, x, k - 1); }
  }
}
