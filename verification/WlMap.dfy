/** The object id map: two arrays of tagged words, with the free slots of the own side
    chained through the array itself (foreign/wayland/src/wayland-util.c). */
module WlMap {

  import opened Words
  import opened Lists

  const SERVER_ID_START: nat := 0xff00_0000

  datatype Side = ServerSide | ClientSide

  /** What a live id stands for. */
  datatype Entry = Entry(data: nat, flag: nat)

  // ---------- the words of an array

  /** map_entry_is_free, map_entry_get_data and map_entry_get_flags. */
  predicate IsFree(w: nat) { w % 2 == 1 }

  function DataOf(w: nat): nat { w - w % 4 }

  function FlagOf(w: nat): nat { w / 2 % 2 }

  /** Setting bit 1 of a word when flags has bit 0 set. */
  function WithFlags(w: nat, flags: nat): nat {
    if flags % 2 == 1 && FlagOf(w) == 0 then w + 2 else w
  }

  function EntryOf(w: nat): Entry { Entry(DataOf(w), FlagOf(w)) }

  /** A pointer keeps its two low bits clear, so data and flag can be told apart. */
  lemma WordRoundTrip(data: nat, flags: nat)
    requires data % 4 == 0
    ensures var w := WithFlags(data, flags); !IsFree(w) && EntryOf(w) == Entry(data, flags % 2)
  {
    var q := data / 4;
    assert data == 4 * q;
    WordBits(q, 0);
    WordBits(q, 1);
  }

  lemma WordBits(q: nat, flag: nat)
    requires flag < 2
    ensures var w := 4 * q + 2 * flag; w % 4 == 2 * flag && w % 2 == 0 && FlagOf(w) == flag
  {
    var w := 4 * q + 2 * flag;
    assert w / 2 == 2 * q + flag;
  }

  // ---------- the free list

  /** The words of a, followed from word w, lead through exactly the slots of free. */
  ghost predicate Chain(a: seq<nat>, w: nat, free: seq<nat>)
    decreases |free|
  {
    if free == [] then w == 0
    else w == 2 * free[0] + 1 && free[0] < |a| && Chain(a, a[free[0]], free[1..])
  }

  /** The slots outside free hold untagged words. */
  ghost predicate LiveTags(a: seq<nat>, free: seq<nat>) {
    forall i :: 0 <= i < |a| && i !in free ==> !IsFree(a[i])
  }

  lemma {:induction false} ChainFrame(a: seq<nat>, b: seq<nat>, w: nat, free: seq<nat>)
    requires Chain(a, w, free) && |a| <= |b|
    requires forall i :: 0 <= i < |a| && i in free ==> a[i] == b[i]
    ensures Chain(b, w, free)
    decreases |free|
  {
    if free != [] {
      assert free[0] in free;
      ChainFrame(a, b, a[free[0]], free[1..]);
    }
  }

  lemma {:induction false} ChainBounds(a: seq<nat>, w: nat, free: seq<nat>, k: nat)
    requires Chain(a, w, free) && k < |free|
    ensures free[k] < |a| && Chain(a, a[free[k]], free[k + 1..])
    decreases k
  {
    if k > 0 {
      ChainBounds(a, a[free[0]], free[1..], k - 1);
      assert free[1..][k..] == free[k + 1..];
    } else {
      assert free[k + 1..] == free[1..];
    }
  }

  /** Every free slot looks up as NULL: it is tagged, or it is the last one and holds 0. */
  lemma FreeLooksUpNull(a: seq<nat>, w: nat, free: seq<nat>, i: nat)
    requires Chain(a, w, free) && NoDup(free) && i in free
    ensures i < |a| && (IsFree(a[i]) || a[i] == 0)
    ensures !IsFree(a[i]) <==> i == free[|free| - 1]
  {
    var k :| 0 <= k < |free| && free[k] == i;
    ChainBounds(a, w, free, k);
    if k + 1 < |free| {
      assert free[k + 1..] != [];
    }
  }

  lemma DistinctTail(free: seq<nat>)
    requires NoDup(free) && free != []
    ensures NoDup(free[1..]) && free[0] !in free[1..]
  {
  }

  lemma DistinctCons(i: nat, free: seq<nat>)
    requires NoDup(free) && i !in free
    ensures NoDup([i] + free)
  {
  }

  // ---------- what breaks the free list

  lemma {:induction false} ChainUnique(a: seq<nat>, w: nat, f: seq<nat>, g: seq<nat>)
    requires Chain(a, w, f) && Chain(a, w, g)
    ensures f == g
    decreases |f|
  {
    if f != [] {
      ChainUnique(a, a[f[0]], f[1..], g[1..]);
      assert f == [f[0]] + f[1..] && g == [g[0]] + g[1..];
    }
  }

  /** A chain that passes slot i of a goes on, in a[i := v], with v. */
  lemma {:induction false} ChainVia(a: seq<nat>, w: nat, free: seq<nat>, i: nat, v: nat, g: seq<nat>)
    returns (h: seq<nat>)
    requires Chain(a, w, free) && i in free && i < |a| && Chain(a[i := v], w, g)
    ensures |h| < |g| && Chain(a[i := v], v, h)
    decreases |free|
  {
    if free[0] == i {
      h := g[1..];
    } else {
      h := ChainVia(a, a[free[0]], free[1..], i, v, g[1..]);
    }
  }

  /** Following the words of a from w ends. */
  ghost predicate HasFreeList(a: seq<nat>, w: nat) { exists f :: Chain(a, w, f) }

  /** Removing an id leaves a free list exactly when its slot was not free: a slot that is
      freed twice closes the list into a circle. */
  lemma RemoveExactly(a: seq<nat>, w: nat, free: seq<nat>, i: nat)
    requires Chain(a, w, free) && i < |a|
    ensures HasFreeList(a[i := w], 2 * i + 1) <==> i !in free
  {
    var b := a[i := w];
    if i !in free {
      ChainFrame(a, b, w, free);
      assert ([i] + free)[1..] == free;
      assert Chain(b, 2 * i + 1, [i] + free);
    } else if HasFreeList(b, 2 * i + 1) {
      var f :| Chain(b, 2 * i + 1, f);
      var h := ChainVia(a, w, free, i, w, f[1..]);
      ChainUnique(b, w, h, f[1..]);
      assert false;
    }
  }

  /** A chain that passes slot i ends there when the slot is set to NULL. */
  lemma {:induction false} ChainCut(a: seq<nat>, w: nat, free: seq<nat>, i: nat) returns (g: seq<nat>)
    requires Chain(a, w, free) && i in free && i < |a|
    ensures Chain(a[i := 0], w, g)
    decreases |free|
  {
    if free[0] == i {
      g := [i];
    } else {
      var rest := ChainCut(a, a[free[0]], free[1..], i);
      g := [free[0]] + rest;
      assert g[1..] == rest;
    }
  }

  /** Setting an entry leaves a free list exactly when its slot was not free, or when it is
      set to NULL without flag, which cuts the list off. */
  lemma InsertExactly(a: seq<nat>, w: nat, free: seq<nat>, i: nat, v: nat)
    requires Chain(a, w, free) && i < |a| && !IsFree(v)
    ensures HasFreeList(a[i := v], w) <==> i !in free || v == 0
  {
    if i !in free {
      ChainFrame(a, a[i := v], w, free);
    } else if v == 0 {
      var g := ChainCut(a, w, free, i);
    } else if HasFreeList(a[i := v], w) {
      var f :| Chain(a[i := v], w, f);
      var h := ChainVia(a, w, free, i, v, f);
      assert false;
    }
  }

  /** A slot has an id of its own side exactly below the limit, and fits the free list's
      32 bits exactly below 2^31. */
  lemma SlotExactly(index: nat)
    requires index < U32
    ensures var id := (index + Base(ServerSide)) % U32;
            SideOf(id) == ServerSide && IndexOf(id) == index <==> index < Limit(ServerSide)
    ensures (2 * index + 1) % U32 / 2 == index <==> index < Limit(ClientSide)
  {
  }

  // ---------- the map a pair of arrays stands for

  function Base(side: Side): nat { if side == ClientSide then 0 else SERVER_ID_START }

  /** How many slots a side can address with distinct ids: a client slot must fit the
      31 index bits of the free list, a server slot the ids from SERVER_ID_START up. */
  function Limit(side: Side): nat { if side == ClientSide then 0x8000_0000 else 0x100_0000 }

  /** How many ids belong to a side. */
  function IdCount(side: Side): nat { if side == ClientSide then SERVER_ID_START else 0x100_0000 }

  function Other(side: Side): Side { if side == ClientSide then ServerSide else ClientSide }

  function SideOf(id: nat): Side { if id < SERVER_ID_START then ClientSide else ServerSide }

  function IndexOf(id: nat): nat { if id < SERVER_ID_START then id else id - SERVER_ID_START }

  /** The word of a live slot. */
  ghost function LiveWord(a: seq<nat>, free: seq<nat>, i: nat): Option<nat> {
    if i < |a| && i !in free then Some(a[i]) else None
  }

  ghost function WordFor(side: Side, own: seq<nat>, free: seq<nat>, other: seq<nat>, id: nat): Option<nat> {
    if SideOf(id) == side then LiveWord(own, free, IndexOf(id)) else LiveWord(other, [], IndexOf(id))
  }

  /** The partial map from ids to data and flag. */
  ghost function Meaning(side: Side, own: seq<nat>, free: seq<nat>, other: seq<nat>): map<nat, Entry> {
    map id: nat | id < U32 && WordFor(side, own, free, other, id).Some?
      :: EntryOf(WordFor(side, own, free, other, id).value)
  }

  /** Changing the slot of one id changes the map at that id only. */
  lemma MeaningOf(side: Side, own: seq<nat>, free: seq<nat>, other: seq<nat>,
                  own': seq<nat>, free': seq<nat>, other': seq<nat>, id: nat)
    requires id < U32
    requires SideOf(id) == side ==>
               other' == other && forall i :: i != IndexOf(id) ==> LiveWord(own', free', i) == LiveWord(own, free, i)
    requires SideOf(id) != side ==>
               own' == own && free' == free &&
               forall i :: i != IndexOf(id) ==> LiveWord(other', [], i) == LiveWord(other, [], i)
    ensures var m, m' := Meaning(side, own, free, other), Meaning(side, own', free', other');
            match WordFor(side, own', free', other', id)
            case Some(w) => m' == m[id := EntryOf(w)]
            case None => m' == m - {id}
  {
    hide LiveWord, EntryOf;
    forall j: nat | j != id
      ensures WordFor(side, own', free', other', j) == WordFor(side, own, free, other, j)
    {
      if SideOf(j) == SideOf(id) {
        IdsDiffer(id, j);
      }
    }
  }

  lemma OutsideMeaning(side: Side, own: seq<nat>, free: seq<nat>, other: seq<nat>, id: nat)
    requires WordFor(side, own, free, other, id) == None
    ensures id !in Meaning(side, own, free, other)
  {
  }

  lemma InMeaning(side: Side, own: seq<nat>, free: seq<nat>, other: seq<nat>, id: nat)
    requires id < U32
    ensures id in Meaning(side, own, free, other) <==> WordFor(side, own, free, other, id).Some?
  {
  }

  /** One more live word. */
  lemma TagsKept(a: seq<nat>, b: seq<nat>, free: seq<nat>)
    requires LiveTags(a, free) && |a| <= |b|
    requires forall k :: 0 <= k < |b| && k !in free && (k >= |a| || b[k] != a[k]) ==> !IsFree(b[k])
    ensures LiveTags(b, free)
  {
  }

  /** A slot below the limit has an id of its own. */
  lemma IdOfSlot(side: Side, index: nat)
    requires index < Limit(side)
    ensures var id := (index + Base(side)) % U32; id < U32 && SideOf(id) == side && IndexOf(id) == index
    ensures 2 * index + 1 < U32
  {
  }

  /** The slot at the limit has none, or one that the free list cannot hold. */
  lemma NoIdOfSlot(side: Side)
    ensures var id := (Limit(side) + Base(side)) % U32; SideOf(id) != side || 2 * IndexOf(id) + 1 >= U32
  {
  }

  lemma IdsDiffer(id: nat, j: nat)
    requires id != j && SideOf(id) == SideOf(j)
    ensures IndexOf(id) != IndexOf(j)
  {
  }

  /** wl_map_reserve_new on the array of the other side: an id is refused when it leaves
      a gap or when its slot holds anything; the next id grows the array. */
  function Reserve(side: Side, other: seq<nat>, id: nat): (r: Option<seq<nat>>) {
    var i := IndexOf(id);
    if SideOf(id) == side || |other| < i || (i < |other| && other[i] != 0) then None
    else if i == |other| then Some(other + [0])
    else Some(other)
  }

  /** A reserved id reads as NULL without flag, and had no other meaning before. */
  lemma ReserveMeans(side: Side, own: seq<nat>, free: seq<nat>, other: seq<nat>, id: nat)
    requires id < U32 && Reserve(side, other, id).Some?
    ensures var m, m' := Meaning(side, own, free, other), Meaning(side, own, free, Reserve(side, other, id).value);
            (id !in m || m[id] == Entry(0, 0)) && m' == m[id := Entry(0, 0)]
  {
    hide EntryOf;
    MeaningOf(side, own, free, other, own, free, Reserve(side, other, id).value, id);
    WordRoundTrip(0, 0);
  }

  /** wl_map_reserve_new accepts exactly the next id of the other side and those that are
      there and empty. */
  lemma ReserveExactly(side: Side, own: seq<nat>, free: seq<nat>, other: seq<nat>, id: nat)
    requires id < U32 && LiveTags(other, [])
    ensures var m := Meaning(side, own, free, other);
            Reserve(side, other, id).Some? <==>
            SideOf(id) != side && (IndexOf(id) == |other| || (id in m && m[id] == Entry(0, 0)))
  {
    hide EntryOf, Meaning, LiveTags, SideOf, IndexOf;
    var i := IndexOf(id);
    if SideOf(id) != side {
      MeaningAt(side, own, free, other, id);
      if i < |other| {
        TagAt(other, i);
        EmptyWord(other[i]);
      }
    }
  }

  lemma TagAt(other: seq<nat>, i: nat)
    requires LiveTags(other, []) && i < |other|
    ensures !IsFree(other[i])
  {
  }

  lemma MeaningAt(side: Side, own: seq<nat>, free: seq<nat>, other: seq<nat>, id: nat)
    requires id < U32 && SideOf(id) != side
    ensures var m := Meaning(side, own, free, other);
            id in m <==> IndexOf(id) < |other|
    ensures var m := Meaning(side, own, free, other);
            id in m ==> m[id] == EntryOf(other[IndexOf(id)])
  {
    hide EntryOf;
    if IndexOf(id) < |other| {
      assert WordFor(side, own, free, other, id) == Some(other[IndexOf(id)]);
    } else {
      assert WordFor(side, own, free, other, id) == None;
    }
  }

  lemma EmptyWord(w: nat)
    requires !IsFree(w)
    ensures EntryOf(w) == Entry(0, 0) <==> w == 0
  {
  }

  ghost function LiveSlots(n: nat, free: seq<nat>): set<nat> {
    set i | 0 <= i < n && i !in free
  }

  /** The live slots and the free slots make up the array. */
  lemma {:induction false} SlotsConserved(n: nat, free: seq<nat>)
    requires NoDup(free) && forall i :: i in free ==> i < n
    ensures |LiveSlots(n, free)| + |free| == n
    decreases |free|
  {
    if free == [] {
      AllLive(n);
    } else {
      DistinctTail(free);
      assert forall i :: i in free <==> i == free[0] || i in free[1..];
      SlotsConserved(n, free[1..]);
      assert LiveSlots(n, free[1..]) == LiveSlots(n, free) + {free[0]};
    }
  }

  lemma {:induction false} AllLive(n: nat)
    ensures |LiveSlots(n, [])| == n
  {
    if n > 0 {
      AllLive(n - 1);
      assert LiveSlots(n, []) == LiveSlots(n - 1, []) + {n - 1};
    }
  }

  class Map {
    const side: Side
    /** client_entries and server_entries, as the own side's and the other side's. */
    var own: seq<nat>
    var other: seq<nat>
    var freeList: nat
    ghost var free: seq<nat>

    ghost predicate Valid()
      reads this
    {
      && Chain(own, freeList, free)
      && NoDup(free)
      && LiveTags(own, free)
      && LiveTags(other, [])
      && |own| <= Limit(side)
      && |other| <= IdCount(Other(side))
    }

    ghost function Entries(): map<nat, Entry>
      reads this
    {
      Meaning(side, own, free, other)
    }

    /** An id of a free slot. */
    ghost predicate Freed(id: nat)
      reads this
    {
      SideOf(id) == side && IndexOf(id) in free
    }

    /** Live ids and free slots account for the whole own array. */
    lemma LiveAndFree()
      requires Valid()
      ensures |LiveSlots(|own|, free)| + |free| == |own|
      ensures forall i :: 0 <= i < |own| ==>
                (i in LiveSlots(|own|, free) <==> Base(side) + i in Entries())
    {
      forall k | 0 <= k < |free|
        ensures free[k] < |own|
      {
        ChainBounds(own, freeList, free, k);
      }
      SlotsConserved(|own|, free);
      forall i | 0 <= i < |own|
        ensures i in LiveSlots(|own|, free) <==> Base(side) + i in Entries()
      {
        IdOfSlot(side, i);
      }
    }

    constructor (side: Side)
      ensures this.side == side && Valid() && Entries() == map[] && free == []
    {
      this.side := side;
      own, other, freeList, free := [], [], 0, [];
    }

    function Array(s: Side): seq<nat>
      reads this
    {
      if s == side then own else other
    }

    /** Whether there is a free slot, or a slot behind the last one with an id of its own. */
    ghost predicate HasRoom()
      reads this
    {
      free != [] || |own| < Limit(side)
    }

    /** wl_map_insert_new; without room the id it returns wraps around to the other side, or
        is too large for the free list. */
    method InsertNew(flags: nat, data: nat) returns (id: nat)
      requires Valid() && data % 4 == 0
      modifies this
      ensures id < U32 && (old(HasRoom()) <==> SideOf(id) == side && 2 * IndexOf(id) + 1 < U32)
      ensures old(HasRoom()) ==> Valid() && id !in old(Entries())
      ensures old(HasRoom()) ==> Entries() == old(Entries())[id := Entry(data, flags % 2)]
      ensures free == if old(free) == [] then [] else old(free)[1..]
      ensures |own| == if old(free) == [] then old(|own|) + 1 else old(|own|)
      ensures other == old(other)
    {
      hide Meaning, EntryOf, WithFlags, SideOf, IndexOf, Base;
      var index;
      ghost var room := HasRoom();
      WordRoundTrip(data, flags);
      if freeList != 0 {
        assert free != [];
        DistinctTail(free);
        index := freeList / 2;
        freeList := own[index];
        free := free[1..];
        assert forall i :: i in old(free) <==> i == index || i in free;
      } else {
        assert free == [];
        index := |own|;
        own := own + [0];
      }
      ghost var before := own;
      own := own[index := WithFlags(data, flags)];
      ChainFrame(before, own, freeList, free);
      id := (index + Base(side)) % U32;
      if room {
        IdOfSlot(side, index);
        OutsideMeaning(side, old(own), old(free), other, id);
        MeaningOf(side, old(own), old(free), old(other), own, free, other, id);
      } else {
        NoIdOfSlot(side);
      }
    }

    /** Sets an entry of either side. */
    method SetEntry(s: Side, i: nat, w: nat)
      requires i < |Array(s)|
      modifies `own, `other
      ensures own == if s == side then old(own)[i := w] else old(own)
      ensures other == if s == side then old(other) else old(other)[i := w]
    {
      if s == side {
        own := own[i := w];
      } else {
        other := other[i := w];
      }
    }

    /** wl_map_insert_at, also of an id whose slot is free. */
    method InsertAt(flags: nat, id: nat, data: nat) returns (ok: bool)
      requires Valid() && data % 4 == 0 && id < U32
      requires SideOf(id) == side && IndexOf(id) == |own| ==> |own| < Limit(side)
      modifies `own, `other
      ensures ok <==> old(|Array(SideOf(id))|) >= IndexOf(id)
      ensures !old(Freed(id)) ==>
                Valid() && Entries() == if ok then old(Entries())[id := Entry(data, flags % 2)] else old(Entries())
      ensures HasFreeList(own, freeList) <==> !old(Freed(id)) || (data == 0 && flags % 2 == 0)
    {
      hide Meaning, EntryOf, LiveTags;
      var i, s := IndexOf(id), SideOf(id);
      var count := |Array(s)|;
      if count < i {
        FreedIsSlot(id);
        return false;
      }
      WordRoundTrip(data, flags);
      if count == i {
        FreedIsSlot(id);
        if s == side {
          own := own + [0];
          ChainFrame(old(own), own, freeList, free);
        } else {
          other := other + [0];
        }
      }
      if s == side {
        InsertExactly(own, freeList, free, i, WithFlags(data, flags));
      }
      ghost var before := own;
      SetEntry(s, i, WithFlags(data, flags));
      ok := true;
      if !old(Freed(id)) {
        ChainFrame(before, own, freeList, free);
        TagsKept(old(own), own, free);
        TagsKept(old(other), other, []);
        MeaningOf(side, old(own), old(free), old(other), own, free, other, id);
      }
    }

    lemma FreedIsSlot(id: nat)
      requires Valid()
      ensures Freed(id) ==> IndexOf(id) < |own|
    {
      if Freed(id) {
        var k :| 0 <= k < |free| && free[k] == IndexOf(id);
        ChainBounds(own, freeList, free, k);
      }
    }

    method ReserveNew(id: nat) returns (ok: bool)
      requires Valid() && id < U32
      modifies `other
      ensures Valid()
      ensures ok <==> Reserve(side, old(other), id).Some?
      ensures ok <==> SideOf(id) != side &&
                      (IndexOf(id) == |old(other)| || (id in old(Entries()) && old(Entries())[id] == Entry(0, 0)))
      ensures other == if ok then Reserve(side, old(other), id).value else old(other)
      ensures ok ==> id !in old(Entries()) || old(Entries())[id] == Entry(0, 0)
      ensures Entries() == if ok then old(Entries())[id := Entry(0, 0)] else old(Entries())
    {
      hide Meaning, Chain;
      var i := IndexOf(id);
      ReserveExactly(side, own, free, other, id);
      if SideOf(id) == side || |other| < i {
        return false;
      }
      if |other| == i {
        ReserveMeans(side, own, free, other, id);
        other := other + [0];
      } else if other[i] != 0 {
        return false;
      } else {
        ReserveMeans(side, own, free, other, id);
      }
      ok := true;
    }

    /** wl_map_remove of any own-side id that has a slot; if it was live the slot becomes
        free, and if not the free list is lost. */
    method Remove(id: nat)
      requires Valid() && (SideOf(id) == side ==> id < U32 && IndexOf(id) < |own|)
      modifies this
      ensures other == old(other) && |own| == old(|own|)
      ensures SideOf(id) != side ==> Valid() && Entries() == old(Entries()) && free == old(free)
      ensures SideOf(id) == side && id in old(Entries()) ==>
                Valid() && Entries() == old(Entries()) - {id} && free == [IndexOf(id)] + old(free)
      ensures HasFreeList(own, freeList) <==> SideOf(id) != side || id in old(Entries())
    {
      hide Meaning, EntryOf;
      if SideOf(id) != side {
        return;
      }
      var i := IndexOf(id);
      InMeaning(side, own, free, other, id);
      RemoveExactly(own, freeList, free, i);
      own := own[i := freeList];
      freeList := 2 * i + 1;
      if i !in free {
        DistinctCons(i, free);
        free := [i] + free;
        ChainFrame(old(own), own, old(freeList), old(free));
        assert free[1..] == old(free);
        assert forall k :: k in free <==> k == i || k in old(free);
        MeaningOf(side, old(own), old(free), other, own, free, other, id);
      }
    }

    method Lookup(id: nat) returns (data: nat)
      requires Valid() && id < U32
      ensures data == if id in Entries() then Entries()[id].data else 0
    {
      var i, a := IndexOf(id), Array(SideOf(id));
      if i < |a| && !IsFree(a[i]) {
        data := DataOf(a[i]);
        if Freed(id) {
          FreeLooksUpNull(own, freeList, free, i);
        }
      } else {
        data := 0;
      }
    }

    method LookupFlags(id: nat) returns (flags: nat)
      requires Valid() && id < U32
      ensures flags == if id in Entries() then Entries()[id].flag else 0
    {
      var i, a := IndexOf(id), Array(SideOf(id));
      if i < |a| && !IsFree(a[i]) {
        flags := FlagOf(a[i]);
        if Freed(id) {
          FreeLooksUpNull(own, freeList, free, i);
        }
      } else {
        flags := 0;
      }
    }
  }
}
