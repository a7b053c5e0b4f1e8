/** The small bins in memory: each bin and its chunks form a ring of fd and bk links,
    updated in place (foreign/libffi/src/dlmalloc.c). */
module SmallLinks {

  import opened Lists
  import opened Rings
  import B = BinMaps

  /** The rings of all bins; an empty bin's own links mean nothing. */
  ghost predicate Looped(fd: map<nat, nat>, bk: map<nat, nat>, lists: seq<seq<nat>>, bin: nat -> nat, i: nat)
    requires i < |lists|
  {
    NoDup([bin(i)] + lists[i]) && (lists[i] != [] ==> Loop(fd, bk, [bin(i)] + lists[i]))
  }

  ghost predicate Separate(lists: seq<seq<nat>>, bin: nat -> nat, i: nat, j: nat)
    requires i < |lists| && j < |lists|
  {
    i != j ==> forall x :: x in [bin(i)] + lists[i] ==> x !in [bin(j)] + lists[j]
  }

  ghost predicate AllLooped(fd: map<nat, nat>, bk: map<nat, nat>, lists: seq<seq<nat>>, bin: nat -> nat) {
    && (forall i :: 0 <= i < |lists| ==> Looped(fd, bk, lists, bin, i))
    && (forall i, j :: 0 <= i < |lists| && 0 <= j < |lists| ==> Separate(lists, bin, i, j))
  }

  /** One bin changes; links change only on its ring and at p. */
  lemma OtherLoops(fd: map<nat, nat>, bk: map<nat, nat>, lists: seq<seq<nat>>, bin: nat -> nat,
                   fd': map<nat, nat>, bk': map<nat, nat>, i: nat, list: seq<nat>, p: nat)
    requires AllLooped(fd, bk, lists, bin) && i < |lists|
    requires forall j :: 0 <= j < |lists| && j != i ==> p !in [bin(j)] + lists[j]
    requires forall x :: x in list ==> x in lists[i] || x == p
    requires forall x :: x !in [bin(i)] + lists[i] && x != p ==>
               (x in fd ==> x in fd' && fd'[x] == fd[x]) && (x in bk ==> x in bk' && bk'[x] == bk[x])
    requires NoDup([bin(i)] + list) && (list != [] ==> Loop(fd', bk', [bin(i)] + list))
    ensures AllLooped(fd', bk', lists[i := list], bin)
  {
    hide Loop, NoDup;
    var lists' := lists[i := list];
    forall j | 0 <= j < |lists|
      ensures Looped(fd', bk', lists', bin, j)
    {
      assert Looped(fd, bk, lists, bin, j) && Separate(lists, bin, j, i);
      if j != i && lists[j] != [] {
        LoopKept(fd, bk, fd', bk', [bin(j)] + lists[j]);
      }
    }
    forall j, k | 0 <= j < |lists| && 0 <= k < |lists|
      ensures Separate(lists', bin, j, k)
    {
      assert Separate(lists, bin, j, k);
    }
  }

  lemma BinLoop(fd: map<nat, nat>, bk: map<nat, nat>, lists: seq<seq<nat>>, bin: nat -> nat, i: nat)
    requires AllLooped(fd, bk, lists, bin) && i < |lists|
    ensures Looped(fd, bk, lists, bin, i)
  {
  }

  /** A chunk of bin i is on no other ring. */
  lemma Elsewhere(fd: map<nat, nat>, bk: map<nat, nat>, lists: seq<seq<nat>>, bin: nat -> nat, i: nat, p: nat)
    requires AllLooped(fd, bk, lists, bin) && i < |lists| && p in lists[i]
    ensures forall j :: 0 <= j < |lists| && j != i ==> p !in [bin(j)] + lists[j]
  {
    forall j | 0 <= j < |lists| && j != i
      ensures p !in [bin(j)] + lists[j]
    {
      assert Separate(lists, bin, i, j) && p in [bin(i)] + lists[i];
    }
  }

  class SmallBins {
    var fd: map<nat, nat>
    var bk: map<nat, nat>
    /** The map of non-empty bins, and the set it stands for. */
    var mapWord: bv32
    ghost var smallmap: set<nat>
    /** smallbin_at: the address of a bin. */
    const bin: nat -> nat
    /** The chunks of each bin along fd. */
    ghost var lists: seq<seq<nat>>

    ghost predicate Linked()
      reads this
    {
      && |lists| == 32 && AllLooped(fd, bk, lists, bin)
      && B.Denotes(mapWord, smallmap) && forall i :: i in smallmap <==> 0 <= i < 32 && lists[i] != []
    }

    constructor (bin: nat -> nat)
      requires forall i, j :: 0 <= i < j < 32 ==> bin(i) != bin(j)
      ensures Linked() && this.bin == bin && lists == seq(32, _ => []) && smallmap == {}
    {
      this.bin := bin;
      fd, bk, mapWord, smallmap := map[], map[], 0, {};
      B.NoBits();
      lists := seq(32, _ => []);
    }

    /** insert_small_chunk: the chunk becomes the first of its bin. */
    method InsertSmallChunk(p: nat, i: nat)
      requires Linked() && i < 32 && forall j :: 0 <= j < 32 ==> p !in [bin(j)] + lists[j]
      modifies this
      ensures Linked() && lists == old(lists)[i := [p] + old(lists)[i]] && smallmap == old(smallmap) + {i}
    {
      hide B.Denotes, Loop, NoDup;
      ghost var fd0, bk0, list := fd, bk, lists[i];
      BinLoop(fd, bk, lists, bin, i);
      LoopGrown(fd, bk, bin(i), list, p);
      SecondNoDup(bin(i), list, p);
      var b := bin(i);
      var f := b;
      var marked := B.IsMarked(mapWord, i, smallmap);
      if !marked {
        mapWord := B.Mark(mapWord, i, smallmap);
        smallmap := smallmap + {i};
      } else {
        FirstLink(fd, bk, b, list);
        f := fd[b];
      }
      fd := fd[b := p];
      bk := bk[f := p];
      fd := fd[p := f];
      bk := bk[p := b];
      assert [b, p] + list == [b] + ([p] + list);
      OtherLoops(fd0, bk0, lists, bin, fd, bk, i, [p] + list, p);
      lists := lists[i := [p] + list];
    }

    /** unlink_small_chunk; the last chunk of a bin leaves the bin's links as they are. */
    method UnlinkSmallChunk(p: nat, i: nat)
      requires Linked() && i < 32 && p in lists[i]
      modifies this
      ensures Linked() && lists == old(lists)[i := Without(old(lists)[i], p)]
      ensures smallmap == if Without(old(lists)[i], p) == [] then old(smallmap) - {i} else old(smallmap)
    {
      hide B.Denotes, Loop, NoDup, AllLooped, Without;
      ghost var fd0, bk0, list, b0 := fd, bk, lists[i], bin(i);
      BinLoop(fd, bk, lists, bin, i);
      ghost var k := PlaceOf(b0, list, p);
      UnlinkSteps(fd, bk, b0, list, p, k);
      var f, b := fd[p], bk[p];
      if f == b {
        mapWord := B.Clear(mapWord, i, smallmap);
        smallmap := smallmap - {i};
      } else {
        bk := bk[f := b];
        fd := fd[b := f];
      }
      Elsewhere(fd0, bk0, lists, bin, i, p);
      OtherLoops(fd0, bk0, lists, bin, fd, bk, i, Without(list, p), p);
      lists := lists[i := Without(list, p)];
    }

    /** unlink_first_small_chunk. */
    method UnlinkFirstSmallChunk(i: nat) returns (p: nat)
      requires Linked() && i in smallmap
      modifies this
      ensures Linked() && p == old(lists)[i][0] && lists == old(lists)[i := old(lists)[i][1..]]
      ensures smallmap == if old(lists)[i][1..] == [] then old(smallmap) - {i} else old(smallmap)
    {
      hide B.Denotes, Loop, NoDup, AllLooped, Without;
      ghost var fd0, bk0, list, b0 := fd, bk, lists[i], bin(i);
      BinLoop(fd, bk, lists, bin, i);
      var b := bin(i);
      FirstLink(fd, bk, b, list);
      p := fd[b];
      FirstGone(list);
      UnlinkSteps(fd, bk, b0, list, p, 1);
      var f := fd[p];
      if b == f {
        mapWord := B.Clear(mapWord, i, smallmap);
        smallmap := smallmap - {i};
      } else {
        fd := fd[b := f];
        bk := bk[f := b];
      }
      Elsewhere(fd0, bk0, lists, bin, i, p);
      OtherLoops(fd0, bk0, lists, bin, fd, bk, i, list[1..], p);
      lists := lists[i := list[1..]];
    }
  }

  function Without(list: seq<nat>, p: nat): seq<nat> {
    if list == [] then [] else if list[0] == p then list[1..] else [list[0]] + Without(list[1..], p)
  }

  lemma SecondNoDup(h: nat, list: seq<nat>, p: nat)
    requires NoDup([h] + list) && p !in [h] + list
    ensures NoDup([h] + ([p] + list))
  {
    var ring, grown := [h] + list, [h] + ([p] + list);
    forall i, j | 0 <= i < j < |grown|
      ensures grown[i] != grown[j]
    {
      assert j > 1 ==> grown[j] == ring[j - 1] && ring[j - 1] in ring;
      assert i > 1 ==> grown[i] == ring[i - 1];
      assert h == ring[0] && h in ring;
    }
  }

  lemma FirstLink(fd: map<nat, nat>, bk: map<nat, nat>, h: nat, list: seq<nat>)
    requires Loop(fd, bk, [h] + list) && list != []
    ensures h in fd && fd[h] == list[0]
  {
    assert LoopAt(fd, bk, [h] + list, 0);
  }

  lemma {:induction false} PlaceOf(h: nat, list: seq<nat>, p: nat) returns (k: nat)
    requires p in list && NoDup([h] + list)
    ensures 0 < k <= |list| && list[k - 1] == p && Without(list, p) == list[..k - 1] + list[k..]
    decreases |list|
  {
    if list[0] == p {
      k := 1;
    } else {
      var ring, rest := [h] + list, list[1..];
      forall i, j | 0 <= i < j < |list|
        ensures ([h] + rest)[i] != ([h] + rest)[j]
      {
        assert ([h] + rest)[j] == ring[j + 1];
        assert ([h] + rest)[i] == if i == 0 then ring[0] else ring[i + 1];
      }
      var l := PlaceOf(h, rest, p);
      k := l + 1;
      assert [list[0]] + rest[..l - 1] == list[..k - 1];
    }
  }

  lemma FirstGone(list: seq<nat>)
    requires list != []
    ensures Without(list, list[0]) == list[1..] == list[..0] + list[1..]
  {
  }

  /** What unlinking place k of the ring does. */
  lemma UnlinkSteps(fd: map<nat, nat>, bk: map<nat, nat>, h: nat, list: seq<nat>, p: nat, k: nat)
    requires NoDup([h] + list) && Loop(fd, bk, [h] + list)
    requires 0 < k <= |list| && list[k - 1] == p && Without(list, p) == list[..k - 1] + list[k..]
    ensures p in fd && p in bk && fd[p] in [h] + list && bk[p] in [h] + list && NoDup([h] + Without(list, p))
    ensures fd[p] == bk[p] <==> Without(list, p) == []
    ensures Without(list, p) != [] ==> Loop(fd[bk[p] := fd[p]], bk[fd[p] := bk[p]], [h] + Without(list, p))
    ensures k == 1 ==> bk[p] == h
  {
    hide Loop, NoDup, Without;
    var ring := [h] + list;
    RingWithout(h, list, p, k);
    Neighbours(fd, bk, ring, k);
    if |list| > 1 {
      LoopShrunk(fd, bk, ring, k);
    }
  }

  lemma RingWithout(h: nat, list: seq<nat>, p: nat, k: nat)
    requires NoDup([h] + list)
    requires 0 < k <= |list| && list[k - 1] == p && Without(list, p) == list[..k - 1] + list[k..]
    ensures var ring := [h] + list;
            ring[k] == p && [h] + Without(list, p) == ring[..k] + ring[k + 1..] && NoDup([h] + Without(list, p))
  {
  }

  lemma Neighbours(fd: map<nat, nat>, bk: map<nat, nat>, ring: seq<nat>, k: nat)
    requires Loop(fd, bk, ring) && 0 < k < |ring|
    ensures var p := ring[k]; p in fd && p in bk && fd[p] in ring && bk[p] in ring
    ensures (k == 1 ==> bk[ring[k]] == ring[0]) && (|ring| == 2 ==> fd[ring[k]] == bk[ring[k]])
  {
    assert LoopAt(fd, bk, ring, k);
  }
}
