/** dlmalloc and dlfree over one segment, with the bins, the boundary tags and the
    top chunk updated in place (foreign/libffi/src/dlmalloc.c, 64-bit size_t). */
module Dlmalloc {

  import opened Words
  import opened BinMaps
  import opened TreeBins
  import opened BestFit
  import opened FreeBins
  import opened Tiling
  import opened HeapState

  const MAX_SMALL_REQUEST: nat := 240
  const MIN_REQUEST: nat := 23
  const MAX_REQUEST: nat := 0xFFFF_FFFF_FFFF_FF80
  const TOP_FOOT_SIZE: nat := 72
  const PAGE: nat := 4096

  function PadRequest(bytes: nat): nat { (bytes + 15) / 8 * 8 }

  /** The chunk size that serves a request. */
  function RequestSize(bytes: nat): nat {
    if bytes < MIN_REQUEST then MIN_CHUNK_SIZE
    else if bytes >= MAX_REQUEST then WORD - 1
    else PadRequest(bytes)
  }

  lemma RequestFits(bytes: nat)
    requires bytes < MAX_REQUEST
    ensures var nb := RequestSize(bytes);
            ChunkSize(nb) && bytes + 8 <= nb && (nb == MIN_CHUNK_SIZE || nb < bytes + 8 + 8)
    ensures bytes <= MAX_SMALL_REQUEST <==> IsSmall(RequestSize(bytes))
  {
  }

  function AlignOffset(a: nat): nat { (8 - a % 8) % 8 }

  /** A segment that is all top. */
  lemma FirstTop(p: nat, size: nat)
    requires p % 8 == 0 && 0 < size && p + size < WORD
    ensures HeapOk(Layout(map[p := Head(size, true, false)], map[], {}, map[], p, p), map[], map[])
  {
    var l := Layout(map[p := Head(size, true, false)], map[], {}, map[], p, p);
    assert EndsOk(l);
    assert Tiled(l);
  }

  /** The declining test of tmalloc_large, in unsigned arithmetic. */
  lemma DvComparison(rsize: nat, size: nat, dvsize: nat, nb: nat)
    requires nb <= size < WORD && rsize == size - nb && dvsize < WORD && nb < WORD
    ensures rsize < Sub64(dvsize, nb) <==> dvsize < nb || size < dvsize
  {
    if dvsize < nb {
      ModUnique(dvsize - nb, WORD, -1, WORD + dvsize - nb);
    }
  }

  // ---------- which chunk serves a request

  ghost predicate NoneFits(held: map<nat, nat>, nb: nat) { forall a :: a in held ==> held[a] < nb }

  /** p is a held chunk that fits, and none that fits is smaller. */
  ghost predicate Least(held: map<nat, nat>, nb: nat, p: nat) {
    p in held && nb <= held[p] && forall a :: a in held && nb <= held[a] ==> held[p] <= held[a]
  }

  /** A small request takes the first chunk of its own small bin, or else of the next one;
      else the victim, if it fits; else the smallest chunk that fits, the first of its bin
      if it is a small one. */
  ghost predicate SmallChoice(held: map<nat, nat>, lists: seq<seq<nat>>, dv: nat, dvsize: nat, nb: nat, p: nat) {
    var i := nb / 8;
    && |lists| == 32 && i < 32
    && if lists[i] != [] then p == lists[i][0]
       else if i + 1 < 32 && lists[i + 1] != [] then p == lists[i + 1][0]
       else if nb <= dvsize then p == dv
       else Least(held, nb, p) && (IsSmall(held[p]) ==> [p] <= lists[held[p] / 8])
  }

  /** A large request takes the smallest chunk that fits, the victim if it is as small. */
  ghost predicate LargeChoice(held: map<nat, nat>, dv: nat, dvsize: nat, nb: nat, p: nat) {
    Least(held, nb, p) && (nb <= dvsize <= held[p] ==> p == dv)
  }

  /** The first chunk of the least non-empty small bin above the request's own. */
  lemma LeastInSmall(held: map<nat, nat>, q: Places, nb: nat, i: nat)
    requires Placed(held, q) && q.dvsize < nb && ChunkSize(nb) && IsSmall(nb)
    requires nb / 8 !in q.smallmap && IsLeast(Above(q.smallmap, nb / 8), i)
    ensures |q.small| == 32 && i < 32 && q.small[i] != [] && Least(held, nb, q.small[i][0])
            && held[q.small[i][0]] == 8 * i
  {
    hide TreePart, BestOfAll;
    var p := q.small[i][0];
    assert p in q.small[i];
    TreesAreLarge(held, q, nb, 8 * i);
    assert nb == 8 * (nb / 8);
    forall j | j in q.smallmap && nb <= 8 * j
      ensures 8 * i <= 8 * j
    {
      assert j in Above(q.smallmap, nb / 8);
    }
    NothingBetween(held, q, nb, 8 * i);
  }

  lemma NoSmallAbove(smallmap: set<nat>, nb: nat)
    requires Above(smallmap, nb / 8) == {} && nb / 8 !in smallmap && nb % 8 == 0
    ensures forall i :: i in smallmap ==> 8 * i < nb
  {
    forall i | i in smallmap
      ensures 8 * i < nb
    {
      assert i !in Above(smallmap, nb / 8);
    }
  }

  /** Neither the request's own small bin nor the next one has a chunk. */
  predicate NoExact(q: Places, nb: nat) { nb / 8 !in q.smallmap && nb / 8 + 1 !in q.smallmap }

  lemma ChooseExact(held: map<nat, nat>, q: Places, nb: nat, i: nat)
    requires Placed(held, q) && IsSmall(nb) && ChunkSize(nb)
    requires i in q.smallmap && (i == nb / 8 || (i == nb / 8 + 1 && nb / 8 !in q.smallmap))
    ensures |q.small| == 32 && i < 32 && q.small[i] != [] && nb <= 8 * i < nb + MIN_CHUNK_SIZE
    ensures SmallChoice(held, q.small, q.dv, q.dvsize, nb, q.small[i][0])
  {
    hide TreePart;
  }

  lemma ChooseVictim(held: map<nat, nat>, q: Places, nb: nat)
    requires Placed(held, q) && IsSmall(nb) && NoExact(q, nb) && nb <= q.dvsize
    ensures SmallChoice(held, q.small, q.dv, q.dvsize, nb, q.dv)
  {
    hide TreePart;
  }

  lemma ChooseNext(held: map<nat, nat>, q: Places, nb: nat, i: nat)
    requires Placed(held, q) && IsSmall(nb) && ChunkSize(nb) && NoExact(q, nb) && q.dvsize < nb
    requires IsLeast(Above(q.smallmap, nb / 8), i)
    ensures |q.small| == 32 && i < 32 && q.small[i] != [] && i in q.smallmap && nb <= 8 * i
    ensures SmallChoice(held, q.small, q.dv, q.dvsize, nb, q.small[i][0])
  {
    hide TreePart, Least;
    LeastInSmall(held, q, nb, i);
  }

  lemma ChooseTree(held: map<nat, nat>, q: Places, nb: nat, p: nat)
    requires Placed(held, q) && IsSmall(nb) && ChunkSize(nb) && NoExact(q, nb) && q.dvsize < nb
    requires Above(q.smallmap, nb / 8) == {} && p in held && nb <= held[p] && !IsSmall(held[p])
    requires BestOfAll(q.tree, nb, held[p])
    ensures SmallChoice(held, q.small, q.dv, q.dvsize, nb, p)
  {
    hide TreePart, BestOfAll;
    NoSmallAbove(q.smallmap, nb);
    NothingBetween(held, q, nb, held[p]);
  }

  lemma ChooseNone(held: map<nat, nat>, q: Places, nb: nat)
    requires Placed(held, q) && IsSmall(nb) && ChunkSize(nb) && NoExact(q, nb) && q.dvsize < nb
    requires Above(q.smallmap, nb / 8) == {} && q.treemap == {}
    ensures NoneFits(held, nb)
  {
    hide Placed;
    NoSmallAbove(q.smallmap, nb);
    NoTrees(held, q, nb);
    NothingFits(held, q, nb);
  }

  lemma VictimHeld(held: map<nat, nat>, q: Places)
    requires Placed(held, q) && q.dvsize != 0
    ensures q.dv in held && held[q.dv] == q.dvsize
  {
  }

  /** No small bin serves a large request. */
  lemma SmallBinsAreSmall(held: map<nat, nat>, q: Places, nb: nat)
    requires Placed(held, q) && !IsSmall(nb)
    ensures forall i :: i in q.smallmap ==> 8 * i < nb
  {
  }

  /** Where the trees decline a large request, nothing fits or the victim fits best. */
  lemma DeclinedLarge(held: map<nat, nat>, q: Places, nb: nat)
    requires Placed(held, q) && !IsSmall(nb) && nb < WORD
    requires BestOfAll(q.tree, nb, WORD) || (nb <= q.dvsize && BestOfAll(q.tree, nb, q.dvsize))
    ensures if nb <= q.dvsize then LargeChoice(held, q.dv, q.dvsize, nb, q.dv) else NoneFits(held, nb)
  {
    hide BestOfAll, Placed;
    SmallBinsAreSmall(held, q, nb);
    VictimSize(held, q);
    if nb <= q.dvsize {
      VictimHeld(held, q);
      if BestOfAll(q.tree, nb, WORD) {
        BestIsMonotone(q.tree, nb, WORD, q.dvsize);
      }
      NothingBetween(held, q, nb, q.dvsize);
    } else {
      NothingFits(held, q, nb);
    }
  }

  lemma Fitted(held: map<nat, nat>, nb: nat, p: nat)
    requires p in held && nb <= held[p]
    ensures !NoneFits(held, nb)
  {
  }

  lemma Unfitted(held: map<nat, nat>, nb: nat)
    requires NoneFits(held, nb)
    ensures forall a :: a in held ==> held[a] < nb
  {
  }

  lemma HeldIsSmaller(held: map<nat, nat>, q: Places)
    requires Placed(held, q)
    ensures q.dvsize < WORD - 1 && NoneFits(held, WORD - 1)
  {
    hide Placed;
    PlacedShape(held, q);
    VictimSize(held, q);
  }

  /** Chunk p has served a request of nb bytes; a rest that can be a chunk is held instead. */
  ghost function Rest(held: map<nat, nat>, p: nat, nb: nat): map<nat, nat>
    requires p in held && nb <= held[p]
  {
    if held[p] - nb < MIN_CHUNK_SIZE then held - {p} else (held - {p})[p + nb := held[p] - nb]
  }

  class Heap {
    var heads: map<nat, Head>
    var foots: map<nat, nat>
    var top: nat
    var topsize: nat
    const bins: Bins
    ghost var starts: set<nat>
    ghost var prev: map<nat, nat>
    ghost const base: nat
    /** The chunks handed out, with the bytes asked for. */
    ghost var live: map<nat, nat>
    /** Where the segment ends, but for the room that the next segment's header takes. */
    ghost var end: nat

    ghost function Tags(): Layout
      reads this
    {
      Layout(heads, foots, starts, prev, base, top)
    }

    ghost predicate TagsOk(held: map<nat, nat>)
      reads this
    {
      HeapOk(Tags(), held, live) && top in heads && heads[top].size == topsize && top + topsize == end
    }

    /** The bins lie in memory of their own, below the segment. */
    ghost predicate BinsBelow() {
      forall j :: 0 <= j < 32 ==> bins.trees.bin(j) < base && bins.smalls.bin(j) < base
    }

    lemma FitsAbove(p: nat)
      requires BinsBelow() && base <= p
      ensures bins.Fits(p)
    {
      assert bins.trees.bin(0) < base;
    }

    lemma FitsWithin(p: nat, nb: nat, held: map<nat, nat>)
      requires BinsBelow() && TagsOk(held) && p in held
      ensures bins.Fits(p + nb)
    {
      AboveBase(Tags(), held, live, p);
      FitsAbove(p + nb);
    }

    /** Everything do_check_malloc_state checks. */
    ghost predicate Valid()
      reads this, bins, bins.smalls, bins.trees
    {
      bins.Valid() && TagsOk(bins.held) && BinsBelow()
    }

    twostate predicate BinsUnchanged()
      reads this, bins, bins.smalls, bins.trees
    {
      unchanged(bins) && unchanged(bins.smalls) && unchanged(bins.trees)
    }

    /** The first sys_alloc: one segment, all of it top. */
    constructor (tbase: nat, tsize: nat, smallbin: nat -> nat, treebin: nat -> nat)
      requires TOP_FOOT_SIZE + 8 < tsize && tbase + tsize < WORD
      requires forall j :: 0 <= j < 32 ==> treebin(j) != 0 && treebin(j) < tbase && smallbin(j) < tbase
      requires forall i, j :: 0 <= i < j < 32 ==> smallbin(i) != smallbin(j)
      ensures Valid() && live == map[] && bins.held == map[] && fresh(bins) && fresh(bins.smalls) && fresh(bins.trees)
      ensures tbase <= top < tbase + 8 && end + TOP_FOOT_SIZE == tbase + tsize && top + topsize == end
    {
      hide Bins.Valid, HeapOk, Tiled;
      var p := tbase + AlignOffset(tbase + 16);
      FirstTop(p, tsize - TOP_FOOT_SIZE - AlignOffset(tbase + 16));
      top := p;
      topsize := tsize - TOP_FOOT_SIZE - AlignOffset(tbase + 16);
      heads := map[p := Head(tsize - TOP_FOOT_SIZE - AlignOffset(tbase + 16), true, false)];
      foots := map[];
      bins := new Bins(smallbin, treebin);
      starts, prev, base, live := {}, map[], p, map[];
      end := tbase + tsize - TOP_FOOT_SIZE;
    }

    /** set_inuse_and_pinuse on chunk p, which has just left its bin. */
    method UseWhole(p: nat, s: nat, bytes: nat, ghost held: map<nat, nat>)
      requires TagsOk(held) && p in held && held[p] == s && bytes + 8 <= s
      modifies `heads, `live
      ensures TagsOk(held - {p})
      ensures live == old(live)[p := bytes] && p !in old(live)
      ensures p in heads && heads[p].size == s
      ensures SizesKept(old(live), old(heads), heads)
    {
      hide HeapOk, Bins.Valid;
      FreeChunk(Tags(), held, live, p);
      LiveHaveHeads(Tags(), held, live);
      OccupyHeap(Tags(), held, live, p, bytes);
      heads := heads[p := Head(s, true, true)][p + s := heads[p + s].(pinuse := true)];
      live := live[p := bytes];
    }

    /** set_size_and_pinuse_of_inuse_chunk on the front of p, which has just left its
        bin, and set_size_and_pinuse_of_free_chunk on the rest. */
    method UseFront(p: nat, s: nat, nb: nat, bytes: nat, ghost held: map<nat, nat>)
      requires TagsOk(held) && p in held && held[p] == s && bytes + 8 <= nb
      requires ChunkSize(nb) && nb + MIN_CHUNK_SIZE <= s
      modifies `heads, `foots, `starts, `prev, `live
      ensures TagsOk((held - {p})[p + nb := s - nb])
      ensures live == old(live)[p := bytes] && p !in old(live) && p + nb !in held
      ensures p in heads && heads[p].size == nb
      ensures SizesKept(old(live), old(heads), heads)
    {
      hide HeapOk, Bins.Valid;
      FreeChunk(Tags(), held, live, p);
      LiveHaveHeads(Tags(), held, live);
      FreeIsEdge(Tags(), held, live, p + nb);
      SplitHeap(Tags(), held, live, p, nb, bytes);
      SplitIsInside(Tags(), held, live, p, nb);
      var r := p + nb;
      heads := heads[p := Head(nb, true, true)][r := Head(s - nb, true, false)];
      foots := foots[p + s := s - nb];
      starts, prev := starts + {r}, prev[r := p][p + s := r];
      live := live[p := bytes];
    }

    /** The front of top goes to the caller. */
    method UseTop(nb: nat, bytes: nat) returns (p: nat)
      requires Valid() && ChunkSize(nb) && bytes + 8 <= nb < topsize
      modifies `heads, `top, `topsize, `starts, `prev, `live
      ensures Valid()
      ensures p == old(top) && live == old(live)[p := bytes] && p !in old(live)
      ensures p in heads && heads[p].size == nb
      ensures SizesKept(old(live), old(heads), heads)
    {
      hide HeapOk, Bins.Valid;
      TopOf(Tags(), bins.held, live);
      LiveHaveHeads(Tags(), bins.held, live);
      SplitTopHeap(Tags(), bins.held, live, nb, bytes);
      TopBeyondLive(Tags(), bins.held, live, nb);
      p := top;
      topsize := topsize - nb;
      top := p + nb;
      heads := heads[p := Head(nb, true, true)][top := Head(topsize, true, false)];
      starts, prev := starts + {p}, prev[top := p];
      live := live[p := bytes];
    }

    /** A request was served by chunk p: a new block of nb bytes or a little more. */
    twostate predicate Served(p: nat, nb: nat, bytes: nat)
      reads this
    {
      && p !in old(live) && live == old(live)[p := bytes]
      && p in heads && nb <= heads[p].size < nb + MIN_CHUNK_SIZE
      && SizesKept(old(live), old(heads), heads)
    }

    /** A rest of a chunk of s bytes has become the victim; without one nothing happens to
        the victim. */
    twostate predicate RestIsVictim(p: nat, s: nat, nb: nat)
      reads bins
    {
      if s < nb + MIN_CHUNK_SIZE then bins.dv == old(bins.dv) && bins.dvsize == old(bins.dvsize)
      else bins.dv == p + nb && bins.dvsize == s - nb
    }

    /** What becomes of the victim when chunk p has served: it goes with p, and a rest of p
        takes its place unless p came from a tree for a large request. */
    twostate predicate VictimAfter(p: nat, nb: nat)
      requires p in old(bins.held)
      reads bins
    {
      if p == old(bins.dv) && old(bins.dvsize) != 0 && old(bins.held)[p] < nb + MIN_CHUNK_SIZE then bins.dvsize == 0
      else if IsSmall(nb) || (p == old(bins.dv) && old(bins.dvsize) != 0) then RestIsVictim(p, old(bins.held)[p], nb)
      else bins.dv == old(bins.dv) && bins.dvsize == old(bins.dvsize)
    }

    /** A held chunk has served a request of nb bytes: the one that should, and the rest of it
        is held instead. */
    twostate predicate TookHeld(p: nat, nb: nat)
      reads this, bins, bins.smalls
    {
      && p in old(bins.held) && nb <= old(bins.held)[p] && bins.held == Rest(old(bins.held), p, nb)
      && VictimAfter(p, nb) && top == old(top) && end == old(end)
      && (if IsSmall(nb)
          then SmallChoice(old(bins.held), old(bins.smalls.lists), old(bins.dv), old(bins.dvsize), nb, p)
          else LargeChoice(old(bins.held), old(bins.dv), old(bins.dvsize), nb, p))
    }

    /** The part that all chunks from the bins have in common: chunk p has just left its bin
        and goes into use, whole or as far as it is needed. */
    method Carve(p: nat, s: nat, nb: nat, bytes: nat, ghost held: map<nat, nat>)
      requires TagsOk(held) && BinsBelow() && p in held && held[p] == s && bytes + 8 <= nb <= s && ChunkSize(nb)
      modifies `heads, `foots, `starts, `prev, `live
      ensures s - nb < MIN_CHUNK_SIZE ==> TagsOk(held - {p})
      ensures s - nb >= MIN_CHUNK_SIZE ==>
                TagsOk((held - {p})[p + nb := s - nb]) && bins.Fits(p + nb) && p + nb !in held
      ensures Served(p, nb, bytes)
    {
      hide Heap.TagsOk, Heap.BinsBelow;
      if s - nb < MIN_CHUNK_SIZE {
        UseWhole(p, s, bytes, held);
      } else {
        FitsWithin(p, nb, held);
        UseFront(p, s, nb, bytes, held);
      }
    }

    /** Chunk p of s bytes, which has just left its bin, serves a small request, and a rest
        becomes the victim. */
    method UseWithVictim(p: nat, s: nat, nb: nat, bytes: nat, ghost held: map<nat, nat>)
      requires TagsOk(held) && BinsBelow() && p in held && held[p] == s && bytes + 8 <= nb <= s && ChunkSize(nb)
      requires bins.Valid() && bins.held == held - {p} && ChunkSize(s)
      requires IsSmall(bins.dvsize) || s < nb + MIN_CHUNK_SIZE
      modifies `heads, `foots, `starts, `prev, `live, bins`dv, bins`dvsize, bins`held, bins.smalls
      ensures Valid() && Served(p, nb, bytes)
      ensures bins.held == Rest(held, p, nb) && RestIsVictim(p, s, nb)
    {
      hide Bins.Valid, Heap.TagsOk, Heap.BinsBelow, SizesKept;
      Carve(p, s, nb, bytes, held);
      if s - nb >= MIN_CHUNK_SIZE {
        bins.ReplaceDv(p + nb, s - nb);
      }
    }

    /** The first chunk of small bin i, whole or split with the rest as victim. */
    method UseSmallBin(i: nat, nb: nat, bytes: nat) returns (p: nat)
      requires Valid() && i in bins.smalls.smallmap && nb <= 8 * i && ChunkSize(nb) && bytes + 8 <= nb
      requires IsSmall(bins.dvsize) || 8 * i < nb + MIN_CHUNK_SIZE
      modifies this, bins, bins.smalls, bins.trees
      ensures Valid() && end == old(end) && top == old(top)
      ensures Served(p, nb, bytes)
      ensures |old(bins.smalls.lists)| == 32 && old(bins.smalls.lists)[i] != [] && p == old(bins.smalls.lists)[i][0]
      ensures p in old(bins.held) && old(bins.held)[p] == 8 * i && bins.held == Rest(old(bins.held), p, nb)
      ensures RestIsVictim(p, 8 * i, nb) && (p != old(bins.dv) || old(bins.dvsize) == 0)
    {
      hide HeapOk, Placed, BinsOk, BestOfAll, Heads, Usable, DvSet, Bins.Valid, Heap.TagsOk, Heap.BinsBelow;
      ghost var held := bins.held;
      bins.HasPlaces();
      PlacedShape(bins.held, bins.State());
      p := bins.UnlinkFirst(i);
      UseWithVictim(p, 8 * i, nb, bytes, held);
    }

    /** tmalloc_small: takes the smallest tree chunk. */
    method UseSmallestTree(nb: nat, bytes: nat) returns (p: nat)
      requires Valid() && bins.trees.treemap != {} && ChunkSize(nb) && IsSmall(nb) && bytes + 8 <= nb
      requires IsSmall(bins.dvsize)
      modifies this, bins, bins.smalls, bins.trees
      ensures Valid() && end == old(end) && top == old(top)
      ensures Served(p, nb, bytes) && p in old(bins.held) && nb <= old(bins.held)[p] && !IsSmall(old(bins.held)[p])
      ensures BestOfAll(old(bins.trees.trees), nb, old(bins.held)[p])
      ensures bins.held == Rest(old(bins.held), p, nb) && RestIsVictim(p, old(bins.held)[p], nb)
      ensures p != old(bins.dv) || old(bins.dvsize) == 0
    {
      hide HeapOk, Placed, BinsOk, BestOfAll, Heads, Usable, DvSet, Bins.Valid, Heap.TagsOk, Heap.BinsBelow, SizesKept;
      ghost var held := bins.held;
      var v, rsize, at := bins.FindSmallestChunk(nb);
      bins.TreeChunk(at, v);
      p := v.addr;
      bins.UnlinkLarge(p, v.size);
      UseWithVictim(p, v.size, nb, bytes, held);
    }

    /** Chunk p leaves its tree bin and goes into use; a rest goes to its own bin. */
    method UseLarge(p: nat, s: nat, nb: nat, bytes: nat)
      requires Valid() && ChunkSize(nb) && bytes + 8 <= nb <= s && ChunkSize(s)
      requires p in bins.held && bins.held[p] == s && !IsSmall(s) && p !in DvSet(bins.dv, bins.dvsize)
      modifies this, bins, bins.smalls, bins.trees
      ensures Valid() && end == old(end) && top == old(top)
      ensures Served(p, nb, bytes)
      ensures bins.held == Rest(old(bins.held), p, nb) && bins.dv == old(bins.dv) && bins.dvsize == old(bins.dvsize)
    {
      hide HeapOk, Placed, BinsOk, Usable, DvSet, Bins.Valid, Heap.TagsOk, Heap.BinsBelow, SizesKept;
      ghost var held := bins.held;
      bins.UnlinkLarge(p, s);
      Carve(p, s, nb, bytes, held);
      if s - nb >= MIN_CHUNK_SIZE {
        bins.InsertChunk(p + nb, s - nb);
      }
    }

    /** tmalloc_large: takes the smallest tree chunk that fits; declines only if none
        fits or the victim fits at least as well. */
    method UseBestTree(nb: nat, bytes: nat) returns (ok: bool, p: nat)
      requires Valid() && ChunkSize(nb) && !IsSmall(nb) && bytes + 8 <= nb
      modifies this, bins, bins.smalls, bins.trees
      ensures Valid() && end == old(end) && top == old(top)
      ensures ok ==> Served(p, nb, bytes) && p in old(bins.held) && nb <= old(bins.held)[p]
      ensures ok ==> bins.held == Rest(old(bins.held), p, nb) && (p != old(bins.dv) || old(bins.dvsize) == 0)
      ensures bins.dv == old(bins.dv) && bins.dvsize == old(bins.dvsize)
      ensures ok ==> BestOfAll(old(bins.trees.trees), nb, old(bins.held)[p])
      ensures ok ==> old(bins.dvsize) < nb || old(bins.held)[p] < old(bins.dvsize)
      ensures !ok ==> unchanged(this) && BinsUnchanged()
      ensures !ok ==>
                BestOfAll(bins.trees.trees, nb, WORD) ||
                (nb <= bins.dvsize && BestOfAll(bins.trees.trees, nb, bins.dvsize))
    {
      hide HeapOk, Placed, BinsOk, BestOfAll, Heads, Usable, DvSet, Bins.Valid, Heap.TagsOk, Heap.BinsBelow, SizesKept;
      ok, p := false, 0;
      bins.DvBound();
      var v, rsize, at := bins.FindLargeChunk(nb);
      if v.Some? {
        DvComparison(rsize, v.value.size, bins.dvsize, nb);
      }
      if v.Some? && rsize < Sub64(bins.dvsize, nb) {
        bins.TreeChunk(at, v.value);
        ok, p := true, v.value.addr;
        UseLarge(p, v.value.size, nb, bytes);
      } else if v.Some? {
        BestIsMonotone(bins.trees.trees, nb, v.value.size, bins.dvsize);
      }
    }

    /** The victim, split or used up. */
    method UseDv(nb: nat, bytes: nat) returns (p: nat)
      requires Valid() && ChunkSize(nb) && bytes + 8 <= nb <= bins.dvsize
      modifies this, bins, bins.smalls, bins.trees
      ensures Valid() && end == old(end) && top == old(top)
      ensures Served(p, nb, bytes) && p == old(bins.dv)
      ensures p in old(bins.held) && old(bins.held)[p] == old(bins.dvsize) && bins.held == Rest(old(bins.held), p, nb)
      ensures if old(bins.dvsize) < nb + MIN_CHUNK_SIZE then bins.dvsize == 0 else RestIsVictim(p, old(bins.dvsize), nb)
    {
      hide HeapOk, Placed, Usable, DvSet, Bins.Valid, Heap.TagsOk, Heap.BinsBelow, SizesKept;
      ghost var held := bins.held;
      bins.DvBound();
      var rsize := bins.dvsize - nb;
      p := bins.dv;
      var s := bins.dvsize;
      bins.ClearDv();
      Carve(p, s, nb, bytes, held);
      if rsize >= MIN_CHUNK_SIZE {
        bins.SetDv(p + nb, rsize);
      }
    }

    /** No chunk the allocator holds can serve nb bytes. */
    ghost predicate Exhausted(nb: nat)
      reads this, bins, bins.smalls, bins.trees
    {
      topsize <= nb && forall a :: a in bins.held ==> bins.held[a] < nb
    }

    /** sys_alloc: asks the system for the request, the segment's overhead and a byte,
        in whole pages.  If the request does not wrap around and the system appends
        that much behind top, top grows and serves the request. */
    method SysAlloc(nb: nat, bytes: nat, granted: bool) returns (p: nat, ok: bool)
      requires Valid() && nb < WORD
      requires nb < WORD - 1 ==> ChunkSize(nb) && bytes + 8 <= nb
      modifies `heads, `top, `topsize, `starts, `prev, `live, `end
      ensures Valid()
      ensures ok ==> Served(p, nb, bytes) && p == old(top) && end == old(end) + SysSize(nb)
      ensures !ok ==> unchanged(this)
      ensures ok <==> granted && SysSize(nb) > nb && old(top + topsize) + SysSize(nb) < WORD
    {
      hide HeapOk, Bins.Valid;
      ok, p := false, 0;
      var rsize := SysSize(nb);
      if rsize > nb && granted && top + topsize + rsize < WORD {
        SysSizeCovers(nb);
        TopOf(Tags(), bins.held, live);
        LiveHaveHeads(Tags(), bins.held, live);
        GrowTopHeap(Tags(), bins.held, live, rsize);
        topsize := topsize + rsize;
        heads := heads[top := Head(topsize, true, false)];
        end := end + rsize;
        p := UseTop(nb, bytes);
        ok := true;
      }
    }

    /** The bins' share of a small request: a remainderless fit, else the next
        non-empty small bin, else the smallest tree chunk. */
    method SmallFromBins(nb: nat, bytes: nat) returns (p: nat, ok: bool)
      requires Valid() && ChunkSize(nb) && IsSmall(nb) && bytes + 8 <= nb
      modifies this, bins, bins.smalls, bins.trees
      ensures Valid() && end == old(end) && top == old(top)
      ensures ok ==> Served(p, nb, bytes) && TookHeld(p, nb)
      ensures !ok ==> unchanged(this) && BinsUnchanged() && (nb <= bins.dvsize || NoneFits(bins.held, nb))
      ensures !ok && nb <= bins.dvsize ==>
                SmallChoice(bins.held, bins.smalls.lists, bins.dv, bins.dvsize, nb, bins.dv)
    {
      hide Denotes, HeapOk, Placed, Bins.Valid, Heap.TagsOk, Heap.BinsBelow;
      hide SmallChoice, NoneFits, Rest, Above, SizesKept;
      bins.HasPlaces();
      bins.HasMaps();
      ok, p := false, 0;
      ghost var held, q := bins.held, bins.State();
      var exact, i := OneOrNext(bins.smalls.mapWord, nb / 8, bins.smalls.smallmap);
      if exact {
        ChooseExact(held, q, nb, i);
        p := UseSmallBin(i, nb, bytes);
        ok := true;
      } else if nb > bins.dvsize {
        p, ok := SmallBeyond(nb, bytes);
      } else {
        ChooseVictim(held, q, nb);
      }
    }

    /** The same without a remainderless fit and without a victim that fits. */
    method SmallBeyond(nb: nat, bytes: nat) returns (p: nat, ok: bool)
      requires Valid() && ChunkSize(nb) && IsSmall(nb) && bytes + 8 <= nb
      requires NoExact(bins.State(), nb) && bins.dvsize < nb
      modifies this, bins, bins.smalls, bins.trees
      ensures Valid() && end == old(end) && top == old(top)
      ensures ok ==> Served(p, nb, bytes) && TookHeld(p, nb)
      ensures !ok ==> unchanged(this) && BinsUnchanged() && NoneFits(bins.held, nb)
    {
      hide Denotes, HeapOk, Placed, Bins.Valid, Heap.TagsOk, Heap.BinsBelow;
      hide SmallChoice, NoneFits, Rest, Above, BestOfAll, SizesKept, IsLeast;
      bins.HasPlaces();
      bins.HasMaps();
      bins.DvBound();
      ok, p := false, 0;
      ghost var held, q := bins.held, bins.State();
      var found, i := LowestAbove(bins.smalls.mapWord, nb / 8, bins.smalls.smallmap);
      LeastDenotes(bins.trees.mapWord, bins.trees.treemap);
      if found {
        ChooseNext(held, q, nb, i);
        p := UseSmallBin(i, nb, bytes);
        ok := true;
      } else if bins.trees.mapWord != 0 {
        p := UseSmallestTree(nb, bytes);
        ok := true;
        ChooseTree(held, q, nb, p);
      } else {
        ChooseNone(held, q, nb);
      }
    }

    method LargeFromBins(nb: nat, bytes: nat) returns (p: nat, ok: bool)
      requires Valid() && ChunkSize(nb) && !IsSmall(nb) && bytes + 8 <= nb
      modifies this, bins, bins.smalls, bins.trees
      ensures Valid() && end == old(end) && top == old(top)
      ensures ok ==> Served(p, nb, bytes) && TookHeld(p, nb)
      ensures !ok ==> unchanged(this) && BinsUnchanged() && (nb <= bins.dvsize || NoneFits(bins.held, nb))
      ensures !ok && nb <= bins.dvsize ==> LargeChoice(bins.held, bins.dv, bins.dvsize, nb, bins.dv)
    {
      hide Denotes, HeapOk, Placed, BinsOk, Bins.Valid, BestOfAll;
      bins.HasPlaces();
      PlacedShape(bins.held, bins.State());
      ghost var held, q := bins.held, bins.State();
      SmallBinsAreSmall(held, q, nb);
      ok, p := false, 0;
      bins.HasMaps();
      LeastDenotes(bins.trees.mapWord, bins.trees.treemap);
      if bins.trees.mapWord != 0 {
        ok, p := UseBestTree(nb, bytes);
      } else {
        NoTrees(bins.held, bins.State(), nb);
      }
      if ok {
        NothingBetween(held, q, nb, held[p]);
      } else {
        DeclinedLarge(held, q, nb);
      }
    }

    /** The part of dlmalloc before top: the bins, and then the victim. */
    method FromHeld(bytes: nat, nb: nat) returns (p: nat, ok: bool)
      requires Valid() && bytes < WORD && nb == RequestSize(bytes)
      modifies this, bins, bins.smalls, bins.trees
      ensures Valid()
      ensures ok ==> Served(p, nb, bytes) && TookHeld(p, nb)
      ensures !ok ==> unchanged(this) && BinsUnchanged() && NoneFits(bins.held, nb)
    {
      hide HeapOk, Placed, Bins.Valid, Heap.TagsOk, Heap.BinsBelow, NoneFits, SmallChoice, LargeChoice, SizesKept;
      bins.HasPlaces();
      ghost var held, q := bins.held, bins.State();
      p, ok := 0, false;
      if bytes < MAX_REQUEST {
        RequestFits(bytes);
        if bytes <= MAX_SMALL_REQUEST {
          p, ok := SmallFromBins(nb, bytes);
        } else {
          p, ok := LargeFromBins(nb, bytes);
        }
      } else {
        HeldIsSmaller(held, q);
      }
      if !ok && nb <= bins.dvsize {
        p := UseDv(nb, bytes);
        ok := true;
      }
    }

    /** dlmalloc.  Returns 0 only if nothing held can serve the request and the system
        adds no space; otherwise a block that was not in use, while every block in
        use keeps its place and size.  A chunk that is held serves before top, and which
        one does is settled. */
    method Malloc(bytes: nat, granted: bool) returns (mem: nat)
      requires Valid() && bytes < WORD
      modifies this, bins, bins.smalls, bins.trees
      ensures Valid()
      ensures mem != 0 ==> mem >= 16 && Served(mem - 16, RequestSize(bytes), bytes)
      ensures mem == 0 ==> unchanged(this) && BinsUnchanged() && Exhausted(RequestSize(bytes))
      ensures mem == 0 ==> !granted || SysSize(RequestSize(bytes)) <= RequestSize(bytes)
                           || top + topsize + SysSize(RequestSize(bytes)) >= WORD
      ensures !NoneFits(old(bins.held), RequestSize(bytes)) ==> mem != 0 && TookHeld(mem - 16, RequestSize(bytes))
      ensures mem != 0 && NoneFits(old(bins.held), RequestSize(bytes)) ==>
                mem - 16 == old(top) && BinsUnchanged() &&
                end == old(end) + if RequestSize(bytes) < old(topsize) then 0 else SysSize(RequestSize(bytes))
    {
      hide HeapOk, Bins.Valid, Heap.BinsBelow, NoneFits, Rest;
      TopOf(Tags(), bins.held, live);
      var nb := RequestSize(bytes);
      ghost var held := bins.held;
      var p, ok := FromHeld(bytes, nb);
      if ok {
        Fitted(held, nb, p);
      } else if nb < topsize {
        p := UseTop(nb, bytes);
        ok := true;
      } else {
        Unfitted(held, nb);
        if nb < WORD - 1 { RequestFits(bytes); }
        p, ok := SysAlloc(nb, bytes, granted);
      }
      mem := if ok then p + 16 else 0;
    }

    /** set_free_with_pinuse: from a up to e is now one free chunk. */
    method MergeTags(p: nat, a: nat, e: nat, ghost held: map<nat, nat>)
      requires TagsOk(held) && p in live && Gathers(Tags(), held, p, a, e)
      requires IsChunk(Tags(), e) && heads[e].cinuse
      modifies `heads, `foots, `starts, `prev, `live
      ensures TagsOk((held - Swallowed(old(Tags()), p, a))[a := e - a])
      ensures live == old(live) - {p}
      ensures SizesKept(live, old(heads), heads)
    {
      hide HeapOk, IsFree, Lonely, Edge, Swallowed;
      LiveHaveHeads(Tags(), held, live);
      TopOf(Tags(), held, live);
      CoalesceHeap(Tags(), held, live, p, a, e);
      NotTop(Tags(), held, live, a, e);
      HeadOfMerged(Tags(), held, live, p, a, e);
      heads := heads[a := Head(e - a, true, false)][e := heads[e].(pinuse := false)];
      foots := foots[e := e - a];
      starts := set x | x in starts && !(a < x < e);
      prev := prev[e := a];
      live := live - {p};
    }

    /** From a on, everything is now top. */
    method MergeTop(p: nat, a: nat, ghost held: map<nat, nat>)
      requires TagsOk(held) && p in live && Gathers(Tags(), held, p, a, top) && Next(Tags(), p) == top
      modifies `heads, `top, `topsize, `starts, `live
      ensures TagsOk(held - {a}) && top == a
      ensures live == old(live) - {p}
      ensures SizesKept(live, old(heads), heads)
    {
      hide HeapOk;
      LiveHaveHeads(Tags(), held, live);
      CoalesceTopHeap(Tags(), held, live, p, a);
      HeadOfMerged(Tags(), held, live, p, a, top);
      topsize := topsize + (top - a);
      top := a;
      heads := heads[a := Head(topsize, true, false)];
      starts := set x | x in starts && x < a;
      live := live - {p};
    }

    /** dvsize grows in place, or the victim starts earlier. */
    method MoveDv(p: nat, s: nat)
      requires bins.Valid() && bins.Fits(p) && bins.dvsize != 0 && ChunkSize(s) && (p !in bins.held || p == bins.dv)
      modifies bins
      ensures bins.Valid()
      ensures bins.held == (old(bins.held) - {old(bins.dv)})[p := s] && bins.dv == p && bins.dvsize == s
    {
      bins.ClearDv();
      bins.SetDv(p, s);
    }

    /** The victim stays, alone or in a chunk that has swallowed it, or it has joined top. */
    twostate predicate VictimKept()
      reads this, bins
    {
      if old(bins.dvsize) == 0 then bins.dvsize == 0
      else if bins.dvsize == 0 then top <= old(bins.dv)
      else bins.dv <= old(bins.dv) && old(bins.dv + bins.dvsize) <= bins.dv + bins.dvsize
    }

    predicate IsDv(p: nat)
      reads bins
    {
      bins.dvsize != 0 && p == bins.dv
    }

    /** Block p0 is being freed; p is p0, or the free chunk before it, which has left
        its bin unless it is the victim. */
    ghost predicate Freeing(p0: nat, p: nat, held: map<nat, nat>)
      reads this, bins, bins.smalls, bins.trees
    {
      && TagsOk(held) && bins.Valid() && BinsBelow() && p0 in live
      && IsChunk(Tags(), p0) && IsChunk(Tags(), p) && heads[p0].cinuse && heads[p].pinuse
      && (p == p0 || (p in held && Next(Tags(), p) == p0))
      && (IsDv(p) ==> p != p0) && bins.held == (if IsDv(p) then held else held - {p})
    }

    /** The victim's size is the size of its chunk. */
    lemma VictimChunk(a: nat, held: map<nat, nat>)
      requires TagsOk(held) && bins.Valid() && a in held && (a in bins.held ==> held[a] == bins.held[a])
      ensures IsDv(a) ==> IsChunk(Tags(), a) && heads[a].size == bins.dvsize
    {
      hide Placed, HeapOk;
      if IsDv(a) {
        bins.HasPlaces();
        VictimHeld(bins.held, bins.State());
        FreeChunk(Tags(), held, live, a);
      }
    }

    /** The chunk behind is in use. */
    method FreeBeforeUsed(p0: nat, p: nat, next: nat, ghost held: map<nat, nat>)
      requires Freeing(p0, p, held) && next == Next(Tags(), p0) && next in heads && heads[next].cinuse
      modifies this, bins, bins.smalls, bins.trees
      ensures Valid() && end == old(end) && VictimKept()
      ensures live == old(live) - {p0} && SizesKept(live, old(heads), heads)
    {
      hide HeapOk, Placed, Bins.Valid;
      ghost var l := Tags();
      NextHeld(l, held, live, p0);
      LiveChunk(l, held, live, p0);
      ChunkAboveBase(l, held, live, p);
      FitsAbove(p);
      MergedSize(l, held, live, p0, p, next);
      if p in held { VictimChunk(p, held); }
      if IsDv(p) {
        MoveDv(p, next - p);
      } else {
        bins.InsertChunk(p, next - p);
      }
      assert bins.held == (held - Swallowed(l, p0, p))[p := next - p];
      MergeTags(p0, p, next, held);
    }

    /** The chunk behind is top. */
    method FreeBeforeTop(p0: nat, p: nat, ghost held: map<nat, nat>)
      requires Freeing(p0, p, held) && Next(Tags(), p0) == top
      modifies this, bins, bins.smalls, bins.trees
      ensures Valid() && end == old(end) && VictimKept()
      ensures live == old(live) - {p0} && SizesKept(live, old(heads), heads)
    {
      hide HeapOk, Placed, Bins.Valid;
      LiveChunk(Tags(), held, live, p0);
      if IsDv(p) {
        bins.ClearDv();
      }
      assert bins.held == held - {p};
      MergeTop(p0, p, held);
    }

    /** The bins' part: the free chunk behind leaves them, and p joins them with the new size,
        unless one of the two is the victim, which p then is. */
    method Gather(p: nat, psize: nat, next: nat, nsize: nat)
      requires bins.Valid() && bins.Fits(p) && ChunkSize(psize) && p != next
      requires next in bins.held && bins.held[next] == nsize && (IsDv(p) || p !in bins.held)
      modifies bins, bins.smalls, bins.trees
      ensures bins.Valid() && bins.held == (old(bins.held) - {next})[p := psize]
      ensures if old(IsDv(next) || IsDv(p)) then bins.dv == p && bins.dvsize == psize
              else bins.dv == old(bins.dv) && bins.dvsize == old(bins.dvsize)
    {
      hide Placed, Bins.Valid;
      if IsDv(next) {
        MoveDv(p, psize);
      } else {
        bins.UnlinkChunk(next, nsize);
        if IsDv(p) {
          MoveDv(p, psize);
        } else {
          bins.InsertChunk(p, psize);
        }
      }
    }

    /** The chunk behind is free: the victim, or in a bin. */
    method FreeBeforeFree(p0: nat, p: nat, next: nat, ghost held: map<nat, nat>)
      requires Freeing(p0, p, held) && next == Next(Tags(), p0) && next in heads
      requires !heads[next].cinuse && next != top
      modifies this, bins, bins.smalls, bins.trees
      ensures Valid() && end == old(end) && VictimKept()
      ensures live == old(live) - {p0} && SizesKept(live, old(heads), heads)
    {
      hide HeapOk, Placed, Bins.Valid, Usable, Heap.BinsBelow, Lonely;
      ghost var l := Tags();
      NextHeld(l, held, live, p0);
      LiveChunk(l, held, live, p0);
      ChunkAboveBase(l, held, live, p);
      FitsAbove(p);
      var nsize := heads[next].size;
      var psize := next + nsize - p;
      MergedSize(l, held, live, p0, p, next + nsize);
      if p in held { VictimChunk(p, held); }
      VictimChunk(next, held);
      Gather(p, psize, next, nsize);
      assert bins.held == (held - Swallowed(l, p0, p))[p := psize];
      MergeTags(p0, p, next + nsize, held);
    }

    /** dlfree: the block leaves the set of live blocks, and merges with the chunks and
        the top around it. */
    method Free(mem: nat)
      requires Valid() && (mem == 0 || (mem >= 16 && mem - 16 in live))
      modifies this, bins, bins.smalls, bins.trees
      ensures Valid() && end == old(end) && VictimKept()
      ensures mem == 0 ==> unchanged(this) && BinsUnchanged()
      ensures mem != 0 ==> live == old(live) - {mem - 16} && SizesKept(live, old(heads), heads)
    {
      hide HeapOk, Placed, Bins.Valid;
      if mem == 0 { return; }
      var p0 := mem - 16;
      ghost var held, l := bins.held, Tags();
      LiveChunk(l, held, live, p0);
      bins.HasPlaces();
      NotVictim(held, bins.State(), p0);
      var next := p0 + heads[p0].size;
      var p := p0;
      if !heads[p0].pinuse {
        PreviousIsHeld(l, held, live, p0);
        var prevsize := foots[p0];
        p := p0 - prevsize;
        if !IsDv(p) {
          bins.UnlinkChunk(p, prevsize);
        }
      }
      assert held - {p0} == held;
      if heads[next].cinuse {
        FreeBeforeUsed(p0, p, next, held);
      } else if next == top {
        FreeBeforeTop(p0, p, held);
      } else {
        FreeBeforeFree(p0, p, next, held);
      }
    }
  }

  /** granularity_align(nb + TOP_FOOT_SIZE + 1) in size_t arithmetic. */
  function SysSize(nb: nat): nat {
    ((nb + TOP_FOOT_SIZE + 1) % WORD + PAGE) % WORD / PAGE * PAGE
  }

  /** Whole pages, more than the request, the overhead and a byte by at most one page, unless
      the sum wraps around. */
  lemma SysSizeExactly(nb: nat)
    requires nb + TOP_FOOT_SIZE + 1 + PAGE < WORD
    ensures SysSize(nb) % PAGE == 0 && nb + TOP_FOOT_SIZE + 1 < SysSize(nb) <= nb + TOP_FOOT_SIZE + 1 + PAGE
  {
    var s := nb + TOP_FOOT_SIZE + 1 + PAGE;
    assert s == s / PAGE * PAGE + s % PAGE;
    assert s / PAGE * PAGE % PAGE == 0;
  }

  /** What wraps around is never more than the request. */
  lemma SysSizeWraps(nb: nat)
    requires nb < WORD <= nb + TOP_FOOT_SIZE + 1 + PAGE
    ensures SysSize(nb) <= nb
  {
  }

  lemma SysSizeCovers(nb: nat)
    requires nb < WORD
    ensures SysSize(nb) > nb ==> nb < WORD - 1 && SysSize(nb) < WORD
  {
  }
}
