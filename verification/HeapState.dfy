/** The invariant that do_check_malloc_state spells out, and what each change of the
    tags does to it (foreign/libffi/src/dlmalloc.c). */
module HeapState {

  import opened Words
  import opened Tiling

  /** A free chunk has chunks in use on both sides; top counts as free. */
  predicate Lonely(l: Layout, a: nat)
    requires IsChunk(l, a)
  {
    l.heads[a].pinuse && Next(l, a) in l.heads && l.heads[Next(l, a)].cinuse
  }

  predicate FreeAt(l: Layout, held: map<nat, nat>, a: nat) {
    && (a in held <==> IsFree(l, a))
    && (a in held ==> held[a] == l.heads[a].size && Lonely(l, a))
  }

  /** held lists exactly the free chunks, and no two of them are neighbours. */
  ghost predicate FreeOk(l: Layout, held: map<nat, nat>) {
    forall a :: FreeAt(l, held, a)
  }

  predicate LiveAt(l: Layout, live: map<nat, nat>, a: nat) {
    && (a in live <==> IsChunk(l, a) && l.heads[a].cinuse)
    && (a in live ==> live[a] + 8 <= l.heads[a].size)
  }

  /** live maps exactly the chunks in use to the bytes asked for. */
  ghost predicate LiveOk(l: Layout, live: map<nat, nat>) {
    forall a :: LiveAt(l, live, a)
  }

  ghost predicate HeapOk(l: Layout, held: map<nat, nat>, live: map<nat, nat>) {
    && Tiled(l) && EndsOk(l)
    && 0 < l.heads[l.top].size && l.top + l.heads[l.top].size < WORD
    && FreeOk(l, held)
    && LiveOk(l, live)
  }

  // ---------- what the invariant says about blocks handed out

  /** Live blocks are aligned, hold the bytes asked for inside base .. top, and no two
      overlap. */
  lemma LiveBlocksApart(l: Layout, held: map<nat, nat>, live: map<nat, nat>, a: nat, b: nat)
    requires HeapOk(l, held, live) && a in live && b in live && a < b
    ensures (a + 16) % 8 == 0 && l.base <= a
    ensures a + 16 + live[a] <= b + 8 && b + 8 + live[b] <= l.top
  {
    hide Tiled, FreeOk;
    assert LiveAt(l, live, a) && LiveAt(l, live, b);
    NoOverlap(l, a, b);
    NextIsEdge(l, a);
    NextIsEdge(l, b);
  }

  lemma FreeChunk(l: Layout, held: map<nat, nat>, live: map<nat, nat>, a: nat)
    requires HeapOk(l, held, live) && a in held
    ensures IsFree(l, a) && held[a] == l.heads[a].size && Lonely(l, a) && a !in live
    ensures Next(l, a) != l.top && IsChunk(l, Next(l, a)) && Edge(l, Next(l, a))
    ensures held[a] % 8 == 0 && 32 <= held[a] && Next(l, a) < l.top && a % 8 == 0
  {
    hide Tiled;
    assert FreeAt(l, held, a) && LiveAt(l, live, a);
    NextIsEdge(l, a);
    NextIsEdge(l, Next(l, a));
  }

  lemma LiveChunk(l: Layout, held: map<nat, nat>, live: map<nat, nat>, a: nat)
    requires HeapOk(l, held, live) && a in live
    ensures IsChunk(l, a) && l.heads[a].cinuse && a !in held && live[a] + 8 <= l.heads[a].size
    ensures Edge(l, Next(l, a)) && Next(l, a) <= l.top && l.heads[Next(l, a)].pinuse
    ensures l.heads[a].size % 8 == 0 && 32 <= l.heads[a].size && a % 8 == 0
  {
    hide Tiled;
    assert LiveAt(l, live, a) && FreeAt(l, held, a);
    NextIsEdge(l, a);
    ChunkOf(l, a);
  }

  lemma ChunkAboveBase(l: Layout, held: map<nat, nat>, live: map<nat, nat>, a: nat)
    requires HeapOk(l, held, live) && IsChunk(l, a)
    ensures l.base <= a
  {
    NextIsEdge(l, a);
  }

  lemma AboveBase(l: Layout, held: map<nat, nat>, live: map<nat, nat>, a: nat)
    requires HeapOk(l, held, live) && a in held
    ensures l.base <= a
  {
    FreeChunk(l, held, live, a);
    ChunkAboveBase(l, held, live, a);
  }

  lemma LiveHaveHeads(l: Layout, held: map<nat, nat>, live: map<nat, nat>)
    requires HeapOk(l, held, live)
    ensures forall a :: a in live ==> a in l.heads
  {
    hide Tiled, FreeOk;
    forall a | a in live
      ensures a in l.heads
    {
      assert LiveAt(l, live, a);
    }
  }

  lemma SplitIsInside(l: Layout, held: map<nat, nat>, live: map<nat, nat>, p: nat, nb: nat)
    requires HeapOk(l, held, live) && p in held && 0 < nb < held[p]
    ensures p + nb !in live && p + nb !in held
  {
    hide Tiled;
    FreeChunk(l, held, live, p);
    InsideIsNoEdge(l, p, p + nb);
    FreeIsEdge(l, held, live, p + nb);
  }

  lemma TopOf(l: Layout, held: map<nat, nat>, live: map<nat, nat>)
    requires HeapOk(l, held, live)
    ensures EndsOk(l) && l.top !in live && l.top !in held && l.top + l.heads[l.top].size < WORD
  {
    hide Tiled;
    assert LiveAt(l, live, l.top) && FreeAt(l, held, l.top);
  }

  lemma TopBeyondLive(l: Layout, held: map<nat, nat>, live: map<nat, nat>, nb: nat)
    requires HeapOk(l, held, live)
    ensures l.top + nb !in live
  {
    hide Tiled;
    TopIsLast(l, l.top + nb);
    assert LiveAt(l, live, l.top + nb);
  }

  /** No chunk in use changes its size. */
  predicate SizesKept(live: map<nat, nat>, h: map<nat, Head>, h': map<nat, Head>) {
    forall a :: a in live ==> a in h && a in h' && h'[a].size == h[a].size
  }

  // ---------- allocation

  lemma OccupyAt(l: Layout, held: map<nat, nat>, live: map<nat, nat>, p: nat, bytes: nat, a: nat)
    requires HeapOk(l, held, live) && p in held && bytes + 8 <= held[p]
    requires IsChunk(l, p) && Edge(l, Next(l, p))
    ensures FreeAt(Occupy(l, p), held - {p}, a) && LiveAt(Occupy(l, p), live[p := bytes], a)
  {
    hide Tiled;
    assert FreeAt(l, held, a) && LiveAt(l, live, a);
    FreeChunk(l, held, live, p);
    if a in held { FreeChunk(l, held, live, a); }
  }

  /** set_inuse_and_pinuse on a free chunk that has left its bin. */
  lemma OccupyHeap(l: Layout, held: map<nat, nat>, live: map<nat, nat>, p: nat, bytes: nat)
    requires HeapOk(l, held, live) && p in held && bytes + 8 <= held[p]
    ensures IsChunk(l, p) && Edge(l, Next(l, p))
    ensures HeapOk(Occupy(l, p), held - {p}, live[p := bytes])
  {
    hide Tiled, FreeAt, LiveAt;
    FreeChunk(l, held, live, p);
    OccupyTiled(l, p);
    var m, held', live' := Occupy(l, p), held - {p}, live[p := bytes];
    forall a
      ensures FreeAt(m, held', a) && LiveAt(m, live', a)
    {
      OccupyAt(l, held, live, p, bytes, a);
    }
    EndsOf(m);
  }

  lemma SplitAt(l: Layout, held: map<nat, nat>, live: map<nat, nat>, p: nat, nb: nat, bytes: nat, a: nat)
    requires HeapOk(l, held, live) && p in held && Splittable(l, p, nb) && bytes + 8 <= nb <= held[p]
             && !Edge(l, p + nb)
    ensures FreeAt(Split(l, p, nb), (held - {p})[p + nb := held[p] - nb], a)
    ensures LiveAt(Split(l, p, nb), live[p := bytes], a)
  {
    hide Tiled;
    assert FreeAt(l, held, a) && LiveAt(l, live, a) && FreeAt(l, held, p + nb) && LiveAt(l, live, p + nb);
    FreeChunk(l, held, live, p);
    if a in held { FreeChunk(l, held, live, a); }
  }

  /** The front of a free chunk goes into use and the rest becomes a free chunk. */
  lemma SplitHeap(l: Layout, held: map<nat, nat>, live: map<nat, nat>, p: nat, nb: nat, bytes: nat)
    requires HeapOk(l, held, live) && p in held && bytes + 8 <= nb
    requires 32 <= nb && nb % 8 == 0 && nb + 32 <= held[p]
    ensures IsChunk(l, p) && nb <= l.heads[p].size && p + nb !in held
    ensures HeapOk(Split(l, p, nb), (held - {p})[p + nb := held[p] - nb], live[p := bytes])
  {
    hide Tiled, FreeAt, LiveAt;
    FreeChunk(l, held, live, p);
    SplitTiled(l, p, nb);
    FreeIsEdge(l, held, live, p + nb);
    var m, held', live' := Split(l, p, nb), (held - {p})[p + nb := held[p] - nb], live[p := bytes];
    forall a
      ensures FreeAt(m, held', a) && LiveAt(m, live', a)
    {
      SplitAt(l, held, live, p, nb, bytes, a);
    }
    EndsOf(m);
  }

  lemma FreeIsEdge(l: Layout, held: map<nat, nat>, live: map<nat, nat>, a: nat)
    requires HeapOk(l, held, live)
    ensures a in held || a in live ==> Edge(l, a)
  {
    hide Tiled;
    assert FreeAt(l, held, a) && LiveAt(l, live, a);
  }

  lemma SplitTopAt(l: Layout, held: map<nat, nat>, live: map<nat, nat>, nb: nat, bytes: nat, a: nat)
    requires HeapOk(l, held, live) && 32 <= nb && nb < l.heads[l.top].size && bytes + 8 <= nb
    ensures FreeAt(SplitTop(l, nb), held, a) && LiveAt(SplitTop(l, nb), live[l.top := bytes], a)
  {
    hide Tiled;
    assert FreeAt(l, held, a) && LiveAt(l, live, a);
    TopIsLast(l, l.top + nb);
    if a in held { FreeChunk(l, held, live, a); }
  }

  /** The front of top goes into use. */
  lemma SplitTopHeap(l: Layout, held: map<nat, nat>, live: map<nat, nat>, nb: nat, bytes: nat)
    requires HeapOk(l, held, live) && bytes + 8 <= nb
    requires 32 <= nb && nb % 8 == 0 && nb < l.heads[l.top].size
    ensures HeapOk(SplitTop(l, nb), held, live[l.top := bytes]) && End(SplitTop(l, nb)) == End(l)
    ensures l.top !in live
  {
    hide Tiled, FreeAt;
    SplitTopTiled(l, nb);
    assert LiveAt(l, live, l.top);
    var m, live' := SplitTop(l, nb), live[l.top := bytes];
    forall a
      ensures FreeAt(m, held, a) && LiveAt(m, live', a)
    {
      SplitTopAt(l, held, live, nb, bytes, a);
    }
    EndsOf(m);
  }

  lemma GrowTopAt(l: Layout, held: map<nat, nat>, live: map<nat, nat>, n: nat, a: nat)
    requires HeapOk(l, held, live)
    ensures FreeAt(GrowTop(l, n), held, a) && LiveAt(GrowTop(l, n), live, a)
  {
    hide Tiled;
    assert FreeAt(l, held, a) && LiveAt(l, live, a);
    if a in held { FreeChunk(l, held, live, a); }
  }

  /** sys_alloc extends top. */
  lemma GrowTopHeap(l: Layout, held: map<nat, nat>, live: map<nat, nat>, n: nat)
    requires HeapOk(l, held, live) && l.top + l.heads[l.top].size + n < WORD
    ensures HeapOk(GrowTop(l, n), held, live) && End(GrowTop(l, n)) == End(l) + n
  {
    hide Tiled, FreeAt, LiveAt;
    GrowTopTiled(l, n);
    var m := GrowTop(l, n);
    forall a
      ensures FreeAt(m, held, a) && LiveAt(m, live, a)
    {
      GrowTopAt(l, held, live, n, a);
    }
    EndsOf(m);
  }

  // ---------- freeing

  /** The free neighbours of the chunk p in use are what lies in a .. e besides p. */
  ghost predicate Gathers(l: Layout, held: map<nat, nat>, p: nat, a: nat, e: nat) {
    && IsChunk(l, a) && IsChunk(l, p) && l.heads[a].pinuse && l.heads[p].cinuse && a <= p < e
    && (a == p || (a in held && Next(l, a) == p))
    && (e == Next(l, p) || (Next(l, p) in held && IsChunk(l, Next(l, p)) && e == Next(l, Next(l, p))))
  }

  /** The free chunks that a .. e swallows. */
  function Swallowed(l: Layout, p: nat, a: nat): set<nat>
    requires IsChunk(l, p)
  {
    {a, Next(l, p)}
  }

  lemma Between(l: Layout, held: map<nat, nat>, live: map<nat, nat>, p: nat, a: nat, e: nat, x: nat)
    requires HeapOk(l, held, live) && Gathers(l, held, p, a, e) && x in l.starts && a <= x < e
    ensures x == a || x == p || x == Next(l, p)
  {
    hide Tiled, FreeOk, LiveOk;
    ChunkOf(l, x);
    if a < x < p { NoOverlap(l, a, x); }
    if p < x {
      NoOverlap(l, p, x);
      if Next(l, p) < x { NoOverlap(l, Next(l, p), x); }
    }
  }

  lemma CoalesceAt(l: Layout, held: map<nat, nat>, live: map<nat, nat>, p: nat, a: nat, e: nat, x: nat)
    requires HeapOk(l, held, live) && p in live && Gathers(l, held, p, a, e)
    requires IsChunk(l, e) && l.heads[e].cinuse
    ensures FreeAt(Coalesce(l, a, e), (held - Swallowed(l, p, a))[a := e - a], x)
    ensures LiveAt(Coalesce(l, a, e), live - {p}, x)
  {
    hide Tiled;
    assert FreeAt(l, held, x) && LiveAt(l, live, x);
    if IsChunk(l, x) && a <= x < e { Between(l, held, live, p, a, e, x); }
    if x in held {
      FreeChunk(l, held, live, x);
      ChunkOf(l, x);
      if x < a { NoOverlap(l, x, a); }
    }
  }

  /** dlfree merges the block with its free neighbours into one free chunk. */
  lemma CoalesceHeap(l: Layout, held: map<nat, nat>, live: map<nat, nat>, p: nat, a: nat, e: nat)
    requires HeapOk(l, held, live) && p in live && Gathers(l, held, p, a, e)
    requires IsChunk(l, e) && l.heads[e].cinuse
    ensures HeapOk(Coalesce(l, a, e), (held - Swallowed(l, p, a))[a := e - a], live - {p})
  {
    hide Tiled, FreeAt, LiveAt;
    CoalesceTiled(l, a, e);
    var m, held', live' := Coalesce(l, a, e), (held - Swallowed(l, p, a))[a := e - a], live - {p};
    forall x
      ensures FreeAt(m, held', x) && LiveAt(m, live', x)
    {
      CoalesceAt(l, held, live, p, a, e, x);
    }
    EndsOf(m);
  }

  lemma NotTop(l: Layout, held: map<nat, nat>, live: map<nat, nat>, a: nat, e: nat)
    requires HeapOk(l, held, live) && IsChunk(l, a) && IsChunk(l, e)
    ensures a < l.top && e < l.top
  {
  }

  /** The merged chunk begins where no other block in use begins. */
  lemma HeadOfMerged(l: Layout, held: map<nat, nat>, live: map<nat, nat>, p: nat, a: nat, e: nat)
    requires HeapOk(l, held, live) && Gathers(l, held, p, a, e)
    ensures a in live ==> a == p
  {
    hide Tiled;
    assert LiveAt(l, live, a) && FreeAt(l, held, a);
  }

  lemma MergedSize(l: Layout, held: map<nat, nat>, live: map<nat, nat>, p: nat, a: nat, e: nat)
    requires HeapOk(l, held, live) && Gathers(l, held, p, a, e) && IsChunk(l, e)
    ensures (e - a) % 8 == 0 && 32 <= e - a < WORD
  {
    hide Tiled;
    NextIsEdge(l, a);
    NextIsEdge(l, e);
    NoOverlap(l, a, e);
  }

  lemma PreviousIsHeld(l: Layout, held: map<nat, nat>, live: map<nat, nat>, p: nat)
    requires HeapOk(l, held, live) && p in live && p in l.heads && !l.heads[p].pinuse
    ensures p in l.foots && l.foots[p] <= p
    ensures var a := p - l.foots[p];
            a in held && held[a] == l.foots[p] && IsChunk(l, a) && l.heads[a].pinuse && Next(l, a) == p
  {
    hide Tiled;
    assert LiveAt(l, live, p);
    FootFindsPrevious(l, p);
    var a := p - l.foots[p];
    assert FreeAt(l, held, a);
  }

  /** The chunk behind a block in use is top, in use, or held. */
  lemma NextHeld(l: Layout, held: map<nat, nat>, live: map<nat, nat>, p: nat)
    requires HeapOk(l, held, live) && p in live
    ensures IsChunk(l, p) && Next(l, p) in l.heads
    ensures l.heads[Next(l, p)].cinuse ==> IsChunk(l, Next(l, p)) && Next(l, p) !in held
    ensures !l.heads[Next(l, p)].cinuse && Next(l, p) != l.top ==>
              Next(l, p) in held && held[Next(l, p)] == l.heads[Next(l, p)].size
              && IsChunk(l, Next(l, p)) && IsChunk(l, Next(l, Next(l, p))) && l.heads[Next(l, Next(l, p))].cinuse
    ensures Next(l, p) == l.top ==> Next(l, p) !in held
  {
    hide Tiled;
    LiveChunk(l, held, live, p);
    var n := Next(l, p);
    assert FreeAt(l, held, n);
    if n in held { FreeChunk(l, held, live, n); }
    TopOf(l, held, live);
  }

  lemma CoalesceTopAt(l: Layout, held: map<nat, nat>, live: map<nat, nat>, p: nat, a: nat, x: nat)
    requires HeapOk(l, held, live) && p in live && Gathers(l, held, p, a, l.top) && Next(l, p) == l.top
    ensures a < l.top
    ensures FreeAt(CoalesceTop(l, a), held - {a}, x)
    ensures LiveAt(CoalesceTop(l, a), live - {p}, x)
  {
    hide Tiled;
    assert FreeAt(l, held, x) && LiveAt(l, live, x);
    NextIsEdge(l, a);
    if IsChunk(l, x) {
      NextIsEdge(l, x);
      if a <= x { Between(l, held, live, p, a, l.top, x); }
    }
    if x in held {
      FreeChunk(l, held, live, x);
      ChunkOf(l, x);
      if x < a { NoOverlap(l, x, a); }
    }
  }

  /** dlfree merges the block, and a free chunk before it, into top. */
  lemma CoalesceTopHeap(l: Layout, held: map<nat, nat>, live: map<nat, nat>, p: nat, a: nat)
    requires HeapOk(l, held, live) && p in live && Gathers(l, held, p, a, l.top) && Next(l, p) == l.top
    ensures a < l.top
    ensures HeapOk(CoalesceTop(l, a), held - {a}, live - {p}) && End(CoalesceTop(l, a)) == End(l)
  {
    hide Tiled, FreeAt, LiveAt;
    CoalesceTopTiled(l, a);
    var m, held', live' := CoalesceTop(l, a), held - {a}, live - {p};
    forall x
      ensures FreeAt(m, held', x) && LiveAt(m, live', x)
    {
      CoalesceTopAt(l, held, live, p, a, x);
    }
    EndsOf(m);
  }
}
