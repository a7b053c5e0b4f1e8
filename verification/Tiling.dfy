/** Boundary tags: how dlmalloc's chunks cover a segment
    (foreign/libffi/src/dlmalloc.c: head and prev_foot of malloc_chunk). */
module Tiling {

  datatype Head = Head(size: nat, pinuse: bool, cinuse: bool)

  /** The tags in memory, the places where chunks begin below the top chunk, and for
      each of them (and top) the chunk just before.  Words of `heads` and `foots` at
      other addresses are leftovers. */
  datatype Layout = Layout(heads: map<nat, Head>, foots: map<nat, nat>,
                           starts: set<nat>, prev: map<nat, nat>, base: nat, top: nat)

  predicate IsChunk(l: Layout, a: nat) { a in l.starts && a in l.heads }

  function Next(l: Layout, a: nat): nat
    requires IsChunk(l, a)
  {
    a + l.heads[a].size
  }

  predicate Edge(l: Layout, a: nat) { (a in l.starts || a == l.top) && a in l.heads }

  predicate IsFree(l: Layout, a: nat) { IsChunk(l, a) && !l.heads[a].cinuse }

  /** The chunk at a is aligned and at least 32 bytes long, ends where the next one
      begins, and agrees with the tags there: the next head tells whether a is in
      use, and if a is free its size is repeated behind it. */
  predicate ChunkOk(l: Layout, a: nat) {
    && IsChunk(l, a) && a % 8 == 0 && l.heads[a].size % 8 == 0 && 32 <= l.heads[a].size
    && l.base <= a < l.top
    && var n := Next(l, a);
       && Edge(l, n)
       && l.heads[n].pinuse == l.heads[a].cinuse
       && (l.heads[a].cinuse || (n in l.foots && l.foots[n] == l.heads[a].size))
  }

  /** Every edge but base has a chunk ending at it. */
  predicate EdgeOk(l: Layout, b: nat) {
    b != l.base ==> b in l.prev && IsChunk(l, l.prev[b]) && Next(l, l.prev[b]) == b
  }

  predicate EndsOk(l: Layout) {
    && Edge(l, l.base) && l.heads[l.base].pinuse
    && Edge(l, l.top) && l.top % 8 == 0 && l.top !in l.starts
    && !l.heads[l.top].cinuse && l.heads[l.top].pinuse
  }

  ghost predicate Tiled(l: Layout) {
    && EndsOk(l)
    && (forall a :: a in l.starts ==> ChunkOk(l, a))
    && (forall b :: Edge(l, b) ==> EdgeOk(l, b))
  }

  // ---------- consequences

  lemma ChunkOf(l: Layout, a: nat)
    requires Tiled(l) && a in l.starts
    ensures ChunkOk(l, a)
  {
  }

  lemma EdgeOf(l: Layout, b: nat)
    requires Tiled(l) && Edge(l, b)
    ensures EdgeOk(l, b)
  {
  }

  lemma EndsOf(l: Layout)
    requires Tiled(l)
    ensures EndsOk(l)
  {
  }

  /** Chunks do not overlap. */
  lemma {:induction false} NoOverlap(l: Layout, a: nat, b: nat)
    requires Tiled(l) && IsChunk(l, a) && Edge(l, b) && a < b
    ensures Next(l, a) <= b
    decreases b
  {
    hide Tiled;
    ChunkOf(l, a);
    EdgeOf(l, b);
    var p := l.prev[b];
    ChunkOf(l, p);
    if a < p {
      NoOverlap(l, a, p);
    } else if p < a {
      NoOverlap(l, p, a);
    }
  }

  /** Every byte between base and top lies in a chunk. */
  lemma {:induction false} ByteHasChunk(l: Layout, b: nat, x: nat) returns (a: nat)
    requires Tiled(l) && Edge(l, b) && l.base <= x < b
    ensures IsChunk(l, a) && a <= x < Next(l, a)
    decreases b
  {
    hide Tiled;
    EdgeOf(l, b);
    a := l.prev[b];
    ChunkOf(l, a);
    if x < a {
      a := ByteHasChunk(l, a, x);
    }
  }

  /** ... and in no other. */
  lemma ByteHasOneChunk(l: Layout, a: nat, b: nat, x: nat)
    requires Tiled(l) && IsChunk(l, a) && IsChunk(l, b)
    requires a <= x < Next(l, a) && b <= x < Next(l, b)
    ensures a == b
  {
    hide Tiled;
    if a < b {
      NoOverlap(l, a, b);
    } else if b < a {
      NoOverlap(l, b, a);
    }
  }

  /** Chunks that end at the same edge are the same. */
  lemma SameEnd(l: Layout, a: nat, x: nat)
    requires Tiled(l) && IsChunk(l, a) && IsChunk(l, x) && Next(l, x) == Next(l, a)
    ensures x == a
  {
    hide Tiled;
    ChunkOf(l, a);
    ChunkOf(l, x);
    ByteHasOneChunk(l, a, x, Next(l, a) - 1);
  }

  lemma InsideIsNoEdge(l: Layout, a: nat, r: nat)
    requires Tiled(l) && IsChunk(l, a) && a < r < Next(l, a)
    ensures !Edge(l, r)
  {
    hide Tiled;
    if Edge(l, r) { NoOverlap(l, a, r); }
  }

  lemma NextIsEdge(l: Layout, a: nat)
    requires Tiled(l) && IsChunk(l, a)
    ensures Edge(l, Next(l, a)) && Next(l, a) <= l.top
    ensures a % 8 == 0 && l.heads[a].size % 8 == 0 && 32 <= l.heads[a].size && l.base <= a < l.top
  {
  }

  lemma BeforeEdge(l: Layout, e: nat, b: nat)
    requires Tiled(l) && IsChunk(l, e) && Edge(l, b) && e < b
    ensures b in l.prev && e <= l.prev[b]
  {
    hide Tiled;
    ChunkOf(l, e);
    EdgeOf(l, b);
    ChunkOf(l, l.prev[b]);
    if l.prev[b] < e { NoOverlap(l, l.prev[b], e); }
  }

  /** The chunk before an edge is the one its prev_foot points to, if it is free. */
  lemma FootFindsPrevious(l: Layout, b: nat)
    requires Tiled(l) && Edge(l, b) && !l.heads[b].pinuse
    ensures b in l.foots && l.foots[b] <= b
    ensures var p := b - l.foots[b];
            IsFree(l, p) && Next(l, p) == b && l.heads[p].size == l.foots[b]
  {
  }

  // ---------- the ways tags change

  /** set_inuse_and_pinuse: a free chunk goes into use. */
  function Occupy(l: Layout, a: nat): Layout
    requires IsChunk(l, a) && Edge(l, Next(l, a))
  {
    var n := Next(l, a);
    l.(heads := l.heads[a := Head(l.heads[a].size, true, true)][n := l.heads[n].(pinuse := true)])
  }

  /** set_size_and_pinuse_of_inuse_chunk and set_size_and_pinuse_of_free_chunk: the
      front nb bytes of a free chunk go into use, the rest stays free. */
  function Split(l: Layout, a: nat, nb: nat): Layout
    requires IsChunk(l, a) && nb <= l.heads[a].size
  {
    var n, r, rest := Next(l, a), a + nb, l.heads[a].size - nb;
    l.(heads := l.heads[a := Head(nb, true, true)][r := Head(rest, true, false)],
       foots := l.foots[n := rest],
       starts := l.starts + {r},
       prev := l.prev[r := a][n := r])
  }

  /** The front nb bytes of top go into use. */
  function SplitTop(l: Layout, nb: nat): Layout
    requires l.top in l.heads && nb <= l.heads[l.top].size
  {
    var p := l.top;
    l.(heads := l.heads[p := Head(nb, true, true)][p + nb := Head(l.heads[p].size - nb, true, false)],
       starts := l.starts + {p},
       prev := l.prev[p + nb := p],
       top := p + nb)
  }

  /** Everything from chunk a up to edge e becomes one free chunk. */
  function Coalesce(l: Layout, a: nat, e: nat): Layout
    requires a <= e && e in l.heads
  {
    l.(heads := l.heads[a := Head(e - a, true, false)][e := l.heads[e].(pinuse := false)],
       foots := l.foots[e := e - a],
       starts := (set x | x in l.starts && !(a < x < e)),
       prev := l.prev[e := a])
  }

  /** Everything from chunk a up to top joins top. */
  function CoalesceTop(l: Layout, a: nat): Layout
    requires a <= l.top && l.top in l.heads
  {
    l.(heads := l.heads[a := Head(l.top + l.heads[l.top].size - a, true, false)],
       starts := (set x | x in l.starts && x < a),
       top := a)
  }

  /** sys_alloc appends n bytes behind top. */
  function GrowTop(l: Layout, n: nat): Layout
    requires l.top in l.heads
  {
    l.(heads := l.heads[l.top := Head(l.heads[l.top].size + n, true, false)])
  }

  /** Where the segment ends. */
  function End(l: Layout): nat
    requires l.top in l.heads
  {
    l.top + l.heads[l.top].size
  }

  lemma OccupyChunk(l: Layout, a: nat, x: nat)
    requires Tiled(l) && IsFree(l, a) && l.heads[a].pinuse && Edge(l, Next(l, a)) && x in l.starts
    ensures ChunkOk(Occupy(l, a), x)
  {
    hide Tiled;
    ChunkOf(l, a);
    ChunkOf(l, x);
    if Next(l, x) == Next(l, a) { SameEnd(l, a, x); }
  }

  lemma OccupyEdge(l: Layout, a: nat, b: nat)
    requires Tiled(l) && IsChunk(l, a) && Edge(l, Next(l, a)) && Edge(l, b)
    ensures EdgeOk(Occupy(l, a), b)
  {
  }

  lemma OccupyTiled(l: Layout, a: nat)
    requires Tiled(l) && IsFree(l, a) && l.heads[a].pinuse && Next(l, a) != l.top
    ensures Edge(l, Next(l, a)) && Tiled(Occupy(l, a))
  {
    hide ChunkOk, EdgeOk;
    NextIsEdge(l, a);
    var m := Occupy(l, a);
    forall x | x in m.starts
      ensures ChunkOk(m, x)
    {
      OccupyChunk(l, a, x);
    }
    forall b | Edge(m, b)
      ensures EdgeOk(m, b)
    {
      OccupyEdge(l, a, b);
    }
  }

  predicate Splittable(l: Layout, a: nat, nb: nat) {
    && IsFree(l, a) && l.heads[a].pinuse
    && 32 <= nb && nb % 8 == 0 && nb + 32 <= l.heads[a].size
  }

  lemma SplitChunk(l: Layout, a: nat, nb: nat, x: nat)
    requires Tiled(l) && Splittable(l, a, nb) && !Edge(l, a + nb)
    requires x in l.starts || x == a + nb
    ensures ChunkOk(Split(l, a, nb), x)
  {
    hide Tiled;
    ChunkOf(l, a);
    NextIsEdge(l, a);
    if x != a + nb {
      ChunkOf(l, x);
      if Next(l, x) == Next(l, a) { SameEnd(l, a, x); }
    }
  }

  lemma SplitEdge(l: Layout, a: nat, nb: nat, b: nat)
    requires Tiled(l) && Splittable(l, a, nb) && !Edge(l, a + nb)
    requires Edge(l, b) || b == a + nb
    ensures EdgeOk(Split(l, a, nb), b)
  {
    hide Tiled;
    NextIsEdge(l, a);
    if b != a + nb {
      EdgeOf(l, b);
      if b != l.base && l.prev[b] == a { assert b == Next(l, a); }
    }
  }

  lemma SplitTiled(l: Layout, a: nat, nb: nat)
    requires Tiled(l) && Splittable(l, a, nb)
    ensures !Edge(l, a + nb) && Tiled(Split(l, a, nb))
  {
    hide ChunkOk, EdgeOk;
    var m, r := Split(l, a, nb), a + nb;
    InsideIsNoEdge(l, a, r);
    forall x | x in m.starts
      ensures ChunkOk(m, x)
    {
      SplitChunk(l, a, nb, x);
    }
    forall b | Edge(m, b)
      ensures EdgeOk(m, b)
    {
      SplitEdge(l, a, nb, b);
    }
  }

  lemma SplitTopChunk(l: Layout, nb: nat, x: nat)
    requires Tiled(l) && EndsOk(l) && 32 <= nb && nb % 8 == 0 && nb < l.heads[l.top].size
    requires x in l.starts || x == l.top
    ensures ChunkOk(SplitTop(l, nb), x)
  {
    hide Tiled;
    if l.base != l.top { ChunkOf(l, l.base); }
    if x != l.top {
      ChunkOf(l, x);
      NextIsEdge(l, x);
    }
  }

  lemma SplitTopEdge(l: Layout, nb: nat, b: nat)
    requires Tiled(l) && EndsOk(l) && 32 <= nb && nb < l.heads[l.top].size
    requires Edge(l, b) || b == l.top + nb
    ensures EdgeOk(SplitTop(l, nb), b)
  {
  }

  lemma TopIsLast(l: Layout, a: nat)
    requires Tiled(l) && l.top <= a
    ensures a !in l.starts
  {
  }

  lemma SplitTopTiled(l: Layout, nb: nat)
    requires Tiled(l) && 32 <= nb && nb % 8 == 0 && EndsOk(l) && nb < l.heads[l.top].size
    ensures Tiled(SplitTop(l, nb)) && End(SplitTop(l, nb)) == End(l)
  {
    hide ChunkOk, EdgeOk;
    var m := SplitTop(l, nb);
    forall x | x in m.starts
      ensures ChunkOk(m, x)
    {
      SplitTopChunk(l, nb, x);
    }
    forall b | Edge(m, b)
      ensures EdgeOk(m, b)
    {
      SplitTopEdge(l, nb, b);
    }
    TopIsLast(l, m.top);
  }

  lemma CoalesceChunk(l: Layout, a: nat, e: nat, x: nat)
    requires Tiled(l) && IsChunk(l, a) && IsChunk(l, e) && a < e && l.heads[a].pinuse
    requires x in l.starts && !(a < x < e)
    ensures ChunkOk(Coalesce(l, a, e), x)
  {
    hide Tiled;
    ChunkOf(l, a);
    ChunkOf(l, e);
    ChunkOf(l, x);
    NoOverlap(l, a, e);
    if x < a { NoOverlap(l, x, a); }
  }

  lemma CoalesceEdge(l: Layout, a: nat, e: nat, b: nat)
    requires Tiled(l) && IsChunk(l, a) && IsChunk(l, e) && a < e
    requires Edge(l, b) && !(a < b < e)
    ensures EdgeOk(Coalesce(l, a, e), b)
  {
    hide Tiled;
    EdgeOf(l, b);
    if b > e { BeforeEdge(l, e, b); }
    if b != l.base { NextIsEdge(l, l.prev[b]); }
  }

  lemma CoalesceTiled(l: Layout, a: nat, e: nat)
    requires Tiled(l) && IsChunk(l, a) && IsChunk(l, e) && a < e && l.heads[a].pinuse
    ensures Tiled(Coalesce(l, a, e))
  {
    hide ChunkOk, EdgeOk;
    var m := Coalesce(l, a, e);
    NextIsEdge(l, a);
    NextIsEdge(l, e);
    forall x | x in m.starts
      ensures ChunkOk(m, x)
    {
      CoalesceChunk(l, a, e, x);
    }
    forall b | Edge(m, b)
      ensures EdgeOk(m, b)
    {
      CoalesceEdge(l, a, e, b);
    }
  }

  lemma CoalesceTopChunk(l: Layout, a: nat, x: nat)
    requires Tiled(l) && EndsOk(l) && IsChunk(l, a) && a < l.top && l.heads[a].pinuse && x in l.starts && x < a
    ensures ChunkOk(CoalesceTop(l, a), x)
  {
    hide Tiled;
    ChunkOf(l, x);
    NoOverlap(l, x, a);
  }

  lemma CoalesceTopEdge(l: Layout, a: nat, b: nat)
    requires Tiled(l) && EndsOk(l) && IsChunk(l, a) && a < l.top && Edge(l, b) && b <= a
    ensures EdgeOk(CoalesceTop(l, a), b)
  {
  }

  lemma CoalesceTopTiled(l: Layout, a: nat)
    requires Tiled(l) && EndsOk(l) && IsChunk(l, a) && l.heads[a].pinuse
    ensures a < l.top && Tiled(CoalesceTop(l, a)) && End(CoalesceTop(l, a)) == End(l)
  {
    hide ChunkOk, EdgeOk;
    NextIsEdge(l, a);
    var m := CoalesceTop(l, a);
    forall x | x in m.starts
      ensures ChunkOk(m, x)
    {
      CoalesceTopChunk(l, a, x);
    }
    forall b | Edge(m, b)
      ensures EdgeOk(m, b)
    {
      CoalesceTopEdge(l, a, b);
    }
    BaseIsLeast(l, a);
  }

  lemma BaseIsLeast(l: Layout, a: nat)
    requires Tiled(l) && EndsOk(l) && IsChunk(l, a)
    ensures l.base <= a && l.base in l.starts
  {
  }

  lemma GrowTopChunk(l: Layout, n: nat, x: nat)
    requires Tiled(l) && EndsOk(l) && x in l.starts
    ensures ChunkOk(GrowTop(l, n), x)
  {
    hide Tiled;
    ChunkOf(l, x);
  }

  lemma GrowTopTiled(l: Layout, n: nat)
    requires Tiled(l) && EndsOk(l)
    ensures Tiled(GrowTop(l, n)) && End(GrowTop(l, n)) == End(l) + n
  {
    hide ChunkOk, EdgeOk;
    var m := GrowTop(l, n);
    forall x | x in m.starts
      ensures ChunkOk(m, x)
    {
      GrowTopChunk(l, n, x);
    }
    forall b | Edge(m, b)
      ensures EdgeOk(m, b)
    {
      GrowTopEdge(l, n, b);
    }
  }

  lemma GrowTopEdge(l: Layout, n: nat, b: nat)
    requires Tiled(l) && EndsOk(l) && Edge(l, b)
    ensures EdgeOk(GrowTop(l, n), b)
  {
  }
}
