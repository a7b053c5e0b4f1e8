/** Where dlmalloc keeps its free chunks: the designated victim, the small bins and
    the tree bins (foreign/libffi/src/dlmalloc.c). */
module FreeBins {

  import opened Words
  import Lists
  import S = SmallLinks
  import opened SizeTrie
  import opened BinMaps
  import opened TreeBins
  import opened BestFit
  import L = TreeLinks
  import M = TreeMemory

  const MIN_CHUNK_SIZE: nat := 32

  predicate IsSmall(s: nat) { s / 8 < 32 }

  predicate ChunkSize(s: nat) { s % 8 == 0 && MIN_CHUNK_SIZE <= s < WORD }

  /** fm maps every free chunk that must be found in some place to its size; d holds
      the chunks that are designated victim.  This half is about the small bins. */
  ghost predicate SmallPart(fm: map<nat, nat>, d: set<nat>, small: seq<seq<nat>>, smallmap: set<nat>) {
    && |small| == 32
    && (forall i :: i in smallmap <==> 0 <= i < 32 && small[i] != [])
    && (forall i :: 0 <= i < 32 ==> Lists.NoDup(small[i]))
    && (forall i, a :: 0 <= i < 32 && a in small[i] ==> a in fm && a !in d && fm[a] == 8 * i)
    && (forall a :: a in fm && a !in d && IsSmall(fm[a]) ==> a in small[fm[a] / 8])
  }

  ghost predicate InTree(tree: seq<Tree>, c: Chunk)
    requires |tree| == 32
  {
    Bin(c.size) < 32 && c in Items(tree[Bin(c.size)])
  }

  /** The chunks in t are in fm, once each. */
  ghost predicate Holds(fm: map<nat, nat>, d: set<nat>, t: Tree) {
    forall c :: c in Items(t) ==>
      c.addr in fm && c.addr !in d && fm[c.addr] == c.size && Items(t)[c] == 1
  }

  ghost predicate TreePart(fm: map<nat, nat>, d: set<nat>, tree: seq<Tree>, treemap: set<nat>) {
    && BinsOk(tree, treemap)
    && (forall i :: 0 <= i < 32 ==> Holds(fm, d, tree[i]))
    && (forall a :: a in fm && a !in d && !IsSmall(fm[a]) ==> InTree(tree, Chunk(a, fm[a])))
  }

  /** The designated victim, if there is one (dvsize is not zero). */
  datatype Victim = NoVictim | Victim(addr: nat, size: nat)

  function VictimOf(dv: nat, dvsize: nat): Victim {
    if dvsize == 0 then NoVictim else Victim(dv, dvsize)
  }

  function DvSet(dv: nat, dvsize: nat): set<nat> {
    match VictimOf(dv, dvsize)
    case NoVictim => {}
    case Victim(a, _) => {a}
  }

  /** The lists, tries, bitmaps and victim of a malloc_state. */
  datatype Places = Places(small: seq<seq<nat>>, smallmap: set<nat>, tree: seq<Tree>, treemap: set<nat>,
                           dv: nat, dvsize: nat)

  ghost predicate Binned(fm: map<nat, nat>, d: set<nat>, q: Places) {
    && (forall a :: a in fm ==> ChunkSize(fm[a]))
    && SmallPart(fm, d, q.small, q.smallmap)
    && TreePart(fm, d, q.tree, q.treemap)
  }

  /** Every chunk of fm is in exactly one place: it is the designated victim, or on
      the list or in the trie of the bin for its size. */
  ghost predicate Placed(fm: map<nat, nat>, q: Places) {
    match VictimOf(q.dv, q.dvsize)
    case NoVictim => Binned(fm, {}, q)
    case Victim(a, s) => a in fm && fm[a] == s && Binned(fm, {a}, q)
  }

  // ---------- changes that concern the other half only

  predicate Elsewhere(fm: map<nat, nat>, d: set<nat>, small: bool, a: nat) {
    a in fm && a !in d && IsSmall(fm[a]) == small
  }

  /** fm and fm' agree on the small (or large) chunks outside the victims. */
  ghost predicate SameChunks(fm: map<nat, nat>, d: set<nat>, fm': map<nat, nat>, d': set<nat>, small: bool) {
    forall a :: (Elsewhere(fm, d, small, a) <==> Elsewhere(fm', d', small, a))
                && (Elsewhere(fm, d, small, a) ==> fm[a] == fm'[a])
  }

  /** Chunks of one kind do not notice a chunk of the other kind come or go. */
  lemma SameWithout(fm: map<nat, nat>, d: set<nat>, p: nat, s: nat, small: bool)
    requires IsSmall(s) != small
    ensures p !in fm ==> SameChunks(fm, d, fm[p := s], d, small)
    ensures p in fm && fm[p] == s ==> SameChunks(fm, d, fm - {p}, d, small)
  {
  }

  lemma SmallFrame(fm: map<nat, nat>, d: set<nat>, fm': map<nat, nat>, d': set<nat>,
                   small: seq<seq<nat>>, smallmap: set<nat>)
    requires SmallPart(fm, d, small, smallmap) && SameChunks(fm, d, fm', d', true)
    ensures SmallPart(fm', d', small, smallmap)
  {
    forall i, a | 0 <= i < 32 && a in small[i]
      ensures a in fm' && a !in d' && fm'[a] == 8 * i
    {
      assert Elsewhere(fm, d, true, a);
    }
    forall a | a in fm' && a !in d' && IsSmall(fm'[a])
      ensures a in small[fm'[a] / 8]
    {
      assert Elsewhere(fm', d', true, a);
    }
  }

  lemma TreeSizes(tree: seq<Tree>, treemap: set<nat>, i: nat, c: Chunk)
    requires BinsOk(tree, treemap) && i < 32 && c in Items(tree[i])
    ensures Belongs(c.size, i) && !IsSmall(c.size) && Bin(c.size) == i
  {
    assert BinOk(tree[i], i);
    ItemBelongs(tree[i], c, Lo(i), Width(i), i);
    LargeSizes(c.size, i);
  }

  lemma LargeSizes(s: nat, i: nat)
    requires i < 32 && Belongs(s, i)
    ensures !IsSmall(s) && Bin(s) == i
  {
    SmallPowers();
    MinSizeMonotone(0, i);
    BinBelongs(s);
    BelongsUnique(s, i, Bin(s));
  }

  lemma TreeFrame(fm: map<nat, nat>, d: set<nat>, fm': map<nat, nat>, d': set<nat>,
                  tree: seq<Tree>, treemap: set<nat>)
    requires TreePart(fm, d, tree, treemap) && SameChunks(fm, d, fm', d', false)
    ensures TreePart(fm', d', tree, treemap)
  {
    forall i | 0 <= i < 32
      ensures Holds(fm', d', tree[i])
    {
      HoldsFrame(fm, d, fm', d', tree, treemap, i);
    }
    forall a | a in fm' && a !in d' && !IsSmall(fm'[a])
      ensures InTree(tree, Chunk(a, fm'[a]))
    {
      assert Elsewhere(fm', d', false, a);
    }
  }

  lemma HoldsFrame(fm: map<nat, nat>, d: set<nat>, fm': map<nat, nat>, d': set<nat>,
                   tree: seq<Tree>, treemap: set<nat>, i: nat)
    requires BinsOk(tree, treemap) && i < 32 && Holds(fm, d, tree[i]) && SameChunks(fm, d, fm', d', false)
    ensures Holds(fm', d', tree[i])
  {
    forall c | c in Items(tree[i])
      ensures c.addr in fm' && c.addr !in d' && fm'[c.addr] == c.size
    {
      TreeSizes(tree, treemap, i, c);
      assert Elsewhere(fm, d, false, c.addr);
    }
  }

  // ---------- small bins

  lemma InsertSmallPart(fm: map<nat, nat>, d: set<nat>, small: seq<seq<nat>>, smallmap: set<nat>, p: nat, s: nat)
    requires SmallPart(fm, d, small, smallmap) && p !in fm && p !in d && ChunkSize(s) && IsSmall(s)
    ensures SmallPart(fm[p := s], d, small[s / 8 := [p] + small[s / 8]], smallmap + {s / 8})
  {
    var i := s / 8;
    assert p !in small[i];
  }

  /** small[i] without its k-th chunk. */
  function DropAt(l: seq<nat>, k: nat): seq<nat>
    requires k < |l|
  {
    l[..k] + l[k + 1..]
  }

  lemma DropAtSpec(l: seq<nat>, k: nat)
    requires Lists.NoDup(l) && k < |l|
    ensures Lists.NoDup(DropAt(l, k))
    ensures forall a :: a in DropAt(l, k) <==> a in l && a != l[k]
  {
  }

  lemma UnlinkSmallPart(fm: map<nat, nat>, d: set<nat>, small: seq<seq<nat>>, smallmap: set<nat>, i: nat, k: nat)
    requires SmallPart(fm, d, small, smallmap) && i < 32 && k < |small[i]|
    ensures var l := DropAt(small[i], k);
            SmallPart(fm - {small[i][k]}, d, small[i := l], if l == [] then smallmap - {i} else smallmap)
  {
    var p, l := small[i][k], DropAt(small[i], k);
    DropAtSpec(small[i], k);
    var small', fm' := small[i := l], fm - {p};
    forall j, a | 0 <= j < 32 && a in small'[j]
      ensures a in fm' && a !in d && fm'[a] == 8 * j
    {
      assert p in small[i] && a in small[j];
      assert fm[a] == 8 * j && fm[p] == 8 * i;
      assert a != p;
    }
    forall a | a in fm' && a !in d && IsSmall(fm'[a])
      ensures a in small'[fm'[a] / 8]
    {
      assert a in small[fm[a] / 8] && p in small[i];
    }
  }

  // ---------- tree bins

  lemma BinsOkUpdate(tree: seq<Tree>, treemap: set<nat>, i: nat, t: Tree)
    requires BinsOk(tree, treemap) && i < 32 && BinOk(t, i)
    ensures BinsOk(tree[i := t], if t.Nil? then treemap - {i} else treemap + {i})
    ensures tree[i].Node? ==> treemap + {i} == treemap
  {
  }

  lemma InsertTreePart(fm: map<nat, nat>, d: set<nat>, tree: seq<Tree>, treemap: set<nat>, p: nat, s: nat, i: nat)
    requires TreePart(fm, d, tree, treemap) && p !in fm && p !in d && ChunkSize(s) && !IsSmall(s)
    requires i < 32 && i == Bin(s)
    ensures TreePart(fm[p := s], d, tree[i := Insert(tree[i], Chunk(p, s), KeyFor(s, i))], treemap + {i})
  {
    hide Items, Trie, Insert, AllBelong, Pow2;
    var c, t := Chunk(p, s), Insert(tree[i], Chunk(p, s), KeyFor(s, i));
    BinBelongs(s);
    assert BinOk(tree[i], i);
    InsertIntoBin(tree[i], c, i);
    BinsOkUpdate(tree, treemap, i, t);
    HoldsInsert(fm, d, tree[i], t, c);
    forall j | 0 <= j < 32 && j != i
      ensures Holds(fm[p := s], d, tree[j])
    {
      HoldsOther(fm, d, tree[j], p, s);
    }
    var tree' := tree[i := t];
    forall a | a in fm[p := s] && a !in d && !IsSmall(fm[p := s][a])
      ensures InTree(tree', Chunk(a, fm[p := s][a]))
    {
      if a != p {
        assert InTree(tree, Chunk(a, fm[a]));
      }
    }
  }

  lemma HoldsInsert(fm: map<nat, nat>, d: set<nat>, t: Tree, t': Tree, c: Chunk)
    requires Holds(fm, d, t) && c.addr !in fm && c.addr !in d && Items(t') == Items(t) + multiset{c}
    ensures Holds(fm[c.addr := c.size], d, t')
  {
  }

  lemma HoldsOther(fm: map<nat, nat>, d: set<nat>, t: Tree, p: nat, s: nat)
    requires Holds(fm, d, t) && p !in fm
    ensures Holds(fm[p := s], d, t)
  {
  }

  lemma UnlinkTreePart(fm: map<nat, nat>, d: set<nat>, tree: seq<Tree>, treemap: set<nat>, c: Chunk, i: nat)
    requires TreePart(fm, d, tree, treemap) && i < 32 && c in Items(tree[i])
    ensures var t := Unlink(tree[i], c, KeyFor(c.size, i));
            TreePart(fm - {c.addr}, d, tree[i := t], if t.Nil? then treemap - {i} else treemap)
  {
    assert BinOk(tree[i], i) && Holds(fm, d, tree[i]);
    UnlinkFromBin(tree[i], c, i);
    WithoutChunk(fm, d, tree, treemap, c, i, Unlink(tree[i], c, KeyFor(c.size, i)));
  }

  lemma WithoutChunk(fm: map<nat, nat>, d: set<nat>, tree: seq<Tree>, treemap: set<nat>, c: Chunk, i: nat, t: Tree)
    requires TreePart(fm, d, tree, treemap) && i < 32 && c in Items(tree[i])
    requires BinOk(t, i) && Items(t) == Items(tree[i]) - multiset{c}
    ensures TreePart(fm - {c.addr}, d, tree[i := t], if t.Nil? then treemap - {i} else treemap)
  {
    hide Trie, Pow2;
    var tree', fm' := tree[i := t], fm - {c.addr};
    BinsOkUpdate(tree, treemap, i, t);
    forall j | 0 <= j < 32
      ensures Holds(fm', d, tree'[j])
    {
      if j == i {
        HoldsUnlink(fm, d, tree[i], t, c);
      } else {
        HoldsElsewhere(fm, d, tree, treemap, i, j, c);
      }
    }
    forall a | a in fm' && a !in d && !IsSmall(fm'[a])
      ensures InTree(tree', Chunk(a, fm'[a]))
    {
      StillInTree(tree, i, t, c, Chunk(a, fm[a]));
    }
  }

  lemma StillInTree(tree: seq<Tree>, i: nat, t: Tree, c: Chunk, x: Chunk)
    requires |tree| == 32 && i < 32 && InTree(tree, x) && x != c
    requires Items(t) == Items(tree[i]) - multiset{c}
    ensures InTree(tree[i := t], x)
  {
  }

  lemma HoldsUnlink(fm: map<nat, nat>, d: set<nat>, t: Tree, t': Tree, c: Chunk)
    requires Holds(fm, d, t) && c in Items(t) && Items(t') == Items(t) - multiset{c}
    ensures Holds(fm - {c.addr}, d, t')
  {
    forall x | x in Items(t')
      ensures x in Items(t) && x != c && Items(t')[x] == 1 && x.addr != c.addr
    {
      assert Items(t)[c] == 1;
    }
  }

  lemma HoldsElsewhere(fm: map<nat, nat>, d: set<nat>, tree: seq<Tree>, treemap: set<nat>, i: nat, j: nat, c: Chunk)
    requires TreePart(fm, d, tree, treemap) && i < 32 && j < 32 && i != j && c in Items(tree[i])
    ensures Holds(fm - {c.addr}, d, tree[j])
  {
    assert Holds(fm, d, tree[i]) && Holds(fm, d, tree[j]);
    forall x | x in Items(tree[j])
      ensures x.addr != c.addr
    {
      TreeSizes(tree, treemap, i, c);
      TreeSizes(tree, treemap, j, x);
    }
  }

  // ---------- whole steps

  lemma InsertSmallPlaced(fm: map<nat, nat>, q: Places, p: nat, s: nat)
    requires Placed(fm, q) && p !in fm && ChunkSize(s) && IsSmall(s)
    ensures Placed(fm[p := s], q.(small := q.small[s / 8 := [p] + q.small[s / 8]], smallmap := q.smallmap + {s / 8}))
  {
    hide TreePart;
    var d := DvSet(q.dv, q.dvsize);
    InsertSmallPart(fm, d, q.small, q.smallmap, p, s);
    SameWithout(fm, d, p, s, false);
    TreeFrame(fm, d, fm[p := s], d, q.tree, q.treemap);
  }

  lemma DropSmallPlaced(fm: map<nat, nat>, q: Places, i: nat, k: nat)
    requires Placed(fm, q) && i < 32 && k < |q.small[i]|
    ensures q.small[i][k] in fm && fm[q.small[i][k]] == 8 * i && q.small[i][k] !in DvSet(q.dv, q.dvsize)
    ensures var l := DropAt(q.small[i], k);
            Placed(fm - {q.small[i][k]},
                   q.(small := q.small[i := l], smallmap := if l == [] then q.smallmap - {i} else q.smallmap))
  {
    var d, p := DvSet(q.dv, q.dvsize), q.small[i][k];
    assert p in q.small[i];
    UnlinkSmallPart(fm, d, q.small, q.smallmap, i, k);
    SameWithout(fm, d, p, 8 * i, false);
    TreeFrame(fm, d, fm - {p}, d, q.tree, q.treemap);
  }

  lemma InsertLargePlaced(fm: map<nat, nat>, q: Places, p: nat, s: nat, i: nat)
    requires Placed(fm, q) && p !in fm && ChunkSize(s) && !IsSmall(s) && i < 32 && i == Bin(s)
    ensures Placed(fm[p := s], q.(tree := q.tree[i := Insert(q.tree[i], Chunk(p, s), KeyFor(s, i))],
                                  treemap := q.treemap + {i}))
  {
    hide TreePart, SmallPart, Insert;
    var d := DvSet(q.dv, q.dvsize);
    InsertTreePart(fm, d, q.tree, q.treemap, p, s, i);
    SameWithout(fm, d, p, s, true);
    SmallFrame(fm, d, fm[p := s], d, q.small, q.smallmap);
  }

  lemma InItsBin(fm: map<nat, nat>, d: set<nat>, tree: seq<Tree>, treemap: set<nat>, p: nat)
    requires TreePart(fm, d, tree, treemap) && p in fm && p !in d && !IsSmall(fm[p])
    ensures |tree| == 32 && InTree(tree, Chunk(p, fm[p]))
  {
  }

  lemma UnlinkLargePlaced(fm: map<nat, nat>, q: Places, p: nat, s: nat, i: nat)
    requires Placed(fm, q) && p in fm && fm[p] == s && !IsSmall(s) && p !in DvSet(q.dv, q.dvsize)
    requires i < 32 && i == Bin(s)
    ensures var t := Unlink(q.tree[i], Chunk(p, s), KeyFor(s, i));
            Placed(fm - {p}, q.(tree := q.tree[i := t], treemap := if t.Nil? then q.treemap - {i} else q.treemap))
  {
    hide SmallPart, TreePart, Unlink, Items, Bin, KeyFor;
    var d := DvSet(q.dv, q.dvsize);
    assert Binned(fm, d, q);
    InItsBin(fm, d, q.tree, q.treemap, p);
    UnlinkTreePart(fm, d, q.tree, q.treemap, Chunk(p, s), i);
    SameWithout(fm, d, p, s, true);
    SmallFrame(fm, d, fm - {p}, d, q.small, q.smallmap);
  }

  lemma SetDvPlaced(fm: map<nat, nat>, q: Places, p: nat, s: nat)
    requires Placed(fm, q) && q.dvsize == 0 && p !in fm && ChunkSize(s)
    ensures Placed(fm[p := s], q.(dv := p, dvsize := s))
  {
    hide TreePart, SmallPart;
    SmallFrame(fm, {}, fm[p := s], {p}, q.small, q.smallmap);
    TreeFrame(fm, {}, fm[p := s], {p}, q.tree, q.treemap);
  }

  lemma ClearDvPlaced(fm: map<nat, nat>, q: Places)
    requires Placed(fm, q) && q.dvsize != 0
    ensures q.dv in fm && fm[q.dv] == q.dvsize
    ensures Placed(fm - {q.dv}, q.(dv := 0, dvsize := 0))
  {
    hide TreePart, SmallPart;
    SmallFrame(fm, {q.dv}, fm - {q.dv}, {}, q.small, q.smallmap);
    TreeFrame(fm, {q.dv}, fm - {q.dv}, {}, q.tree, q.treemap);
  }

  lemma NonePlaced()
    ensures Placed(map[], Places(seq(32, _ => []), {}, seq(32, _ => Nil), {}, 0, 0))
  {
  }

  lemma PlacedShape(fm: map<nat, nat>, q: Places)
    requires Placed(fm, q)
    ensures |q.small| == 32 && |q.tree| == 32
    ensures forall i :: i in q.smallmap <==> 0 <= i < 32 && q.small[i] != []
    ensures BinsOk(q.tree, q.treemap)
    ensures forall a :: a in fm ==> ChunkSize(fm[a])
  {
  }

  lemma TreesPlaced(fm: map<nat, nat>, q: Places)
    requires Placed(fm, q)
    ensures |q.tree| == 32
  {
  }

  lemma VictimSize(fm: map<nat, nat>, q: Places)
    requires Placed(fm, q)
    ensures q.dvsize < WORD && q.dvsize % 8 == 0
  {
  }

  /** A chunk found in a tree bin is held, large and not the victim. */
  lemma TreeHeadHeld(fm: map<nat, nat>, q: Places, i: nat, c: Chunk)
    requires Placed(fm, q) && i < |q.tree| == 32 && Heads(q.tree[i], c)
    ensures c.addr in fm && fm[c.addr] == c.size && !IsSmall(c.size) && c.addr !in DvSet(q.dv, q.dvsize)
  {
    hide Items;
    HeadsIsItem(q.tree[i], c);
    TreeSizes(q.tree, q.treemap, i, c);
    assert Holds(fm, DvSet(q.dv, q.dvsize), q.tree[i]);
  }

  /** If the victim, the small bins and the trees hold nothing of nb bytes or more,
      no held chunk has nb bytes. */
  lemma NothingFits(fm: map<nat, nat>, q: Places, nb: nat)
    requires Placed(fm, q) && q.dvsize < nb < WORD
    requires forall i :: i in q.smallmap ==> 8 * i < nb
    requires BestOfAll(q.tree, nb, WORD)
    ensures forall a :: a in fm ==> fm[a] < nb
  {
    hide Items, Best, Trie;
    forall a | a in fm
      ensures fm[a] < nb
    {
      if a !in DvSet(q.dv, q.dvsize) && !IsSmall(fm[a]) && fm[a] >= nb {
        var c := Chunk(a, fm[a]);
        assert InTree(q.tree, c);
        BestOfAllMeans(q.tree, q.treemap, nb, WORD, Bin(c.size), c);
      }
    }
  }

  /** If victim, small bins and trees have nothing between nb and s bytes, no held chunk
      has. */
  lemma NothingBetween(fm: map<nat, nat>, q: Places, nb: nat, s: nat)
    requires Placed(fm, q) && (nb <= q.dvsize ==> s <= q.dvsize)
    requires forall i :: i in q.smallmap && nb <= 8 * i ==> s <= 8 * i
    requires BestOfAll(q.tree, nb, s)
    ensures forall a :: a in fm && nb <= fm[a] ==> s <= fm[a]
  {
    hide Items, Best, Trie;
    forall a | a in fm && nb <= fm[a]
      ensures s <= fm[a]
    {
      if a !in DvSet(q.dv, q.dvsize) && !IsSmall(fm[a]) {
        var c := Chunk(a, fm[a]);
        assert InTree(q.tree, c);
        BestOfAllMeans(q.tree, q.treemap, nb, s, Bin(c.size), c);
      }
    }
  }

  /** Every tree chunk is larger than every small one. */
  lemma TreesAreLarge(fm: map<nat, nat>, q: Places, nb: nat, s: nat)
    requires Placed(fm, q) && s <= MIN_LARGE_SIZE
    ensures BestOfAll(q.tree, nb, s)
  {
    hide Trie, MinSize, Best;
    forall i | 0 <= i < |q.tree|
      ensures Best(q.tree[i], nb, s)
    {
      assert BinOk(q.tree[i], i);
      MinSizeMonotone(0, i);
      FirstMinSize();
      OtherBin(q.tree[i], i, nb, s);
    }
  }

  lemma FirstMinSize()
    ensures MinSize(0) == MIN_LARGE_SIZE
  {
  }

  lemma NoTrees(fm: map<nat, nat>, q: Places, nb: nat)
    requires Placed(fm, q) && q.treemap == {}
    ensures BestOfAll(q.tree, nb, WORD)
  {
  }

  lemma NotVictim(fm: map<nat, nat>, q: Places, p: nat)
    requires Placed(fm, q) && p !in fm
    ensures p !in DvSet(q.dv, q.dvsize)
  {
  }

  /** What Placed means for one free chunk: it is the victim and in no bin, or it is
      on the list of its size once and nowhere else, or it is in the trie of its bin
      once and nowhere else. */
  lemma OnePlace(fm: map<nat, nat>, q: Places, a: nat)
    requires Placed(fm, q) && a in fm
    ensures |q.small| == 32 && |q.tree| == 32
    ensures forall i :: 0 <= i < 32 ==>
              (a in q.small[i] <==> a !in DvSet(q.dv, q.dvsize) && IsSmall(fm[a]) && i == fm[a] / 8)
    ensures forall i :: 0 <= i < 32 ==> Lists.NoDup(q.small[i])
    ensures forall i, s :: 0 <= i < 32 ==>
              Items(q.tree[i])[Chunk(a, s)] ==
              (if a !in DvSet(q.dv, q.dvsize) && !IsSmall(fm[a]) && s == fm[a] && i == Bin(s) then 1 else 0)
  {
    hide Items, Trie;
    var d := DvSet(q.dv, q.dvsize);
    forall i, s | 0 <= i < 32
      ensures Items(q.tree[i])[Chunk(a, s)] ==
              (if a !in d && !IsSmall(fm[a]) && s == fm[a] && i == Bin(s) then 1 else 0)
    {
      assert Holds(fm, d, q.tree[i]);
      if Chunk(a, s) in Items(q.tree[i]) {
        TreeSizes(q.tree, q.treemap, i, Chunk(a, s));
      } else if a !in d && !IsSmall(fm[a]) && s == fm[a] {
        assert InTree(q.tree, Chunk(a, fm[a]));
      }
    }
  }

  lemma SmallIsListed(fm: map<nat, nat>, q: Places, p: nat)
    requires Placed(fm, q) && p in fm && IsSmall(fm[p]) && p !in DvSet(q.dv, q.dvsize)
    ensures |q.small| == 32 && p in q.small[fm[p] / 8]
  {
  }

  // ---------- the bins as dlmalloc updates them

  lemma HeldAddrs(fm: map<nat, nat>, d: set<nat>, t: Tree)
    requires Holds(fm, d, t)
    ensures forall x :: x in L.Addrs(t) ==> x in fm
  {
    forall x | x in L.Addrs(t)
      ensures x in fm
    {
      var c := L.AddrHasItem(t, x);
    }
  }

  /** No chunk outside fm has a place in a tree. */
  lemma NotInTrees(fm: map<nat, nat>, q: Places, p: nat)
    requires Placed(fm, q) && p !in fm
    ensures |q.tree| == 32 && forall i :: 0 <= i < 32 ==> p !in L.Addrs(q.tree[i])
  {
    TreesPlaced(fm, q);
    forall i | 0 <= i < 32
      ensures p !in L.Addrs(q.tree[i])
    {
      HeldAddrs(fm, DvSet(q.dv, q.dvsize), q.tree[i]);
    }
  }

  /** ... and none in a small bin. */
  lemma NotListed(fm: map<nat, nat>, q: Places, p: nat)
    requires Placed(fm, q) && p !in fm
    ensures |q.small| == 32 && forall i :: 0 <= i < 32 ==> p !in q.small[i]
  {
    hide TreePart;
    assert SmallPart(fm, DvSet(q.dv, q.dvsize), q.small, q.smallmap);
  }

  /** Where a large chunk is. */
  lemma LargeIsInBin(fm: map<nat, nat>, q: Places, p: nat)
    requires Placed(fm, q) && p in fm && !IsSmall(fm[p]) && p !in DvSet(q.dv, q.dvsize)
    ensures |q.tree| == 32 && Bin(fm[p]) < 32 && Chunk(p, fm[p]) in Items(q.tree[Bin(fm[p])])
  {
  }

  lemma {:induction false} WithoutIsDrop(list: seq<nat>, p: nat) returns (k: nat)
    requires p in list
    ensures k < |list| && list[k] == p && S.Without(list, p) == DropAt(list, k)
  {
    if list[0] == p {
      k := 0;
    } else {
      var l := WithoutIsDrop(list[1..], p);
      k := l + 1;
      assert [list[0]] + DropAt(list[1..], l) == DropAt(list, k);
    }
  }

  lemma LargeIsLarge(s: nat)
    requires ChunkSize(s) && !IsSmall(s)
    ensures MIN_LARGE_SIZE <= s < WORD
  {
  }

  /** An address that a chunk can have: neither null nor that of a bin. */
  ghost predicate Usable(a: nat, treebin: nat -> nat, smallbin: nat -> nat) {
    a != 0 && forall j :: 0 <= j < 32 ==> treebin(j) != a && smallbin(j) != a
  }

  class Bins {
    const smalls: S.SmallBins
    const trees: M.LinkedBins
    var dv: nat
    var dvsize: nat
    /** The chunks kept here, with their sizes. */
    ghost var held: map<nat, nat>

    ghost function State(): Places
      reads this, smalls, trees
    {
      Places(smalls.lists, smalls.smallmap, trees.trees, trees.treemap, dv, dvsize)
    }

    ghost predicate Fits(a: nat) { Usable(a, trees.bin, smalls.bin) }

    /** The links in memory agree with the lists and trees they stand for, in which every
        chunk held has its place. */
    ghost predicate Valid()
      reads this, smalls, trees
    {
      && Placed(held, State()) && smalls.Linked() && trees.Linked()
      && forall a :: a in held ==> Fits(a)
    }

    lemma HasMaps()
      requires Valid()
      ensures Denotes(smalls.mapWord, smalls.smallmap) && Denotes(trees.mapWord, trees.treemap)
    {
      hide Denotes;
    }

    /** A tree chunk that a search found. */
    lemma TreeChunk(at: nat, c: Chunk)
      requires Valid() && at < 32 && |trees.trees| == 32 && Heads(trees.trees[at], c)
      ensures c.addr in held && held[c.addr] == c.size && ChunkSize(c.size)
      ensures !IsSmall(c.size) && c.addr !in DvSet(dv, dvsize) && (dvsize == 0 || c.addr != dv)
    {
      hide Placed, BinsOk, Heads;
      PlacedShape(held, State());
      TreeHeadHeld(held, State(), at, c);
    }

    lemma DvBound()
      requires Valid()
      ensures dvsize < WORD && dvsize % 8 == 0 && |trees.trees| == 32
    {
      hide Placed;
      PlacedShape(held, State());
      VictimSize(held, State());
    }

    lemma HasPlaces()
      requires Valid()
      ensures Placed(held, State())
    {
    }

    constructor (smallbin: nat -> nat, treebin: nat -> nat)
      requires forall i, j :: 0 <= i < j < 32 ==> smallbin(i) != smallbin(j)
      requires forall i :: 0 <= i < 32 ==> treebin(i) != 0
      ensures Valid() && held == map[] && dvsize == 0 && fresh(smalls) && fresh(trees)
      ensures smalls.bin == smallbin && trees.bin == treebin
    {
      smalls := new S.SmallBins(smallbin);
      trees := new M.LinkedBins(treebin);
      dv, dvsize := 0, 0;
      held := map[];
      NonePlaced();
      new;
      assert State() == Places(seq(32, _ => []), {}, seq(32, _ => Nil), {}, 0, 0);
    }

    /** insert_small_chunk: the chunk becomes the first of its list. */
    method InsertSmall(p: nat, s: nat)
      requires Valid() && p !in held && Fits(p) && ChunkSize(s) && IsSmall(s)
      modifies smalls, `held
      ensures Valid()
      ensures held == old(held)[p := s] && s / 8 < |old(smalls.lists)|
      ensures smalls.lists == old(smalls.lists)[s / 8 := [p] + old(smalls.lists)[s / 8]]
    {
      hide Placed, S.SmallBins.Linked, M.LinkedBins.Linked;
      PlacedShape(held, State());
      NotListed(held, State(), p);
      InsertSmallPlaced(held, State(), p, s);
      smalls.InsertSmallChunk(p, s / 8);
      held := held[p := s];
    }

    /** unlink_small_chunk. */
    method UnlinkSmall(p: nat, s: nat)
      requires Valid() && p in held && held[p] == s && IsSmall(s) && p !in DvSet(dv, dvsize)
      modifies smalls, `held
      ensures Valid()
      ensures held == old(held) - {p}
    {
      hide Placed, S.SmallBins.Linked, M.LinkedBins.Linked;
      SmallIsListed(held, State(), p);
      ghost var k := WithoutIsDrop(smalls.lists[s / 8], p);
      DropSmallPlaced(held, State(), s / 8, k);
      smalls.UnlinkSmallChunk(p, s / 8);
      held := held - {p};
    }

    /** unlink_first_small_chunk. */
    method UnlinkFirst(i: nat) returns (p: nat)
      requires Valid() && i in smalls.smallmap
      modifies smalls, `held
      ensures Valid()
      ensures p in old(held) && old(held)[p] == 8 * i && held == old(held) - {p} && (dvsize == 0 || p != dv)
      ensures p !in DvSet(dv, dvsize) && |old(smalls.lists)| == 32 && old(smalls.lists)[i] != []
              && p == old(smalls.lists)[i][0]
    {
      hide Placed, S.SmallBins.Linked, M.LinkedBins.Linked;
      PlacedShape(held, State());
      DropSmallPlaced(held, State(), i, 0);
      FirstDropped(smalls.lists[i]);
      p := smalls.UnlinkFirstSmallChunk(i);
      held := held - {p};
    }

    /** insert_large_chunk. */
    method InsertLarge(p: nat, s: nat)
      requires Valid() && p !in held && Fits(p) && ChunkSize(s) && !IsSmall(s)
      modifies trees, `held
      ensures Valid()
      ensures held == old(held)[p := s]
    {
      hide Placed, S.SmallBins.Linked, M.LinkedBins.Linked, BinsOk;
      PlacedShape(held, State());
      NotInTrees(held, State(), p);
      LargeIsLarge(s);
      BinBelongs(s);
      InsertLargePlaced(held, State(), p, s, Bin(s));
      trees.InsertLargeChunk(p, s);
      held := held[p := s];
    }

    /** unlink_large_chunk. */
    method UnlinkLarge(p: nat, s: nat)
      requires Valid() && p in held && held[p] == s && !IsSmall(s) && p !in DvSet(dv, dvsize)
      modifies trees, `held
      ensures Valid()
      ensures held == old(held) - {p}
    {
      hide Placed, S.SmallBins.Linked, M.LinkedBins.Linked, BinsOk;
      PlacedShape(held, State());
      LargeIsInBin(held, State(), p);
      trees.CellOf(Bin(s), Chunk(p, s));
      UnlinkLargePlaced(held, State(), p, s, Bin(s));
      trees.UnlinkLargeChunk(p);
      held := held - {p};
    }

    /** insert_chunk. */
    method InsertChunk(p: nat, s: nat)
      requires Valid() && p !in held && Fits(p) && ChunkSize(s)
      modifies smalls, trees, `held
      ensures Valid()
      ensures held == old(held)[p := s]
    {
      if IsSmall(s) { InsertSmall(p, s); } else { InsertLarge(p, s); }
    }

    /** unlink_chunk. */
    method UnlinkChunk(p: nat, s: nat)
      requires Valid() && p in held && held[p] == s && p !in DvSet(dv, dvsize)
      modifies smalls, trees, `held
      ensures Valid()
      ensures held == old(held) - {p}
    {
      if IsSmall(s) { UnlinkSmall(p, s); } else { UnlinkLarge(p, s); }
    }

    /** The search of tmalloc_large. */
    method FindLargeChunk(nb: nat) returns (v: Lists.Option<Chunk>, rsize: nat, ghost at: nat)
      requires Valid() && MIN_LARGE_SIZE <= nb < WORD
      ensures Remains(v, rsize, nb)
      ensures v.Some? ==>
                at < 32 && |trees.trees| == 32 && Heads(trees.trees[at], v.value) &&
                BestOfAll(trees.trees, nb, v.value.size)
      ensures v.None? ==> BestOfAll(trees.trees, nb, WORD)
    {
      hide Denotes, Placed, S.SmallBins.Linked, M.LinkedBins.Linked, BinsOk;
      HasMaps();
      PlacedShape(held, State());
      ghost var parents := trees.RootsFound();
      v, rsize, at := FindLarge(trees.cells, trees.roots, trees.mapWord, nb, trees.treemap, trees.trees, parents);
    }

    /** The search of tmalloc_small. */
    method FindSmallestChunk(nb: nat) returns (v: Chunk, rsize: nat, ghost at: nat)
      requires Valid() && trees.treemap != {} && 0 < nb < MIN_LARGE_SIZE
      ensures nb < v.size < WORD && rsize == v.size - nb
      ensures at < 32 && |trees.trees| == 32 && Heads(trees.trees[at], v) && BestOfAll(trees.trees, nb, v.size)
    {
      hide Denotes, Placed, S.SmallBins.Linked, M.LinkedBins.Linked, BinsOk;
      HasMaps();
      PlacedShape(held, State());
      ghost var parents := trees.RootsFound();
      v, rsize, at := FindSmall(trees.cells, trees.roots, trees.mapWord, nb, trees.treemap, trees.trees, parents);
    }

    /** Makes p the victim; there was none, or the old one has left the heap. */
    method SetDv(p: nat, s: nat)
      requires Valid() && dvsize == 0 && p !in held && Fits(p) && ChunkSize(s)
      modifies `dv, `dvsize, `held
      ensures Valid()
      ensures held == old(held)[p := s] && dv == p && dvsize == s
    {
      hide Placed, S.SmallBins.Linked, M.LinkedBins.Linked;
      SetDvPlaced(held, State(), p, s);
      dv, dvsize := p, s;
      held := held[p := s];
    }

    method ClearDv()
      requires Valid() && dvsize != 0
      modifies `dv, `dvsize, `held
      ensures Valid()
      ensures held == old(held) - {old(dv)} && dvsize == 0
      ensures old(dv) in old(held) && old(held)[old(dv)] == old(dvsize)
    {
      hide Placed, S.SmallBins.Linked, M.LinkedBins.Linked;
      ClearDvPlaced(held, State());
      held := held - {dv};
      dv, dvsize := 0, 0;
    }

    /** replace_dv: the old victim, known to be small, goes to its bin. */
    method ReplaceDv(p: nat, s: nat)
      requires Valid() && p !in held && Fits(p) && ChunkSize(s) && IsSmall(dvsize)
      modifies smalls, `dv, `dvsize, `held
      ensures Valid()
      ensures held == old(held)[p := s] && dv == p && dvsize == s
    {
      hide Placed, S.SmallBins.Linked, M.LinkedBins.Linked;
      if dvsize != 0 {
        PlacedShape(held, State());
        var oldDv, oldSize := dv, dvsize;
        ClearDv();
        InsertSmall(oldDv, oldSize);
        assert held == old(held);
      }
      SetDv(p, s);
    }
  }

  lemma FirstDropped(list: seq<nat>)
    ensures list != [] ==> DropAt(list, 0) == list[1..]
  {
  }
}
