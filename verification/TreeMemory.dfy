/** The 32 tree bins as the allocator holds them: roots, a map of the non-empty bins, and
    chunks linked in place (foreign/libffi/src/dlmalloc.c). */
module TreeMemory {

  import opened Words
  import opened Lists
  import opened SizeTrie
  import opened TreeBins
  import opened TreeLinks
  import opened BestFit
  import B = BinMaps

  /** Bin i's links, from its root on, stand for its tree, below the bin itself. */
  ghost predicate BinStands(m: Memory, trees: seq<Tree>, roots: seq<nat>, bin: nat -> nat, i: nat)
    requires i < |trees| == |roots|
  {
    && Stands(m, trees[i], roots[i], bin(i)) && Apart(trees[i]) && Indexed(m, Addrs(trees[i]), i)
    && bin(i) != 0 && forall j :: 0 <= j < |trees| ==> bin(i) !in Addrs(trees[j])
  }

  ghost predicate AllApart(trees: seq<Tree>) {
    forall i, j :: 0 <= i < |trees| && 0 <= j < |trees| && i != j ==> Addrs(trees[i]) !! Addrs(trees[j])
  }

  ghost predicate AllStand(m: Memory, trees: seq<Tree>, roots: seq<nat>, bin: nat -> nat) {
    |trees| == |roots| && AllApart(trees) && forall i :: 0 <= i < |trees| ==> BinStands(m, trees, roots, bin, i)
  }

  /** One bin changes, and memory only within it and at x. */
  lemma OtherBinsStand(m: Memory, trees: seq<Tree>, roots: seq<nat>, bin: nat -> nat, m': Memory, i: nat, t: Tree,
                       a: nat, x: nat)
    requires AllStand(m, trees, roots, bin) && i < |trees|
    requires forall j :: 0 <= j < |trees| && j != i ==> x !in Addrs(trees[j])
    requires forall y :: y in m && y !in Addrs(trees[i]) && y != x ==> y in m' && m'[y] == m[y]
    requires Stands(m', t, a, bin(i)) && Apart(t) && Indexed(m', Addrs(t), i)
    requires Addrs(t) <= Addrs(trees[i]) + {x} && forall j :: 0 <= j < |trees| ==> bin(j) != x
    ensures AllStand(m', trees[i := t], roots[i := a], bin)
  {
    hide Stands, Apart, Addrs;
    var trees', roots' := trees[i := t], roots[i := a];
    forall j | 0 <= j < |trees|
      ensures BinStands(m', trees', roots', bin, j)
    {
      assert BinStands(m, trees, roots, bin, j);
      if j != i {
        assert Addrs(trees[i]) !! Addrs(trees[j]);
        StandsIn(m, trees[j], roots[j], bin(j));
        StandsKept(m, m', trees[j], roots[j], bin(j));
      }
    }
  }

  class LinkedBins {
    var cells: Memory
    var roots: seq<nat>
    /** The map of non-empty bins, and the set it stands for. */
    var mapWord: bv32
    ghost var treemap: set<nat>
    /** The address of bin i, which is the parent of its root. */
    const bin: nat -> nat
    ghost var trees: seq<Tree>

    /** Memory, roots and map of bins agree with the trees. */
    ghost predicate Linked()
      reads this
    {
      && |trees| == 32 && AllStand(cells, trees, roots, bin)
      && B.Denotes(mapWord, treemap) && forall i :: i in treemap <==> 0 <= i < 32 && trees[i].Node?
    }

    ghost predicate Valid()
      reads this
    {
      Linked() && BinsOk(trees, treemap)
    }

    /** A chunk of bin i is in memory, with its size and the index of its bin. */
    lemma CellOf(i: nat, c: Chunk)
      requires Linked() && i < 32 && c in Items(trees[i])
      ensures c.addr in cells && cells[c.addr].size == c.size && cells[c.addr].index == i
    {
      BinOf(cells, trees, roots, bin, i);
      ItemStands(cells, trees[i], roots[i], bin(i), c);
    }

    lemma RootsFound() returns (parents: seq<nat>)
      requires Linked()
      ensures RootsStand(cells, trees, roots, parents)
    {
      parents := seq(32, i => if i >= 0 then bin(i) else 0);
      forall i | 0 <= i < 32
        ensures |roots| == 32 && Stands(cells, trees[i], roots[i], parents[i])
      {
        BinOf(cells, trees, roots, bin, i);
      }
    }

    /** treebin_at gives the bins addresses of their own. */
    constructor (bin: nat -> nat)
      requires forall i :: 0 <= i < 32 ==> bin(i) != 0
      ensures Valid() && this.bin == bin && trees == seq(32, _ => Nil) && treemap == {}
    {
      this.bin := bin;
      cells, roots, mapWord, treemap := map[], seq(32, _ => 0), 0, {};
      B.NoBits();
      trees := seq(32, _ => Nil);
    }

    /** The loop of insert_large_chunk: down from the root by the sign bit of k. */
    method Descend(i: nat, s: nat, k: nat) returns (stop: Stop)
      requires Linked() && i in treemap
      ensures trees[i].Node? && trees[i].chain != [] && stop == Descent(trees[i], s, k)
    {
      hide B.Denotes, Stands, Apart, Addrs, Descent;
      BinOf(cells, trees, roots, bin, i);
      var at, key := roots[i], k;
      ghost var t, p := trees[i], bin(i);
      StandsIn(cells, t, at, p);
      while true
        invariant t.Node? && t.chain != [] && Stands(cells, t, at, p) && Descent(t, s, key) == Descent(trees[i], s, k)
        decreases t
      {
        NodeFacts(cells, t, at, p, s, key);
        if cells[at].size == s {
          return Stop(at, OnRing);
        }
        var right := TopBit(key) == 1;
        var child := Child(cells[at], right);
        if child == 0 {
          return Stop(at, if right then AtRight else AtLeft);
        }
        t, p := if right then t.right else t.left, at;
        at := child;
        key := ShiftLeft(key);
      }
    }

    /** The stores of insert_large_chunk, for bin i and the shifted size k. */
    method Place(x: nat, s: nat, i: nat, k: nat)
      requires Linked() && i < 32 && x != 0
      requires forall j :: 0 <= j < 32 ==> x !in Addrs(trees[j]) && bin(j) != x
      modifies `cells, `roots, `mapWord, `treemap, `trees
      ensures Linked() && trees == old(trees)[i := Insert(old(trees)[i], Chunk(x, s), k)]
      ensures treemap == old(treemap) + {i}
    {
      hide B.Denotes, Stands, Apart, Addrs, AllStand, Descent, Hook, Insert;
      ghost var m, t0, c, r0, h := cells, trees[i], Chunk(x, s), roots, bin(i);
      BinOf(cells, trees, roots, bin, i);
      InsertedAddrs(t0, c, k);
      StandsIn(m, t0, roots[i], h);
      var marked := B.IsMarked(mapWord, i, treemap);
      if !marked {
        NoAddrs(t0);
        mapWord := B.Mark(mapWord, i, treemap);
        treemap := treemap + {i};
        roots := roots[i := x];
        cells := cells[x := Cell(s, x, x, 0, 0, bin(i), i)];
        FirstInBin(cells, c, k, h);
      } else {
        var stop := Descend(i, s, k);
        InsertStands(m, t0, roots[i], h, c, k, i);
        HookOutside(m, t0, roots[i], h, c, k, i);
        HookIndex(m, x, s, i, stop, Addrs(t0));
        cells := Hook(cells, x, s, i, stop);
        assert roots[i := roots[i]] == roots;
      }
      OtherBinsStand(m, trees, r0, bin, cells, i, Insert(t0, c, k), roots[i], x);
      InsertIsNode(t0, c, k);
      trees := trees[i := Insert(t0, c, k)];
    }

    /** insert_large_chunk: the chunk joins the bin of its size, on the ring of its size or
        as a new node where the bits of its size lead. */
    method InsertLargeChunk(x: nat, s: nat)
      requires Valid() && x != 0 && MIN_LARGE_SIZE <= s < WORD
      requires forall j :: 0 <= j < 32 ==> x !in Addrs(trees[j]) && bin(j) != x
      modifies `cells, `roots, `mapWord, `treemap, `trees
      ensures Valid() && Bin(s) < 32
      ensures trees == old(trees)[Bin(s) := Insert(old(trees)[Bin(s)], Chunk(x, s), KeyFor(s, Bin(s)))]
      ensures treemap == old(treemap) + {Bin(s)}
    {
      hide Addrs, AllStand, Insert, BinOk, KeyFor, TreeIndex, Bin, Belongs;
      TreeIndexIsBin(s);
      BinBelongs(s);
      var i: nat := TreeIndex(s);
      InsertIntoBin(trees[i], Chunk(x, s), i);
      Place(x, s, i, KeyFor(s, i));
    }

    /** The walk of unlink_large_chunk: down from x by right children where there are any
        and left ones otherwise, to a leaf and the slot that leads to it. */
    method FindLeaf(x: nat, ghost node: Tree, ghost p: nat) returns (r: nat, owner: nat, right: bool)
      requires node.Node? && Stands(cells, node, x, p) && x in cells && cells[x].bk == x
      ensures r == Heir(cells, node, x) && owner in cells
      ensures Base(cells, node, x) == if r == 0 then cells else Clear(cells, owner, right)
    {
      hide Stands, LeafSpot;
      ChildrenStand(cells, node, x, p);
      owner, right := x, true;
      r := cells[x].right;
      if r == 0 {
        r := cells[x].left;
        right := false;
      }
      if r == 0 {
        return;
      }
      ghost var t := if node.right.Node? then node.right else node.left;
      ghost var spot := LeafSpot(t, x, right);
      LeafFacts(cells, t, r, x, right);
      while cells[r].right != 0 || cells[r].left != 0
        invariant t.Node? && r in cells && owner in cells && Stands(cells, t, r, owner)
                  && LeafSpot(t, owner, right) == spot
        decreases t
      {
        ChildrenStand(cells, t, r, owner);
        LeafFacts(cells, t, r, owner, right);
        right := cells[r].right != 0;
        owner := r;
        r := Child(cells[r], right);
        t := if right then t.right else t.left;
        LeafFacts(cells, t, r, owner, right);
      }
      LeafFacts(cells, t, r, owner, right);
    }

    /** The stores of unlink_large_chunk. */
    method Rewire(x: nat, i: nat, ghost node: Tree, ghost na: nat, ghost np: nat, ghost c: Chunk)
      requires i < 32 && B.Denotes(mapWord, treemap) && i < |roots| && node.Node? && Stands(cells, node, na, np)
               && Apart(node) && np != 0 && np !in Addrs(node)
      requires c in node.chain && c.addr == x && (x == na && x != roots[i] ==> np in cells)
               && (x == roots[i] ==> x == na)
      modifies `cells, `roots, `mapWord, `treemap
      ensures var m, root := old(cells), x == old(roots)[i];
              var r := Heir(m, node, x);
              && cells == Unlinked(m, node, x, root) && roots == (if root then old(roots)[i := r] else old(roots))
              && treemap == (if root && r == 0 then old(treemap) - {i} else old(treemap)) && B.Denotes(mapWord, treemap)
    {
      hide B.Denotes, Stands, Apart, Addrs, Base, Heir, TakeOver;
      UnlinkSteps(cells, node, na, np, c, x == roots[i]);
      var xp := cells[x].parent;
      var r;
      if cells[x].bk != x {
        r := cells[x].bk;
        cells := Unhook(cells, x);
      } else {
        var owner, right;
        r, owner, right := FindLeaf(x, node, np);
        if r != 0 {
          cells := Clear(cells, owner, right);
        }
      }
      if xp != 0 {
        if x == roots[i] {
          roots := roots[i := r];
          if r == 0 {
            mapWord := B.Clear(mapWord, i, treemap);
            treemap := treemap - {i};
          }
        } else {
          cells := cells[xp := WithChild(cells[xp], cells[xp].left != x, r)];
        }
        if r != 0 {
          cells := TakeOver(cells, x, xp, r);
        }
      }
    }

    /** unlink_large_chunk: exactly the chunk leaves its bin. */
    method UnlinkLargeChunk(x: nat)
      requires Valid() && x in cells && cells[x].index < 32
      requires Chunk(x, cells[x].size) in Items(trees[cells[x].index])
      modifies `cells, `roots, `mapWord, `treemap, `trees
      ensures var i, c := old(cells)[x].index, Chunk(x, old(cells)[x].size);
              var t := Unlink(old(trees)[i], c, KeyFor(c.size, i));
              && Valid() && trees == old(trees)[i := t]
              && treemap == if t.Nil? then old(treemap) - {i} else old(treemap)
    {
      hide B.Denotes, Stands, Apart, Addrs, AllStand, Unlink, Heir, Unlinked, Located, NodeOf, BinOk, KeyFor, Belongs,
           Items;
      var i := cells[x].index;
      BinOf(cells, trees, roots, bin, i);
      ghost var m, t0, c, r0, root := cells, trees[i], Chunk(x, cells[x].size), roots, x == roots[i];
      ghost var k := KeyFor(c.size, i);
      UnlinkFromBin(t0, c, i);
      InBinLocated(t0, c, i);
      ghost var na, np := NodeStands(m, t0, roots[i], bin(i), c, k);
      ghost var node := NodeOf(t0, c, k);
      UnlinkStands(m, t0, roots[i], bin(i), c, k, root);
      Rewire(x, i, node, na, np, c);
      UnlinkedAddrs(t0, c, k);
      UnlinkedIndex(m, node, x, root);
      BinsAvoid(m, trees, r0, bin, i, x);
      StandsIn(m, t0, r0[i], bin(i));
      StandsIn(cells, Unlink(t0, c, k), roots[i], bin(i));
      OtherBinsStand(m, trees, r0, bin, cells, i, Unlink(t0, c, k), roots[i], x);
      assert roots == r0[i := roots[i]];
      trees := trees[i := Unlink(t0, c, k)];
    }
  }

  lemma InBinLocated(t: Tree, c: Chunk, i: nat)
    requires i <= LAST && BinOk(t, i) && c in Items(t)
    ensures Located(t, c, KeyFor(c.size, i))
  {
    UnlinkFromBin(t, c, i);
    BinWindow(c.size, i);
    ItemLocated(t, c, Lo(i), Width(i), BinBit(i));
  }

  /** An address in one bin is in no other, and no bin's own. */
  lemma BinsAvoid(m: Memory, trees: seq<Tree>, roots: seq<nat>, bin: nat -> nat, i: nat, x: nat)
    requires AllStand(m, trees, roots, bin) && i < |trees| && x in Addrs(trees[i])
    ensures forall j :: 0 <= j < |trees| && j != i ==> x !in Addrs(trees[j])
    ensures forall j :: 0 <= j < |trees| ==> bin(j) != x
  {
    forall j | 0 <= j < |trees|
      ensures bin(j) != x
    {
      assert BinStands(m, trees, roots, bin, j);
    }
  }

  /** What the steps of unlink_large_chunk find. */
  lemma UnlinkSteps(m: Memory, node: Tree, na: nat, np: nat, c: Chunk, root: bool)
    requires node.Node? && Stands(m, node, na, np) && Apart(node) && np != 0 && np !in Addrs(node) && c in node.chain
    requires (c.addr == na && !root ==> np in m) && (root ==> c.addr == na)
    ensures var x := c.addr;
            && x in m && m[x].size == c.size && m[x].parent == (if x == na then np else 0)
            && (m[x].bk == x ==> x == na)
            && (m[x].bk != x ==> m[x].fd in m && m[x].bk in m && m[x].bk != 0
                                 && Base(m, node, x) == Unhook(m, x) && Heir(m, node, x) == m[x].bk)
            && (x == na ==> var b, r := Base(m, node, x), Heir(m, node, x);
                            (!root ==> np in b) && (r != 0 ==> CanTakeOver(Redirect(b, x, np, r, root), x, r)))
  {
    var i, n := IndexOf(node.chain, c), |node.chain|;
    StandsIn(m, node, na, np);
    assert RingAt(m, node.chain, i) && RingAt(m, node.chain, After(i, n)) && RingAt(m, node.chain, Before(i, n));
    if c.addr == na {
      HeadUnlinked(m, node, na, np, root);
    }
  }

  lemma ChildrenStand(m: Memory, t: Tree, a: nat, p: nat)
    requires t.Node? && Stands(m, t, a, p)
    ensures a in m && Stands(m, t.left, m[a].left, a) && Stands(m, t.right, m[a].right, a)
    ensures (t.left.Node? <==> m[a].left != 0) && (t.right.Node? <==> m[a].right != 0)
  {
    StandsIn(m, t.left, m[a].left, a);
    StandsIn(m, t.right, m[a].right, a);
  }

  lemma LeafFacts(m: Memory, t: Tree, a: nat, owner: nat, right: bool)
    requires t.Node? && Stands(m, t, a, owner)
    ensures a in m && a != 0 && (t.left.Node? <==> m[a].left != 0) && (t.right.Node? <==> m[a].right != 0)
    ensures LeafSpot(t, owner, right) ==
            if t.right.Node? then LeafSpot(t.right, a, true)
            else if t.left.Node? then LeafSpot(t.left, a, false)
            else Spot(a, owner, right)
  {
    StandsIn(m, t, a, owner);
    ChildrenStand(m, t, a, owner);
  }

  lemma NoAddrs(t: Tree)
    ensures t.Nil? ==> Addrs(t) == {}
  {
  }

  lemma BinOf(m: Memory, trees: seq<Tree>, roots: seq<nat>, bin: nat -> nat, i: nat)
    requires AllStand(m, trees, roots, bin) && i < |trees|
    ensures |roots| == |trees| && BinStands(m, trees, roots, bin, i)
  {
  }

  lemma FirstInBin(m: Memory, c: Chunk, k: nat, h: nat)
    requires c.addr != 0 && c.addr in m && m[c.addr] == Cell(c.size, c.addr, c.addr, 0, 0, h, m[c.addr].index)
    ensures Stands(m, Insert(Nil, c, k), c.addr, h)
  {
  }

  lemma InsertIsNode(t: Tree, c: Chunk, k: nat)
    ensures Insert(t, c, k).Node?
  {
  }

  /** What the loop reads at a node, and where it goes. */
  lemma NodeFacts(m: Memory, t: Tree, a: nat, p: nat, s: nat, k: nat)
    requires t.Node? && Stands(m, t, a, p) && t.chain != []
    ensures a in m && m[a].size == t.chain[0].size && m[a].fd in m
    ensures var right := TopBit(k) == 1;
            var child := if right then t.right else t.left;
            && Stands(m, child, Child(m[a], right), a)
            && (m[a].size == s ==> Descent(t, s, k) == Stop(a, OnRing))
            && (m[a].size != s && child.Nil? ==>
                  Child(m[a], right) == 0 && Descent(t, s, k) == Stop(a, if right then AtRight else AtLeft))
            && (m[a].size != s && child.Node? ==>
                  Child(m[a], right) != 0 && child.chain != [] && Descent(t, s, k) == Descent(child, s, ShiftLeft(k)))
  {
    assert RingAt(m, t.chain, 0) && RingAt(m, t.chain, After(0, |t.chain|));
    StandsIn(m, t.left, m[a].left, a);
    StandsIn(m, t.right, m[a].right, a);
  }

  lemma HookIndex(m: Memory, x: nat, s: nat, i: nat, stop: Stop, where_: set<nat>)
    requires Hookable(m, stop) && Indexed(m, where_, i)
    ensures Indexed(Hook(m, x, s, i, stop), where_ + {x}, i)
  {
  }
}
