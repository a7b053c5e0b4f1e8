/** The tree bins in memory: fd and bk links around the ring of a size, child and parent
    links between the heads of rings, all updated in place, and the proof that
    insert_large_chunk and unlink_large_chunk do to the links what Insert and Unlink do to
    the trees they stand for (foreign/libffi/src/dlmalloc.c). */
module TreeLinks {

  import opened Lists
  import opened SizeTrie

  /** The fields of a malloc_tree_chunk; 0 is the null pointer. */
  datatype Cell = Cell(size: nat, fd: nat, bk: nat, left: nat, right: nat, parent: nat, index: nat)

  type Memory = map<nat, Cell>

  // ---------- the tree that links stand for

  /** Place i of the ring: its neighbours, its size, and no tree links unless it is the head. */
  ghost predicate RingAt(m: Memory, chain: seq<Chunk>, i: nat)
    requires i < |chain|
  {
    var x, n := chain[i].addr, |chain|;
    && x != 0 && x in m && m[x].size == chain[i].size
    && m[x].fd == chain[After(i, n)].addr && m[x].bk == chain[Before(i, n)].addr
    && (i > 0 ==> m[x].left == 0 && m[x].right == 0 && m[x].parent == 0)
  }

  ghost predicate Ring(m: Memory, chain: seq<Chunk>) {
    |chain| > 0 && forall i :: 0 <= i < |chain| ==> RingAt(m, chain, i)
  }

  /** The links from address a on, below parent p, stand for t. */
  ghost predicate Stands(m: Memory, t: Tree, a: nat, p: nat) {
    match t
    case Nil => a == 0
    case Node(chain, left, right) =>
      && Ring(m, chain) && a == chain[0].addr && a in m && m[a].parent == p
      && Stands(m, left, m[a].left, a) && Stands(m, right, m[a].right, a)
  }

  ghost function ChainAddrs(chain: seq<Chunk>): set<nat> { set i | 0 <= i < |chain| :: chain[i].addr }

  ghost function Addrs(t: Tree): set<nat> {
    match t
    case Nil => {}
    case Node(chain, left, right) => ChainAddrs(chain) + Addrs(left) + Addrs(right)
  }

  ghost predicate NoTwice(chain: seq<Chunk>) {
    forall i, j :: 0 <= i < j < |chain| ==> chain[i].addr != chain[j].addr
  }

  /** No address occurs twice in t. */
  ghost predicate Apart(t: Tree) {
    match t
    case Nil => true
    case Node(chain, left, right) =>
      && NoTwice(chain) && ChainAddrs(chain) !! Addrs(left) && ChainAddrs(chain) !! Addrs(right)
      && Addrs(left) !! Addrs(right) && Apart(left) && Apart(right)
  }

  lemma {:induction false} StandsIn(m: Memory, t: Tree, a: nat, p: nat)
    requires Stands(m, t, a, p)
    ensures t.Nil? <==> a == 0
    ensures t.Node? ==> t.chain != [] && a == t.chain[0].addr && a in Addrs(t) && a in m && m[a].parent == p
    ensures forall x :: x in Addrs(t) ==> x != 0 && x in m
    decreases t
  {
    if t.Node? {
      assert RingAt(m, t.chain, 0);
      StandsIn(m, t.left, m[a].left, a);
      StandsIn(m, t.right, m[a].right, a);
      forall i | 0 <= i < |t.chain|
        ensures t.chain[i].addr != 0 && t.chain[i].addr in m
      {
        assert RingAt(m, t.chain, i);
      }
    }
  }

  ghost predicate Agree(m: Memory, m': Memory, where_: set<nat>) {
    forall x :: x in where_ && x in m ==> x in m' && m'[x] == m[x]
  }

  lemma RingKept(m: Memory, m': Memory, chain: seq<Chunk>)
    requires Ring(m, chain) && Agree(m, m', ChainAddrs(chain))
    ensures Ring(m', chain)
  {
    forall i | 0 <= i < |chain|
      ensures RingAt(m', chain, i)
    {
      assert RingAt(m, chain, i) && chain[i].addr in ChainAddrs(chain);
    }
  }

  lemma {:induction false} StandsKept(m: Memory, m': Memory, t: Tree, a: nat, p: nat)
    requires Stands(m, t, a, p) && Agree(m, m', Addrs(t))
    ensures Stands(m', t, a, p)
    decreases t
  {
    if t.Node? {
      RingKept(m, m', t.chain);
      assert RingAt(m, t.chain, 0) && a in ChainAddrs(t.chain);
      StandsKept(m, m', t.left, m[a].left, a);
      StandsKept(m, m', t.right, m[a].right, a);
    }
  }

  /** The ring links of x are the same. */
  ghost predicate SameRing(m: Memory, m': Memory, x: nat) {
    x in m && x in m' && m'[x].size == m[x].size && m'[x].fd == m[x].fd && m'[x].bk == m[x].bk
  }

  lemma RingTurned(m: Memory, m': Memory, chain: seq<Chunk>)
    requires Ring(m, chain) && NoTwice(chain) && SameRing(m, m', chain[0].addr)
    requires Agree(m, m', ChainAddrs(chain) - {chain[0].addr})
    ensures Ring(m', chain)
  {
    forall i | 0 <= i < |chain|
      ensures RingAt(m', chain, i)
    {
      assert RingAt(m, chain, i) && chain[i].addr in ChainAddrs(chain);
    }
  }

  /** A tree gets another parent. */
  lemma Reparented(m: Memory, m': Memory, t: Tree, a: nat, p: nat, q: nat)
    requires t.Node? && Stands(m, t, a, p) && Apart(t) && a in m && m' == m[a := m[a].(parent := q)]
    ensures Stands(m', t, a, q)
  {
    StandsIn(m, t, a, p);
    RingTurned(m, m', t.chain);
    StandsIn(m, t.left, m[a].left, a);
    StandsIn(m, t.right, m[a].right, a);
    assert a in ChainAddrs(t.chain);
    StandsKept(m, m', t.left, m[a].left, a);
    StandsKept(m, m', t.right, m[a].right, a);
  }

  // ---------- insert_large_chunk

  /** Where the descent ends: on the ring of T, or at an empty child of T. */
  datatype Place = OnRing | AtLeft | AtRight

  datatype Stop = Stop(at: nat, place: Place)

  ghost function Descent(t: Tree, s: nat, k: nat): Stop
    requires t.Node? && t.chain != []
  {
    if t.chain[0].size == s then Stop(t.chain[0].addr, OnRing)
    else
      var child := if TopBit(k) == 1 then t.right else t.left;
      if child.Node? && child.chain != [] then Descent(child, s, ShiftLeft(k))
      else Stop(t.chain[0].addr, if TopBit(k) == 1 then AtRight else AtLeft)
  }

  /** The stores at the end of the descent. */
  function Hook(m: Memory, x: nat, s: nat, index: nat, stop: Stop): Memory
    requires stop.at in m && (stop.place == OnRing ==> m[stop.at].fd in m)
  {
    var t := stop.at;
    match stop.place
    case AtLeft => m[t := m[t].(left := x)][x := Cell(s, x, x, 0, 0, t, index)]
    case AtRight => m[t := m[t].(right := x)][x := Cell(s, x, x, 0, 0, t, index)]
    case OnRing =>
      var f := m[t].fd;
      var m1 := m[t := m[t].(fd := x)];
      var m2 := m1[f := m1[f].(bk := x)];
      m2[x := Cell(s, f, t, 0, 0, 0, index)]
  }

  /** The descent ends in the tree, and the stores stay in it. */
  lemma {:induction false} DescentIn(m: Memory, t: Tree, a: nat, p: nat, s: nat, k: nat)
    requires t.Node? && Stands(m, t, a, p)
    ensures t.chain != []
    ensures var stop := Descent(t, s, k);
            stop.at in Addrs(t) && stop.at in m &&
            (stop.place == OnRing ==> m[stop.at].fd in m && m[stop.at].fd in Addrs(t))
    decreases t
  {
    assert RingAt(m, t.chain, 0);
    assert t.chain[0].addr in ChainAddrs(t.chain);
    var child := if TopBit(k) == 1 then t.right else t.left;
    var ca := if TopBit(k) == 1 then m[a].right else m[a].left;
    if t.chain[0].size == s {
      var i := After(0, |t.chain|);
      assert RingAt(m, t.chain, i);
      assert t.chain[i].addr in ChainAddrs(t.chain);
    } else if child.Node? {
      DescentIn(m, child, ca, a, s, ShiftLeft(k));
    }
  }

  /** On the ring, x comes right after the head. */
  lemma RingGrown(m: Memory, chain: seq<Chunk>, c: Chunk, index: nat)
    requires Ring(m, chain) && NoTwice(chain) && c.addr != 0 && c.addr !in ChainAddrs(chain)
    requires chain[0].addr in m && m[chain[0].addr].fd in m
    ensures var m' := Hook(m, c.addr, c.size, index, Stop(chain[0].addr, OnRing));
            Ring(m', [chain[0], c] + chain[1..])
  {
    var m' := Hook(m, c.addr, c.size, index, Stop(chain[0].addr, OnRing));
    var grown, n := [chain[0], c] + chain[1..], |chain|;
    assert RingAt(m, chain, 0) && RingAt(m, chain, After(0, n));
    forall i | 0 <= i < n + 1
      ensures RingAt(m', grown, i)
    {
      if i == 0 {
      } else if i == 1 {
      } else {
        assert RingAt(m, chain, i - 1);
        assert grown[i] == chain[i - 1];
        assert chain[i - 1].addr in ChainAddrs(chain);
        assert Before(i, n + 1) == i - 1;
      }
    }
  }

  /** The stores change nothing outside the tree but the new cell. */
  lemma HookOutside(m: Memory, t: Tree, a: nat, p: nat, c: Chunk, k: nat, index: nat)
    requires t.Node? && Stands(m, t, a, p)
    ensures t.chain != [] && Hookable(m, Descent(t, c.size, k))
    ensures forall y :: y in m && y !in Addrs(t) && y != c.addr ==>
              var m' := Hook(m, c.addr, c.size, index, Descent(t, c.size, k)); y in m' && m'[y] == m[y]
  {
    DescentIn(m, t, a, p, c.size, k);
  }

  ghost predicate Hookable(m: Memory, stop: Stop) { stop.at in m && (stop.place == OnRing ==> m[stop.at].fd in m) }

  lemma {:induction false} InsertedAddrs(t: Tree, c: Chunk, k: nat)
    requires Apart(t) && c.addr !in Addrs(t)
    ensures Apart(Insert(t, c, k)) && Addrs(Insert(t, c, k)) == Addrs(t) + {c.addr}
    decreases t
  {
    if t.Node? {
      if |t.chain| > 0 && t.chain[0].size == c.size {
        SecondAddrs(t.chain, c);
      } else if TopBit(k) == 1 {
        InsertedAddrs(t.right, c, ShiftLeft(k));
      } else {
        InsertedAddrs(t.left, c, ShiftLeft(k));
      }
    } else {
      assert [c][0] == c;
      assert ChainAddrs([c]) == {c.addr};
    }
  }

  lemma SecondAddrs(chain: seq<Chunk>, c: Chunk)
    requires |chain| > 0 && NoTwice(chain) && c.addr !in ChainAddrs(chain)
    ensures NoTwice([chain[0], c] + chain[1..])
    ensures ChainAddrs([chain[0], c] + chain[1..]) == ChainAddrs(chain) + {c.addr}
  {
    var grown := [chain[0], c] + chain[1..];
    assert grown[1] == c;
    forall i | 0 <= i < |grown|
      ensures grown[i].addr in ChainAddrs(chain) + {c.addr}
    {
      if i > 1 { assert grown[i] == chain[i - 1]; }
    }
    forall i | 0 <= i < |chain|
      ensures chain[i].addr in ChainAddrs(grown)
    {
      assert chain[i] == grown[if i == 0 then 0 else i + 1];
    }
    forall i, j | 0 <= i < j < |grown|
      ensures grown[i].addr != grown[j].addr
    {
      if j > 1 {
        assert grown[j] == chain[j - 1] && chain[j - 1].addr in ChainAddrs(chain);
        assert i > 1 ==> grown[i] == chain[i - 1];
      } else {
        assert chain[0].addr in ChainAddrs(chain);
      }
    }
  }

  /** After insert_large_chunk the links stand for the tree with the chunk inserted. */
  lemma {:induction false} InsertStands(m: Memory, t: Tree, a: nat, p: nat, c: Chunk, k: nat, index: nat)
    requires t.Node? && Stands(m, t, a, p) && Apart(t) && c.addr != 0 && c.addr !in Addrs(t) && p != c.addr
    ensures t.chain != [] && Hookable(m, Descent(t, c.size, k))
    ensures Stands(Hook(m, c.addr, c.size, index, Descent(t, c.size, k)), Insert(t, c, k), a, p)
    decreases t
  {
    HookOutside(m, t, a, p, c, k, index);
    StandsIn(m, t, a, p);
    StandsIn(m, t.left, m[a].left, a);
    StandsIn(m, t.right, m[a].right, a);
    var m' := Hook(m, c.addr, c.size, index, Descent(t, c.size, k));
    assert RingAt(m, t.chain, 0) && a in ChainAddrs(t.chain);
    if t.chain[0].size == c.size {
      RingGrown(m, t.chain, c, index);
      var i := After(0, |t.chain|);
      assert RingAt(m, t.chain, i) && t.chain[i].addr in ChainAddrs(t.chain);
      StandsKept(m, m', t.left, m[a].left, a);
      StandsKept(m, m', t.right, m[a].right, a);
    } else {
      var right := TopBit(k) == 1;
      var child, ca := if right then t.right else t.left, if right then m[a].right else m[a].left;
      var other, oa := if right then t.left else t.right, if right then m[a].left else m[a].right;
      if child.Node? {
        HookOutside(m, child, ca, a, c, ShiftLeft(k), index);
        InsertStands(m, child, ca, a, c, ShiftLeft(k), index);
        RingKept(m, m', t.chain);
      } else {
        RingTurned(m, m', t.chain);
        assert Insert(child, c, ShiftLeft(k)) == Node([c], Nil, Nil);
        NewLeaf(m', c, a);
      }
      StandsKept(m, m', other, oa, a);
    }
  }

  lemma NewLeaf(m: Memory, c: Chunk, p: nat)
    requires c.addr != 0 && c.addr in m
    requires m[c.addr] == Cell(c.size, c.addr, c.addr, 0, 0, p, m[c.addr].index)
    ensures Stands(m, Node([c], Nil, Nil), c.addr, p)
  {
  }

  // ---------- unlink_large_chunk: the ring

  /** F->bk = R; R->fd = F. */
  function Unhook(m: Memory, x: nat): Memory
    requires x in m && m[x].fd in m && m[x].bk in m
  {
    var f, r := m[x].fd, m[x].bk;
    var m1 := m[f := m[f].(bk := r)];
    m1[r := m1[r].(fd := f)]
  }

  /** The ring without its place i; a removed head is replaced by its bk neighbour. */
  ghost function Shrunk(chain: seq<Chunk>, i: nat): seq<Chunk>
    requires 1 < |chain| && i < |chain|
  {
    var n := |chain|;
    if i == 0 then [chain[n - 1]] + chain[1..n - 1] else chain[..i] + chain[i + 1..]
  }

  /** Where place k of the shrunk ring was. */
  function WasAt(i: nat, k: nat, n: nat): nat
    requires 1 < n && i < n && k < n - 1
  {
    if i == 0 then (if k == 0 then n - 1 else k) else if k < i then k else k + 1
  }

  lemma ShrunkAt(chain: seq<Chunk>, i: nat, k: nat)
    requires 1 < |chain| && i < |chain| && k < |chain| - 1
    ensures var n := |chain|; |Shrunk(chain, i)| == n - 1 && WasAt(i, k, n) < n && WasAt(i, k, n) != i
    ensures Shrunk(chain, i)[k] == chain[WasAt(i, k, |chain|)]
    ensures var n, j := |chain|, WasAt(i, k, |chain|);
            && WasAt(i, After(k, n - 1), n) == (if After(j, n) == i then After(i, n) else After(j, n))
            && WasAt(i, Before(k, n - 1), n) == (if Before(j, n) == i then Before(i, n) else Before(j, n))
  {
  }

  lemma UnhookFields(m: Memory, chain: seq<Chunk>, i: nat, j: nat)
    requires Ring(m, chain) && NoTwice(chain) && 1 < |chain| && i < |chain| && j < |chain| && i != j
    ensures var x := chain[i].addr; x in m && m[x].fd in m && m[x].bk in m
    ensures var n, x, y := |chain|, chain[i].addr, chain[j].addr;
            var m' := Unhook(m, x);
            && y in m && y in m' && m'[y].size == m[y].size
            && m'[y].left == m[y].left && m'[y].right == m[y].right && m'[y].parent == m[y].parent
            && m'[y].fd == chain[if After(j, n) == i then After(i, n) else After(j, n)].addr
            && m'[y].bk == chain[if Before(j, n) == i then Before(i, n) else Before(j, n)].addr
  {
    var n := |chain|;
    assert RingAt(m, chain, i) && RingAt(m, chain, j);
    assert RingAt(m, chain, After(i, n)) && RingAt(m, chain, Before(i, n));
    assert After(j, n) == i <==> j == Before(i, n);
    assert Before(j, n) == i <==> j == After(i, n);
  }

  lemma RingShrunk(m: Memory, chain: seq<Chunk>, i: nat)
    requires Ring(m, chain) && NoTwice(chain) && 1 < |chain| && i < |chain|
    ensures var x := chain[i].addr; x in m && m[x].fd in m && m[x].bk in m
    ensures Ring(Unhook(m, chain[i].addr), Shrunk(chain, i))
  {
    hide Shrunk, NoTwice, Unhook;
    UnhookFields(m, chain, i, After(i, |chain|));
    var m', shrunk, n := Unhook(m, chain[i].addr), Shrunk(chain, i), |chain|;
    forall k | 0 <= k < n - 1
      ensures |shrunk| == n - 1 && RingAt(m', shrunk, k)
    {
      ShrunkAt(chain, i, k);
      ShrunkAt(chain, i, After(k, n - 1));
      ShrunkAt(chain, i, Before(k, n - 1));
      var j := WasAt(i, k, n);
      UnhookFields(m, chain, i, j);
      assert RingAt(m, chain, j);
    }
    ShrunkAt(chain, i, 0);
  }

  lemma ShrunkAddrs(chain: seq<Chunk>, i: nat)
    requires NoTwice(chain) && 1 < |chain| && i < |chain|
    ensures |Shrunk(chain, i)| > 0 && NoTwice(Shrunk(chain, i))
    ensures ChainAddrs(Shrunk(chain, i)) == ChainAddrs(chain) - {chain[i].addr}
  {
    var shrunk, n := Shrunk(chain, i), |chain|;
    ShrunkAt(chain, i, 0);
    forall k | 0 <= k < n - 1
      ensures shrunk[k].addr in ChainAddrs(chain) - {chain[i].addr}
    {
      ShrunkAt(chain, i, k);
      assert chain[WasAt(i, k, n)].addr in ChainAddrs(chain);
    }
    forall j | 0 <= j < n && j != i
      ensures chain[j].addr in ChainAddrs(shrunk)
    {
      var k := if i == 0 then (if j == n - 1 then 0 else j) else if j < i then j else j - 1;
      ShrunkAt(chain, i, k);
      assert shrunk[k] == chain[j];
    }
    forall k, l | 0 <= k < l < n - 1
      ensures shrunk[k].addr != shrunk[l].addr
    {
      ShrunkAt(chain, i, k);
      ShrunkAt(chain, i, l);
    }
  }

  // ---------- unlink_large_chunk: the leaf that replaces an emptied node

  function Child(c: Cell, right: bool): nat { if right then c.right else c.left }

  function WithChild(c: Cell, right: bool, x: nat): Cell { if right then c.(right := x) else c.(left := x) }

  /** The leaf that the walk from t finds, and the child slot that leads to it. */
  datatype Spot = Spot(leaf: nat, owner: nat, right: bool)

  ghost function LeafSpot(t: Tree, owner: nat, right: bool): Spot
    requires t.Node?
  {
    if t.chain == [] then Spot(0, owner, right)
    else if t.right.Node? then LeafSpot(t.right, t.chain[0].addr, true)
    else if t.left.Node? then LeafSpot(t.left, t.chain[0].addr, false)
    else Spot(t.chain[0].addr, owner, right)
  }

  /** *RP = 0. */
  function Clear(m: Memory, o: nat, right: bool): Memory
    requires o in m
  {
    m[o := WithChild(m[o], right, 0)]
  }

  lemma {:induction false} LastLeafAddrs(t: Tree)
    requires t.Node? && Apart(t)
    ensures NoTwice(LastLeaf(t)) && Apart(DropLastLeaf(t))
    ensures Addrs(t) == ChainAddrs(LastLeaf(t)) + Addrs(DropLastLeaf(t))
    ensures ChainAddrs(LastLeaf(t)) !! Addrs(DropLastLeaf(t))
    decreases t
  {
    if t.right.Node? {
      LastLeafAddrs(t.right);
    } else if t.left.Node? {
      LastLeafAddrs(t.left);
    }
  }

  /** Clearing the slot drops the leaf from the tree and leaves its ring as it was. */
  lemma {:induction false} LeafDropped(m: Memory, t: Tree, a: nat, p: nat, right: bool)
    requires t.Node? && Stands(m, t, a, p) && Apart(t) && p in m && p !in Addrs(t) && Child(m[p], right) == a
    ensures var spot := LeafSpot(t, p, right);
            && spot.owner in m && (spot.owner == p ==> spot.right == right)
            && (spot.owner == p || spot.owner in Addrs(t))
            && |LastLeaf(t)| > 0 && spot.leaf == LastLeaf(t)[0].addr && spot.leaf in m && spot.leaf != 0
            && spot.leaf != spot.owner && m[spot.leaf].left == 0 && m[spot.leaf].right == 0
    ensures var spot := LeafSpot(t, p, right);
            var m' := Clear(m, spot.owner, spot.right);
            && Ring(m', LastLeaf(t)) && Stands(m', DropLastLeaf(t), Child(m'[p], right), p)
    decreases t
  {
    StandsIn(m, t, a, p);
    StandsIn(m, t.left, m[a].left, a);
    StandsIn(m, t.right, m[a].right, a);
    assert a in ChainAddrs(t.chain);
    var spot := LeafSpot(t, p, right);
    if t.right.Node? || t.left.Node? {
      var side := t.right.Node?;
      var child, ca := if side then t.right else t.left, Child(m[a], side);
      var other, oa := if side then t.left else t.right, Child(m[a], !side);
      LeafDropped(m, child, ca, a, side);
      var m' := Clear(m, spot.owner, spot.right);
      RingTurned(m, m', t.chain);
      StandsKept(m, m', other, oa, a);
    } else {
      var m' := Clear(m, spot.owner, spot.right);
      RingKept(m, m', t.chain);
    }
  }

  // ---------- unlink_large_chunk: the replacement takes over

  /** R->child[i] = C; C->parent = R, if there is a child. */
  function Adopt(m: Memory, x: nat, r: nat, right: bool): Memory
    requires x in m && r in m && (Child(m[x], right) != 0 ==> Child(m[x], right) in m)
  {
    var c := Child(m[x], right);
    if c == 0 then m
    else
      var m1 := m[r := WithChild(m[r], right, c)];
      m1[c := m1[c].(parent := r)]
  }

  lemma Adopted(m: Memory, x: nat, r: nat, right: bool, t: Tree, chain: seq<Chunk>)
    requires x in m && r in m && x != r && Stands(m, t, Child(m[x], right), x) && Apart(t)
    requires Ring(m, chain) && NoTwice(chain) && chain[0].addr == r && Child(m[r], right) == 0
    requires ChainAddrs(chain) !! Addrs(t) && x !in Addrs(t)
    ensures Child(m[x], right) != 0 ==> Child(m[x], right) in m
    ensures var m' := Adopt(m, x, r, right);
            && Ring(m', chain) && r in m' && Stands(m', t, Child(m'[r], right), r)
            && Child(m'[r], !right) == Child(m[r], !right) && m'[r].parent == m[r].parent
            && forall y :: y in m && y != r && y !in Addrs(t) ==> y in m' && m'[y] == m[y]
  {
    var c := Child(m[x], right);
    StandsIn(m, t, c, x);
    assert r in ChainAddrs(chain);
    if c != 0 {
      var m1 := m[r := WithChild(m[r], right, c)];
      StandsKept(m, m1, t, c, x);
      var m' := m1[c := m1[c].(parent := r)];
      Reparented(m1, m', t, c, x, r);
      RingTurned(m, m', chain);
    }
  }

  /** R->parent = XP, and both children move from X to R. */
  function TakeOver(m: Memory, x: nat, xp: nat, r: nat): Memory
    requires x in m && r in m && x != r
    requires m[x].left != 0 ==> m[x].left in m
    requires m[x].right != 0 ==> m[x].right in m
    requires x != m[x].left
  {
    var m1 := m[r := m[r].(parent := xp)];
    Adopt(Adopt(m1, x, r, false), x, r, true)
  }

  lemma TakenOver(m: Memory, x: nat, xp: nat, r: nat, chain: seq<Chunk>, left: Tree, right: Tree)
    requires x in m && r in m && x != r && x != 0
    requires Stands(m, left, m[x].left, x) && Stands(m, right, m[x].right, x)
    requires Ring(m, chain) && chain[0].addr == r && m[r].left == 0 && m[r].right == 0
    requires Apart(Node(chain, left, right)) && x !in Addrs(Node(chain, left, right))
    ensures m[x].left != 0 ==> m[x].left in m
    ensures m[x].right != 0 ==> m[x].right in m
    ensures x != m[x].left
    ensures var m' := TakeOver(m, x, xp, r);
            && Stands(m', Node(chain, left, right), r, xp)
            && forall y :: y in m && y !in Addrs(Node(chain, left, right)) ==> y in m' && m'[y] == m[y]
  {
    StandsIn(m, left, m[x].left, x);
    StandsIn(m, right, m[x].right, x);
    assert r in ChainAddrs(chain);
    var m1 := m[r := m[r].(parent := xp)];
    RingTurned(m, m1, chain);
    StandsKept(m, m1, left, m[x].left, x);
    StandsKept(m, m1, right, m[x].right, x);
    Adopted(m1, x, r, false, left, chain);
    var m2 := Adopt(m1, x, r, false);
    StandsKept(m1, m2, right, m[x].right, x);
    Adopted(m2, x, r, true, right, chain);
    var m3 := Adopt(m2, x, r, true);
    StandsKept(m2, m3, left, m2[r].left, r);
  }

  // ---------- unlink_large_chunk as a whole

  /** The links after the first half: x is off its ring, or a leaf is off the tree. */
  ghost function Base(m: Memory, node: Tree, x: nat): Memory
    requires node.Node?
  {
    if x in m && m[x].bk != x then
      if m[x].fd in m && m[x].bk in m then Unhook(m, x) else m
    else if node.right.Node? || node.left.Node? then
      var s := if node.right.Node? then LeafSpot(node.right, x, true) else LeafSpot(node.left, x, false);
      if s.owner in m then Clear(m, s.owner, s.right) else m
    else m
  }

  /** What replaces x. */
  ghost function Heir(m: Memory, node: Tree, x: nat): nat
    requires node.Node?
  {
    if x in m && m[x].bk != x then m[x].bk
    else if node.right.Node? then LeafSpot(node.right, x, true).leaf
    else if node.left.Node? then LeafSpot(node.left, x, false).leaf
    else 0
  }

  /** The parent's child slot, unless x is the root of its bin. */
  ghost function Redirect(m: Memory, x: nat, xp: nat, r: nat, root: bool): Memory {
    if root || xp !in m then m else m[xp := WithChild(m[xp], m[xp].left != x, r)]
  }

  ghost predicate CanTakeOver(m: Memory, x: nat, r: nat) {
    && x in m && r in m && x != r && x != m[x].left
    && (m[x].left != 0 ==> m[x].left in m) && (m[x].right != 0 ==> m[x].right in m)
  }

  ghost function Relinked(m: Memory, x: nat, xp: nat, r: nat, root: bool): Memory {
    var m' := Redirect(m, x, xp, r, root);
    if r != 0 && CanTakeOver(m', x, r) then TakeOver(m', x, xp, r) else m'
  }

  /** What may differ after unlinking within t below p. */
  ghost predicate Confined(m: Memory, m': Memory, t: Tree, p: nat, touched: bool) {
    forall y :: y in m && y !in Addrs(t) && !(touched && y == p) ==> y in m' && m'[y] == m[y]
  }

  /** The second half, when r heads chain and the children of x stand. */
  lemma Succeeds(m: Memory, x: nat, xp: nat, r: nat, root: bool, chain: seq<Chunk>, left: Tree, right: Tree)
    requires x in m && r in m && r != x && x != 0 && x != xp && r != 0
    requires Stands(m, left, m[x].left, x) && Stands(m, right, m[x].right, x)
    requires Ring(m, chain) && chain[0].addr == r && m[r].left == 0 && m[r].right == 0
    requires Apart(Node(chain, left, right)) && x !in Addrs(Node(chain, left, right))
             && xp !in Addrs(Node(chain, left, right))
    ensures var m' := Relinked(m, x, xp, r, root);
            && Stands(m', Node(chain, left, right), r, xp)
            && Confined(m, m', Node(chain, left, right), xp, !root)
            && (!root && xp in m ==> xp in m' && m'[xp] == WithChild(m[xp], m[xp].left != x, r))
    ensures CanTakeOver(Redirect(m, x, xp, r, root), x, r)
  {
    hide TakeOver, Ring, RingAt, Stands;
    var m1 := Redirect(m, x, xp, r, root);
    StandsKept(m, m1, left, m[x].left, x);
    StandsKept(m, m1, right, m[x].right, x);
    RingHead(m, chain);
    assert r in ChainAddrs(chain);
    RingKept(m, m1, chain);
    TakenOver(m1, x, xp, r, chain, left, right);
  }

  /** The first half has readied heir to replace the head a of t. */
  ghost predicate Ready(m: Memory, t: Tree, a: nat, b: Memory, r: nat, heir: Tree) {
    && heir.Node? && Ring(b, heir.chain) && heir.chain[0].addr == r && r in b && r != 0
    && b[r].left == 0 && b[r].right == 0
    && a in b && Stands(b, heir.left, b[a].left, a) && Stands(b, heir.right, b[a].right, a)
    && Apart(heir) && Addrs(heir) == Addrs(t) - {a}
    && Confined(m, b, t, 0, false)
  }

  lemma LeafReady(m: Memory, t: Tree, a: nat, p: nat)
    requires t.Node? && Stands(m, t, a, p) && Apart(t) && |t.chain| == 1 && (t.right.Node? || t.left.Node?)
    ensures Ready(m, t, a, Base(m, t, a), Heir(m, t, a), UnlinkAt(t, 0))
  {
    StandsIn(m, t, a, p);
    StandsIn(m, t.left, m[a].left, a);
    StandsIn(m, t.right, m[a].right, a);
    assert RingAt(m, t.chain, 0);
    var side := t.right.Node?;
    var child, other := if side then t.right else t.left, if side then t.left else t.right;
    UnlinkAtAddrs(t, 0);
    assert a in ChainAddrs(t.chain);
    LeafDropped(m, child, Child(m[a], side), a, side);
    StandsKept(m, Base(m, t, a), other, Child(m[a], !side), a);
  }

  lemma RingReady(m: Memory, t: Tree, a: nat, p: nat)
    requires t.Node? && Stands(m, t, a, p) && Apart(t) && |t.chain| > 1
    ensures Ready(m, t, a, Base(m, t, a), Heir(m, t, a), UnlinkAt(t, 0))
  {
    var chain, n := t.chain, |t.chain|;
    StandsIn(m, t, a, p);
    RingShrunk(m, chain, 0);
    UnlinkAtAddrs(t, 0);
    assert RingAt(m, chain, 0) && RingAt(m, chain, 1) && RingAt(m, chain, n - 1);
    var m1 := Unhook(m, a);
    assert chain[1].addr in ChainAddrs(chain) && chain[n - 1].addr in ChainAddrs(chain) && a in ChainAddrs(chain);
    StandsKept(m, m1, t.left, m[a].left, a);
    StandsKept(m, m1, t.right, m[a].right, a);
  }

  /** What unlinking the head a of t leaves: the heir's tree below p. */
  ghost predicate HeadGone(m: Memory, t: Tree, a: nat, p: nat, root: bool, b: Memory, r: nat, heir: Tree) {
    var m' := Relinked(b, a, p, r, root);
    && Stands(m', heir, r, p) && Confined(m, m', t, p, !root)
    && (!root ==> p in m && p in b && p in m' && m'[p] == WithChild(m[p], m[p].left != a, r))
    && (r != 0 ==> CanTakeOver(Redirect(b, a, p, r, root), a, r))
  }

  lemma ReadySucceeds(m: Memory, t: Tree, a: nat, p: nat, root: bool, b: Memory, r: nat, heir: Tree)
    requires Ready(m, t, a, b, r, heir) && a in Addrs(t) && a != 0 && p !in Addrs(t) && (!root ==> p in m)
    ensures HeadGone(m, t, a, p, root, b, r, heir)
  {
    hide Stands, Apart, Addrs, Relinked, Redirect, CanTakeOver;
    RingHead(b, heir.chain);
    HeadIn(heir);
    Succeeds(b, a, p, r, root, heir.chain, heir.left, heir.right);
  }

  lemma RingHead(m: Memory, chain: seq<Chunk>)
    requires Ring(m, chain)
    ensures |chain| > 0
  {
  }

  lemma HeadIn(t: Tree)
    requires t.Node? && |t.chain| > 0
    ensures t.chain[0].addr in Addrs(t)
  {
  }

  /** Unlinking the head of the ring at the root of t. */
  lemma HeadUnlinked(m: Memory, t: Tree, a: nat, p: nat, root: bool)
    requires t.Node? && Stands(m, t, a, p) && Apart(t) && p !in Addrs(t) && (!root ==> p in m)
    ensures t.chain != [] && HeadGone(m, t, a, p, root, Base(m, t, a), Heir(m, t, a), UnlinkAt(t, 0))
  {
    hide Relinked, Redirect, CanTakeOver, Ready;
    StandsIn(m, t, a, p);
    if |t.chain| > 1 {
      RingReady(m, t, a, p);
      ReadySucceeds(m, t, a, p, root, Base(m, t, a), Heir(m, t, a), UnlinkAt(t, 0));
    } else if t.right.Node? || t.left.Node? {
      LeafReady(m, t, a, p);
      ReadySucceeds(m, t, a, p, root, Base(m, t, a), Heir(m, t, a), UnlinkAt(t, 0));
    } else {
      assert RingAt(m, t.chain, 0);
      NoHeir(m, t, a, p, root);
    }
  }

  lemma NoHeir(m: Memory, t: Tree, a: nat, p: nat, root: bool)
    ensures var m' := Relinked(m, a, p, 0, root);
            && Confined(m, m', t, p, !root)
            && (!root && p in m ==> p in m' && m'[p] == WithChild(m[p], m[p].left != a, 0))
  {
  }

  /** Unlinking another chunk of the ring. */
  lemma MemberUnlinked(m: Memory, t: Tree, a: nat, p: nat, i: nat)
    requires t.Node? && Stands(m, t, a, p) && Apart(t) && 0 < i < |t.chain|
    ensures var x := t.chain[i].addr;
            var m' := Base(m, t, x);
            && x in m && m[x].parent == 0 && Stands(m', UnlinkAt(t, i), a, p) && Confined(m, m', t, p, false)
  {
    var chain, n, x := t.chain, |t.chain|, t.chain[i].addr;
    StandsIn(m, t, a, p);
    RingShrunk(m, chain, i);
    UnhookFields(m, chain, i, 0);
    assert RingAt(m, chain, i) && RingAt(m, chain, After(i, n)) && RingAt(m, chain, Before(i, n));
    assert chain[After(i, n)].addr in ChainAddrs(chain) && chain[Before(i, n)].addr in ChainAddrs(chain);
    var m' := Unhook(m, x);
    StandsKept(m, m', t.left, m[a].left, a);
    StandsKept(m, m', t.right, m[a].right, a);
    assert Shrunk(chain, i)[0] == chain[0];
  }

  /** The node on whose ring c is, found as Unlink finds it. */
  ghost predicate Located(t: Tree, c: Chunk, k: nat) {
    t.Node? && (c in t.chain || Located(if TopBit(k) == 1 then t.right else t.left, c, ShiftLeft(k)))
  }

  ghost function NodeOf(t: Tree, c: Chunk, k: nat): (n: Tree)
    requires Located(t, c, k)
    ensures n.Node? && c in n.chain
  {
    if c in t.chain then t else NodeOf(if TopBit(k) == 1 then t.right else t.left, c, ShiftLeft(k))
  }

  ghost function Unlinked(m: Memory, node: Tree, x: nat, root: bool): Memory
    requires node.Node?
  {
    if x in m && m[x].parent != 0 then Relinked(Base(m, node, x), x, m[x].parent, Heir(m, node, x), root)
    else Base(m, node, x)
  }

  /** Unlinking a chunk of the ring at the root of t. */
  lemma UnlinkedHere(m: Memory, t: Tree, a: nat, p: nat, c: Chunk, root: bool)
    requires t.Node? && Stands(m, t, a, p) && Apart(t) && p != 0 && p !in Addrs(t)
    requires c in t.chain && (root ==> c.addr == a) && (c.addr == a && !root ==> p in m)
    ensures var x := c.addr;
            var m', r := Unlinked(m, t, x, root), Heir(m, t, x);
            && Stands(m', UnlinkAt(t, IndexOf(t.chain, c)), if x == a then r else a, p)
            && Confined(m, m', t, p, x == a && !root)
            && (x == a && !root ==> p in m' && m'[p] == WithChild(m[p], m[p].left != a, r))
  {
    StandsIn(m, t, a, p);
    var i := IndexOf(t.chain, c);
    if i == 0 {
      HeadUnlinked(m, t, a, p, root);
      assert m[a].parent == p;
    } else {
      MemberUnlinked(m, t, a, p, i);
    }
  }

  /** After unlink_large_chunk the links stand for the tree with the chunk unlinked. */
  lemma {:induction false} UnlinkStands(m: Memory, t: Tree, a: nat, p: nat, c: Chunk, k: nat, root: bool)
    requires Stands(m, t, a, p) && Apart(t) && p != 0 && p !in Addrs(t) && Located(t, c, k)
    requires (root ==> c.addr == a) && (c.addr == a && !root ==> p in m)
    ensures var x, node := c.addr, NodeOf(t, c, k);
            var m', r := Unlinked(m, node, x, root), Heir(m, node, x);
            && Stands(m', Unlink(t, c, k), if x == a then r else a, p)
            && Confined(m, m', t, p, x == a && !root)
            && (x == a && !root ==> p in m' && m'[p] == WithChild(m[p], m[p].left != a, r))
    decreases t
  {
    if c in t.chain {
      UnlinkedHere(m, t, a, p, c, root);
    } else {
      StandsIn(m, t, a, p);
      StandsIn(m, t.left, m[a].left, a);
      StandsIn(m, t.right, m[a].right, a);
      assert a in ChainAddrs(t.chain);
      var side := TopBit(k) == 1;
      var child, other := if side then t.right else t.left, if side then t.left else t.right;
      LocatedIn(child, c, ShiftLeft(k));
      UnlinkStands(m, child, Child(m[a], side), a, c, ShiftLeft(k), false);
      var m' := Unlinked(m, NodeOf(t, c, k), c.addr, false);
      RingTurned(m, m', t.chain);
      StandsKept(m, m', other, Child(m[a], !side), a);
    }
  }

  /** The node of c stands on its own, below a parent outside it. */
  lemma {:induction false} NodeStands(m: Memory, t: Tree, a: nat, p: nat, c: Chunk, k: nat) returns (na: nat, np: nat)
    requires Stands(m, t, a, p) && Apart(t) && p != 0 && p !in Addrs(t) && Located(t, c, k)
    ensures var node := NodeOf(t, c, k);
            && Stands(m, node, na, np) && Apart(node) && np != 0 && np !in Addrs(node)
            && c.addr in Addrs(t) && na in Addrs(t)
            && (na == a ==> node == t && np == p) && (na != a ==> np in m) && (c.addr == a ==> na == a)
    decreases t
  {
    StandsIn(m, t, a, p);
    LocatedIn(t, c, k);
    if c in t.chain {
      na, np := a, p;
    } else {
      StandsIn(m, t.left, m[a].left, a);
      StandsIn(m, t.right, m[a].right, a);
      assert a in ChainAddrs(t.chain);
      var side := TopBit(k) == 1;
      LocatedIn(if side then t.right else t.left, c, ShiftLeft(k));
      na, np := NodeStands(m, if side then t.right else t.left, Child(m[a], side), a, c, ShiftLeft(k));
    }
  }

  lemma {:induction false} LocatedIn(t: Tree, c: Chunk, k: nat)
    requires Located(t, c, k)
    ensures c.addr in Addrs(t)
    decreases t
  {
    if c in t.chain {
      assert t.chain[IndexOf(t.chain, c)].addr in ChainAddrs(t.chain);
    } else {
      LocatedIn(if TopBit(k) == 1 then t.right else t.left, c, ShiftLeft(k));
    }
  }

  /** A chunk in a trie is where its size leads. */
  lemma {:induction false} ItemLocated(t: Tree, c: Chunk, lo: nat, w: nat, b: int)
    requires Window(lo, w, b) && Trie(t, lo, w) && c in Items(t)
    ensures Located(t, c, KeyAt(c.size, b))
    decreases t
  {
    if c !in t.chain {
      WhereIs(t, c, lo, w, b);
      if TopBit(KeyAt(c.size, b)) == 1 {
        ItemLocated(t.right, c, lo + w / 2, w / 2, b - 1);
      } else {
        ItemLocated(t.left, c, lo, w / 2, b - 1);
      }
    }
  }

  lemma UnlinkAtAddrs(t: Tree, i: nat)
    requires t.Node? && Apart(t) && i < |t.chain|
    ensures Apart(UnlinkAt(t, i)) && Addrs(UnlinkAt(t, i)) == Addrs(t) - {t.chain[i].addr}
  {
    assert t.chain[i].addr in ChainAddrs(t.chain);
    if |t.chain| > 1 {
      ShrunkAddrs(t.chain, i);
      assert UnlinkAt(t, i) == Node(Shrunk(t.chain, i), t.left, t.right);
    } else {
      assert ChainAddrs(t.chain) == {t.chain[0].addr};
      if t.right.Node? {
        LastLeafAddrs(t.right);
      } else if t.left.Node? {
        LastLeafAddrs(t.left);
      }
    }
  }

  lemma {:induction false} UnlinkedAddrs(t: Tree, c: Chunk, k: nat)
    requires Apart(t) && Located(t, c, k)
    ensures Apart(Unlink(t, c, k)) && Addrs(Unlink(t, c, k)) == Addrs(t) - {c.addr}
    decreases t
  {
    LocatedIn(t, c, k);
    if c in t.chain {
      UnlinkAtAddrs(t, IndexOf(t.chain, c));
    } else {
      var child := if TopBit(k) == 1 then t.right else t.left;
      LocatedIn(child, c, ShiftLeft(k));
      UnlinkedAddrs(child, c, ShiftLeft(k));
    }
  }

  // ---------- the bins in memory

  /** The index field of the chunks, which no link operation changes. */
  ghost predicate Indexed(m: Memory, where_: set<nat>, i: nat) {
    forall x :: x in where_ && x in m ==> m[x].index == i
  }

  ghost predicate IndexKept(m: Memory, m': Memory) {
    forall x :: x in m ==> x in m' && m'[x].index == m[x].index
  }

  lemma UnlinkedIndex(m: Memory, node: Tree, x: nat, root: bool)
    requires node.Node?
    ensures IndexKept(m, Unlinked(m, node, x, root))
  {
    var b := Base(m, node, x);
    assert IndexKept(m, b);
    if x in m && m[x].parent != 0 {
      var r, xp := Heir(m, node, x), m[x].parent;
      var m' := Redirect(b, x, xp, r, root);
      assert IndexKept(b, m');
      if r != 0 && CanTakeOver(m', x, r) {
        TakeOverIndex(m', x, xp, r);
      }
    }
  }

  lemma TakeOverIndex(m: Memory, x: nat, xp: nat, r: nat)
    requires CanTakeOver(m, x, r)
    ensures IndexKept(m, TakeOver(m, x, xp, r))
  {
  }

  /** The addresses of a tree are those of its chunks. */
  lemma {:induction false} AddrHasItem(t: Tree, x: nat) returns (c: Chunk)
    requires x in Addrs(t)
    ensures c in Items(t) && c.addr == x
    decreases t
  {
    if x in ChainAddrs(t.chain) {
      var i :| 0 <= i < |t.chain| && t.chain[i].addr == x;
      c := t.chain[i];
    } else if x in Addrs(t.left) {
      c := AddrHasItem(t.left, x);
    } else {
      c := AddrHasItem(t.right, x);
    }
  }

  /** A chunk of the tree is in memory with its size. */
  lemma {:induction false} ItemStands(m: Memory, t: Tree, a: nat, p: nat, c: Chunk)
    requires Stands(m, t, a, p) && c in Items(t)
    ensures c.addr in Addrs(t) && c.addr in m && m[c.addr].size == c.size
    decreases t
  {
    if c in t.chain {
      var i := IndexOf(t.chain, c);
      assert RingAt(m, t.chain, i) && t.chain[i].addr in ChainAddrs(t.chain);
    } else if c in Items(t.left) {
      ItemStands(m, t.left, m[a].left, a, c);
    } else {
      ItemStands(m, t.right, m[a].right, a, c);
    }
  }
}
