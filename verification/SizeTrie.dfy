/** The bitwise tries in which dlmalloc keeps its large free chunks
    (foreign/libffi/src/dlmalloc.c: the chain and child fields of malloc_tree_chunk,
    insert_large_chunk and unlink_large_chunk). */
module SizeTrie {

  import opened Words

  datatype Chunk = Chunk(addr: nat, size: nat)

  /** A tree node is the ring of free chunks of one size, listed along fd from the
      chunk that carries the parent and child links. */
  datatype Tree = Nil | Node(chain: seq<Chunk>, left: Tree, right: Tree)

  function Items(t: Tree): multiset<Chunk> {
    match t
    case Nil => multiset{}
    case Node(chain, left, right) => multiset(chain) + Items(left) + Items(right)
  }

  // ---------- the trie invariant

  predicate InWindow(s: nat, lo: nat, w: nat) {
    lo <= s < lo + w
  }

  /** No node of t holds chunks of size s. */
  predicate Lacks(t: Tree, s: nat) {
    t.Nil? || (|t.chain| > 0 && t.chain[0].size != s && Lacks(t.left, s) && Lacks(t.right, s))
  }

  predicate SameSize(chain: seq<Chunk>) {
    |chain| > 0 && forall i :: 0 <= i < |chain| ==> chain[i].size == chain[0].size
  }

  /** The sizes in t lie in the window lo .. lo + w - 1, chunks of one size share one
      node, and the children split the window in half. */
  predicate Trie(t: Tree, lo: nat, w: nat)
    decreases t
  {
    match t
    case Nil => true
    case Node(chain, left, right) =>
      && SameSize(chain)
      && InWindow(chain[0].size, lo, w)
      && (if w == 1 then left.Nil? && right.Nil?
          else Trie(left, lo, w / 2) && Trie(right, lo + w / 2, w / 2))
      && Lacks(left, chain[0].size)
      && Lacks(right, chain[0].size)
  }

  lemma {:induction false} LacksOutside(t: Tree, lo: nat, w: nat, s: nat)
    requires Trie(t, lo, w) && !InWindow(s, lo, w)
    ensures Lacks(t, s)
    decreases t
  {
    if t.Node? && w != 1 {
      LacksOutside(t.left, lo, w / 2, s);
      LacksOutside(t.right, lo + w / 2, w / 2, s);
    }
  }

  /** Every chunk in a trie has the size of some node. */
  lemma {:induction false} ItemHasNode(t: Tree, lo: nat, w: nat, c: Chunk)
    requires Trie(t, lo, w) && c in Items(t)
    ensures !Lacks(t, c.size)
    decreases t
  {
    if c !in t.chain && w != 1 {
      if c in Items(t.left) {
        ItemHasNode(t.left, lo, w / 2, c);
      } else {
        ItemHasNode(t.right, lo + w / 2, w / 2, c);
      }
    }
  }

  lemma ItemInWindow(t: Tree, lo: nat, w: nat, c: Chunk)
    requires Trie(t, lo, w) && c in Items(t)
    ensures InWindow(c.size, lo, w)
  {
    ItemHasNode(t, lo, w, c);
    if !InWindow(c.size, lo, w) {
      LacksOutside(t, lo, w, c.size);
    }
  }

  // ---------- the key word that steers the descent

  /** The size shifted so that bit b is the sign bit. */
  ghost function KeyAt(s: nat, b: int): nat
    requires -1 <= b <= 63
  {
    s * Pow2(63 - b) % Pow2(64)
  }

  function TopBit(k: nat): nat {
    k / HALF
  }

  function ShiftLeft(k: nat): nat {
    k * 2 % WORD
  }

  lemma KeyStep(s: nat, b: int)
    requires 0 <= b <= 63
    ensures ShiftLeft(KeyAt(s, b)) == KeyAt(s, b - 1)
  {
    WordIsPow2();
    var x := s * Pow2(63 - b);
    assert s * Pow2(64 - b) == x * 2;
    assert x == WORD * (x / WORD) + x % WORD;
    var y := (x % WORD) * 2;
    ModUnique(x * 2, WORD, 2 * (x / WORD) + y / WORD, y % WORD);
  }

  lemma KeyBit(s: nat, b: int)
    requires 0 <= b <= 63
    ensures TopBit(KeyAt(s, b)) == s / Pow2(b) % 2
  {
    WordIsPow2();
    Pow2Add(b, 63 - b);
    BitOfScaled(s, Pow2(b), Pow2(63 - b));
  }

  lemma BitOfScaled(s: nat, m: nat, n: nat)
    requires m > 0 && n > 0 && m * n == HALF
    ensures s * n % WORD / HALF == s / m % 2
  {
    var h, r := s / m, s % m;
    var q, d := h / 2, h % 2;
    assert s == m * h + r;
    Distribute(m, n, h, r);
    ScaledBelow(r, m, n);
    ScaledWord(s * n, q, d, r * n);
  }

  lemma ScaledWord(x: nat, q: nat, d: nat, low: nat)
    requires d < 2 && low < HALF && x == (2 * q + d) * HALF + low
    ensures x % WORD / HALF == d
  {
    ModUnique(x, WORD, q, d * HALF + low);
    ModUnique(d * HALF + low, HALF, d, low);
  }

  lemma Distribute(m: nat, n: nat, h: nat, r: nat)
    requires m * n == HALF
    ensures (m * h + r) * n == h * HALF + r * n
  {
    assert (m * h) * n == (m * n) * h;
  }

  lemma ScaledBelow(r: nat, m: nat, n: nat)
    requires r < m && n > 0
    ensures 0 <= r * n < m * n
  {
  }

  lemma HalvesOf(s: nat, lo: nat, m: nat)
    requires m > 0 && lo % (2 * m) == 0 && lo <= s < lo + 2 * m
    ensures lo % m == 0 && (lo + m) % m == 0
    ensures s / m % 2 == (if s >= lo + m then 1 else 0)
  {
    var w := lo / (2 * m);
    HalfOf(lo, m, w);
    ModUnique(lo, m, 2 * w, 0);
    ModUnique(lo + m, m, 2 * w + 1, 0);
    if s >= lo + m {
      ModUnique(s, m, 2 * w + 1, s - (lo + m));
    } else {
      ModUnique(s, m, 2 * w, s - lo);
    }
  }

  lemma HalfOf(lo: nat, m: nat, w: nat)
    requires m > 0 && lo % (2 * m) == 0 && w == lo / (2 * m)
    ensures lo == (2 * w) * m && lo + m == (2 * w + 1) * m
  {
    assert lo == (2 * m) * w;
    assert (2 * m) * w == (2 * w) * m;
  }

  /** A window of 2^(b+1) sizes that agree above bit b. */
  ghost predicate Window(lo: nat, w: nat, b: int) {
    -1 <= b <= 63 && w == Pow2(b + 1) && lo % w == 0
  }

  /** The sign bit of the key sends a size to the half of the window it lies in. */
  lemma KeyPicksHalf(s: nat, lo: nat, w: nat, b: int)
    requires Window(lo, w, b) && InWindow(s, lo, w) && w != 1
    ensures b >= 0
    ensures TopBit(KeyAt(s, b)) == (if s >= lo + w / 2 then 1 else 0)
    ensures ShiftLeft(KeyAt(s, b)) == KeyAt(s, b - 1)
    ensures Window(lo, w / 2, b - 1) && Window(lo + w / 2, w / 2, b - 1)
  {
    assert w == 2 * Pow2(b);
    KeyBit(s, b);
    KeyStep(s, b);
    HalvesOf(s, lo, Pow2(b));
  }

  // ---------- insert_large_chunk

  /** Descends by the sign bit of k, shifting k left at each level, until a node of
      the chunk's size or an empty child is found. */
  function Insert(t: Tree, c: Chunk, k: nat): Tree
    decreases t
  {
    match t
    case Nil => Node([c], Nil, Nil)
    case Node(chain, left, right) =>
      if |chain| > 0 && chain[0].size == c.size then
        Node([chain[0], c] + chain[1..], left, right)
      else if TopBit(k) == 1 then
        Node(chain, left, Insert(right, c, ShiftLeft(k)))
      else
        Node(chain, Insert(left, c, ShiftLeft(k)), right)
  }

  lemma SecondInChain(chain: seq<Chunk>, c: Chunk)
    requires |chain| > 0
    ensures multiset([chain[0], c] + chain[1..]) == multiset(chain) + multiset{c}
  {
    assert chain == [chain[0]] + chain[1..];
    assert [chain[0], c] + chain[1..] == [chain[0]] + [c] + chain[1..];
  }

  lemma SecondKeepsSize(chain: seq<Chunk>, c: Chunk)
    requires SameSize(chain) && chain[0].size == c.size
    ensures SameSize([chain[0], c] + chain[1..])
  {
  }

  lemma {:induction false} InsertItems(t: Tree, c: Chunk, k: nat)
    ensures Items(Insert(t, c, k)) == Items(t) + multiset{c}
    decreases t
  {
    match t
    case Nil =>
    case Node(chain, left, right) =>
      if |chain| > 0 && chain[0].size == c.size {
        SecondInChain(chain, c);
      } else if TopBit(k) == 1 {
        InsertItems(right, c, ShiftLeft(k));
      } else {
        InsertItems(left, c, ShiftLeft(k));
      }
  }

  lemma {:induction false} InsertLacks(t: Tree, c: Chunk, k: nat, s: nat)
    requires Lacks(t, s) && c.size != s
    ensures Lacks(Insert(t, c, k), s)
    decreases t
  {
    if t.Node? {
      if TopBit(k) == 1 {
        InsertLacks(t.right, c, ShiftLeft(k), s);
      } else {
        InsertLacks(t.left, c, ShiftLeft(k), s);
      }
    }
  }

  /** Inserting a chunk whose size lies in the window keeps the trie a trie. */
  lemma {:induction false} InsertKeepsTrie(t: Tree, c: Chunk, lo: nat, w: nat, b: int)
    requires Window(lo, w, b) && Trie(t, lo, w) && InWindow(c.size, lo, w)
    ensures Trie(Insert(t, c, KeyAt(c.size, b)), lo, w)
    decreases t
  {
    if t.Node? && t.chain[0].size == c.size {
      SecondKeepsSize(t.chain, c);
    } else if t.Node? {
      var k := KeyAt(c.size, b);
      KeyPicksHalf(c.size, lo, w, b);
      if TopBit(k) == 1 {
        InsertKeepsTrie(t.right, c, lo + w / 2, w / 2, b - 1);
        InsertLacks(t.right, c, ShiftLeft(k), t.chain[0].size);
      } else {
        InsertKeepsTrie(t.left, c, lo, w / 2, b - 1);
        InsertLacks(t.left, c, ShiftLeft(k), t.chain[0].size);
      }
    }
  }

  // ---------- unlink_large_chunk

  /** Follows right children where there are any, left children otherwise, down to a
      leaf: the node that will replace an emptied one. */
  function LastLeaf(t: Tree): seq<Chunk>
    requires t.Node?
  {
    if t.right.Node? then LastLeaf(t.right)
    else if t.left.Node? then LastLeaf(t.left)
    else t.chain
  }

  function DropLastLeaf(t: Tree): Tree
    requires t.Node?
  {
    if t.right.Node? then Node(t.chain, t.left, DropLastLeaf(t.right))
    else if t.left.Node? then Node(t.chain, DropLastLeaf(t.left), t.right)
    else Nil
  }

  /** The node without chunk i of its ring.  A removed head is replaced by its bk
      neighbour; an emptied node by a leaf below it. */
  function UnlinkAt(t: Tree, i: nat): Tree
    requires t.Node? && i < |t.chain|
  {
    var chain := t.chain;
    var n := |chain|;
    if n > 1 then
      if i == 0 then
        Node([chain[n - 1]] + chain[1..n - 1], t.left, t.right)
      else
        Node(chain[..i] + chain[i + 1..], t.left, t.right)
    else if t.right.Node? then
      Node(LastLeaf(t.right), t.left, DropLastLeaf(t.right))
    else if t.left.Node? then
      Node(LastLeaf(t.left), DropLastLeaf(t.left), t.right)
    else
      Nil
  }

  function IndexOf(chain: seq<Chunk>, c: Chunk): (i: nat)
    requires c in chain
    ensures i < |chain| && chain[i] == c
  {
    if chain[0] == c then 0 else 1 + IndexOf(chain[1..], c)
  }

  function Unlink(t: Tree, c: Chunk, k: nat): Tree
    decreases t
  {
    match t
    case Nil => Nil
    case Node(chain, left, right) =>
      if c in chain then UnlinkAt(t, IndexOf(chain, c))
      else if TopBit(k) == 1 then Node(chain, left, Unlink(right, c, ShiftLeft(k)))
      else Node(chain, Unlink(left, c, ShiftLeft(k)), right)
  }

  lemma {:induction false} LastLeafItems(t: Tree)
    requires t.Node?
    ensures Items(t) == multiset(LastLeaf(t)) + Items(DropLastLeaf(t))
  {
    if t.right.Node? {
      LastLeafItems(t.right);
    } else if t.left.Node? {
      LastLeafItems(t.left);
    }
  }

  lemma {:induction false} LastLeafLacks(t: Tree, s: nat)
    requires t.Node? && Lacks(t, s)
    ensures Lacks(DropLastLeaf(t), s)
    ensures |LastLeaf(t)| > 0 && LastLeaf(t)[0].size != s
  {
    if t.right.Node? {
      LastLeafLacks(t.right, s);
    } else if t.left.Node? {
      LastLeafLacks(t.left, s);
    }
  }

  lemma {:induction false} LastLeafKeepsTrie(t: Tree, lo: nat, w: nat)
    requires t.Node? && Trie(t, lo, w)
    ensures Trie(DropLastLeaf(t), lo, w)
    ensures SameSize(LastLeaf(t)) && InWindow(LastLeaf(t)[0].size, lo, w)
    ensures Lacks(DropLastLeaf(t), LastLeaf(t)[0].size)
    decreases t
  {
    if t.right.Node? {
      LastLeafKeepsTrie(t.right, lo + w / 2, w / 2);
      LacksOutside(t.left, lo, w / 2, LastLeaf(t.right)[0].size);
      LastLeafLacks(t.right, t.chain[0].size);
    } else if t.left.Node? {
      LastLeafKeepsTrie(t.left, lo, w / 2);
      LastLeafLacks(t.left, t.chain[0].size);
    }
  }

  lemma ChainWithout(chain: seq<Chunk>, i: nat)
    requires 1 < |chain| && i < |chain|
    ensures multiset(UnlinkAt(Node(chain, Nil, Nil), i).chain) == multiset(chain) - multiset{chain[i]}
  {
    var n := |chain|;
    if i == 0 {
      assert chain == [chain[0]] + chain[1..n - 1] + [chain[n - 1]];
    } else {
      assert chain == chain[..i] + [chain[i]] + chain[i + 1..];
    }
  }

  lemma UnlinkAtItems(t: Tree, i: nat)
    requires t.Node? && i < |t.chain|
    ensures Items(UnlinkAt(t, i)) == Items(t) - multiset{t.chain[i]}
  {
    if |t.chain| > 1 {
      ChainWithout(t.chain, i);
    } else {
      assert t.chain == [t.chain[i]];
      if t.right.Node? {
        LastLeafItems(t.right);
      } else if t.left.Node? {
        LastLeafItems(t.left);
      }
    }
  }

  lemma ChainWithoutKeepsSize(chain: seq<Chunk>, i: nat)
    requires SameSize(chain) && 1 < |chain| && i < |chain|
    ensures SameSize(UnlinkAt(Node(chain, Nil, Nil), i).chain)
    ensures UnlinkAt(Node(chain, Nil, Nil), i).chain[0].size == chain[0].size
  {
  }

  lemma UnlinkAtKeepsTrie(t: Tree, i: nat, lo: nat, w: nat)
    requires t.Node? && i < |t.chain| && Trie(t, lo, w)
    ensures Trie(UnlinkAt(t, i), lo, w)
  {
    if |t.chain| > 1 {
      ChainWithoutKeepsSize(t.chain, i);
      assert UnlinkAt(t, i) == Node(UnlinkAt(Node(t.chain, Nil, Nil), i).chain, t.left, t.right);
    } else {
      if t.right.Node? {
        LastLeafKeepsTrie(t.right, lo + w / 2, w / 2);
        LacksOutside(t.left, lo, w / 2, LastLeaf(t.right)[0].size);
      } else if t.left.Node? {
        LastLeafKeepsTrie(t.left, lo, w / 2);
      }
    }
  }

  lemma {:induction false} UnlinkItems(t: Tree, c: Chunk, lo: nat, w: nat, b: int)
    requires Window(lo, w, b) && Trie(t, lo, w) && c in Items(t)
    ensures Items(Unlink(t, c, KeyAt(c.size, b))) == Items(t) - multiset{c}
    decreases t
  {
    hide KeyAt, TopBit, ShiftLeft, Pow2;
    if c in t.chain {
      UnlinkAtItems(t, IndexOf(t.chain, c));
    } else {
      WhereIs(t, c, lo, w, b);
      if TopBit(KeyAt(c.size, b)) == 1 {
        UnlinkItems(t.right, c, lo + w / 2, w / 2, b - 1);
      } else {
        UnlinkItems(t.left, c, lo, w / 2, b - 1);
      }
    }
  }

  /** A chunk not on the node's own ring is on the side its key points to. */
  lemma WhereIs(t: Tree, c: Chunk, lo: nat, w: nat, b: int)
    requires Window(lo, w, b) && Trie(t, lo, w) && c in Items(t) && c !in t.chain
    ensures w != 1 && b >= 0
    ensures ShiftLeft(KeyAt(c.size, b)) == KeyAt(c.size, b - 1)
    ensures Window(lo, w / 2, b - 1) && Window(lo + w / 2, w / 2, b - 1)
    ensures if TopBit(KeyAt(c.size, b)) == 1 then c in Items(t.right) else c in Items(t.left)
  {
    ItemInWindow(t, lo, w, c);
    KeyPicksHalf(c.size, lo, w, b);
    if c in Items(t.left) {
      ItemInWindow(t.left, lo, w / 2, c);
    } else {
      ItemInWindow(t.right, lo + w / 2, w / 2, c);
    }
  }

  lemma UnlinkAtLacks(t: Tree, i: nat, s: nat)
    requires t.Node? && SameSize(t.chain) && i < |t.chain| && Lacks(t, s)
    ensures Lacks(UnlinkAt(t, i), s)
  {
    if |t.chain| == 1 {
      if t.right.Node? {
        LastLeafLacks(t.right, s);
      } else if t.left.Node? {
        LastLeafLacks(t.left, s);
      }
    }
  }

  lemma {:induction false} UnlinkLacks(t: Tree, c: Chunk, k: nat, lo: nat, w: nat, s: nat)
    requires Trie(t, lo, w) && Lacks(t, s)
    ensures Lacks(Unlink(t, c, k), s)
    decreases t
  {
    if t.Node? {
      if c in t.chain {
        UnlinkAtLacks(t, IndexOf(t.chain, c), s);
      } else if w != 1 {
        UnlinkLacks(t.right, c, ShiftLeft(k), lo + w / 2, w / 2, s);
        UnlinkLacks(t.left, c, ShiftLeft(k), lo, w / 2, s);
      }
    }
  }

  /** Unlinking keeps the trie a trie. */
  lemma {:induction false} UnlinkKeepsTrie(t: Tree, c: Chunk, k: nat, lo: nat, w: nat)
    requires Trie(t, lo, w)
    ensures Trie(Unlink(t, c, k), lo, w)
    decreases t
  {
    if t.Node? {
      if c in t.chain {
        UnlinkAtKeepsTrie(t, IndexOf(t.chain, c), lo, w);
      } else if w != 1 {
        var s, k' := t.chain[0].size, ShiftLeft(k);
        if TopBit(k) == 1 {
          UnlinkKeepsTrie(t.right, c, k', lo + w / 2, w / 2);
          UnlinkLacks(t.right, c, k', lo + w / 2, w / 2, s);
        } else {
          UnlinkKeepsTrie(t.left, c, k', lo, w / 2);
          UnlinkLacks(t.left, c, k', lo, w / 2, s);
        }
      }
    }
  }
}
