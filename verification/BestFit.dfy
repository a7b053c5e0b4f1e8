/** The best-fit searches of tmalloc_large and tmalloc_small
    (foreign/libffi/src/dlmalloc.c). */
module BestFit {

  import opened Words
  import opened Lists
  import opened SizeTrie
  import opened BinMaps
  import opened TreeBins
  import opened TreeLinks

  /** rsize is what v leaves over, or the wrapped -nb when there is no v yet. */
  ghost predicate Remains(v: Option<Chunk>, rsize: nat, nb: nat)
    requires 0 < nb < WORD
  {
    match v
    case None => rsize == Sub64(0, nb)
    case Some(c) => nb <= c.size < WORD && rsize == c.size - nb
  }

  lemma Negated(nb: nat)
    requires 0 < nb < WORD
    ensures Sub64(0, nb) == WORD - nb
  {
    ModUnique(0 - nb, WORD, -1, WORD - nb);
  }

  /** s is no larger than the candidate. */
  ghost predicate Under(s: nat, v: Option<Chunk>) {
    v.None? || s <= v.value.size
  }

  /** v heads the ring of some node of t. */
  predicate Heads(t: Tree, v: Chunk) {
    t.Node? && |t.chain| > 0 && (t.chain[0] == v || Heads(t.left, v) || Heads(t.right, v))
  }

  /** No size in t lies in nb .. s - 1. */
  predicate Best(t: Tree, nb: nat, s: nat) {
    t.Nil? || (|t.chain| > 0 && !(nb <= t.chain[0].size < s) && Best(t.left, nb, s) && Best(t.right, nb, s))
  }

  /** All sizes in t are words no smaller than nb. */
  predicate AllFit(t: Tree, nb: nat) {
    t.Nil? || (|t.chain| > 0 && nb <= t.chain[0].size < WORD && AllFit(t.left, nb) && AllFit(t.right, nb))
  }

  lemma {:induction false} HeadsIsItem(t: Tree, v: Chunk)
    requires Heads(t, v)
    ensures v in Items(t)
  {
    if t.chain[0] != v {
      if Heads(t.left, v) { HeadsIsItem(t.left, v); } else { HeadsIsItem(t.right, v); }
    }
  }

  lemma {:induction false} BestBelow(t: Tree, lo: nat, w: nat, nb: nat, s: nat)
    requires Trie(t, lo, w) && (s <= lo || s <= nb || lo + w <= nb)
    ensures Best(t, nb, s)
    decreases t
  {
    if t.Node? && w != 1 {
      BestBelow(t.left, lo, w / 2, nb, s);
      BestBelow(t.right, lo + w / 2, w / 2, nb, s);
    }
  }

  /** The unsigned remainder of a node beats rsize exactly when the node fits and
      is smaller than the candidate. */
  lemma RemainderTest(v: Option<Chunk>, rsize: nat, nb: nat, s: nat)
    requires 0 < nb < WORD && Remains(v, rsize, nb) && s < WORD
    ensures Sub64(s, nb) < rsize <==> s >= nb && (v.None? || s < v.value.size)
    ensures s >= nb ==> Sub64(s, nb) == s - nb
  {
  }

  /** A size that is no larger than v and best in t is best in t0. */
  ghost predicate Settles(t: Tree, v: Option<Chunk>, t0: Tree, nb: nat) {
    forall s :: Under(s, v) && Best(t, nb, s) ==> Best(t0, nb, s)
  }

  ghost predicate HeadsWithin(t: Tree, t0: Tree) {
    forall h :: Heads(t, h) ==> Heads(t0, h)
  }

  function LeftmostChild(t: Tree): Tree
    requires t.Node?
  {
    if t.left.Node? then t.left else t.right
  }

  /** Once the left subtree is not empty, nothing in the right one can be smallest. */
  lemma SkipRight(t: Tree, lo: nat, w: nat, nb: nat, s: nat)
    requires t.Node? && t.left.Node? && Trie(t, lo, w)
    requires AllFit(t, nb) || s <= nb
    requires !(nb <= t.chain[0].size < s) && Best(t.left, nb, s)
    ensures Best(t, nb, s)
  {
    BestBelow(t.right, lo + w / 2, w / 2, nb, s);
  }

  lemma LeftmostStep(t0: Tree, t: Tree, lo: nat, w: nat, nb: nat, v: Option<Chunk>, v': Option<Chunk>)
    requires t.Node? && Trie(t, lo, w) && Settles(t, v, t0, nb)
    requires v'.Some? && Under(v'.value.size, v) && !(nb <= t.chain[0].size < v'.value.size)
    requires AllFit(t, nb) || v'.value.size == nb
    ensures Settles(LeftmostChild(t), v', t0, nb)
  {
    forall s | Under(s, v') && Best(LeftmostChild(t), nb, s)
      ensures Best(t0, nb, s)
    {
      if t.left.Node? {
        SkipRight(t, lo, w, nb, s);
      }
      assert Best(t, nb, s);
    }
  }

  lemma HeadsOfChild(t0: Tree, t: Tree)
    requires t.Node? && |t.chain| > 0 && HeadsWithin(t, t0)
    ensures HeadsWithin(t.left, t0) && HeadsWithin(t.right, t0) && Heads(t0, t.chain[0])
  {
    forall h | Heads(t.left, h) || Heads(t.right, h)
      ensures Heads(t0, h)
    {
      assert Heads(t, h);
    }
    assert Heads(t, t.chain[0]);
  }

  /** What the links at x show of the tree they stand for. */
  lemma NodeLinks(m: Memory, t: Tree, x: nat, p: nat)
    requires Stands(m, t, x, p)
    ensures t.Node? <==> x != 0
    ensures t.Node? ==> x in m && t.chain != [] && t.chain[0] == Chunk(x, m[x].size)
    ensures t.Node? ==> Stands(m, t.left, m[x].left, x) && Stands(m, t.right, m[x].right, x)
    ensures t.Node? ==> (t.left.Node? <==> m[x].left != 0) && (t.right.Node? <==> m[x].right != 0)
  {
    StandsIn(m, t, x, p);
    if t.Node? {
      assert RingAt(m, t.chain, 0);
      StandsIn(m, t.left, m[x].left, x);
      StandsIn(m, t.right, m[x].right, x);
    }
  }

  /** Follows left children where there are any, right children otherwise, keeping
      the smallest chunk seen.  Its result is best in t0 and no worse than v0. */
  method Leftmost(m: Memory, x0: nat, v0: Option<Chunk>, rsize0: nat, nb: nat, ghost t0: Tree, ghost p0: nat,
                  ghost lo0: nat, ghost w0: nat)
    returns (v: Option<Chunk>, rsize: nat)
    requires Stands(m, t0, x0, p0) && 0 < nb < WORD && Trie(t0, lo0, w0) && AllFit(t0, 0)
    requires Remains(v0, rsize0, nb)
    requires AllFit(t0, nb) || (v0.Some? && v0.value.size == nb)
    ensures Remains(v, rsize, nb)
    ensures v == v0 || (v.Some? && Heads(t0, v.value))
    ensures v.Some? ==> Under(v.value.size, v0) && Best(t0, nb, v.value.size)
    ensures v.Some? <==> v0.Some? || t0.Node?
  {
    hide Stands, Leading, Trie, AllFit, Best, Heads;
    v, rsize := v0, rsize0;
    var x := x0;
    ghost var t, p, lo, w := t0, p0, lo0, w0;
    NodeLinks(m, t, x, p);
    LeadingStart(t0, lo, w, v0, nb);
    while x != 0
      invariant Stands(m, t, x, p) && (t.Node? <==> x != 0)
      invariant Remains(v, rsize, nb) && Leading(t0, t, lo, w, v0, v, nb)
      decreases t
    {
      ghost var before := v;
      NodeLinks(m, t, x, p);
      var size := m[x].size;
      LeadingSize(t0, t, lo, w, v0, v, nb);
      RemainderTest(v, rsize, nb, size);
      var trem := Sub64(size, nb);
      if trem < rsize {
        rsize := trem;
        v := Some(Chunk(x, size));
      }
      LeadingStep(t0, t, lo, w, v0, before, v, nb);
      p := x;
      if m[x].left != 0 {
        x := m[x].left;
        t, w := t.left, w / 2;
      } else {
        x := m[x].right;
        t, lo, w := t.right, lo + w / 2, w / 2;
      }
      NodeLinks(m, t, x, p);
    }
    LeadingEnd(t0, lo, w, v0, v, nb);
  }

  /** How far the walk has come: the smallest fitting chunk of t0 is v or in t. */
  ghost predicate Leading(t0: Tree, t: Tree, lo: nat, w: nat, v0: Option<Chunk>, v: Option<Chunk>, nb: nat) {
    && Trie(t, lo, w) && AllFit(t, 0) && (AllFit(t, nb) || (v.Some? && v.value.size == nb))
    && (v == v0 || (v.Some? && Heads(t0, v.value))) && HeadsWithin(t, t0)
    && (v.Some? ==> Under(v.value.size, v0)) && Settles(t, v, t0, nb) && (v.Some? || (v0.None? && t == t0))
  }

  lemma LeadingStart(t0: Tree, lo: nat, w: nat, v0: Option<Chunk>, nb: nat)
    requires Trie(t0, lo, w) && AllFit(t0, 0) && (AllFit(t0, nb) || (v0.Some? && v0.value.size == nb))
    ensures Leading(t0, t0, lo, w, v0, v0, nb)
  {
  }

  lemma LeadingSize(t0: Tree, t: Tree, lo: nat, w: nat, v0: Option<Chunk>, v: Option<Chunk>, nb: nat)
    requires Leading(t0, t, lo, w, v0, v, nb) && t.Node?
    ensures t.chain != [] && t.chain[0].size < WORD
  {
  }

  lemma LeadingStep(t0: Tree, t: Tree, lo: nat, w: nat, v0: Option<Chunk>, v: Option<Chunk>, v': Option<Chunk>, nb: nat)
    requires Leading(t0, t, lo, w, v0, v, nb) && t.Node? && t.chain != []
    requires var s := t.chain[0].size;
             v' == if s >= nb && (v.None? || s < v.value.size) then Some(t.chain[0]) else v
    ensures var left := t.left.Node?;
            Leading(t0, if left then t.left else t.right, if left then lo else lo + w / 2, w / 2, v0, v', nb)
  {
    HeadsOfChild(t0, t);
    LeftmostStep(t0, t, lo, w, nb, v, v');
  }

  lemma LeadingEnd(t0: Tree, lo: nat, w: nat, v0: Option<Chunk>, v: Option<Chunk>, nb: nat)
    requires Leading(t0, Nil, lo, w, v0, v, nb)
    ensures v == v0 || (v.Some? && Heads(t0, v.value))
    ensures v.Some? ==> Under(v.value.size, v0) && Best(t0, nb, v.value.size)
    ensures v.Some? <==> v0.Some? || t0.Node?
  {
  }

  // ---------- the first loop of tmalloc_large

  /** A size no larger than v and best in both t and rst is best in t0. */
  ghost predicate Settles2(t: Tree, rst: Tree, v: Option<Chunk>, t0: Tree, nb: nat) {
    forall s :: Under(s, v) && Best(t, nb, s) && Best(rst, nb, s) ==> Best(t0, nb, s)
  }

  /** rst is empty or holds only sizes above the window that ends at top. */
  predicate HeldAbove(rst: Tree, top: nat, rlo: nat, rw: nat, nb: nat) {
    Trie(rst, rlo, rw) && top <= rlo && AllFit(rst, nb)
  }

  lemma {:induction false} FitFromWindow(t: Tree, lo: nat, w: nat, nb: nat)
    requires Trie(t, lo, w) && AllFit(t, 0) && nb <= lo
    ensures AllFit(t, nb)
    decreases t
  {
    if t.Node? && w != 1 {
      FitFromWindow(t.left, lo, w / 2, nb);
      FitFromWindow(t.right, lo + w / 2, w / 2, nb);
    }
  }

  /** Going right drops a left subtree of sizes below nb. */
  lemma StepRight(t0: Tree, t: Tree, rst: Tree, lo: nat, w: nat, nb: nat, v: Option<Chunk>, v': Option<Chunk>)
    requires t.Node? && w != 1 && Trie(t, lo, w) && lo + w / 2 <= nb
    requires Settles2(t, rst, v, t0, nb)
    requires forall s :: Under(s, v') ==> Under(s, v) && !(nb <= t.chain[0].size < s)
    ensures Settles2(t.right, rst, v', t0, nb)
  {
    forall s | Under(s, v') && Best(t.right, nb, s) && Best(rst, nb, s)
      ensures Best(t0, nb, s)
    {
      BestBelow(t.left, lo, w / 2, nb, s);
      assert Best(t, nb, s);
    }
  }

  /** Going left remembers a non-empty right subtree, whose smallest size is below
      everything remembered before. */
  lemma StepLeft(t0: Tree, t: Tree, rst: Tree, lo: nat, w: nat, rlo: nat, rw: nat, nb: nat,
                 v: Option<Chunk>, v': Option<Chunk>)
    requires t.Node? && w != 1 && Trie(t, lo, w) && nb < lo + w / 2 && HeldAbove(rst, lo + w, rlo, rw, nb)
    requires Settles2(t, rst, v, t0, nb)
    requires forall s :: Under(s, v') ==> Under(s, v) && !(nb <= t.chain[0].size < s)
    ensures Settles2(t.left, if t.right.Node? then t.right else rst, v', t0, nb)
  {
    var rst' := if t.right.Node? then t.right else rst;
    forall s | Under(s, v') && Best(t.left, nb, s) && Best(rst', nb, s)
      ensures Best(t0, nb, s)
    {
      if t.right.Node? {
        BestBelow(rst, rlo, rw, nb, s);
      }
      assert Best(t, nb, s);
    }
  }

  /** The state of the traversal: t spans the window around nb, rst what lies above. */
  ghost predicate OnPath(t0: Tree, t: Tree, lo: nat, w: nat, b: int, rst: Tree, rlo: nat, rw: nat,
                         nb: nat, v: Option<Chunk>) {
    && Trie(t, lo, w) && AllFit(t, 0) && HeadsWithin(t, t0)
    && Window(lo, w, b) && InWindow(nb, lo, w)
    && HeldAbove(rst, lo + w, rlo, rw, nb) && AllFit(rst, 0) && HeadsWithin(rst, t0)
    && Settles2(t, rst, v, t0, nb)
    && (v.Some? ==> Heads(t0, v.value))
  }

  /** v' is v after looking at a node of size s. */
  ghost predicate Looked(v: Option<Chunk>, v': Option<Chunk>, t: Tree, nb: nat)
    requires t.Node? && |t.chain| > 0
  {
    && (v' == v || v' == Some(t.chain[0]))
    && (forall s :: Under(s, v') ==> Under(s, v) && !(nb <= t.chain[0].size < s))
    && (v'.None? || v'.value.size != nb ==> t.chain[0].size != nb)
  }

  /** Takes the node if it fits better than the candidate. */
  method Look(c: Chunk, v: Option<Chunk>, rsize: nat, nb: nat, ghost t: Tree) returns (v': Option<Chunk>, rsize': nat)
    requires t.Node? && |t.chain| > 0 && t.chain[0] == c && c.size < WORD
    requires 0 < nb < WORD && Remains(v, rsize, nb) && rsize != 0
    ensures Remains(v', rsize', nb) && Looked(v, v', t, nb)
    ensures rsize' == 0 ==> v' == Some(c) && c.size == nb
  {
    v', rsize' := v, rsize;
    RemainderTest(v, rsize, nb, c.size);
    var trem := Sub64(c.size, nb);
    if trem < rsize {
      v', rsize' := Some(c), trem;
    }
  }

  lemma NotSingle(t: Tree, lo: nat, w: nat, nb: nat)
    requires t.Node? && Trie(t, lo, w) && InWindow(nb, lo, w) && t.chain[0].size != nb
    ensures w != 1
  {
  }

  lemma TurnRight(t0: Tree, t: Tree, lo: nat, w: nat, b: int, rst: Tree, rlo: nat, rw: nat,
                  nb: nat, v: Option<Chunk>, v': Option<Chunk>)
    requires t.Node? && OnPath(t0, t, lo, w, b, rst, rlo, rw, nb, v) && Looked(v, v', t, nb)
    requires w != 1 && TopBit(KeyAt(nb, b)) == 1
    ensures b >= 0 && ShiftLeft(KeyAt(nb, b)) == KeyAt(nb, b - 1)
    ensures OnPath(t0, t.right, lo + w / 2, w / 2, b - 1, rst, rlo, rw, nb, v')
  {
    KeyPicksHalf(nb, lo, w, b);
    HeadsOfChild(t0, t);
    StepRight(t0, t, rst, lo, w, nb, v, v');
  }

  lemma TurnLeft(t0: Tree, t: Tree, lo: nat, w: nat, b: int, rst: Tree, rlo: nat, rw: nat,
                 nb: nat, v: Option<Chunk>, v': Option<Chunk>)
    requires t.Node? && OnPath(t0, t, lo, w, b, rst, rlo, rw, nb, v) && Looked(v, v', t, nb)
    requires w != 1 && TopBit(KeyAt(nb, b)) != 1
    ensures b >= 0 && ShiftLeft(KeyAt(nb, b)) == KeyAt(nb, b - 1)
    ensures t.right.Node? ==> OnPath(t0, t.left, lo, w / 2, b - 1, t.right, lo + w / 2, w / 2, nb, v')
    ensures t.right.Nil? ==> OnPath(t0, t.left, lo, w / 2, b - 1, rst, rlo, rw, nb, v')
  {
    KeyPicksHalf(nb, lo, w, b);
    HeadsOfChild(t0, t);
    StepLeft(t0, t, rst, lo, w, rlo, rw, nb, v, v');
    FitFromWindow(t.right, lo + w / 2, w / 2, nb);
  }

  /** One level down: the child on nb's side, and the right subtree left behind. */
  lemma Turn(t0: Tree, t: Tree, lo: nat, w: nat, b: int, rst: Tree, rlo: nat, rw: nat,
             nb: nat, v: Option<Chunk>, v': Option<Chunk>)
    requires t.Node? && OnPath(t0, t, lo, w, b, rst, rlo, rw, nb, v) && Looked(v, v', t, nb)
    requires w != 1
    ensures b >= 0 && ShiftLeft(KeyAt(nb, b)) == KeyAt(nb, b - 1)
    ensures var right := TopBit(KeyAt(nb, b)) == 1;
            var passed := !right && t.right.Node?;
            OnPath(t0, if right then t.right else t.left, if right then lo + w / 2 else lo, w / 2, b - 1,
                   if passed then t.right else rst, if passed then lo + w / 2 else rlo,
                   if passed then w / 2 else rw, nb, v')
  {
    if TopBit(KeyAt(nb, b)) == 1 {
      TurnRight(t0, t, lo, w, b, rst, rlo, rw, nb, v, v');
    } else {
      TurnLeft(t0, t, lo, w, b, rst, rlo, rw, nb, v, v');
    }
  }

  /** What the traversal leaves to do: the best fit of t0 is v or in rest. */
  ghost predicate Searched(t0: Tree, nb: nat, v: Option<Chunk>, rest: Tree, rlo: nat, rw: nat) {
    && (v.Some? ==> Heads(t0, v.value))
    && Trie(rest, rlo, rw) && AllFit(rest, 0) && HeadsWithin(rest, t0)
    && (AllFit(rest, nb) || (v.Some? && v.value.size == nb))
    && Settles(rest, v, t0, nb)
  }

  lemma FoundExact(t0: Tree, lo0: nat, w0: nat, t: Tree, lo: nat, w: nat, v: Option<Chunk>, nb: nat)
    requires Trie(t0, lo0, w0) && t.Node? && Trie(t, lo, w) && AllFit(t, 0) && HeadsWithin(t, t0)
    requires v == Some(t.chain[0]) && v.value.size == nb
    ensures Searched(t0, nb, v, t, lo, w)
  {
    HeadsOfChild(t0, t);
    forall s | Under(s, v)
      ensures Best(t0, nb, s)
    {
      BestBelow(t0, lo0, w0, nb, s);
    }
  }

  lemma PathEnded(t0: Tree, lo: nat, w: nat, b: int, rst: Tree, rlo: nat, rw: nat, nb: nat, v: Option<Chunk>)
    requires OnPath(t0, Nil, lo, w, b, rst, rlo, rw, nb, v)
    ensures Searched(t0, nb, v, rst, rlo, rw)
  {
  }

  /** The traversal of the request's own bin: looks along the path of nb, remembering
      the deepest right subtree not taken. */
  method SearchPath(m: Memory, x0: nat, nb: nat, key: nat, ghost t0: Tree, ghost p0: nat,
                    ghost lo0: nat, ghost w0: nat, ghost b0: int)
    returns (v: Option<Chunk>, rsize: nat, x: nat, ghost rest: Tree, ghost p: nat, ghost rlo: nat, ghost rw: nat)
    requires Stands(m, t0, x0, p0) && t0.Node? && 0 < nb < WORD && AllFit(t0, 0)
    requires Window(lo0, w0, b0) && InWindow(nb, lo0, w0) && Trie(t0, lo0, w0) && key == KeyAt(nb, b0)
    ensures Remains(v, rsize, nb) && Searched(t0, nb, v, rest, rlo, rw) && Stands(m, rest, x, p)
  {
    hide Pow2, Best, Stands, OnPath, Searched, Trie, KeyAt, Window;
    Negated(nb);
    PathStart(t0, nb, lo0, w0, b0);
    v, rsize := None, Sub64(0, nb);
    var sizebits, rst := key, 0;
    ghost var t, rt, rp, lo, w, b := t0, Nil, 0, lo0, w0, b0;
    x, p := x0, p0;
    rlo, rw := lo + w, 1;
    NoLinks(m);
    NodeLinks(m, t, x, p);
    while true
      invariant Stands(m, t, x, p) && Stands(m, rt, rst, rp)
      invariant t.Node? && OnPath(t0, t, lo, w, b, rt, rlo, rw, nb, v)
      invariant -1 <= b <= 63 && Remains(v, rsize, nb) && rsize != 0 && sizebits == KeyAt(nb, b)
      decreases t
    {
      ghost var before := v;
      NodeLinks(m, t, x, p);
      PathFacts(t0, t, lo, w, b, rt, rlo, rw, nb, v);
      v, rsize := Look(Chunk(x, m[x].size), v, rsize, nb, t);
      if rsize == 0 {
        rest, rlo, rw := t, lo, w;
        FoundExact(t0, lo0, w0, t, lo, w, v, nb);
        return;
      }
      NotSingle(t, lo, w, nb);
      var right := TopBit(sizebits) == 1;
      Turn(t0, t, lo, w, b, rt, rlo, rw, nb, before, v);
      if !right && m[x].right != 0 {
        rst := m[x].right;
        rt, rp, rlo, rw := t.right, x, lo + w / 2, w / 2;
      }
      p := x;
      x := if right then m[x].right else m[x].left;
      t := if right then t.right else t.left;
      lo, w, b := if right then lo + w / 2 else lo, w / 2, b - 1;
      NodeLinks(m, t, x, p);
      if x == 0 {
        x, p, rest := rst, rp, rt;
        PathEnded(t0, lo, w, b, rt, rlo, rw, nb, v);
        return;
      }
      sizebits := ShiftLeft(sizebits);
    }
  }

  lemma PathStart(t0: Tree, nb: nat, lo: nat, w: nat, b: int)
    requires AllFit(t0, 0) && Window(lo, w, b) && InWindow(nb, lo, w) && Trie(t0, lo, w)
    ensures -1 <= b <= 63 && OnPath(t0, t0, lo, w, b, Nil, lo + w, 1, nb, None)
  {
  }

  lemma PathFacts(t0: Tree, t: Tree, lo: nat, w: nat, b: int, rt: Tree, rlo: nat, rw: nat, nb: nat, v: Option<Chunk>)
    requires OnPath(t0, t, lo, w, b, rt, rlo, rw, nb, v)
    ensures Trie(t, lo, w) && AllFit(t, 0) && HeadsWithin(t, t0) && Window(lo, w, b) && InWindow(nb, lo, w)
    ensures t.Node? && t.chain != [] ==> t.chain[0].size < WORD
  {
  }

  lemma NoLinks(m: Memory)
    ensures Stands(m, Nil, 0, 0)
  {
  }

  // ---------- all bins

  lemma {:induction false} BelongFits(t: Tree, i: nat)
    requires AllBelong(t, i)
    ensures AllFit(t, MinSize(i)) && AllFit(t, 0)
  {
    if t.Node? {
      BelongFits(t.left, i);
      BelongFits(t.right, i);
    }
  }

  lemma {:induction false} FitLess(t: Tree, m: nat, nb: nat)
    requires AllFit(t, m) && nb <= m
    ensures AllFit(t, nb)
  {
    if t.Node? {
      FitLess(t.left, m, nb);
      FitLess(t.right, m, nb);
    }
  }

  /** A bin below the request holds nothing that fits; a bin above it nothing
      smaller than its least size. */
  lemma {:induction false} OtherBin(t: Tree, i: nat, nb: nat, s: nat)
    requires AllBelong(t, i) && ((i < LAST && MinSize(i + 1) <= nb) || s <= MinSize(i))
    ensures Best(t, nb, s)
  {
    if t.Node? {
      OtherBin(t.left, i, nb, s);
      OtherBin(t.right, i, nb, s);
    }
  }

  lemma {:induction false} BestMeans(t: Tree, lo: nat, w: nat, nb: nat, s: nat, c: Chunk)
    requires Trie(t, lo, w) && Best(t, nb, s) && c in Items(t) && c.size >= nb
    ensures s <= c.size
    decreases t
  {
    if c !in t.chain && w != 1 {
      if c in Items(t.left) {
        BestMeans(t.left, lo, w / 2, nb, s, c);
      } else {
        BestMeans(t.right, lo + w / 2, w / 2, nb, s, c);
      }
    }
  }

  /** No chunk in any tree bin has a size in nb .. s - 1. */
  ghost predicate BestOfAll(bins: seq<Tree>, nb: nat, s: nat) {
    forall i :: 0 <= i < |bins| ==> Best(bins[i], nb, s)
  }

  lemma {:induction false} BestLess(t: Tree, nb: nat, s: nat, s': nat)
    requires Best(t, nb, s) && s' <= s
    ensures Best(t, nb, s')
  {
    if t.Node? {
      BestLess(t.left, nb, s, s');
      BestLess(t.right, nb, s, s');
    }
  }

  lemma BestIsMonotone(bins: seq<Tree>, nb: nat, s: nat, s': nat)
    requires BestOfAll(bins, nb, s) && s' <= s
    ensures BestOfAll(bins, nb, s')
  {
    forall i | 0 <= i < |bins|
      ensures Best(bins[i], nb, s')
    {
      BestLess(bins[i], nb, s, s');
    }
  }

  /** BestOfAll is about every chunk on every ring, not just the heads. */
  lemma BestOfAllMeans(bins: seq<Tree>, treemap: set<nat>, nb: nat, s: nat, i: nat, c: Chunk)
    requires BinsOk(bins, treemap) && BestOfAll(bins, nb, s)
    requires i < 32 && c in Items(bins[i]) && c.size >= nb
    ensures s <= c.size
  {
    assert BinOk(bins[i], i);
    BestMeans(bins[i], Lo(i), Width(i), nb, s, c);
  }

  /** A best fit in bin i is the best fit of all bins, if the bins between the
      request's and i are empty. */
  lemma BestAcrossBins(bins: seq<Tree>, treemap: set<nat>, nb: nat, idx: nat, i: nat, s: nat)
    requires BinsOk(bins, treemap) && idx <= i < 32 && Belongs(nb, idx)
    requires Best(bins[i], nb, s) && (i < LAST ==> s <= MinSize(i + 1))
    requires forall j :: idx <= j < i ==> Best(bins[j], nb, s)
    ensures BestOfAll(bins, nb, s)
  {
    hide Trie, MinSize, Pow2;
    forall j | 0 <= j < |bins|
      ensures Best(bins[j], nb, s)
    {
      assert BinOk(bins[j], j);
      if j < idx {
        MinSizeMonotone(j + 1, idx);
        OtherBin(bins[j], j, nb, s);
      } else if j > i {
        MinSizeMonotone(i + 1, j);
        OtherBin(bins[j], j, nb, s);
      }
    }
  }

  lemma {:induction false} HeadBelongs(t: Tree, v: Chunk, i: nat)
    requires Heads(t, v) && AllBelong(t, i)
    ensures Belongs(v.size, i)
  {
    if t.chain[0] != v {
      if Heads(t.left, v) { HeadBelongs(t.left, v, i); } else { HeadBelongs(t.right, v, i); }
    }
  }

  lemma FoundInOwnBin(bins: seq<Tree>, treemap: set<nat>, nb: nat, idx: nat, v: Option<Chunk>, rest: Tree, v': Chunk)
    requires BinsOk(bins, treemap) && idx < 32 && Belongs(nb, idx)
    requires Settles(rest, v, bins[idx], nb) && Under(v'.size, v) && Best(rest, nb, v'.size)
    requires Heads(bins[idx], v')
    ensures BestOfAll(bins, nb, v'.size)
  {
    assert BinOk(bins[idx], idx);
    HeadBelongs(bins[idx], v', idx);
    BestAcrossBins(bins, treemap, nb, idx, idx, v'.size);
  }

  lemma FoundAbove(bins: seq<Tree>, treemap: set<nat>, nb: nat, idx: nat, at: nat, v: Chunk)
    requires BinsOk(bins, treemap) && idx < at < 32 && Belongs(nb, idx)
    requires IsLeast(Above(treemap, idx), at)
    requires Settles(Nil, None, bins[idx], nb)
    requires Heads(bins[at], v) && Best(bins[at], nb, v.size)
    ensures BestOfAll(bins, nb, v.size)
  {
    assert BinOk(bins[at], at);
    HeadBelongs(bins[at], v, at);
    forall j | idx <= j < at
      ensures Best(bins[j], nb, v.size)
    {
      if j == idx {
        assert Under(v.size, None) && Best(Nil, nb, v.size);
      } else {
        assert j !in Above(treemap, idx);
      }
    }
    BestAcrossBins(bins, treemap, nb, idx, at, v.size);
  }

  lemma FoundNowhere(bins: seq<Tree>, treemap: set<nat>, nb: nat, idx: nat)
    requires BinsOk(bins, treemap) && idx < 32 && Belongs(nb, idx)
    requires Above(treemap, idx) == {} && Settles(Nil, None, bins[idx], nb)
    ensures BestOfAll(bins, nb, WORD)
  {
    forall j | idx <= j < 32
      ensures Best(bins[j], nb, WORD)
    {
      if j == idx {
        assert Under(WORD, None) && Best(Nil, nb, WORD);
      } else {
        assert j !in Above(treemap, idx);
      }
    }
    BestAcrossBins(bins, treemap, nb, idx, LAST, WORD);
  }

  lemma RootFits(bins: seq<Tree>, treemap: set<nat>, nb: nat, idx: nat, at: nat)
    requires BinsOk(bins, treemap) && idx < at < 32 && Belongs(nb, idx)
    ensures Trie(bins[at], Lo(at), Width(at)) && AllFit(bins[at], 0) && AllFit(bins[at], nb)
  {
    assert BinOk(bins[at], at);
    BelongFits(bins[at], at);
    MinSizeMonotone(idx + 1, at);
    FitLess(bins[at], MinSize(at), nb);
  }

  /** The links of every bin stand for its tree. */
  ghost predicate RootsStand(m: Memory, bins: seq<Tree>, roots: seq<nat>, parents: seq<nat>) {
    && |bins| == |roots| == |parents|
    && forall i :: 0 <= i < |bins| ==> Stands(m, bins[i], roots[i], parents[i])
  }

  lemma RootStands(m: Memory, bins: seq<Tree>, roots: seq<nat>, parents: seq<nat>, i: nat)
    requires RootsStand(m, bins, roots, parents) && i < |bins|
    ensures Stands(m, bins[i], roots[i], parents[i]) && (bins[i].Node? <==> roots[i] != 0)
  {
    NodeLinks(m, bins[i], roots[i], parents[i]);
  }

  /** The chunk search of tmalloc_large over all tree bins: finds the smallest tree
      chunk that fits, and misses only if none fits. */
  method FindLarge(m: Memory, roots: seq<nat>, mapWord: bv32, nb: nat, ghost treemap: set<nat>, ghost bins: seq<Tree>,
                   ghost parents: seq<nat>)
    returns (v: Option<Chunk>, rsize: nat, ghost at: nat)
    requires RootsStand(m, bins, roots, parents) && BinsOk(bins, treemap) && Denotes(mapWord, treemap)
    requires MIN_LARGE_SIZE <= nb < WORD
    ensures Remains(v, rsize, nb)
    ensures v.Some? ==> at < 32 && Heads(bins[at], v.value) && BestOfAll(bins, nb, v.value.size)
    ensures v.None? ==> BestOfAll(bins, nb, WORD)
  {
    hide Trie, Items, MinSize, Pow2, Settles, Stands, Denotes;
    TreeIndexBelongs(nb);
    var idx := TreeIndex(nb);
    assert BinOk(bins[idx], idx);
    v, rsize, at := None, Sub64(0, nb), idx;
    var x := roots[idx];
    ghost var t, p, lo, w := bins[idx], parents[idx], Lo(idx), Width(idx);
    BelongFits(bins[idx], idx);
    RootStands(m, bins, roots, parents, idx);
    if x != 0 {
      BinWindow(nb, idx);
      v, rsize, x, t, p, lo, w := SearchPath(m, x, nb, KeyFor(nb, idx), t, p, lo, w, BinBit(idx));
      NodeLinks(m, t, x, p);
    }
    if x == 0 && v.None? {
      var found, i := LowestAbove(mapWord, idx, treemap);
      if !found {
        FoundNowhere(bins, treemap, nb, idx);
        return;
      }
      at := i;
      RootFits(bins, treemap, nb, idx, i);
      RootStands(m, bins, roots, parents, i);
      v, rsize := Leftmost(m, roots[i], v, rsize, nb, bins[i], parents[i], Lo(i), Width(i));
      FoundAbove(bins, treemap, nb, idx, i, v.value);
    } else {
      ghost var before := v;
      v, rsize := Leftmost(m, x, v, rsize, nb, t, p, lo, w);
      FoundInOwnBin(bins, treemap, nb, idx, before, t, v.value);
    }
  }

  lemma FoundInLowestBin(bins: seq<Tree>, treemap: set<nat>, nb: nat, i: nat, v: Chunk)
    requires BinsOk(bins, treemap) && IsLeast(treemap, i)
    requires Heads(bins[i], v) && Best(bins[i], nb, v.size)
    ensures BestOfAll(bins, nb, v.size)
  {
    hide Trie, MinSize, Pow2;
    assert BinOk(bins[i], i);
    HeadBelongs(bins[i], v, i);
    forall j | 0 <= j < |bins|
      ensures Best(bins[j], nb, v.size)
    {
      assert BinOk(bins[j], j);
      if j > i {
        MinSizeMonotone(i + 1, j);
        OtherBin(bins[j], j, nb, v.size);
      } else if j < i {
        assert j !in treemap;
      }
    }
  }

  lemma AllTreesFit(bins: seq<Tree>, treemap: set<nat>, nb: nat, i: nat)
    requires BinsOk(bins, treemap) && i < 32 && nb < MIN_LARGE_SIZE
    ensures Trie(bins[i], Lo(i), Width(i)) && AllFit(bins[i], 0) && AllFit(bins[i], nb + 1)
  {
    assert BinOk(bins[i], i);
    BelongFits(bins[i], i);
    SmallPowers();
    MinSizeMonotone(0, i);
    FitLess(bins[i], MinSize(i), nb + 1);
  }

  /** The chunk search of tmalloc_small: every tree chunk fits a small request, so
      the smallest of the lowest non-empty bin is the best fit. */
  method FindSmall(m: Memory, roots: seq<nat>, mapWord: bv32, nb: nat, ghost treemap: set<nat>, ghost bins: seq<Tree>,
                   ghost parents: seq<nat>)
    returns (v: Chunk, rsize: nat, ghost at: nat)
    requires RootsStand(m, bins, roots, parents) && BinsOk(bins, treemap) && Denotes(mapWord, treemap)
    requires treemap != {} && 0 < nb < MIN_LARGE_SIZE
    ensures nb < v.size < WORD && rsize == v.size - nb
    ensures at < 32 && Heads(bins[at], v) && BestOfAll(bins, nb, v.size)
  {
    hide BinOk, Trie, Stands, MinSize, Pow2, Best, Denotes;
    var found, i := Lowest(mapWord, treemap);
    at := i;
    var x := roots[i];
    ghost var t := bins[i];
    RootStands(m, bins, roots, parents, i);
    NodeLinks(m, t, x, parents[i]);
    AllTreesFit(bins, treemap, nb, i);
    FitLess(t, nb + 1, nb);
    v := Chunk(x, m[x].size);
    assert Heads(t, v);
    var best, left := Leftmost(m, x, Some(v), Sub64(v.size, nb), nb, t, parents[i], Lo(i), Width(i));
    v, rsize := best.value, left;
    HeadFits(t, v, nb + 1);
    FoundInLowestBin(bins, treemap, nb, i, v);
  }

  lemma {:induction false} HeadFits(t: Tree, v: Chunk, nb: nat)
    requires Heads(t, v) && AllFit(t, nb)
    ensures nb <= v.size < WORD
  {
    if t.chain[0] != v {
      if Heads(t.left, v) { HeadFits(t.left, v, nb); } else { HeadFits(t.right, v, nb); }
    }
  }
}
