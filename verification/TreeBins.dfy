/** The 32 tree bins of dlmalloc: which bin a size belongs to, and what inserting and
    unlinking keep of a bin (foreign/libffi/src/dlmalloc.c). */
module TreeBins {

  import opened Words
  import opened SizeTrie

  const MIN_LARGE_SIZE: nat := 256
  const LAST: nat := 31

  // ---------- bin arithmetic

  /** Bit n of x, left in place, for n = 3, 2 and 1. */
  function And8(x: nat): nat { x / 8 % 2 * 8 }
  function And4(x: nat): nat { x / 4 % 2 * 4 }
  function And2(x: nat): nat { x / 2 % 2 * 2 }

  function Sub32(a: nat, b: nat): nat { (a - b) % 0x1_0000_0000 }

  function Times(y: nat, n: nat): nat {
    if n == 0 then y else if n == 2 then 4 * y else if n == 4 then 16 * y else 256 * y
  }

  /** floor(log2(x)) for 0 < x < 2^16, by four conditional shifts without branches. */
  function LogSteps(x: nat): int {
    var n8 := And8(Sub32(x, 0x100) / 0x1_0000);
    var y8 := Times(x, n8);
    var n4 := And4(Sub32(y8, 0x1000) / 0x1_0000);
    var y4 := Times(y8, n4);
    var n2 := And2(Sub32(y4, 0x4000) / 0x1_0000);
    var y2 := Times(y4, n2);
    14 - (n8 + n4 + n2) + y2 / 0x8000
  }

  lemma Borrow(y: nat, bound: nat)
    requires y < 0x1_0000 && bound < 0x1_0000
    ensures Sub32(y, bound) / 0x1_0000 == if y < bound then 0xFFFF else 0
  {
    if y < bound {
      ModUnique(y - bound, 0x1_0000_0000, -1, 0x1_0000_0000 + y - bound);
    }
  }

  /** A borrow shows in every one of the bits that are tested. */
  lemma BorrowBits(y: nat, bound: nat)
    requires y < 0x1_0000 && bound < 0x1_0000
    ensures var b := Sub32(y, bound) / 0x1_0000;
            if y < bound then And8(b) == 8 && And4(b) == 4 && And2(b) == 2
            else And8(b) == 0 && And4(b) == 0 && And2(b) == 0
  {
    Borrow(y, bound);
  }

  lemma LogStepsByCases(x: nat)
    requires 0 < x < 0x1_0000
    ensures LogSteps(x) == LogCases(x)
  {
    hide Sub32, And8, And4, And2;
    BorrowBits(x, 0x100);
    var y8 := if x < 0x100 then 256 * x else x;
    BorrowBits(y8, 0x1000);
    var y4 := if y8 < 0x1000 then 16 * y8 else y8;
    BorrowBits(y4, 0x4000);
  }

  lemma LogStepsIsLog2(x: nat)
    requires 0 < x < 0x1_0000
    ensures 0 <= LogSteps(x) < 16
    ensures Pow2(LogSteps(x)) <= x < Pow2(LogSteps(x) + 1)
  {
    hide LogSteps;
    LogStepsByCases(x);
    SmallPowers();
  }

  function LogCases(x: nat): nat {
    if x < 0x2 then 0 else if x < 0x4 then 1 else if x < 0x8 then 2 else if x < 0x10 then 3
    else if x < 0x20 then 4 else if x < 0x40 then 5 else if x < 0x80 then 6 else if x < 0x100 then 7
    else if x < 0x200 then 8 else if x < 0x400 then 9 else if x < 0x800 then 10 else if x < 0x1000 then 11
    else if x < 0x2000 then 12 else if x < 0x4000 then 13 else if x < 0x8000 then 14 else 15
  }

  lemma SmallPowers()
    ensures Pow2(0) == 1 && Pow2(1) == 2 && Pow2(2) == 4 && Pow2(3) == 8
    ensures Pow2(4) == 16 && Pow2(5) == 32 && Pow2(6) == 64 && Pow2(7) == 128
    ensures Pow2(8) == 0x100 && Pow2(9) == 0x200 && Pow2(10) == 0x400 && Pow2(11) == 0x800
    ensures Pow2(12) == 0x1000 && Pow2(13) == 0x2000 && Pow2(14) == 0x4000 && Pow2(15) == 0x8000
    ensures Pow2(16) == 0x1_0000
  {
    assert Pow2(4) == 16;
    assert Pow2(8) == 0x100;
    assert Pow2(12) == 0x1000;
  }

  /** compute_tree_index. */
  function TreeIndex(s: nat): int {
    var x := s / 256;
    if x == 0 then 0
    else if x > 0xFFFF then LAST
    else
      var k := LogSteps(x);
      if k < 0 then 0 else 2 * k + s / Pow2(k + 7) % 2
  }

  /** minsize_for_tree_index: the two summands have no bit in common. */
  function MinSize(i: nat): nat {
    Pow2(i / 2 + 8) + i % 2 * Pow2(i / 2 + 7)
  }

  /** bit_for_tree_index. */
  function BinBit(i: nat): nat {
    if i == LAST then 63 else i / 2 + 6
  }

  function LeftShift(i: nat): nat
    requires i <= LAST
  {
    63 - BinBit(i)
  }

  /** The sizes that belong to bin i. */
  predicate Belongs(s: nat, i: nat) {
    MinSize(i) <= s < WORD && (i < LAST ==> s < MinSize(i + 1))
  }

  lemma MinSizeStep(i: nat)
    ensures MinSize(i + 1) == MinSize(i) + Pow2(i / 2 + 7)
  {
    assert Pow2(i / 2 + 8) == 2 * Pow2(i / 2 + 7);
    if i % 2 == 1 {
      assert (i + 1) / 2 == i / 2 + 1;
      assert Pow2(i / 2 + 9) == 2 * Pow2(i / 2 + 8);
    }
  }

  lemma {:induction false} MinSizeMonotone(i: nat, j: nat)
    requires i <= j
    ensures MinSize(i) <= MinSize(j)
  {
    if i < j {
      MinSizeMonotone(i, j - 1);
      MinSizeStep(j - 1);
    }
  }

  lemma LastBin()
    ensures MinSize(LAST) == 0xC0_0000
  {
    SmallPowers();
    Pow2Add(15, 8);
    Pow2Add(14, 8);
  }

  /** The index computed for a large size is the one bin whose bounds contain it. */
  lemma TreeIndexBelongs(s: nat)
    requires MIN_LARGE_SIZE <= s < WORD
    ensures 0 <= TreeIndex(s) <= LAST && Belongs(s, TreeIndex(s))
  {
    hide LogSteps, MinSize, Pow2;
    var x := s / 256;
    if x > 0xFFFF {
      LastBin();
    } else {
      LogStepsIsLog2(x);
      var k := LogSteps(x);
      BelongsInOctave(s, k);
    }
  }

  lemma BelongsInOctave(s: nat, k: nat)
    requires k < 16 && s < WORD && Pow2(k) <= s / 256 < Pow2(k + 1)
    ensures Belongs(s, 2 * k + s / Pow2(k + 7) % 2)
  {
    OctaveBounds(s, k);
    QuotientIs2Or3(s, Pow2(k + 7));
    HalfOctave(s, k, s / Pow2(k + 7) % 2);
  }

  lemma OctaveBounds(s: nat, k: nat)
    requires Pow2(k) <= s / 256 < Pow2(k + 1)
    ensures 2 * Pow2(k + 7) <= s < 4 * Pow2(k + 7)
  {
    PowersAround(k);
  }

  lemma HalfOctave(s: nat, k: nat, d: nat)
    requires k < 16 && s < WORD && 2 * Pow2(k + 7) <= s < 4 * Pow2(k + 7)
    requires d == if s < 3 * Pow2(k + 7) then 0 else 1
    ensures Belongs(s, 2 * k + d)
  {
    MinSizeAt(k, d);
  }

  lemma PowersAround(k: nat)
    ensures Pow2(k + 8) == 2 * Pow2(k + 7) && Pow2(k + 8) == 256 * Pow2(k)
    ensures Pow2(k + 1) == 2 * Pow2(k)
  {
    SmallPowers();
    Pow2Add(k, 8);
  }

  lemma MinSizeAt(k: nat, d: nat)
    requires d < 2
    ensures MinSize(2 * k + d) == (if d == 0 then 2 * Pow2(k + 7) else 3 * Pow2(k + 7))
    ensures MinSize(2 * k + d + 1) == (if d == 0 then 3 * Pow2(k + 7) else 4 * Pow2(k + 7))
  {
    PowersAround(k);
    PowersAround(k + 1);
    Octave(2 * k + d, k, d);
    if d == 0 {
      Octave(2 * k + 1, k, 1);
    } else {
      Octave(2 * k + 2, k + 1, 0);
    }
  }

  lemma Octave(i: nat, k: nat, d: nat)
    requires i == 2 * k + d && d < 2
    ensures MinSize(i) == Pow2(k + 8) + (if d == 0 then 0 else Pow2(k + 7))
  {
    assert i / 2 == k && i % 2 == d;
  }

  lemma QuotientIs2Or3(s: nat, h: nat)
    requires h > 0 && 2 * h <= s < 4 * h
    ensures s / h == (if s < 3 * h then 2 else 3)
  {
    if s < 3 * h {
      ModUnique(s, h, 2, s - 2 * h);
    } else {
      ModUnique(s, h, 3, s - 3 * h);
    }
  }

  /** A size belongs to one bin only. */
  lemma BelongsUnique(s: nat, i: nat, j: nat)
    requires i <= LAST && j <= LAST && Belongs(s, i) && Belongs(s, j)
    ensures i == j
  {
    hide MinSize;
    if i < j { MinSizeMonotone(i + 1, j); }
    if j < i { MinSizeMonotone(j + 1, i); }
  }

  /** The last bin at or below i whose least size is not above s. */
  ghost function BinFrom(s: nat, i: nat): nat {
    if i == 0 || MinSize(i) <= s then i else BinFrom(s, i - 1)
  }

  /** The bin of a large size. */
  ghost function Bin(s: nat): nat {
    BinFrom(s, LAST)
  }

  lemma {:induction false} BinFromBelongs(s: nat, i: nat)
    requires i <= LAST && MinSize(0) <= s < WORD && (i < LAST ==> s < MinSize(i + 1))
    ensures BinFrom(s, i) <= i && Belongs(s, BinFrom(s, i))
  {
    hide MinSize;
    if i > 0 && s < MinSize(i) {
      BinFromBelongs(s, i - 1);
    }
  }

  lemma BinBelongs(s: nat)
    requires MIN_LARGE_SIZE <= s < WORD
    ensures Bin(s) <= LAST && Belongs(s, Bin(s))
  {
    SmallPowers();
    BinFromBelongs(s, LAST);
  }

  /** compute_tree_index finds the bin whose bounds contain the size. */
  lemma TreeIndexIsBin(s: nat)
    requires MIN_LARGE_SIZE <= s < WORD
    ensures TreeIndex(s) == Bin(s)
  {
    BinBelongs(s);
    TreeIndexBelongs(s);
    BelongsUnique(s, TreeIndex(s), Bin(s));
  }

  // ---------- bins

  ghost function Lo(i: nat): nat { if i == LAST then 0 else MinSize(i) }

  ghost function Width(i: nat): nat { Pow2(BinBit(i) + 1) }

  predicate AllBelong(t: Tree, i: nat) {
    t.Nil? || (|t.chain| > 0 && Belongs(t.chain[0].size, i) && AllBelong(t.left, i) && AllBelong(t.right, i))
  }

  ghost predicate BinOk(t: Tree, i: nat) {
    Trie(t, Lo(i), Width(i)) && AllBelong(t, i)
  }

  /** What do_check_treebin and do_check_tree demand of every bin. */
  ghost predicate BinsOk(bins: seq<Tree>, treemap: set<nat>) {
    && |bins| == 32
    && (forall i :: 0 <= i < 32 ==> BinOk(bins[i], i))
    && (forall i :: i in treemap <==> 0 <= i < 32 && bins[i].Node?)
  }

  lemma BinAligned(i: nat)
    requires i < LAST
    ensures MinSize(i) % Pow2(i / 2 + 7) == 0
  {
    var w := Pow2(i / 2 + 7);
    assert MinSize(i) == (2 + i % 2) * w;
    ModUnique(MinSize(i), w, 2 + i % 2, 0);
  }

  /** Each bin is a window of its own bit, and the shifted request is its key. */
  lemma BinWindow(s: nat, i: nat)
    requires i <= LAST && Belongs(s, i)
    ensures Window(Lo(i), Width(i), BinBit(i)) && InWindow(s, Lo(i), Width(i))
    ensures s * Pow2(LeftShift(i)) % WORD == KeyAt(s, BinBit(i))
  {
    WordIsPow2();
    if i < LAST {
      MinSizeStep(i);
      BinAligned(i);
    }
  }

  // ---------- inserting into and unlinking from a bin

  lemma {:induction false} InsertBelongs(t: Tree, c: Chunk, k: nat, i: nat)
    requires AllBelong(t, i) && Belongs(c.size, i)
    ensures AllBelong(Insert(t, c, k), i)
    decreases t
  {
    if t.Node? {
      if TopBit(k) == 1 {
        InsertBelongs(t.right, c, ShiftLeft(k), i);
      } else {
        InsertBelongs(t.left, c, ShiftLeft(k), i);
      }
    }
  }

  lemma {:induction false} LastLeafBelongs(t: Tree, i: nat)
    requires t.Node? && AllBelong(t, i)
    ensures AllBelong(DropLastLeaf(t), i)
    ensures |LastLeaf(t)| > 0 && Belongs(LastLeaf(t)[0].size, i)
  {
    if t.right.Node? {
      LastLeafBelongs(t.right, i);
    } else if t.left.Node? {
      LastLeafBelongs(t.left, i);
    }
  }

  lemma UnlinkAtBelongs(t: Tree, j: nat, i: nat)
    requires t.Node? && SameSize(t.chain) && j < |t.chain| && AllBelong(t, i)
    ensures AllBelong(UnlinkAt(t, j), i)
  {
    if |t.chain| == 1 {
      if t.right.Node? {
        LastLeafBelongs(t.right, i);
      } else if t.left.Node? {
        LastLeafBelongs(t.left, i);
      }
    }
  }

  lemma {:induction false} UnlinkBelongs(t: Tree, c: Chunk, k: nat, lo: nat, w: nat, i: nat)
    requires Trie(t, lo, w) && AllBelong(t, i)
    ensures AllBelong(Unlink(t, c, k), i)
    decreases t
  {
    if t.Node? {
      if c in t.chain {
        UnlinkAtBelongs(t, IndexOf(t.chain, c), i);
      } else if w != 1 {
        UnlinkBelongs(t.right, c, ShiftLeft(k), lo + w / 2, w / 2, i);
        UnlinkBelongs(t.left, c, ShiftLeft(k), lo, w / 2, i);
      }
    }
  }

  function KeyFor(s: nat, i: nat): nat
    requires i <= LAST
  {
    s * Pow2(LeftShift(i)) % WORD
  }

  /** insert_large_chunk puts the chunk into the bin of its size and keeps the bin a
      size trie. */
  lemma InsertIntoBin(t: Tree, c: Chunk, i: nat)
    requires i <= LAST && BinOk(t, i) && Belongs(c.size, i)
    ensures BinOk(Insert(t, c, KeyFor(c.size, i)), i)
    ensures Items(Insert(t, c, KeyFor(c.size, i))) == Items(t) + multiset{c}
    ensures Insert(t, c, KeyFor(c.size, i)).Node?
  {
    BinWindow(c.size, i);
    InsertKeepsTrie(t, c, Lo(i), Width(i), BinBit(i));
    InsertItems(t, c, KeyFor(c.size, i));
    InsertBelongs(t, c, KeyFor(c.size, i), i);
  }

  /** unlink_large_chunk takes exactly the chunk out and keeps the bin a size trie. */
  lemma UnlinkFromBin(t: Tree, c: Chunk, i: nat)
    requires i <= LAST && BinOk(t, i) && c in Items(t)
    ensures Belongs(c.size, i)
    ensures BinOk(Unlink(t, c, KeyFor(c.size, i)), i)
    ensures Items(Unlink(t, c, KeyFor(c.size, i))) == Items(t) - multiset{c}
  {
    ItemBelongs(t, c, Lo(i), Width(i), i);
    BinWindow(c.size, i);
    UnlinkKeepsTrie(t, c, KeyFor(c.size, i), Lo(i), Width(i));
    UnlinkItems(t, c, Lo(i), Width(i), BinBit(i));
    UnlinkBelongs(t, c, KeyFor(c.size, i), Lo(i), Width(i), i);
  }

  lemma {:induction false} ItemBelongs(t: Tree, c: Chunk, lo: nat, w: nat, i: nat)
    requires Trie(t, lo, w) && AllBelong(t, i) && c in Items(t)
    ensures Belongs(c.size, i)
    decreases t
  {
    if c !in t.chain && w != 1 {
      if c in Items(t.left) {
        ItemBelongs(t.left, c, lo, w / 2, i);
      } else {
        ItemBelongs(t.right, c, lo + w / 2, w / 2, i);
      }
    }
  }
}
