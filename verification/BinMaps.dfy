/** The 32-bit maps of non-empty bins and the bit tricks that search them
    (foreign/libffi/src/dlmalloc.c).  A map stands for the set of indices it marks; the
    word operations are shown to compute the set operations. */
module BinMaps {

  function LeastBit(x: bv32): bv32 {
    x & (0 - x)
  }

  function LeftBits(x: bv32): bv32 {
    (x << 1) | (0 - (x << 1))
  }

  /** The branch-free logarithm of a one-bit word. */
  function Bit2Idx(x: bv32): bv32 {
    var y := x - 1;
    var k := (y >> 12) & 16; var n := k; var y := y >> k;
    var k := (y >> 5) & 8; var n := n + k; var y := y >> k;
    var k := (y >> 2) & 4; var n := n + k; var y := y >> k;
    var k := (y >> 1) & 2; var n := n + k; var y := y >> k;
    var k := y & 1; var n := n + k; var y := y >> k;
    n + y
  }

  predicate HasBit(m: bv32, k: bv32)
    requires k < 32
  {
    m & ((1 as bv32) << k) != 0
  }

  // Single words.

  lemma MarkBit(m: bv32, i: bv32, k: bv32)
    requires i < 32 && k < 32
    ensures HasBit(m | (1 << i), k) <==> i == k || HasBit(m, k)
    ensures HasBit(m & !(1 << i), k) <==> i != k && HasBit(m, k)
  {
  }

  lemma LeftBit(m: bv32, i: bv32, k: bv32)
    requires i < 32 && k < 32
    ensures HasBit(LeftBits(1 << i) & m, k) <==> i < k && HasBit(m, k)
  {
  }

  lemma LowestBit(m: bv32, k: bv32)
    requires m != 0
    ensures Bit2Idx(LeastBit(m)) < 32 && HasBit(m, Bit2Idx(LeastBit(m)))
    ensures k < Bit2Idx(LeastBit(m)) ==> !HasBit(m, k)
  {
  }

  lemma WordOrder(a: bv32, b: bv32)
    requires a < 32 && b < 32
    ensures a as nat < 32
    ensures a < b <==> a as nat < b as nat
  {
  }

  lemma NextWord(k: bv32)
    requires k < 31
    ensures (k + 1) as nat == k as nat + 1
  {
  }

  lemma {:induction false} WordOf(i: nat) returns (k: bv32)
    requires i < 32
    ensures k < 32 && k as nat == i
  {
    k := 0;
    if i > 0 {
      k := WordOf(i - 1);
      WordOrder(k, 31);
      NextWord(k);
      k := k + 1;
    }
  }

  // Words as sets of bin indices.

  predicate Agrees(m: bv32, s: set<nat>, k: bv32)
    requires k < 32
  {
    HasBit(m, k) <==> k as nat in s
  }

  /** The word m marks exactly the bins in s. */
  ghost predicate Denotes(m: bv32, s: set<nat>) {
    && (forall i :: i in s ==> i < 32)
    && (forall k: bv32 :: k < 32 ==> Agrees(m, s, k))
  }

  predicate IsLeast(s: set<nat>, i: nat) {
    i in s && forall j :: j in s ==> i <= j
  }

  function Above(s: set<nat>, i: nat): set<nat> {
    set j | j in s && j > i
  }

  lemma MarkAgrees(m: bv32, s: set<nat>, i: bv32, k: bv32)
    requires i < 32 && k < 32 && Agrees(m, s, k)
    ensures Agrees(m | (1 << i), s + {i as nat}, k)
  {
    MarkBit(m, i, k);
    WordOrder(i, k);
    WordOrder(k, i);
  }

  lemma ClearAgrees(m: bv32, s: set<nat>, i: bv32, k: bv32)
    requires i < 32 && k < 32 && Agrees(m, s, k)
    ensures Agrees(m & !(1 << i), s - {i as nat}, k)
  {
    MarkBit(m, i, k);
    WordOrder(i, k);
    WordOrder(k, i);
  }

  lemma LeftAgrees(m: bv32, s: set<nat>, i: bv32, k: bv32)
    requires i < 32 && k < 32 && Agrees(m, s, k)
    ensures Agrees(LeftBits(1 << i) & m, Above(s, i as nat), k)
  {
    LeftBit(m, i, k);
    WordOrder(i, k);
  }

  /** mark_smallmap and mark_treemap. */
  lemma MarkDenotes(m: bv32, s: set<nat>, i: bv32)
    requires Denotes(m, s) && i < 32
    ensures Denotes(m | (1 << i), s + {i as nat})
  {
    var m', s' := m | (1 << i), s + {i as nat};
    WordOrder(i, 0);
    forall k: bv32 | k < 32
      ensures Agrees(m', s', k)
    {
      MarkAgrees(m, s, i, k);
    }
  }

  /** clear_smallmap and clear_treemap. */
  lemma ClearDenotes(m: bv32, s: set<nat>, i: bv32)
    requires Denotes(m, s) && i < 32
    ensures Denotes(m & !(1 << i), s - {i as nat})
  {
    var m', s' := m & !(1 << i), s - {i as nat};
    forall k: bv32 | k < 32
      ensures Agrees(m', s', k)
    {
      ClearAgrees(m, s, i, k);
    }
  }

  /** The mask left_bits(idx2bit(i)) keeps the bins above i. */
  lemma LeftDenotes(m: bv32, s: set<nat>, i: bv32)
    requires Denotes(m, s) && i < 32
    ensures Denotes(LeftBits(1 << i) & m, Above(s, i as nat))
  {
    var m', s' := LeftBits(1 << i) & m, Above(s, i as nat);
    forall k: bv32 | k < 32
      ensures Agrees(m', s', k)
    {
      LeftAgrees(m, s, i, k);
    }
  }

  lemma MemberMeansNonZero(m: bv32, s: set<nat>, j: nat)
    requires Denotes(m, s) && j in s
    ensures m != 0
  {
    var w := WordOf(j);
    assert Agrees(m, s, w);
  }

  /** least_bit followed by compute_bit2idx yields the smallest marked bin, and a
      zero word marks nothing. */
  lemma LeastDenotes(m: bv32, s: set<nat>)
    requires Denotes(m, s)
    ensures m == 0 <==> s == {}
    ensures m != 0 ==> IsLeast(s, Bit2Idx(LeastBit(m)) as nat)
  {
    if s != {} {
      var j :| j in s;
      MemberMeansNonZero(m, s, j);
    }
    if m != 0 {
      var k := Bit2Idx(LeastBit(m));
      LowestBit(m, 0);
      assert Agrees(m, s, k);
      forall j | j in s
        ensures k as nat <= j
      {
        var w := WordOf(j);
        assert Agrees(m, s, w);
        LowestBit(m, w);
        WordOrder(w, k);
      }
    }
  }

  // ---------- the operations on maps

  /** The word of a bin index. */
  function Index(i: nat): (k: bv32)
    requires i < 32
    ensures k < 32 && k as nat == i
  {
    if i == 0 then 0
    else
      var k := Index(i - 1);
      WordOrder(k, 31);
      NextWord(k);
      k + 1
  }

  lemma Marks(m: bv32, s: set<nat>, k: bv32)
    requires Denotes(m, s) && k < 32
    ensures HasBit(m, k) <==> k as nat in s
  {
    hide HasBit;
    assert Agrees(m, s, k);
  }

  /** smallmap_is_marked and treemap_is_marked. */
  method IsMarked(m: bv32, i: nat, ghost s: set<nat>) returns (marked: bool)
    requires Denotes(m, s) && i < 32
    ensures marked <==> i in s
  {
    hide HasBit, Denotes, Index;
    var k := Index(i);
    Marks(m, s, k);
    marked := HasBit(m, k);
  }

  method Mark(m: bv32, i: nat, ghost s: set<nat>) returns (m': bv32)
    requires Denotes(m, s) && i < 32
    ensures Denotes(m', s + {i})
  {
    var k := Index(i);
    MarkDenotes(m, s, k);
    m' := m | (1 << k);
  }

  method Clear(m: bv32, i: nat, ghost s: set<nat>) returns (m': bv32)
    requires Denotes(m, s) && i < 32
    ensures Denotes(m', s - {i})
  {
    var k := Index(i);
    ClearDenotes(m, s, k);
    m' := m & !(1 << k);
  }

  /** left_bits, least_bit and compute_bit2idx: the lowest marked bin above i. */
  method LowestAbove(m: bv32, i: nat, ghost s: set<nat>) returns (found: bool, j: nat)
    requires Denotes(m, s) && i < 32
    ensures found <==> Above(s, i) != {}
    ensures found ==> IsLeast(Above(s, i), j)
  {
    var k := Index(i);
    LeftDenotes(m, s, k);
    var leftbits := LeftBits(1 << k) & m;
    found, j := Lowest(leftbits, Above(s, i));
  }

  /** least_bit and compute_bit2idx: the lowest marked bin. */
  method Lowest(m: bv32, ghost s: set<nat>) returns (found: bool, j: nat)
    requires Denotes(m, s)
    ensures found <==> s != {}
    ensures found ==> IsLeast(s, j)
  {
    LeastDenotes(m, s);
    found := m != 0;
    j := 0;
    if found {
      j := Bit2Idx(LeastBit(m)) as nat;
    }
  }

  /** The test for a remainderless fit: bin i, or else the next one. */
  method OneOrNext(m: bv32, i: nat, ghost s: set<nat>) returns (found: bool, j: nat)
    requires Denotes(m, s) && i < 32
    ensures found <==> i in s || i + 1 in s
    ensures found ==> j == if i in s then i else i + 1
  {
    hide HasBit, Denotes, Index, FirstBits;
    var k := Index(i);
    Marks(m, s, k);
    WordOrder(k, 31);
    BelowLimit(s, m);
    LowBits(m, k);
    if i < 31 {
      NextIndex(k);
      Marks(m, s, k + 1);
    } else {
      LastIndex(k);
    }
    var (first, any) := FirstBits(m, k);
    found := any;
    j := if first then i else i + 1;
  }

  /** The lowest bit of smallmap >> idx, and whether one of the lowest two is set. */
  function FirstBits(m: bv32, k: bv32): (bool, bool)
    requires k < 32
  {
    ((m >> k) & 1 != 0, (m >> k) & 3 != 0)
  }

  lemma BelowLimit(s: set<nat>, m: bv32)
    requires Denotes(m, s)
    ensures 32 !in s
  {
  }

  lemma LastIndex(k: bv32)
    requires k < 32 && k as nat == 31
    ensures k == 31
  {
    WordOrder(k, 31);
  }

  lemma NextIndex(k: bv32)
    requires k < 32 && k as nat < 31
    ensures k + 1 < 32 && (k + 1) as nat == k as nat + 1
  {
    WordOrder(k, 31);
    NextWord(k);
  }

  lemma LowBits(m: bv32, k: bv32)
    requires k < 32
    ensures FirstBits(m, k).0 <==> HasBit(m, k)
    ensures k < 31 ==> (FirstBits(m, k).1 <==> HasBit(m, k) || HasBit(m, k + 1))
    ensures k == 31 ==> (FirstBits(m, k).1 <==> HasBit(m, k))
  {
  }

  lemma NoBits()
    ensures Denotes(0, {})
  {
    forall k: bv32 | k < 32
      ensures Agrees(0, {}, k)
    {
    }
  }
}
