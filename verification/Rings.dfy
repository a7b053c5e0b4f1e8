/** Rings of two-way links: the small bins of dlmalloc and the lists of Wayland
    (foreign/libffi/src/dlmalloc.c, foreign/wayland/src/wayland-util.c). */
module Rings {

  import opened Lists

  ghost predicate LoopAt(fd: map<nat, nat>, bk: map<nat, nat>, ring: seq<nat>, k: nat)
    requires k < |ring|
  {
    var x, n := ring[k], |ring|;
    x in fd && x in bk && fd[x] == ring[After(k, n)] && bk[x] == ring[Before(k, n)]
  }

  /** Following fd leads once around the ring, and bk the other way. */
  ghost predicate Loop(fd: map<nat, nat>, bk: map<nat, nat>, ring: seq<nat>) {
    forall k :: 0 <= k < |ring| ==> LoopAt(fd, bk, ring, k)
  }

  lemma LoopKept(fd: map<nat, nat>, bk: map<nat, nat>, fd': map<nat, nat>, bk': map<nat, nat>, ring: seq<nat>)
    requires Loop(fd, bk, ring)
    requires forall x :: x in ring && x in fd && x in bk ==> x in fd' && x in bk' && fd'[x] == fd[x] && bk'[x] == bk[x]
    ensures Loop(fd', bk', ring)
  {
    forall k | 0 <= k < |ring|
      ensures LoopAt(fd', bk', ring, k)
    {
      assert LoopAt(fd, bk, ring, k) && ring[k] in ring;
    }
  }

  /** B->fd = P; F->bk = P; P->fd = F; P->bk = B, for the bin h = B and its old fd F. */
  lemma LoopGrown(fd: map<nat, nat>, bk: map<nat, nat>, h: nat, list: seq<nat>, p: nat)
    requires NoDup([h] + list) && p !in [h] + list && (list != [] ==> Loop(fd, bk, [h] + list))
    ensures var f := if list == [] then h else list[0];
            Loop(fd[h := p][p := f], bk[f := p][p := h], [h, p] + list)
  {
    var f, ring, grown := if list == [] then h else list[0], [h] + list, [h, p] + list;
    var fd', bk' := fd[h := p][p := f], bk[f := p][p := h];
    forall k | 0 <= k < |grown|
      ensures LoopAt(fd', bk', grown, k)
    {
      if list == [] {
      } else if k == 0 {
        assert LoopAt(fd, bk, ring, 0);
        assert ring[|ring| - 1] == grown[|grown| - 1];
      } else if k == 1 {
      } else {
        assert LoopAt(fd, bk, ring, k - 1) && grown[k] == ring[k - 1] && ring[k - 1] in ring;
        assert k > 2 ==> grown[k - 1] == ring[k - 2];
        assert ring[0] == h && ring[1] == f;
      }
    }
  }

  /** F->bk = B; B->fd = F, for the neighbours of place i. */
  lemma LoopShrunk(fd: map<nat, nat>, bk: map<nat, nat>, ring: seq<nat>, i: nat)
    requires NoDup(ring) && Loop(fd, bk, ring) && 0 < i < |ring| && |ring| > 2
    ensures LoopAt(fd, bk, ring, i)
    ensures var f, b := fd[ring[i]], bk[ring[i]]; f != b && Loop(fd[b := f], bk[f := b], ring[..i] + ring[i + 1..])
  {
    var n, shrunk := |ring|, ring[..i] + ring[i + 1..];
    assert LoopAt(fd, bk, ring, i);
    var f, b := fd[ring[i]], bk[ring[i]];
    var fd', bk' := fd[b := f], bk[f := b];
    forall k | 0 <= k < n - 1
      ensures LoopAt(fd', bk', shrunk, k)
    {
      var j := if k < i then k else k + 1;
      assert shrunk[k] == ring[j] && LoopAt(fd, bk, ring, j);
      var a, z := After(k, n - 1), Before(k, n - 1);
      assert shrunk[a] == ring[if a < i then a else a + 1];
      assert shrunk[z] == ring[if z < i then z else z + 1];
    }
  }
}
