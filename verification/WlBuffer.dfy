/** The ring buffers of a Wayland connection: 4096 bytes addressed by free-running
    32-bit counters (foreign/wayland/src/connection.c). */
module WlBuffer {

  import opened Words

  /** The buffer offset of counter value i. */
  function Mask(i: nat): nat { i % 4096 }

  /** The offset k places after counter value t, and how far offset j lies behind t. */
  function Slot(t: nat, k: nat): nat { (t + k) % 4096 }

  function Dist(t: nat, j: nat): nat { (j - t) % 4096 }

  lemma DistOfSlot(t: nat, n: nat, k: nat)
    requires n <= k + 4096 && k <= n + 4096
    ensures Slot(t, k) < 4096
    ensures n <= k < n + 4096 ==> Dist(t + n, Slot(t, k)) == k - n
    ensures k < n <= k + 4096 ==> Dist(t + n, Slot(t, k)) == k - n + 4096
  {
    var q := (t + k) / 4096;
    assert Slot(t, k) - (t + n) == (k - n) + 4096 * (-q);
  }

  lemma SlotOfDist(t: nat, j: nat)
    requires j < 4096
    ensures Slot(t, Dist(t, j)) == j && Dist(t, j) < 4096
    ensures Dist(t, j) == if j >= Mask(t) then j - Mask(t) else j + 4096 - Mask(t)
  {
    assert j - t == (j - Mask(t)) + 4096 * (-(t / 4096));
  }

  /** Counters that agree modulo 2^32 address the same offsets. */
  lemma SlotWraps(t: nat, t': nat, k: nat)
    requires t % U32 == t' % U32
    ensures Slot(t, k) == Slot(t', k) && Dist(t, k) == Dist(t', k)
  {
    var m := 0x10_0000 * (t / U32 - t' / U32);
    assert t == t' + 4096 * m;
    AddMultiple(t' + k, m);
    AddMultiple(k - t', -m);
  }

  lemma AddMultiple(x: int, m: int)
    ensures (x + 4096 * m) % 4096 == x % 4096
  {
  }

  // ---------- bytes around the ring

  /** The n bytes of the ring from counter value t on. */
  ghost function Bytes(d: seq<Byte>, t: nat, n: nat): seq<Byte>
    requires |d| == 4096
  {
    seq(n, k requires 0 <= k < n => d[Slot(t, k)])
  }

  /** d' is d with src written around the ring from counter value h on. */
  ghost predicate Written(d: seq<Byte>, d': seq<Byte>, h: nat, src: seq<Byte>)
    requires |d| == |d'| == 4096
  {
    forall j :: 0 <= j < 4096 ==> d'[j] == if Dist(h, j) < |src| then src[Dist(h, j)] else d[j]
  }

  /** Writing behind the last byte appends. */
  lemma Appended(d: seq<Byte>, d': seq<Byte>, t: nat, size: nat, src: seq<Byte>)
    requires |d| == |d'| == 4096 && size + |src| <= 4096 && Written(d, d', t + size, src)
    ensures Bytes(d', t, size + |src|) == Bytes(d, t, size) + src
  {
    hide Slot, Dist;
    forall k | 0 <= k < size + |src|
      ensures Bytes(d', t, size + |src|)[k] == (Bytes(d, t, size) + src)[k]
    {
      DistOfSlot(t, size, k);
    }
  }

  lemma WrittenWraps(d: seq<Byte>, d': seq<Byte>, h: nat, h': nat, src: seq<Byte>)
    requires |d| == |d'| == 4096 && h % U32 == h' % U32 && Written(d, d', h, src)
    ensures Written(d, d', h', src)
  {
    hide Dist;
    forall j | 0 <= j < 4096
      ensures Dist(h', j) == Dist(h, j)
    {
      SlotWraps(h, h', j);
    }
  }

  lemma WrittenStraight(d: seq<Byte>, d': seq<Byte>, h: nat, src: seq<Byte>)
    requires |d| == |d'| == 4096 && Mask(h) + |src| <= 4096
    requires forall j :: 0 <= j < 4096 ==>
               d'[j] == if Mask(h) <= j < Mask(h) + |src| then src[j - Mask(h)] else d[j]
    ensures Written(d, d', h, src)
  {
    hide Dist, Mask;
    forall j | 0 <= j < 4096
      ensures d'[j] == if Dist(h, j) < |src| then src[Dist(h, j)] else d[j]
    {
      SlotOfDist(h, j);
    }
  }

  lemma WrittenAround(d: seq<Byte>, d': seq<Byte>, h: nat, src: seq<Byte>)
    requires |d| == |d'| == 4096 && 4096 < Mask(h) + |src| && |src| <= 4096
    requires forall j :: 0 <= j < 4096 ==>
               d'[j] == if j < Mask(h) + |src| - 4096 then src[j + 4096 - Mask(h)]
                        else if Mask(h) <= j then src[j - Mask(h)] else d[j]
    ensures Written(d, d', h, src)
  {
    hide Dist, Mask;
    forall j | 0 <= j < 4096
      ensures d'[j] == if Dist(h, j) < |src| then src[Dist(h, j)] else d[j]
    {
      SlotOfDist(h, j);
    }
  }

  lemma Consumed(d: seq<Byte>, t: nat, size: nat, n: nat)
    requires |d| == 4096 && n <= size
    ensures Bytes(d, (t + n) % U32, size - n) == Bytes(d, t, size)[n..]
  {
    var t' := (t + n) % U32;
    forall k | 0 <= k < size - n
      ensures Bytes(d, t', size - n)[k] == Bytes(d, t, size)[n..][k]
    {
      SlotWraps(t', t + n, k);
    }
  }

  // ---------- counters

  lemma SizeAfterPut(head: nat, tail: nat, n: nat)
    requires head < U32 && tail < U32 && (head - tail) % U32 + n <= 4096
    ensures ((head + n) % U32 - tail) % U32 == (head - tail) % U32 + n
    ensures (tail + (head - tail) % U32) % U32 == head % U32
  {
  }

  lemma SizeAfterConsume(head: nat, tail: nat, n: nat)
    requires head < U32 && tail < U32 && n <= (head - tail) % U32 <= 4096
    ensures (head - (tail + n) % U32) % U32 == (head - tail) % U32 - n
  {
  }

  /** The masked counters determine the size, except that empty and full look alike. */
  lemma StretchSizes(head: nat, tail: nat)
    requires head < U32 && tail < U32 && (head - tail) % U32 <= 4096
    ensures var n := (head - tail) % U32; var h, t := Mask(head), Mask(tail);
            if t < h then n == h - t else if t > h then n == 4096 - t + h else n == 0 || n == 4096
  {
    var n := (head - tail) % U32;
    var m := head / 4096 - tail / 4096 + if head < tail then 0x10_0000 else 0;
    assert n == Mask(head) - Mask(tail) + 4096 * m;
  }

  // ---------- iovec arrays

  /** One entry of a struct iovec array: len bytes from offset base of the buffer. */
  datatype Iov = Iov(base: nat, len: nat)

  ghost function Stretch(v: Iov): seq<nat> {
    seq(v.len, k requires 0 <= k < v.len => v.base + k)
  }

  /** The buffer offsets an iovec array covers, in order. */
  ghost function Positions(iov: seq<Iov>): seq<nat> {
    if iov == [] then [] else Stretch(iov[0]) + Positions(iov[1..])
  }

  /** The n offsets from counter value t on, around the ring. */
  ghost function Ring(t: nat, n: nat): seq<nat> {
    seq(n, k requires 0 <= k < n => Slot(t, k))
  }

  lemma OneStretch(t: nat, n: nat)
    requires Mask(t) + n <= 4096
    ensures Positions([Iov(Mask(t), n)]) == Ring(t, n)
  {
    var v := Iov(Mask(t), n);
    assert [v][1..] == [];
    assert Positions([v]) == Stretch(v);
    forall k | 0 <= k < n
      ensures Stretch(v)[k] == Slot(t, k)
    {
    }
  }

  lemma TwoStretches(t: nat, n: nat)
    requires 4096 - Mask(t) <= n <= 4096
    ensures Positions([Iov(Mask(t), 4096 - Mask(t)), Iov(0, n - (4096 - Mask(t)))]) == Ring(t, n)
  {
    var m := 4096 - Mask(t);
    var v, w := Iov(Mask(t), m), Iov(0, n - m);
    assert [v, w][1..] == [w] && [w][1..] == [];
    assert Positions([w]) == Stretch(w);
    forall k | 0 <= k < n
      ensures (Stretch(v) + Stretch(w))[k] == Slot(t, k)
    {
    }
  }

  // ---------- the buffer

  /** memcpy into the buffer. */
  method Memcpy(data: array<Byte>, at: nat, src: seq<Byte>)
    requires at + |src| <= data.Length
    modifies data
    ensures forall i :: 0 <= i < data.Length ==>
              data[i] == if at <= i < at + |src| then src[i - at] else old(data[i])
  {
    forall i | 0 <= i < |src| {
      data[at + i] := src[i];
    }
  }

  class Buffer {
    const data: array<Byte>
    var head: nat
    var tail: nat

    constructor ()
      ensures Valid() && Contents() == [] && fresh(data)
    {
      data := new Byte[4096](_ => 0);
      head, tail := 0, 0;
    }

    /** wl_buffer_size: unsigned 32-bit subtraction. */
    function Size(): nat
      reads this
    {
      (head - tail) % U32
    }

    ghost predicate Valid()
      reads this
    {
      data.Length == 4096 && head < U32 && tail < U32 && Size() <= 4096
    }

    ghost function Contents(): seq<Byte>
      reads this, data
      requires data.Length == 4096
    {
      Bytes(data[..], tail, Size())
    }

    /** The two memcpy calls of wl_buffer_put. */
    method CopyIn(src: seq<Byte>)
      requires Valid() && |src| <= 4096
      modifies data
      ensures Written(old(data[..]), data[..], head, src)
    {
      hide Written, Dist;
      var h := Mask(head);
      if h + |src| <= 4096 {
        Memcpy(data, h, src);
        WrittenStraight(old(data[..]), data[..], head, src);
      } else {
        var size := 4096 - h;
        Memcpy(data, h, src[..size]);
        Memcpy(data, 0, src[size..]);
        WrittenAround(old(data[..]), data[..], head, src);
      }
    }

    /** b->head += count, after count bytes were written at head. */
    method Advance(ghost before: seq<Byte>, ghost src: seq<Byte>, count: nat)
      requires Valid() && |before| == 4096 && count == |src| <= 4096 && Written(before, data[..], head, src)
      modifies `head
      ensures head == (old(head) + count) % U32
      ensures old(Size()) + count <= 4096 ==>
                Valid() && Contents() == Bytes(before, tail, old(Size())) + src
    {
      hide Written, Dist, Slot, Bytes;
      if Size() + count <= 4096 {
        SizeAfterPut(head, tail, count);
        WrittenWraps(before, data[..], head, tail + Size(), src);
        Appended(before, data[..], tail, Size(), src);
      }
      head := (head + count) % U32;
    }

    /** wl_buffer_put: refuses more than a buffer; appends if there is room. */
    method Put(src: seq<Byte>) returns (ok: bool)
      requires Valid()
      modifies `head, data
      ensures ok <==> |src| <= 4096
      ensures !ok ==> head == old(head) && data[..] == old(data[..])
      ensures ok ==> head == (old(head) + |src|) % U32 && Written(old(data[..]), data[..], old(head), src)
      ensures ok && old(Size()) + |src| <= 4096 ==> Valid() && Contents() == old(Contents()) + src
    {
      hide Written, Bytes;
      if |src| > 4096 {
        return false;
      }
      CopyIn(src);
      Advance(old(data[..]), src, |src|);
      ok := true;
    }

    /** wl_buffer_get_iov: the contents, in order, unless the buffer is empty. */
    method GetIov() returns (iov: seq<Iov>)
      requires Valid()
      ensures Size() > 0 ==> Positions(iov) == Ring(tail, Size())
      ensures Size() == 0 ==> Positions(iov) == Ring(tail, 4096)
    {
      hide Ring, Positions;
      var h, t := Mask(head), Mask(tail);
      StretchSizes(head, tail);
      ghost var n := if Size() == 0 then 4096 else Size();
      if t < h {
        iov := [Iov(t, h - t)];
        OneStretch(tail, n);
      } else if h == 0 {
        iov := [Iov(t, 4096 - t)];
        OneStretch(tail, n);
      } else {
        iov := [Iov(t, 4096 - t), Iov(0, h)];
        TwoStretches(tail, n);
      }
    }

    /** wl_buffer_put_iov: the free space, in order, unless the buffer is full. */
    method PutIov() returns (iov: seq<Iov>)
      requires Valid()
      ensures Size() < 4096 ==> Positions(iov) == Ring(head, 4096 - Size())
      ensures Size() == 4096 ==> Positions(iov) == Ring(head, 4096)
    {
      hide Ring, Positions;
      var h, t := Mask(head), Mask(tail);
      StretchSizes(head, tail);
      ghost var n := if Size() == 4096 then 4096 else 4096 - Size();
      if h < t {
        iov := [Iov(h, t - h)];
        OneStretch(head, n);
      } else if t == 0 {
        iov := [Iov(h, 4096 - h)];
        OneStretch(head, n);
      } else {
        iov := [Iov(h, 4096 - h), Iov(0, t)];
        TwoStretches(head, n);
      }
    }

    /** wl_buffer_copy: the first count bytes. */
    method Copy(count: nat) returns (dst: seq<Byte>)
      requires Valid() && count <= 4096
      ensures dst == Bytes(data[..], tail, count)
      ensures count <= Size() ==> dst == Contents()[..count]
    {
      var t := Mask(tail);
      if t + count <= 4096 {
        dst := data[t..t + count];
      } else {
        dst := data[t..4096] + data[..count - (4096 - t)];
      }
      forall k | 0 <= k < count
        ensures dst[k] == data[Slot(tail, k)]
      {
      }
    }

    /** wl_connection_consume. */
    method Consume(n: nat)
      requires Valid() && n <= Size()
      modifies `tail
      ensures Valid() && Contents() == old(Contents())[n..]
    {
      hide Bytes;
      SizeAfterConsume(head, tail, n);
      Consumed(data[..], tail, Size(), n);
      tail := (tail + n) % U32;
    }

    /** wl_connection_read: what the system delivers goes to the free space; a full
        buffer is an overflow. */
    method Receive(src: seq<Byte>) returns (overflow: bool)
      requires Valid() && (Size() < 4096 ==> |src| <= 4096 - Size())
      modifies `head, data
      ensures Valid() && (overflow <==> old(Size()) == 4096)
      ensures Contents() == if overflow then old(Contents()) else old(Contents()) + src
    {
      hide Written, Bytes, Positions;
      if Size() >= 4096 {
        return true;
      }
      var iov := PutIov();
      RingIsInjective(head, 4096 - Size());
      Scatter(iov, src);
      WrittenByPositions(old(data[..]), data[..], head, Positions(iov), src);
      Advance(old(data[..]), src, |src|);
      overflow := false;
    }

    /** recvmsg fills the stretches of an iovec array one after the other. */
    method Scatter(iov: seq<Iov>, src: seq<Byte>)
      requires data.Length == 4096 && |src| <= |Positions(iov)| && Offsets(Positions(iov))
      modifies data
      ensures Filled(old(data[..]), data[..], Positions(iov), src)
    {
      if iov == [] || src == [] {
        return;
      }
      var n, v := iov[0].len, iov[0];
      ghost var before, p := data[..], Positions(iov);
      assert p == Stretch(v) + Positions(iov[1..]);
      OffsetsOfParts(Stretch(v), Positions(iov[1..]));
      var m := if |src| <= n then |src| else n;
      if m > 0 {
        assert Stretch(v)[m - 1] == v.base + m - 1;
        Memcpy(data, v.base, src[..m]);
      }
      FilledByCopy(before, data[..], v, src[..m]);
      ghost var middle := data[..];
      Scatter(iov[1..], src[m..]);
      FilledInParts(before, middle, data[..], Stretch(v), Positions(iov[1..]), src, m);
    }
  }

  // ---------- scattering input

  ghost predicate Offsets(p: seq<nat>) {
    && (forall i :: 0 <= i < |p| ==> p[i] < 4096)
    && (forall i, j :: 0 <= i < j < |p| ==> p[i] != p[j])
  }

  /** d' is d with src at the first |src| of the offsets p. */
  ghost predicate Filled(d: seq<Byte>, d': seq<Byte>, p: seq<nat>, src: seq<Byte>)
    requires |d| == |d'| == 4096
  {
    && |src| <= |p|
    && (forall i :: 0 <= i < |src| ==> p[i] < 4096 && d'[p[i]] == src[i])
    && (forall j :: 0 <= j < 4096 && j !in p[..|src|] ==> d'[j] == d[j])
  }

  lemma OffsetsOfParts(a: seq<nat>, b: seq<nat>)
    requires Offsets(a + b)
    ensures Offsets(a) && Offsets(b)
    ensures forall x :: x in a ==> x !in b
  {
    forall i | 0 <= i < |a|
      ensures a[i] == (a + b)[i]
    {
    }
    forall i | 0 <= i < |b|
      ensures b[i] == (a + b)[|a| + i]
    {
    }
  }

  lemma FilledByCopy(d: seq<Byte>, d': seq<Byte>, v: Iov, src: seq<Byte>)
    requires |d| == |d'| == 4096 && |src| <= v.len && (|src| > 0 ==> v.base + |src| <= 4096)
    requires forall i :: 0 <= i < 4096 ==> d'[i] == if v.base <= i < v.base + |src| then src[i - v.base] else d[i]
    ensures Filled(d, d', Stretch(v), src)
  {
    forall j | 0 <= j < 4096 && v.base <= j < v.base + |src|
      ensures j in Stretch(v)[..|src|]
    {
      assert Stretch(v)[..|src|][j - v.base] == j;
    }
  }

  lemma FilledInParts(d: seq<Byte>, e: seq<Byte>, f: seq<Byte>, a: seq<nat>, b: seq<nat>, src: seq<Byte>, m: nat)
    requires |d| == |e| == |f| == 4096 && m <= |src| <= |a| + |b| && m <= |a| && (m < |src| ==> m == |a|)
    requires forall x :: x in a ==> x !in b
    requires Filled(d, e, a, src[..m]) && Filled(e, f, b, src[m..])
    ensures Filled(d, f, a + b, src)
  {
    forall i | 0 <= i < |src|
      ensures (a + b)[i] < 4096 && f[(a + b)[i]] == src[i]
    {
      if i < m {
        assert a[i] in a && a[i] !in b[..|src| - m];
      } else {
        assert b[i - m] == (a + b)[i];
      }
    }
    forall j | 0 <= j < 4096 && j !in (a + b)[..|src|]
      ensures f[j] == d[j]
    {
      assert forall x :: x in a[..m] ==> x in (a + b)[..|src|];
      assert (a + b)[..|src|] == a[..m] + b[..|src| - m] || |src| == m;
    }
  }

  lemma RingIsInjective(t: nat, n: nat)
    requires n <= 4096
    ensures Offsets(Ring(t, n))
  {
    hide Slot, Dist;
    forall i, j | 0 <= i < j < n
      ensures Slot(t, i) != Slot(t, j)
    {
      DistOfSlot(t, 0, i);
      DistOfSlot(t, 0, j);
    }
    forall i | 0 <= i < n
      ensures Slot(t, i) < 4096
    {
      DistOfSlot(t, 0, i);
    }
  }

  /** What sendmsg takes from the first n of the offsets p. */
  ghost function Gather(d: seq<Byte>, p: seq<nat>, n: nat): seq<Byte>
    requires |d| == 4096 && n <= |p| && Offsets(p)
  {
    seq(n, k requires 0 <= k < n => d[p[k]])
  }

  lemma GatherRing(d: seq<Byte>, t: nat, size: nat, n: nat)
    requires |d| == 4096 && n <= size <= 4096
    ensures Offsets(Ring(t, size)) && Gather(d, Ring(t, size), n) == Bytes(d, t, size)[..n]
  {
    RingIsInjective(t, size);
  }

  lemma WrittenByPositions(d: seq<Byte>, d': seq<Byte>, h: nat, p: seq<nat>, src: seq<Byte>)
    requires |d| == |d'| == 4096 && |p| <= 4096 && p == Ring(h, |p|) && Filled(d, d', p, src)
    ensures Written(d, d', h, src)
  {
    hide Slot, Dist;
    forall j | 0 <= j < 4096
      ensures d'[j] == if Dist(h, j) < |src| then src[Dist(h, j)] else d[j]
    {
      SlotOfDist(h, j);
      if Dist(h, j) < |src| {
        assert p[Dist(h, j)] == j;
      } else {
        NotAmong(h, |src|, j);
        assert p[..|src|] == Ring(h, |src|);
      }
    }
  }

  lemma NotAmong(h: nat, n: nat, j: nat)
    requires j < 4096 && n <= Dist(h, j)
    ensures j !in Ring(h, n)
  {
    hide Slot, Dist;
    SlotOfDist(h, j);
    forall i | 0 <= i < n
      ensures Slot(h, i) != j
    {
      DistOfSlot(h, 0, i);
    }
  }
}
