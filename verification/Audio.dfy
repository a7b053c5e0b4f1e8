/** The audio path: an ALSA plugin writes into a shared ring and a player hands blocks of
    it to the device, one at a time (pcm_sparkle/pcm_sparkle.c, were/were1_ring_buffer.c,
    sparkle_android/sparkle_player.cpp). */
module Audio {

  import opened Words

  const RING_SIZE: nat := 65536
  const PERIOD: nat := 8192
  /** Two channels of 16 bits. */
  const FRAME_BYTES: nat := 4

  datatype PlayState = Created | Playing | Stopped

  function Min(a: nat, b: nat): nat { if a < b then a else b }

  // ---------- positions around the ring

  /** The value of a 64-bit counter, the place in the ring of a counter value, and
      whether a count is a whole number of frames. */
  function Wrap(count: int): nat { count % WORD }

  function Offset(position: nat): nat { position % RING_SIZE }

  predicate Whole(count: nat) { count % FRAME_BYTES == 0 }

  /** A 64-bit position addresses the same byte as the unbounded count behind it, and is
      a whole number of frames if the count is. */
  lemma PositionOf(count: nat)
    ensures Offset(Wrap(count)) == Offset(count) < RING_SIZE
    ensures Whole(count) ==> Whole(Wrap(count)) && Whole(Offset(count))
  {
    var q := count / WORD;
    assert count == count % WORD + RING_SIZE * (0x1_0000_0000_0000 * q);
    AddMultiple(count % WORD, 0x1_0000_0000_0000 * q);
  }

  lemma AddMultiple(x: nat, m: nat)
    ensures (x + RING_SIZE * m) % RING_SIZE == x % RING_SIZE
  {
  }

  lemma Advance(count: nat, n: nat)
    ensures Wrap(Wrap(count) + n) == Wrap(count + n)
  {
  }

  /** The difference of two wrapped positions is the number of bytes between them. */
  lemma Difference(w: nat, r: nat)
    requires r <= w <= r + RING_SIZE
    ensures Wrap(Wrap(w) - Wrap(r)) == w - r
  {
    var a, b := w / WORD, r / WORD;
    assert w % WORD - r % WORD == (w - r) + WORD * (b - a);
    AddU64(w - r, b - a);
  }

  lemma AddU64(x: nat, m: int)
    requires x < WORD
    ensures (x + WORD * m) % WORD == x
  {
  }

  /** k bytes on from count, before the end of the ring. */
  lemma Ahead(count: nat, k: nat)
    requires Offset(count) + k < RING_SIZE
    ensures Offset(count + k) == Offset(count) + k
  {
    var q := count / RING_SIZE;
    assert count + k == (count % RING_SIZE + k) + RING_SIZE * q;
    AddMultiple(count % RING_SIZE + k, q);
  }

  /** Bytes less than a ring apart are at different places. */
  lemma Apart(i: nat, j: nat)
    requires j < i < j + RING_SIZE
    ensures Offset(i) != Offset(j)
  {
    var q := i / RING_SIZE - j / RING_SIZE;
    assert i - j == Offset(i) - Offset(j) + RING_SIZE * q;
  }

  /** A write of n bytes behind count w spares the bytes from count read on exactly when it
      fits the free space. */
  lemma FreeSpaceExactly(read: nat, w: nat, n: nat)
    requires read < w <= read + RING_SIZE
    ensures (forall i: nat, j: nat :: w <= i < w + n && read <= j < w ==> Offset(i) != Offset(j)) <==>
            w + n <= read + RING_SIZE
  {
    if w + n <= read + RING_SIZE {
      forall i: nat, j: nat | w <= i < w + n && read <= j < w
        ensures Offset(i) != Offset(j)
      {
        Apart(i, j);
      }
    } else {
      AddMultiple(read, 1);
      assert Offset(read + RING_SIZE) == Offset(read);
    }
  }

  lemma OffsetBound(count: nat)
    ensures Offset(count) < RING_SIZE
  {
  }

  /** The ring holds the bytes of written from count read on. */
  ghost predicate Holds(data: seq<Byte>, written: seq<Byte>, read: nat) {
    |data| == RING_SIZE && forall j :: read <= j < |written| ==> OffsetHolds(data, j, written[j])
  }

  ghost predicate OffsetHolds(data: seq<Byte>, count: nat, b: Byte)
    requires |data| == RING_SIZE
  {
    data[Offset(count)] == b
  }

  /** data' is data with src stored from place at on. */
  ghost predicate Stored(data: seq<Byte>, data': seq<Byte>, at: nat, src: seq<Byte>) {
    && |data| == |data'|
    && forall i :: 0 <= i < |data| ==> data'[i] == if at <= i < at + |src| then src[i - at] else data[i]
  }

  /** Writing src behind the last byte, into free space that does not reach around the
      end of the ring, appends it and changes no byte still held. */
  lemma Append(data: seq<Byte>, data': seq<Byte>, written: seq<Byte>, read: nat, src: seq<Byte>)
    requires Holds(data, written, read) && Stored(data, data', Offset(|written|), src)
    requires read <= |written| && |written| + |src| <= read + RING_SIZE && Offset(|written|) + |src| <= RING_SIZE
    ensures Holds(data', written + src, read)
    ensures Holds(data', written, read)
  {
    hide Offset;
    var n, at := |written|, Offset(|written|);
    forall j | read <= j < n
      ensures OffsetHolds(data', j, written[j])
    {
      assert OffsetHolds(data, j, written[j]);
      OffsetBound(j);
      if at <= Offset(j) < at + |src| {
        var i := n + (Offset(j) - at);
        Ahead(n, Offset(j) - at);
        Apart(i, j);
      }
    }
    forall j | read <= j < n + |src|
      ensures OffsetHolds(data', j, (written + src)[j])
    {
      if j >= n {
        Ahead(n, j - n);
      } else {
        assert OffsetHolds(data', j, written[j]);
      }
    }
  }

  /** Writing src behind the last byte, further than the free space, replaces the oldest byte
      still held. */
  lemma Overwrites(data: seq<Byte>, data': seq<Byte>, w: nat, read: nat, src: seq<Byte>)
    requires |data| == RING_SIZE && Stored(data, data', Offset(w), src) && Offset(w) + |src| <= RING_SIZE
    requires w <= read + RING_SIZE < w + |src|
    ensures |data'| == RING_SIZE && OffsetHolds(data', read, src[read + RING_SIZE - w])
  {
    Ahead(w, read + RING_SIZE - w);
    AddMultiple(read, 1);
    assert Offset(read + RING_SIZE) == Offset(read);
  }

  /** A block of the ring that does not reach around its end is a block of written. */
  lemma Block(data: seq<Byte>, written: seq<Byte>, read: nat, n: nat)
    requires Holds(data, written, read) && read + n <= |written| && Offset(read) + n <= RING_SIZE
    ensures data[Offset(read)..Offset(read) + n] == written[read..read + n]
  {
    hide Offset;
    var a, b := data[Offset(read)..Offset(read) + n], written[read..read + n];
    forall k | 0 <= k < n
      ensures a[k] == b[k]
    {
      Ahead(read, k);
      assert OffsetHolds(data, read + k, written[read + k]);
    }
  }

  lemma WholeFrames(n: nat, at: nat)
    requires Whole(n) && Whole(at) && at <= RING_SIZE
    ensures Whole(Min(Min(n, PERIOD), RING_SIZE - at))
  {
  }

  lemma WholeSum(a: nat, b: nat)
    requires Whole(a) && Whole(b)
    ensures Whole(0) && Whole(a + b) && (a >= b ==> Whole(a - b)) && a / FRAME_BYTES * FRAME_BYTES == a
  {
  }

  lemma GivenBack(data: seq<Byte>, written: seq<Byte>, read: nat, read': nat)
    requires Holds(data, written, read) && read <= read'
    ensures Holds(data, written, read')
  {
  }

  /** The ring holds what was written and not given back, at most a ring full and in whole
      frames; the device got what was written from base on, up to the block in flight, which
      does not reach around the end of the ring. */
  ghost predicate Sound(data: seq<Byte>, written: seq<Byte>, base: nat, read: nat, playing: nat, device: seq<Byte>) {
    && Holds(data, written, read)
    && base <= read && read + playing <= |written| <= read + RING_SIZE
    && device == written[base..read + playing]
    && Offset(read) + playing <= RING_SIZE
    && Whole(|written|) && Whole(read) && Whole(playing)
  }

  lemma WriteSound(data: seq<Byte>, data': seq<Byte>, written: seq<Byte>, base: nat, read: nat, playing: nat,
                   device: seq<Byte>, src: seq<Byte>)
    requires Sound(data, written, base, read, playing, device) && Stored(data, data', Offset(|written|), src)
    requires Whole(|src|) && Offset(|written|) + |src| <= RING_SIZE && |written| + |src| <= read + RING_SIZE
    ensures Sound(data', written + src, base, read, playing, device) && Holds(data', written, read)
  {
    hide Offset, Whole, Holds, Stored;
    Append(data, data', written, read, src);
    WholeSum(|written|, |src|);
    assert (written + src)[base..read + playing] == written[base..read + playing];
  }

  /** The next block is taken off the ring and handed over. */
  lemma TakeSound(data: seq<Byte>, written: seq<Byte>, base: nat, read: nat, n: nat, device: seq<Byte>)
    requires Sound(data, written, base, read, 0, device) && Whole(n)
    requires read + n <= |written| && Offset(read) + n <= RING_SIZE
    ensures Sound(data, written, base, read, n, device + data[Offset(read)..Offset(read) + n])
  {
    hide Offset, Whole, Holds;
    Block(data, written, read, n);
    assert written[base..read] + written[read..read + n] == written[base..read + n];
  }

  lemma SoundFacts(data: seq<Byte>, written: seq<Byte>, base: nat, read: nat, playing: nat, device: seq<Byte>)
    requires Sound(data, written, base, read, playing, device)
    ensures |data| == RING_SIZE && Whole(|written|) && Whole(read) && Whole(playing)
    ensures read + playing <= |written| <= read + RING_SIZE
  {
  }

  class Path {
    const data: array<Byte>
    var writePosition: nat
    var readPosition: nat
    var state: PlayState
    var playing: nat
    var hasBuffer: bool
    /** The bytes handed to the device since its queue was cleared. */
    var device: seq<Byte>
    /** Since the last reset: the bytes written, how many have been given back, and how many
        of these before the queue was cleared. */
    ghost var written: seq<Byte>
    ghost var read: nat
    ghost var base: nat

    ghost predicate Valid()
      reads this, data
    {
      && writePosition == Wrap(|written|) && readPosition == Wrap(read)
      && Sound(data[..], written, base, read, playing, device)
      && (state != Playing ==> playing == 0)
    }

    constructor ()
      ensures Valid() && fresh(data) && written == [] && state == Stopped && !hasBuffer
    {
      data := new Byte[RING_SIZE];
      writePosition, readPosition, written, read, base := 0, 0, [], 0, 0;
      state, playing, hasBuffer, device := Created, 0, false, [];
      new;
      Stop();
    }

    // ---------- the ring

    function BytesAvailable(): nat
      requires Valid()
      reads this, data
    {
      Wrap(writePosition - readPosition)
    }

    /** were1_ring_buffer_write_start and were1_ring_buffer_read_start. */
    function Straight(position: nat, size: nat): nat { Min(size, RING_SIZE - Offset(position)) }

    method Copy(at: nat, src: seq<Byte>)
      requires at + |src| <= data.Length
      modifies data
      ensures Stored(old(data[..]), data[..], at, src)
    {
      forall i | 0 <= i < |src| {
        data[at + i] := src[i];
      }
    }

    /** sparkle_write.  Writes a non-empty prefix of what it is given, in whole frames, and
        reports exactly that.  If it fits the free space, which nothing tests, it is
        appended; if not, it replaces the oldest byte still held. */
    method Write(src: seq<Byte>) returns (frames: nat)
      requires Valid() && Whole(|src|)
      modifies data, `writePosition, `written
      ensures frames * FRAME_BYTES <= |src| && (src != [] ==> frames > 0)
      ensures frames * FRAME_BYTES == Min(Min(|src|, PERIOD), RING_SIZE - Offset(old(|written|)))
      ensures written == old(written) + src[..frames * FRAME_BYTES] && writePosition == Wrap(|written|)
      ensures |written| <= read + RING_SIZE ==> Valid() && Holds(data[..], old(written), read)
      ensures |written| > read + RING_SIZE ==>
                data.Length == RING_SIZE && 0 <= read + RING_SIZE - old(|written|) < |src| &&
                OffsetHolds(data[..], read, src[read + RING_SIZE - old(|written|)])
    {
      hide Wrap, Offset, Whole, Holds, Stored, OffsetHolds, Sound;
      SoundFacts(data[..], written, base, read, playing, device);
      PositionOf(|written|);
      var n := Straight(writePosition, Min(|src|, PERIOD));
      var at := Offset(writePosition);
      WholeFrames(|src|, at);
      Copy(at, src[..n]);
      if |written| + n <= read + RING_SIZE {
        WriteSound(old(data[..]), data[..], written, base, read, playing, device, src[..n]);
      } else {
        Overwrites(old(data[..]), data[..], |written|, read, src[..n]);
      }
      Advance(|written|, n);
      writePosition := Wrap(writePosition + n);
      WholeSum(n, 0);
      written := written + src[..n];
      frames := n / FRAME_BYTES;
    }

    /** sparkle_pointer: the position is a whole number of frames. */
    method Pointer() returns (frames: nat)
      requires Valid()
      ensures frames * FRAME_BYTES == readPosition
    {
      PositionOf(read);
      WholeSum(readPosition, 0);
      frames := readPosition / FRAME_BYTES;
    }

    // ---------- the player

    /** How much is handed over next: what waits, but no more than a period, and not around
        the end of the ring. */
    ghost function NextBlock(): nat
      requires read <= |written|
      reads this
    {
      Min(Min(|written| - read, PERIOD), RING_SIZE - Offset(read))
    }

    /** Hands the next block to the device, if there is none in flight. */
    method Check()
      requires Valid()
      modifies `device, `playing
      ensures Valid() && old(device) <= device
      ensures playing == if state == Playing && old(playing) == 0 && hasBuffer then NextBlock() else old(playing)
    {
      hide Wrap, Offset, Whole, Holds, Sound;
      if state == Playing && playing == 0 && hasBuffer {
        SoundFacts(data[..], written, base, read, playing, device);
        Difference(|written|, read);
        PositionOf(read);
        var n := BytesAvailable();
        if n < 1 {
          return;
        }
        n := Straight(readPosition, Min(n, PERIOD));
        var at := Offset(readPosition);
        WholeSum(|written|, read);
        WholeFrames(|written| - read, at);
        TakeSound(data[..], written, base, read, n, device);
        device := device + data[at..at + n];
        playing := n;
      }
    }

    method Start()
      requires Valid()
      modifies `state, `device, `playing
      ensures Valid() && state == Playing && old(device) <= device
      ensures playing == if old(state) != Playing && hasBuffer then NextBlock() else old(playing)
    {
      if state != Playing {
        state := Playing;
        playing := 0;
        Check();
      }
    }

    /** Clears the device queue, and resets the ring if there is one. */
    method Stop()
      requires Valid()
      modifies `state, `device, `playing, `writePosition, `readPosition, `written, `read, `base
      ensures Valid() && state == Stopped && playing == 0
      ensures old(state) != Stopped ==> device == []
      ensures written == if old(state) != Stopped && hasBuffer then [] else old(written)
      ensures read == if old(state) != Stopped && hasBuffer then 0 else old(read)
      ensures old(state) == Stopped ==> device == old(device)
    {
      if state != Stopped {
        state := Stopped;
        device, base := [], read;
        if hasBuffer {
          writePosition, readPosition := 0, 0;
          written, read, base := [], 0, 0;
        }
        playing := 0;
      }
    }

    /** The device has played the block in flight, if there is one, or calls late while
        stopped: the block is given back and the next one handed over.  A player that plays
        without a buffer dereferences NULL. */
    method Callback() returns (crashed: bool)
      requires Valid()
      modifies `device, `playing, `readPosition, `read
      ensures Valid() && old(device) <= device
      ensures crashed <==> state == Playing && !hasBuffer
      ensures read == if state == Playing && hasBuffer then old(read) + old(playing) else old(read)
      ensures crashed ==> device == old(device) && playing == old(playing)
      ensures playing == if state == Playing && hasBuffer then NextBlock() else old(playing)
    {
      hide Wrap, Offset, Whole, Holds;
      if state != Playing {
        return false;
      }
      if !hasBuffer {
        return true;
      }
      Advance(read, playing);
      WholeSum(read, playing);
      OffsetBound(read + playing);
      readPosition := Wrap(readPosition + playing);
      read := read + playing;
      playing := 0;
      GivenBack(data[..], written, old(read), read);
      Check();
      crashed := false;
    }

    /** set_buffer, at any time: attaches the ring or detaches it. */
    method SetBuffer(present: bool)
      requires Valid()
      modifies `hasBuffer
      ensures Valid() && hasBuffer == present
    {
      hasBuffer := present;
    }
  }
}
