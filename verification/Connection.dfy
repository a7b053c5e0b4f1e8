/** The sending side of a Wayland connection: bytes queue in one ring, descriptors in
    another, and sendmsg takes from both (foreign/wayland/src/connection.c). */
module Connection {

  import opened Words
  import opened WlBuffer
  import opened Signature

  const MAX_FDS_OUT: nat := 28

  /** A serialised closure and its descriptors, in argument order. */
  datatype Message = Message(bytes: seq<Byte>, fds: seq<int>)

  /** What one successful sendmsg carried. */
  datatype Packet = Packet(bytes: seq<Byte>, fds: seq<int>)

  ghost function MsgBytes(ms: seq<Message>): seq<Byte> {
    if ms == [] then [] else MsgBytes(ms[..|ms| - 1]) + ms[|ms| - 1].bytes
  }

  ghost function MsgFds(ms: seq<Message>): seq<int> {
    if ms == [] then [] else MsgFds(ms[..|ms| - 1]) + ms[|ms| - 1].fds
  }

  ghost function WireBytes(w: seq<Packet>): seq<Byte> {
    if w == [] then [] else WireBytes(w[..|w| - 1]) + w[|w| - 1].bytes
  }

  ghost function WireFds(w: seq<Packet>): seq<int> {
    if w == [] then [] else WireFds(w[..|w| - 1]) + w[|w| - 1].fds
  }

  /** If the first j packets contain the first byte of message k, they contain all
      descriptors of the messages up to and including k. */
  ghost predicate InTime(ms: seq<Message>, w: seq<Packet>, k: nat, j: nat)
    requires k < |ms| && j <= |w|
  {
    |WireBytes(w[..j])| > |MsgBytes(ms[..k])| ==> |WireFds(w[..j])| >= |MsgFds(ms[..k + 1])|
  }

  ghost predicate AllInTime(ms: seq<Message>, w: seq<Packet>) {
    forall k, j :: 0 <= k < |ms| && 0 <= j <= |w| ==> InTime(ms, w, k, j)
  }

  /** The state of the sender while the descriptors `part` of the next message have
      been handed over.  Nothing is lost or reordered, the descriptor queue never
      exceeds what one sendmsg can carry, and it is empty between messages whenever
      the byte queue is. */
  ghost predicate Sending(ms: seq<Message>, part: seq<int>, w: seq<Packet>, out: seq<Byte>, fds: seq<int>) {
    && WireBytes(w) + out == MsgBytes(ms)
    && WireFds(w) + fds == MsgFds(ms) + part
    && |fds| <= MAX_FDS_OUT
    && |part| <= MAX_ARGS
    && (out == [] ==> |fds| <= |part|)
    && AllInTime(ms, w)
  }

  // ---------- sequences of messages and packets

  lemma {:induction false} MsgBytesGrow(ms: seq<Message>, k: nat)
    requires k <= |ms|
    ensures |MsgBytes(ms[..k])| <= |MsgBytes(ms)| && |MsgFds(ms[..k])| <= |MsgFds(ms)|
    decreases |ms|
  {
    if k < |ms| {
      var front := ms[..|ms| - 1];
      assert front[..k] == ms[..k];
      MsgBytesGrow(front, k);
    } else {
      assert ms[..k] == ms;
    }
  }

  // ---------- steps

  /** One sendmsg: n bytes and every queued descriptor go out together. */
  lemma SendStep(ms: seq<Message>, part: seq<int>, w: seq<Packet>, out: seq<Byte>, fds: seq<int>, n: nat)
    requires Sending(ms, part, w, out, fds) && 0 < n <= |out|
    ensures Sending(ms, part, w + [Packet(out[..n], fds)], out[n..], [])
  {
    var p := Packet(out[..n], fds);
    var w' := w + [p];
    assert w'[..|w'| - 1] == w;
    assert out == out[..n] + out[n..];
    assert WireBytes(w') + out[n..] == WireBytes(w) + out;
    assert WireFds(w') == MsgFds(ms) + part;
    forall k, j | 0 <= k < |ms| && 0 <= j <= |w'|
      ensures InTime(ms, w', k, j)
    {
      if j <= |w| {
        assert w'[..j] == w[..j];
        assert InTime(ms, w, k, j);
      } else {
        assert w'[..j] == w';
        MsgBytesGrow(ms, k + 1);
      }
    }
  }

  /** A descriptor of the next message joins the queue. */
  lemma PutFdStep(ms: seq<Message>, part: seq<int>, w: seq<Packet>, out: seq<Byte>, fds: seq<int>, fd: int)
    requires Sending(ms, part, w, out, fds) && |fds| < MAX_FDS_OUT && |part| < MAX_ARGS
    ensures Sending(ms, part + [fd], w, out, fds + [fd])
  {
    assert WireFds(w) + (fds + [fd]) == (WireFds(w) + fds) + [fd];
    assert (MsgFds(ms) + part) + [fd] == MsgFds(ms) + (part + [fd]);
  }

  /** The bytes of the message join their queue, which completes it. */
  lemma PutBytesStep(ms: seq<Message>, part: seq<int>, w: seq<Packet>, out: seq<Byte>, fds: seq<int>, bytes: seq<Byte>)
    requires Sending(ms, part, w, out, fds) && bytes != []
    ensures Sending(ms + [Message(bytes, part)], [], w, out + bytes, fds)
  {
    var ms' := ms + [Message(bytes, part)];
    assert ms'[..|ms'| - 1] == ms;
    assert WireBytes(w) + (out + bytes) == (WireBytes(w) + out) + bytes;
    forall k, j | 0 <= k < |ms'| && 0 <= j <= |w|
      ensures InTime(ms', w, k, j)
    {
      WireBytesGrow(w, j);
      if k < |ms| {
        assert ms'[..k] == ms[..k] && ms'[..k + 1] == ms[..k + 1];
        assert InTime(ms, w, k, j);
      } else {
        assert ms'[..k] == ms;
      }
    }
  }

  lemma {:induction false} WireBytesGrow(w: seq<Packet>, j: nat)
    requires j <= |w|
    ensures |WireBytes(w[..j])| <= |WireBytes(w)|
    decreases |w|
  {
    if j < |w| {
      var front := w[..|w| - 1];
      assert front[..j] == w[..j];
      WireBytesGrow(front, j);
    } else {
      assert w[..j] == w;
    }
  }

  // ---------- what a receiver may rely on

  lemma {:induction false} WirePrefix(w: seq<Packet>, j: nat)
    requires j <= |w|
    ensures WireFds(w[..j]) <= WireFds(w) && WireBytes(w[..j]) <= WireBytes(w)
    decreases |w|
  {
    if j < |w| {
      var front := w[..|w| - 1];
      assert front[..j] == w[..j];
      WirePrefix(front, j);
    } else {
      assert w[..j] == w;
    }
  }

  lemma {:induction false} MsgFdsPrefix(ms: seq<Message>, k: nat)
    requires k <= |ms|
    ensures MsgFds(ms[..k]) <= MsgFds(ms) && MsgBytes(ms[..k]) <= MsgBytes(ms)
    decreases |ms|
  {
    if k < |ms| {
      var front := ms[..|ms| - 1];
      assert front[..k] == ms[..k];
      MsgFdsPrefix(front, k);
    } else {
      assert ms[..k] == ms;
    }
  }

  /** Between messages, an empty byte queue means an empty descriptor queue. */
  lemma IdleMeansNoDescriptors(ms: seq<Message>, w: seq<Packet>, fds: seq<int>)
    requires Sending(ms, [], w, [], fds)
    ensures fds == [] && WireBytes(w) == MsgBytes(ms) && WireFds(w) == MsgFds(ms)
  {
    assert WireBytes(w) + [] == WireBytes(w);
    assert WireFds(w) + [] == WireFds(w) && MsgFds(ms) + [] == MsgFds(ms);
  }

  /** Whoever has received the first byte of message k, in whatever packets, has
      received its descriptors too: they are the ones that follow the descriptors of
      the messages before it. */
  lemma ReceiverHasDescriptors(ms: seq<Message>, part: seq<int>, w: seq<Packet>, out: seq<Byte>, fds: seq<int>,
                               k: nat, j: nat)
    requires Sending(ms, part, w, out, fds) && k < |ms| && j <= |w|
    requires |WireBytes(w[..j])| > |MsgBytes(ms[..k])|
    ensures var from := |MsgFds(ms[..k])|;
            from + |ms[k].fds| <= |WireFds(w[..j])| && WireFds(w[..j])[from..from + |ms[k].fds|] == ms[k].fds
  {
    assert InTime(ms, w, k, j);
    WirePrefix(w, j);
    MsgFdsPrefix(ms, k + 1);
    assert ms[..k + 1][..k] == ms[..k];
    assert ms[..k + 1] == ms[..k] + [ms[k]];
    var all, got, m := MsgFds(ms) + part, WireFds(w[..j]), MsgFds(ms[..k + 1]);
    assert m == MsgFds(ms[..k]) + ms[k].fds;
    assert got <= all && m <= all;
    assert got[..|m|] == m;
  }

  // ---------- the connection

  /** The answers of the system to successive sendmsg calls: how many bytes it is
      willing to take, or 0 for a failure. */
  type Answers = seq<nat>

  /** How many bytes a sendmsg that is answered n takes of the waiting ones. */
  function Taken(n: nat, waiting: nat): nat { if n < waiting then n else waiting }

  predicate Stops(answers: Answers, bytes: seq<Byte>) { bytes == [] || answers == [] || answers[0] == 0 }

  /** The packets that a flush sends of the waiting bytes and descriptors: one for each
      positive answer until no bytes wait, the descriptors with the first. */
  ghost function Flushed(answers: Answers, bytes: seq<Byte>, fds: seq<int>): seq<Packet>
    decreases |answers|
  {
    if Stops(answers, bytes) then []
    else
      var n := Taken(answers[0], |bytes|);
      [Packet(bytes[..n], fds)] + Flushed(answers[1..], bytes[n..], [])
  }

  /** The bytes that it leaves. */
  ghost function Unsent(answers: Answers, bytes: seq<Byte>): seq<Byte>
    decreases |answers|
  {
    if Stops(answers, bytes) then bytes else Unsent(answers[1..], bytes[Taken(answers[0], |bytes|)..])
  }

  ghost function Total(answers: Answers): nat {
    if answers == [] then 0 else answers[0] + Total(answers[1..])
  }

  /** The first k answers are no failures and take size bytes in all. */
  ghost predicate EnoughAt(answers: Answers, size: nat, k: nat) {
    k <= |answers| && (forall i :: 0 <= i < k ==> answers[i] > 0) && size <= Total(answers[..k])
  }

  ghost predicate Enough(answers: Answers, size: nat) { exists k :: EnoughAt(answers, size, k) }

  /** A flush sends everything exactly when the answers up to some one are no failures and
      add up to what waits. */
  lemma {:induction false} FlushEndsExactly(answers: Answers, bytes: seq<Byte>)
    ensures Unsent(answers, bytes) == [] <==> Enough(answers, |bytes|)
    decreases |answers|
  {
    if bytes == [] {
      assert EnoughAt(answers, 0, 0);
    } else if Stops(answers, bytes) {
      NotEnough(answers, |bytes|);
    } else {
      var n := Taken(answers[0], |bytes|);
      FlushEndsExactly(answers[1..], bytes[n..]);
      EnoughStep(answers, |bytes|, n);
    }
  }

  lemma NotEnough(answers: Answers, size: nat)
    requires size > 0 && (answers == [] || answers[0] == 0)
    ensures !Enough(answers, size)
  {
    forall k: nat
      ensures !EnoughAt(answers, size, k)
    {
      assert answers[..0] == [];
    }
  }

  lemma EnoughStep(answers: Answers, size: nat, n: nat)
    requires answers != [] && answers[0] > 0 && size > 0 && n == Taken(answers[0], size)
    ensures Enough(answers, size) <==> Enough(answers[1..], size - n)
  {
    var rest := answers[1..];
    if Enough(answers, size) {
      var k: nat :| EnoughAt(answers, size, k);
      assert answers[..0] == [];
      assert answers[..k][1..] == rest[..k - 1];
      assert forall i :: 0 <= i < k - 1 ==> rest[i] == answers[i + 1];
      assert EnoughAt(rest, size - n, k - 1);
    }
    if Enough(rest, size - n) {
      var k: nat :| EnoughAt(rest, size - n, k);
      assert answers[..k + 1][1..] == rest[..k];
      assert forall i :: 0 < i < k + 1 ==> answers[i] == rest[i - 1];
      assert EnoughAt(answers, size, k + 1);
    }
  }

  /** More than enough is enough. */
  lemma EnoughForLess(answers: Answers, size: nat, less: nat)
    requires Enough(answers, size) && less <= size
    ensures Enough(answers, less)
  {
    var k: nat :| EnoughAt(answers, size, k);
    assert EnoughAt(answers, less, k);
  }

  /** The packets carry just what is not left, and all descriptors go with the first. */
  lemma {:induction false} FlushCarries(answers: Answers, bytes: seq<Byte>, fds: seq<int>)
    ensures Carried(Flushed(answers, bytes, fds)) + Unsent(answers, bytes) == bytes
    ensures var ps := Flushed(answers, bytes, fds);
            && (ps == [] <==> Stops(answers, bytes)) && (ps != [] ==> ps[0].fds == fds)
            && (forall i :: 0 < i < |ps| ==> ps[i].fds == [])
    decreases |answers|
  {
    if !Stops(answers, bytes) {
      var n := Taken(answers[0], |bytes|);
      var rest := Flushed(answers[1..], bytes[n..], []);
      FlushCarries(answers[1..], bytes[n..], []);
      assert ([Packet(bytes[..n], fds)] + rest)[1..] == rest;
      assert bytes[..n] + Carried(rest) + Unsent(answers[1..], bytes[n..]) == bytes[..n] + bytes[n..];
    }
  }

  /** A flush that fails has sent one packet for each answer before the first that is
      missing or 0, of that many bytes. */
  lemma {:induction false} FailedFlush(answers: Answers, bytes: seq<Byte>, fds: seq<int>)
    requires Unsent(answers, bytes) != []
    ensures var ps := Flushed(answers, bytes, fds);
            && |ps| <= |answers| && (|ps| == |answers| || answers[|ps|] == 0)
            && forall i :: 0 <= i < |ps| ==> answers[i] == |ps[i].bytes| > 0
    decreases |answers|
  {
    if !Stops(answers, bytes) {
      var n := Taken(answers[0], |bytes|);
      NothingUnsent(answers[1..]);
      FailedFlush(answers[1..], bytes[n..], []);
      var rest := Flushed(answers[1..], bytes[n..], []);
      forall i | 0 <= i < |rest| + 1
        ensures answers[i] == |([Packet(bytes[..n], fds)] + rest)[i].bytes| > 0
      {
        if i > 0 {
          assert answers[i] == answers[1..][i - 1];
        }
      }
    }
  }

  lemma NothingUnsent(answers: Answers)
    ensures Unsent(answers, []) == []
  {
  }

  ghost function Carried(ps: seq<Packet>): seq<Byte> {
    if ps == [] then [] else ps[0].bytes + Carried(ps[1..])
  }

  class Connection {
    const out: Buffer
    var fdsOut: seq<int>
    var wantFlush: bool
    ghost var wire: seq<Packet>
    ghost var msgs: seq<Message>
    ghost var part: seq<int>

    ghost predicate Valid()
      reads this, out, out.data
    {
      out.Valid() && Sending(msgs, part, wire, out.Contents(), fdsOut)
    }

    constructor ()
      ensures Valid() && msgs == [] && part == [] && wire == [] && fresh(out) && fresh(out.data)
    {
      out := new Buffer();
      fdsOut, wantFlush := [], false;
      wire, msgs, part := [], [], [];
    }

    /** wl_connection_flush: sends until the byte queue is empty or a send fails. */
    method Flush(answers: Answers) returns (ok: bool)
      requires Valid()
      modifies `fdsOut, `wantFlush, `wire, out`tail
      ensures Valid() && |fdsOut| <= MAX_FDS_OUT && old(wire) <= wire
      ensures !old(wantFlush) ==>
                ok && !wantFlush && fdsOut == old(fdsOut) && wire == old(wire) && out.Contents() == old(out.Contents())
      ensures old(wantFlush) ==>
                && wire == old(wire) + Flushed(answers, old(out.Contents()), old(fdsOut))
                && out.Contents() == Unsent(answers, old(out.Contents()))
                && fdsOut == (if Stops(answers, old(out.Contents())) then old(fdsOut) else [])
                && (ok <==> Unsent(answers, old(out.Contents())) == []) && wantFlush == !ok
      ensures ok && old(wantFlush) ==>
                out.Contents() == [] && !wantFlush && (old(out.Contents()) == [] || fdsOut == [])
      ensures old(out.Contents()) == [] ==> fdsOut == old(fdsOut) && ok
    {
      hide Sending, Positions, Bytes;
      ok := true;
      QueueBound(msgs, part, wire, out.Contents(), fdsOut);
      if !wantFlush { return; }
      NothingUnsent(answers);
      var i := 0;
      ghost var bytes, fds := out.Contents(), fdsOut;
      assert |out.Contents()| == out.Size() by { SizeOfContents(out); }
      assert answers[0..] == answers;
      while out.Size() > 0
        invariant out.Valid() && Sending(msgs, part, wire, out.Contents(), fdsOut) && wantFlush
        invariant |out.Contents()| == out.Size() && |fdsOut| <= MAX_FDS_OUT
        invariant i <= |answers| && old(wire) <= wire
        invariant wire + Flushed(answers[i..], out.Contents(), fdsOut) == old(wire) + Flushed(answers, bytes, fds)
        invariant Unsent(answers[i..], out.Contents()) == Unsent(answers, bytes)
        invariant if i == 0 then out.Contents() == bytes && fdsOut == fds else fdsOut == [] && !Stops(answers, bytes)
        decreases out.Size()
      {
        var iov := out.GetIov();
        if i == |answers| || answers[i] == 0 {
          StopsHere(answers, i, out.Contents(), fdsOut);
          return false;
        }
        var len := if answers[i] < out.Size() then answers[i] else out.Size();
        var carried := if |fdsOut| > MAX_FDS_OUT then MAX_FDS_OUT else |fdsOut|;
        QueueBound(msgs, part, wire, out.Contents(), fdsOut);
        FlushStep(answers, i, out.Contents(), fdsOut, wire);
        GatherRing(out.data[..], out.tail, out.Size(), len);
        SendStep(msgs, part, wire, out.Contents(), fdsOut, len);
        wire := wire + [Packet(Gather(out.data[..], Positions(iov), len), fdsOut[..carried])];
        assert fdsOut[..carried] == fdsOut && fdsOut[carried..] == [];
        fdsOut := fdsOut[carried..];
        out.Consume(len);
        SizeOfContents(out);
        i := i + 1;
      }
      assert out.Contents() == [];
      NothingUnsent(answers[i..]);
      wantFlush := false;
    }

    /** wl_connection_put_fd: flushes first if a full packet of descriptors waits. */
    method PutFd(fd: int, answers: Answers) returns (ok: bool)
      requires Valid() && |part| < MAX_ARGS
      modifies `fdsOut, `wantFlush, `wire, `part, out`tail
      ensures Valid() && |fdsOut| <= MAX_FDS_OUT && old(wire) <= wire
      ensures part == if ok then old(part) + [fd] else old(part)
      ensures ok <==> |old(fdsOut)| < MAX_FDS_OUT || Unsent(answers, old(out.Contents())) == []
      ensures |old(fdsOut)| < MAX_FDS_OUT ==>
                fdsOut == old(fdsOut) + [fd] && wire == old(wire) && out.Contents() == old(out.Contents())
      ensures |old(fdsOut)| == MAX_FDS_OUT ==>
                wire == old(wire) + Flushed(answers, old(out.Contents()), old(fdsOut)) &&
                out.Contents() == Unsent(answers, old(out.Contents())) && (ok ==> fdsOut == [fd])
    {
      hide Sending;
      QueueBound(msgs, part, wire, out.Contents(), fdsOut);
      if |fdsOut| == MAX_FDS_OUT {
        wantFlush := true;
        ok := Flush(answers);
        if !ok { return; }
        QueueBound(msgs, part, wire, out.Contents(), fdsOut);
      }
      PutFdStep(msgs, part, wire, out.Contents(), fdsOut, fd);
      fdsOut := fdsOut + [fd];
      part := part + [fd];
      ok := true;
    }

    /** wl_connection_write and wl_connection_queue: flush if the bytes do not fit
        behind those that wait, then append; nothing unsent is overwritten. */
    method Append(bytes: seq<Byte>, write: bool, answers: Answers) returns (ok: bool)
      requires Valid() && bytes != []
      modifies this, out`head, out`tail, out.data
      ensures |bytes| > 4096 ==> !ok
      ensures Valid() && |fdsOut| <= MAX_FDS_OUT && old(wire) <= wire
      ensures ok ==> part == [] && msgs == old(msgs) + [Message(bytes, old(part))]
      ensures !ok ==> part == old(part) && msgs == old(msgs)
      ensures ok && write ==> wantFlush
      ensures ok && old(out.Size()) + |bytes| <= 4096 ==> out.Contents() == old(out.Contents()) + bytes
      ensures ok <==> |bytes| <= 4096 &&
                      (old(out.Size()) + |bytes| <= 4096 || Unsent(answers, old(out.Contents())) == [])
      ensures old(out.Size()) + |bytes| <= 4096 ==>
                wire == old(wire) && fdsOut == old(fdsOut) && wantFlush == (write || old(wantFlush))
      ensures old(out.Size()) + |bytes| > 4096 ==>
                && wire == old(wire) + Flushed(answers, old(out.Contents()), old(fdsOut))
                && out.Contents() == if ok then bytes else Unsent(answers, old(out.Contents()))
    {
      hide Sending, Bytes, Flushed, Unsent;
      SizeOfContents(out);
      QueueBound(msgs, part, wire, out.Contents(), fdsOut);
      if out.Size() + |bytes| > 4096 {
        wantFlush := true;
        ok := Flush(answers);
        if !ok { return; }
        SizeOfContents(out);
      }
      ghost var before := out.Contents();
      ok := out.Put(bytes);
      if !ok { return; }
      PutBytesStep(msgs, part, wire, before, fdsOut, bytes);
      msgs, part := msgs + [Message(bytes, part)], [];
      if write {
        wantFlush := true;
      }
    }

    /** wl_closure_send (write) and wl_closure_queue: the descriptors, then the bytes.
        Unless a send fails or the message exceeds the buffer, the message is queued
        whole and in order; otherwise the descriptors queued so far stay. */
    method SendClosure(m: Message, write: bool, answers: nat -> Answers) returns (ok: bool)
      requires Valid() && part == [] && m.bytes != [] && |m.fds| <= MAX_ARGS
      modifies this, out`head, out`tail, out.data
      ensures Valid() && |fdsOut| <= MAX_FDS_OUT && old(wire) <= wire
      ensures ok ==> part == [] && msgs == old(msgs) + [m]
      ensures !ok ==> part <= m.fds && msgs == old(msgs)
      ensures |m.bytes| > 4096 ==> !ok
      ensures (forall i :: 0 <= i <= |m.fds| ==> Enough(answers(i), 4096)) ==> (ok <==> |m.bytes| <= 4096)
    {
      hide Sending, Flushed, Unsent, Enough;
      QueueBound(msgs, part, wire, out.Contents(), fdsOut);
      ghost var enough := forall i :: 0 <= i <= |m.fds| ==> Enough(answers(i), 4096);
      var i := 0;
      while i < |m.fds|
        invariant i <= |m.fds| && Valid() && part == m.fds[..i] && msgs == old(msgs) && old(wire) <= wire
        invariant |fdsOut| <= MAX_FDS_OUT
      {
        if enough { WholeFlush(answers(i)); }
        ok := PutFd(m.fds[i], answers(i));
        if !ok { return; }
        i := i + 1;
      }
      assert m.fds[..i] == m.fds;
      if enough { WholeFlush(answers(i)); }
      ok := Append(m.bytes, write, answers(i));
    }

    /** A flush with enough answers for a full queue sends everything. */
    lemma WholeFlush(answers: Answers)
      requires Valid() && Enough(answers, 4096)
      ensures Unsent(answers, out.Contents()) == []
    {
      hide Sending, Enough, Unsent;
      SizeOfContents(out);
      EnoughForLess(answers, 4096, |out.Contents()|);
      FlushEndsExactly(answers, out.Contents());
    }
  }

  lemma StopsHere(answers: Answers, i: nat, bytes: seq<Byte>, fds: seq<int>)
    requires i <= |answers| && (i == |answers| || answers[i] == 0)
    ensures Flushed(answers[i..], bytes, fds) == [] && Unsent(answers[i..], bytes) == bytes
    ensures i == 0 ==> Stops(answers, bytes)
  {
  }

  /** One more sendmsg. */
  lemma FlushStep(answers: Answers, i: nat, bytes: seq<Byte>, fds: seq<int>, wire: seq<Packet>)
    requires i < |answers| && answers[i] > 0 && bytes != []
    ensures var n := Taken(answers[i], |bytes|);
            && wire + Flushed(answers[i..], bytes, fds)
               == wire + [Packet(bytes[..n], fds)] + Flushed(answers[i + 1..], bytes[n..], [])
            && Unsent(answers[i..], bytes) == Unsent(answers[i + 1..], bytes[n..])
    ensures i == 0 ==> !Stops(answers, bytes)
  {
    assert answers[i..][1..] == answers[i + 1..] && answers[i..][0] == answers[i];
  }

  lemma SizeOfContents(b: Buffer)
    requires b.data.Length == 4096
    ensures |b.Contents()| == b.Size()
  {
  }

  lemma QueueBound(ms: seq<Message>, part: seq<int>, w: seq<Packet>, out: seq<Byte>, fds: seq<int>)
    requires Sending(ms, part, w, out, fds)
    ensures |fds| <= MAX_FDS_OUT && |part| <= MAX_ARGS && (out == [] ==> |fds| <= |part|)
  {
  }
}
