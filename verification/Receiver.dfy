/** The receiving side, and the two sides together: what a sender's closures become at the
    other end (foreign/wayland/src/wayland-server.c, foreign/wayland/src/connection.c). */
module Receiver {

  import opened Words
  import opened Lists
  import opened WlBuffer
  import opened Signature
  import opened WlMap
  import opened Connection
  import opened Closure

  /** A closure that was sent, with the signature of its message. */
  datatype Sent = Sent(closure: Closure, signature: string)

  /** The messages are encodings of what was sent, with its descriptors. */
  ghost predicate Encoded(ms: seq<Message>, sent: seq<Sent>) {
    |ms| == |sent| && forall i :: 0 <= i < |ms| ==> EncodedAs(ms[i], sent[i])
  }

  ghost predicate EncodedAs(m: Message, s: Sent) {
    && EncodesClosure(s.closure, m.bytes) && |m.bytes| <= 4096 && m.fds == FdsOf(s.closure.args)
    && AllHeld(Parse(s.signature), s.closure.args) && |s.closure.args| <= MAX_ARGS && s.closure.sender < U32
  }

  /** The receiver accepts its ids: NULL only where allowed, and new ids that its map can
      reserve. */
  ghost predicate Acceptable(s: Sent, side: Side, ids: seq<nat>) {
    var ds, args := Parse(s.signature), s.closure.args;
    |ds| == |args| && RealIds(ds, args) && ReserveAll(ds, args, side, ids).Some?
  }

  ghost function Reserved(s: Sent, side: Side, ids: seq<nat>): seq<nat>
    requires Acceptable(s, side, ids)
  {
    ReserveAll(Parse(s.signature), s.closure.args, side, ids).value
  }

  /** What the receiver should make of it. */
  ghost function Expected(s: Sent): Closure {
    Closure(s.closure.sender, s.closure.opcode % 65536, ReceivedAll(s.closure.args))
  }

  ghost function AllExpected(sent: seq<Sent>): seq<Closure> {
    seq(|sent|, i requires 0 <= i < |sent| => Expected(sent[i]))
  }

  /** The receiver has read n bytes, and descriptors of j packets at least as far; it has
      taken k messages.  bytes and fds are what still waits. */
  ghost predicate Follows(ms: seq<Message>, w: seq<Packet>, n: nat, j: nat, k: nat, bytes: seq<Byte>, fds: seq<int>) {
    && j <= |w| && k <= |ms| && |MsgBytes(ms[..k])| <= n <= |WireBytes(w[..j])|
    && bytes == WireBytes(w[..j])[|MsgBytes(ms[..k])|..n]
    && MsgFds(ms[..k]) + fds == WireFds(w[..j])
  }

  /** Whatever the sender does meanwhile, the receiver keeps its place. */
  lemma FollowsLonger(ms: seq<Message>, w: seq<Packet>, n: nat, j: nat, k: nat, bytes: seq<Byte>, fds: seq<int>,
                      ms': seq<Message>, w': seq<Packet>)
    requires Follows(ms, w, n, j, k, bytes, fds) && ms <= ms' && w <= w'
    ensures Follows(ms', w', n, j, k, bytes, fds)
  {
    assert ms'[..k] == ms[..k] && w'[..j] == w[..j];
  }

  /** Reading on: up to n' bytes, with the descriptors of j' packets. */
  lemma FollowsFurther(ms: seq<Message>, w: seq<Packet>, n: nat, j: nat, k: nat, bytes: seq<Byte>, fds: seq<int>,
                       n': nat, j': nat)
    requires Follows(ms, w, n, j, k, bytes, fds) && n <= n' && j <= j' <= |w| && n' <= |WireBytes(w[..j'])|
    ensures WireFds(w[..j]) <= WireFds(w[..j'])
    ensures Follows(ms, w, n', j', k, bytes + WireBytes(w[..j'])[n..n'], fds + WireFds(w[..j'])[|WireFds(w[..j])|..])
  {
    assert w[..j'][..j] == w[..j];
    WirePrefix(w[..j'], j);
    var a, b := WireBytes(w[..j]), WireBytes(w[..j']);
    var at := |MsgBytes(ms[..k])|;
    assert a[at..n] == b[at..n];
    assert b[at..n] + b[n..n'] == b[at..n'];
    assert fds == WireFds(w[..j])[|MsgFds(ms[..k])|..];
  }

  /** What waits begins with what is left of the messages, in order, and with the
      descriptors of the next message if any byte of it is there. */
  lemma NextMessage(ms: seq<Message>, part: seq<int>, w: seq<Packet>, out: seq<Byte>, queued: seq<int>,
                    n: nat, j: nat, k: nat, bytes: seq<Byte>, fds: seq<int>)
    requires Sending(ms, part, w, out, queued) && Follows(ms, w, n, j, k, bytes, fds) && bytes != []
    ensures k < |ms|
    ensures var m := ms[k];
            && (if |bytes| <= |m.bytes| then bytes <= m.bytes else m.bytes <= bytes)
            && m.fds <= fds
            && (|m.bytes| <= |bytes| ==> Follows(ms, w, n, j, k + 1, bytes[|m.bytes|..], fds[|m.fds|..]))
  {
    hide MsgBytes, MsgFds, WireBytes, WireFds, InTime, AllInTime;
    WirePrefix(w, j);
    var got := WireBytes(w[..j]);
    assert got <= MsgBytes(ms);
    MoreToCome(ms, k, |got|);
    MsgStep(ms, k);
    MsgFdsPrefix(ms, k + 1);
    BytesNext(MsgBytes(ms), got, MsgBytes(ms[..k]), ms[k].bytes, n, bytes);
    ReceiverHasDescriptors(ms, part, w, out, queued, k, j);
    FdsNext(WireFds(w[..j]), MsgFds(ms[..k]), ms[k].fds, fds);
  }

  lemma MoreToCome(ms: seq<Message>, k: nat, n: nat)
    requires k <= |ms| && |MsgBytes(ms[..k])| < n <= |MsgBytes(ms)|
    ensures k < |ms|
  {
    assert ms[..|ms|] == ms;
  }

  lemma MsgStep(ms: seq<Message>, k: nat)
    requires k < |ms|
    ensures MsgBytes(ms[..k + 1]) == MsgBytes(ms[..k]) + ms[k].bytes
    ensures MsgFds(ms[..k + 1]) == MsgFds(ms[..k]) + ms[k].fds
  {
    assert ms[..k + 1][..k] == ms[..k];
  }

  lemma BytesNext(all: seq<Byte>, got: seq<Byte>, pre: seq<Byte>, m: seq<Byte>, n: nat, bytes: seq<Byte>)
    requires got <= all && pre + m <= all && |pre| <= n <= |got| && bytes == got[|pre|..n]
    ensures if |bytes| <= |m| then bytes <= m else m <= bytes
    ensures |m| <= |bytes| ==> |pre + m| <= n && bytes[|m|..] == got[|pre + m|..n]
  {
    assert m == all[|pre|..|pre| + |m|];
    assert bytes == all[|pre|..n];
  }

  lemma FdsNext(got: seq<int>, pre: seq<int>, m: seq<int>, fds: seq<int>)
    requires pre + fds == got && |pre| + |m| <= |got| && got[|pre|..|pre| + |m|] == m
    ensures m <= fds && pre + m + fds[|m|..] == got
  {
    assert fds == got[|pre|..];
    assert fds[..|m|] == m;
    assert fds == m + fds[|m|..];
  }

  lemma EncodingHasHeader(c: Closure, b: seq<Byte>)
    requires EncodesClosure(c, b)
    ensures |b| >= 8
  {
  }

  lemma HeaderOf(s: Sent, m: Message, b: seq<Byte>)
    requires EncodedAs(m, s) && |b| >= 8 && (if |b| <= |m.bytes| then b <= m.bytes else m.bytes <= b)
    ensures |m.bytes| >= 8 && WordAt(b, 0) == s.closure.sender
    ensures WordAt(b, 4) % 65536 == s.closure.opcode % 65536 && WordAt(b, 4) / 65536 == |m.bytes|
  {
    hide WordAt, EncodesClosure, AllHeld, FdsOf, ParseFrom;
    HeaderRoundTrip(s.closure, m.bytes);
    EncodingHasHeader(s.closure, m.bytes);
    assert b[..8] == m.bytes[..8];
    WordsOf(b[..8], b);
    WordsOf(m.bytes[..8], m.bytes);
  }

  /** The receiving end of a connection. */
  class Peer {
    const input: Buffer
    const objects: Map
    var fds: seq<int>
    ghost var n: nat
    ghost var j: nat
    ghost var k: nat
    /** The closures received so far. */
    ghost var got: seq<Closure>

    /** Everything received is what was sent, in order and with its descriptors. */
    ghost predicate Valid(ms: seq<Message>, sent: seq<Sent>, w: seq<Packet>)
      reads this, input, input.data, objects
    {
      && input.Valid() && objects.Valid() && Follows(ms, w, n, j, k, input.Contents(), fds)
      && k <= |sent| && got == AllExpected(sent[..k])
    }

    constructor (side: Side)
      ensures Valid([], [], []) && got == [] && objects.side == side && fresh(input) && fresh(input.data)
              && fresh(objects)
    {
      input := new Buffer();
      objects := new Map(side);
      fds, n, j, k, got := [], 0, 0, 0, [];
    }

    /** The sender goes on. */
    lemma Longer(ms: seq<Message>, sent: seq<Sent>, w: seq<Packet>, ms': seq<Message>, sent': seq<Sent>,
                 w': seq<Packet>)
      requires Valid(ms, sent, w) && ms <= ms' && sent <= sent' && w <= w'
      ensures Valid(ms', sent', w')
    {
      FollowsLonger(ms, w, n, j, k, input.Contents(), fds, ms', w');
      assert sent'[..k] == sent[..k];
    }

    /** wl_connection_read: some more bytes of the stream, and the descriptors that came
        with any of their packets at the latest. */
    method Read(chunk: seq<Byte>, more: seq<int>, ghost n': nat, ghost j': nat,
                ghost ms: seq<Message>, ghost sent: seq<Sent>, ghost w: seq<Packet>)
      requires Valid(ms, sent, w) && |chunk| <= 4096 - input.Size()
      requires n <= n' && j <= j' <= |w| && n' <= |WireBytes(w[..j'])| && chunk == WireBytes(w[..j'])[n..n']
      requires |WireFds(w[..j])| <= |WireFds(w[..j'])| && more == WireFds(w[..j'])[|WireFds(w[..j])|..]
      modifies this, input`head, input.data
      ensures Valid(ms, sent, w) && n == n' && k == old(k)
    {
      hide Follows;
      FollowsFurther(ms, w, n, j, k, input.Contents(), fds, n', j');
      if chunk != [] {
        var overflow := input.Receive(chunk);
      } else {
        assert input.Contents() + chunk == input.Contents();
      }
      fds, n, j := fds + more, n', j';
    }

    /** The loop body of wl_client_connection_data: takes the next message if it is there
        completely, and makes of it what was sent, or refuses it for its ids.  lookup is what
        the map says now: the sender's object has the interface that the message was sent for. */
    method Next(lookup: (nat, nat) -> string, beyond: seq<Byte>, ghost ms: seq<Message>, ghost sent: seq<Sent>,
                ghost part: seq<int>, ghost w: seq<Packet>, ghost out: seq<Byte>, ghost queued: seq<int>)
      returns (r: Option<Closure>, taken: bool)
      requires Valid(ms, sent, w) && Sending(ms, part, w, out, queued) && Encoded(ms, sent)
      requires |beyond| >= 8
      requires k < |sent| ==> lookup(sent[k].closure.sender, sent[k].closure.opcode % 65536) == sent[k].signature
      modifies this, input`tail, objects`other
      ensures !taken ==> Valid(ms, sent, w) && k == old(k) && (k < |ms| ==> |input.Contents()| < |ms[k].bytes|)
      ensures taken ==> old(k) < |ms| == |sent|
      ensures taken ==> (r.Some? <==> Acceptable(sent[old(k)], objects.side, old(objects.other)))
      ensures r.Some? ==> taken && Valid(ms, sent, w) && k == old(k) + 1 && r.value == Expected(sent[old(k)])
      ensures r.Some? ==> objects.other == Reserved(sent[old(k)], objects.side, old(objects.other))
    {
      hide Map.Valid, AllExpected, ReceivedAll, Bytes, Follows, Sending, EncodesClosure, ReadArgs, WordAt, Encodes,
           ParseFrom, ReserveAll, RealIds, FdsOf, AllHeld;
      ghost var bytes := input.Contents();
      SizeOfContents(input);
      r, taken := None, false;
      if input.Size() < 8 {
        ShortMessage(ms, sent, k, bytes);
        return;
      }
      NextMessage(ms, part, w, out, queued, n, j, k, bytes, fds);
      ghost var m, s := ms[k], sent[k];
      assert EncodedAs(m, s);
      HeldLength(Parse(s.signature), s.closure.args);
      HeaderOf(s, m, bytes);
      var header := input.Copy(8);
      WordsOf(header, bytes);
      var size := WordAt(header, 4) / 65536;
      if input.Size() < size {
        return;
      }
      taken := true;
      ghost var more := fds[|m.fds|..];
      assert fds == FdsOf(s.closure.args) + more;
      MessageRoundTrip(s.closure, s.signature, m.bytes, more, objects.side, objects.other);
      assert bytes[..size] == m.bytes;
      var error;
      r, fds, error := Demarshal(input, size, fds, objects, lookup(WordAt(header, 0), WordAt(header, 4) % 65536),
                                 beyond);
      if r.Some? {
        k := k + 1;
        got := got + [r.value];
        OneMoreExpected(sent, k - 1);
      }
    }
  }

  lemma OneMoreExpected(sent: seq<Sent>, k: nat)
    requires k < |sent|
    ensures AllExpected(sent[..k + 1]) == AllExpected(sent[..k]) + [Expected(sent[k])]
  {
  }

  lemma HeldLength(ds: seq<ArgDetails>, args: seq<Value>)
    requires AllHeld(ds, args)
    ensures |ds| == |args|
  {
  }

  lemma WordsOf(a: seq<Byte>, b: seq<Byte>)
    requires |a| == 8 <= |b| && a == b[..8]
    ensures WordAt(a, 0) == WordAt(b, 0) && WordAt(a, 4) == WordAt(b, 4)
  {
  }

  /** Fewer than 8 bytes are never a message. */
  lemma ShortMessage(ms: seq<Message>, sent: seq<Sent>, k: nat, bytes: seq<Byte>)
    requires Encoded(ms, sent) && |bytes| < 8
    ensures k < |ms| ==> |bytes| < |ms[k].bytes|
  {
    if k < |ms| {
      assert EncodedAs(ms[k], sent[k]);
    }
  }
}
