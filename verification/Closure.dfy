/** Closures: marshalling, the wire encoding and its inverse
    (foreign/wayland/src/connection.c). */
module Closure {

  import opened Words
  import opened Lists
  import opened WlBuffer
  import opened Signature
  import opened WlMap

  /** An argument.  Objects travel as their ids; NewObject is what a caller passes for
      a new id, Id what a closure holds for it and what a receiver gets for both. */
  datatype Value =
    | Int(i: int)
    | Uint(u: nat)
    | Fixed(f: int)
    | Str(s: Option<seq<Byte>>)
    | Object(o: Option<nat>)
    | NewObject(created: Option<nat>)
    | Id(n: nat)
    | Arr(a: Option<seq<Byte>>)
    | Fd(fd: int)

  datatype Closure = Closure(sender: nat, opcode: nat, args: seq<Value>)

  predicate IsInt32(i: int) { -0x8000_0000 <= i < 0x8000_0000 }

  predicate IsId(o: Option<nat>) { o.None? || o.value < U32 }

  /** The value a C caller can pass for a signature code. */
  predicate Passed(code: char, v: Value) {
    match v
    case Int(i) => code == 'i' && IsInt32(i)
    case Uint(u) => code == 'u' && u < U32
    case Fixed(f) => code == 'f' && IsInt32(f)
    case Str(s) => code == 's' && (s.None? || 0 !in s.value)
    case Object(o) => code == 'o' && IsId(o)
    case NewObject(o) => code == 'n' && IsId(o)
    case Id(_) => false
    case Arr(_) => code == 'a'
    case Fd(_) => code == 'h'
  }

  /** The value a closure holds for a signature code. */
  predicate Held(code: char, v: Value) {
    match v
    case Id(n) => code == 'n' && n < U32
    case _ => !v.NewObject? && Passed(code, v)
  }

  ghost predicate AllPassed(ds: seq<ArgDetails>, args: seq<Value>) {
    |ds| == |args| && forall i :: 0 <= i < |ds| ==> Passed(ds[i].code, args[i])
  }

  ghost predicate AllHeld(ds: seq<ArgDetails>, args: seq<Value>) {
    |ds| == |args| && forall i :: 0 <= i < |ds| ==> Held(ds[i].code, args[i])
  }

  predicate IsNull(v: Value) {
    match v
    case Str(s) => s.None?
    case Object(o) => o.None?
    case NewObject(o) => o.None?
    case Arr(a) => a.None?
    case _ => false
  }

  function IdOf(o: Option<nat>): nat { if o.None? then 0 else o.value }

  /** What marshalling makes of an argument. */
  function Hold(v: Value): Value { if v.NewObject? then Id(IdOf(v.created)) else v }

  ghost predicate Refused(ds: seq<ArgDetails>, args: seq<Value>)
    requires |ds| == |args|
  {
    |ds| > MAX_ARGS || exists i :: 0 <= i < |ds| && !ds[i].nullable && IsNull(args[i])
  }

  /** wl_closure_marshal: refused exactly for too many arguments or a NULL where the
      signature does not allow one. */
  method Marshal(sender: nat, opcode: nat, args: seq<Value>, signature: string) returns (r: Option<Closure>)
    requires AllPassed(Parse(signature), args)
    ensures r.None? <==> Refused(Parse(signature), args)
    ensures r.Some? ==> r.value.sender == sender && r.value.opcode == opcode
    ensures r.Some? ==> AllHeld(Parse(signature), r.value.args)
    ensures r.Some? ==> forall i :: 0 <= i < |args| ==> r.value.args[i] == Hold(args[i])
  {
    ghost var ds := Parse(signature);
    var count := ArgCount(signature);
    if count > MAX_ARGS {
      return None;
    }
    var held := [];
    var sig := signature;
    var i := 0;
    while i < count
      invariant i <= count == |ds| && |held| == i
      invariant Parse(sig) == ds[i..]
      invariant forall k :: 0 <= k < i ==> (ds[k].nullable || !IsNull(args[k])) && held[k] == Hold(args[k])
    {
      var arg;
      arg, sig := GetNextArgument(sig);
      assert arg == ds[i] && Parse(sig) == ds[i..][1..];
      if arg.code in {'s', 'o', 'n', 'a'} && !arg.nullable && IsNull(args[i]) {
        return None;
      }
      held := held + [Hold(args[i])];
      i := i + 1;
    }
    r := Some(Closure(sender, opcode, held));
  }

  // ---------- words and widths

  /** A 32-bit word in memory, and back. */
  function Le(n: nat): seq<Byte> { [n % 256, n / 256 % 256, n / 65536 % 256, n / 16777216 % 256] }

  function WordAt(b: seq<Byte>, p: nat): nat
    requires p + 4 <= |b|
  {
    b[p] as nat + 256 * (b[p + 1] as nat) + 65536 * (b[p + 2] as nat) + 16777216 * (b[p + 3] as nat)
  }

  lemma WordOfLe(n: nat, b: seq<Byte>)
    requires n < U32 && |b| >= 4 && b[..4] == Le(n)
    ensures WordAt(b, 0) == n
  {
    assert b[0] == Le(n)[0] && b[1] == Le(n)[1] && b[2] == Le(n)[2] && b[3] == Le(n)[3];
    BytesOfWord(n);
  }

  lemma BytesOfWord(n: nat)
    requires n < U32
    ensures n == n % 256 + 256 * (n / 256 % 256) + 65536 * (n / 65536 % 256) + 16777216 * (n / 16777216 % 256)
  {
    var a, b, c := n / 256, n / 65536, n / 16777216;
    assert b == a / 256 && c == b / 256;
  }

  function RoundUp(n: nat): nat { (n + 3) / 4 }

  /** The word that a value of one word is sent as. */
  function Plain(v: Value): nat
    requires v.Int? || v.Uint? || v.Fixed? || v.Object? || v.Id?
  {
    match v
    case Int(i) => i % U32
    case Uint(u) => u
    case Fixed(f) => f % U32
    case Object(o) => IdOf(o)
    case Id(n) => n
  }

  /** How many bytes an argument occupies. */
  function Width(v: Value): nat {
    match v
    case Str(s) => if s.None? then 4 else 4 + 4 * RoundUp(|s.value| + 1)
    case Arr(a) => if a.None? then 4 else 4 + 4 * RoundUp(|a.value|)
    case Fd(_) => 0
    case _ => 4
  }

  function Widths(args: seq<Value>): nat {
    if args == [] then 0 else Width(args[0]) + Widths(args[1..])
  }

  lemma {:induction false} WidthsSplit(args: seq<Value>, i: nat)
    requires i < |args|
    ensures Widths(args[i..]) == Width(args[i]) + Widths(args[i + 1..])
  {
    assert args[i..][1..] == args[i + 1..];
  }

  /** buffer_size_for_closure: the exact number of words. */
  method BufferSize(args: seq<Value>, signature: string) returns (words: nat)
    requires AllHeld(Parse(signature), args)
    ensures 4 * words == 8 + Widths(args)
  {
    ghost var ds := Parse(signature);
    words := 0;
    var count := ArgCount(signature);
    var sig := signature;
    var i := 0;
    assert args[0..] == args;
    while i < count
      invariant i <= count == |ds| && Parse(sig) == ds[i..]
      invariant 4 * words + Widths(args[i..]) == Widths(args)
    {
      var arg;
      arg, sig := GetNextArgument(sig);
      assert arg == ds[i] && Parse(sig) == ds[i..][1..];
      WidthsSplit(args, i);
      if arg.code in {'u', 'i', 'f', 'o', 'n'} {
        words := words + 1;
      } else if arg.code == 's' {
        if args[i].s.None? {
          words := words + 1;
        } else {
          words := words + 1 + RoundUp(|args[i].s.value| + 1);
        }
      } else if arg.code == 'a' {
        if args[i].a.None? {
          words := words + 1;
        } else {
          words := words + 1 + RoundUp(|args[i].a.value|);
        }
      }
      i := i + 1;
    }
    words := words + 2;
  }

  // ---------- the encoding

  /** The bytes b are an encoding of v; the padding behind text and arrays is free. */
  ghost predicate EncodesArg(v: Value, b: seq<Byte>) {
    |b| == Width(v) &&
    match v
    case Str(s) =>
      if s.None? then b == Le(0)
      else b[..4] == Le(|s.value| + 1) && b[4..4 + |s.value|] == s.value && b[4 + |s.value|] == 0
    case Arr(a) =>
      if a.None? then b == Le(0)
      else b[..4] == Le(|a.value|) && b[4..4 + |a.value|] == a.value
    case Fd(_) => true
    case NewObject(_) => false
    case _ => b == Le(Plain(v))
  }

  ghost predicate Encodes(args: seq<Value>, b: seq<Byte>)
    decreases |args|
  {
    if args == [] then b == []
    else
      var w := Width(args[0]);
      w <= |b| && EncodesArg(args[0], b[..w]) && Encodes(args[1..], b[w..])
  }

  lemma {:induction false} EncodesMore(args: seq<Value>, b: seq<Byte>, v: Value, c: seq<Byte>)
    requires Encodes(args, b) && EncodesArg(v, c)
    ensures Encodes(args + [v], b + c)
    decreases |args|
  {
    hide EncodesArg, Width;
    if args == [] {
      EncodedWidth(v, c);
      assert c[..|c|] == c && c[|c|..] == [];
      assert (args + [v])[1..] == [];
      assert b + c == c && args + [v] == [v];
    } else {
      var w := Width(args[0]);
      EncodesMore(args[1..], b[w..], v, c);
      assert (args + [v])[1..] == args[1..] + [v];
      assert (b + c)[..w] == b[..w] && (b + c)[w..] == b[w..] + c;
    }
  }

  lemma EncodedWidth(v: Value, b: seq<Byte>)
    requires EncodesArg(v, b)
    ensures |b| == Width(v)
  {
  }

  lemma {:induction false} EncodedWidths(args: seq<Value>, b: seq<Byte>)
    requires Encodes(args, b)
    ensures |b| == Widths(args)
    decreases |args|
  {
    hide EncodesArg, Width;
    if args != [] {
      EncodedWidths(args[1..], b[Width(args[0])..]);
    }
  }

  /** The second header word: size and opcode. */
  function Header(size: nat, opcode: nat): nat { (size * 65536 + opcode % 65536) % U32 }

  ghost predicate EncodesClosure(c: Closure, b: seq<Byte>) {
    |b| >= 8 && b[..4] == Le(c.sender) && b[4..8] == Le(Header(|b|, c.opcode)) && Encodes(c.args, b[8..])
  }

  /** Stores src at offset at. */
  method Store(buffer: array<Byte>, at: nat, src: seq<Byte>)
    requires at + |src| <= buffer.Length
    modifies buffer
    ensures buffer[at..at + |src|] == src
    ensures buffer[..at] == old(buffer[..at])
    ensures buffer[at + |src|..] == old(buffer[at + |src|..])
  {
    forall i | 0 <= i < |src| {
      buffer[at + i] := src[i];
    }
  }

  lemma SliceOfSlice(s: seq<Byte>, p: nat, n: nat, i: nat, j: nat)
    requires i <= j && p + j <= n <= |s|
    ensures s[p..n][i..j] == s[p + i..p + j]
  {
    assert forall k :: 0 <= k < j - i ==> s[p..n][i..j][k] == s[p + i..p + j][k];
  }

  /** The text part of an argument: its length and its bytes. */
  method SerializeText(bytes: seq<Byte>, buffer: array<Byte>, p: nat) returns (ok: bool, next: nat)
    requires p + 4 <= buffer.Length
    modifies buffer
    ensures ok <==> p + 4 + 4 * RoundUp(|bytes|) <= buffer.Length
    ensures ok ==> next == p + 4 + 4 * RoundUp(|bytes|) && p + 4 + |bytes| <= next
    ensures ok ==> buffer[p..next][..4] == Le(|bytes|) && buffer[p..next][4..4 + |bytes|] == bytes
    ensures buffer[..p] == old(buffer[..p])
  {
    LeLength(|bytes|);
    hide Le;
    Store(buffer, p, Le(|bytes|));
    next := p + 4;
    if next + 4 * RoundUp(|bytes|) > buffer.Length {
      return false, next;
    }
    ghost var header := buffer[..next];
    Store(buffer, next, bytes);
    assert buffer[p..next] == header[p..];
    assert buffer[..p] == header[..p];
    next := next + 4 * RoundUp(|bytes|);
    assert p + 4 + |bytes| <= next;
    SliceOfSlice(buffer[..], p, next, 0, 4);
    SliceOfSlice(buffer[..], p, next, 4, 4 + |bytes|);
    assert buffer[..][p..next] == buffer[p..next];
    ok := true;
  }

  /** One argument of serialize_closure: stores it at p unless the buffer ends first. */
  method SerializeArg(v: Value, code: char, buffer: array<Byte>, p: nat) returns (ok: bool, next: nat)
    requires Held(code, v) && code != 'h' && p <= buffer.Length
    modifies buffer
    ensures ok <==> p + Width(v) <= buffer.Length
    ensures ok ==> next == p + Width(v) && EncodesArg(v, buffer[p..next])
    ensures buffer[..p] == old(buffer[..p])
  {
    hide Le, EncodesArg, RoundUp, Width;
    HeldWidth(code, v);
    next := p;
    if p + 4 > buffer.Length {
      return false, p;
    }
    if (code == 's' || code == 'a') && !IsNull(v) {
      var bytes := if code == 's' then v.s.value + [0] else v.a.value;
      TextWidth(v, bytes);
      ok, next := SerializeText(bytes, buffer, p);
      if ok {
        SplitText(buffer[p..next], v, bytes);
      }
    } else {
      var w := if code == 's' || code == 'a' then 0 else Plain(v);
      LeLength(w);
      WordEncodes(code, v, w);
      Store(buffer, p, Le(w));
      ok, next := true, p + 4;
    }
  }

  lemma TextWidth(v: Value, bytes: seq<Byte>)
    requires (v.Str? && v.s.Some? && bytes == v.s.value + [0]) || (v.Arr? && v.a == Some(bytes))
    ensures Width(v) == 4 + 4 * RoundUp(|bytes|)
  {
  }

  lemma WordEncodes(code: char, v: Value, w: nat)
    requires Held(code, v) && code != 'h' && (code == 's' || code == 'a' ==> IsNull(v))
    requires w == if code == 's' || code == 'a' then 0 else Plain(v)
    ensures Width(v) == 4 && EncodesArg(v, Le(w))
  {
  }

  lemma SplitText(b: seq<Byte>, v: Value, bytes: seq<Byte>)
    requires |b| == Width(v) && 4 + |bytes| <= |b| && b[..4] == Le(|bytes|) && b[4..4 + |bytes|] == bytes
    requires (v.Str? && v.s.Some? && bytes == v.s.value + [0]) || (v.Arr? && v.a == Some(bytes))
    ensures EncodesArg(v, b)
  {
    if v.Str? {
      var n := |v.s.value|;
      assert b[4 + n] == b[4..4 + |bytes|][n];
      assert b[4..4 + n] == b[4..4 + |bytes|][..n];
    }
  }

  /** The loop of serialize_closure, which stores the arguments behind the header. */
  method SerializeArgs(c: Closure, signature: string, buffer: array<Byte>) returns (ok: bool, p: nat)
    requires AllHeld(Parse(signature), c.args) && 8 <= buffer.Length && buffer.Length % 4 == 0
    modifies buffer
    ensures ok <==> 8 + Widths(c.args) <= buffer.Length
    ensures ok ==> p == 8 + Widths(c.args) && Encodes(c.args, buffer[8..p])
  {
    hide EncodesArg, Width, Held, Le, Encodes, ParseFrom, Header, Widths;
    ghost var ds := Parse(signature);
    var count := ArgCount(signature);
    var sig, i := signature, 0;
    ok, p := true, 8;
    EmptyEncoding();
    assert c.args[0..] == c.args && c.args[..0] == [] && buffer[8..8] == [];
    while i < count
      invariant ok && i <= count == |ds| && Parse(sig) == ds[i..]
      invariant 8 <= p <= buffer.Length && (buffer.Length - p) % 4 == 0
      invariant p + Widths(c.args[i..]) == 8 + Widths(c.args)
      invariant Encodes(c.args[..i], buffer[8..p])
    {
      var arg;
      arg, sig := GetNextArgument(sig);
      assert arg == ds[i] && Parse(sig) == ds[i..][1..];
      ghost var done, was, v := c.args[..i], buffer[8..p], c.args[i];
      WidthsSplit(c.args, i);
      assert c.args[..i + 1] == done + [v];
      HeldWidth(arg.code, v);
      var next := p;
      if arg.code != 'h' {
        ghost var front := buffer[..p];
        ok, next := SerializeArg(c.args[i], arg.code, buffer, p);
        if !ok {
          return;
        }
        assert buffer[8..p] == front[8..] == was;
      }
      assert buffer[8..next] == was + buffer[p..next];
      EncodesMore(done, was, v, buffer[p..next]);
      p := next;
      i := i + 1;
    }
    assert c.args[..i] == c.args && c.args[i..] == [];
    NoWidths();
  }

  /** serialize_closure: fails exactly when the buffer is too small, and otherwise
      leaves an encoding of the closure at its start. */
  method Serialize(c: Closure, signature: string, buffer: array<Byte>) returns (size: int)
    requires AllHeld(Parse(signature), c.args) && buffer.Length % 4 == 0
    modifies buffer
    ensures size == -1 <==> buffer.Length < 8 + Widths(c.args)
    ensures size != -1 ==> size == 8 + Widths(c.args) && EncodesClosure(c, buffer[..size])
  {
    hide Le, Encodes, ParseFrom, Header, Widths, AllHeld;
    if buffer.Length < 8 {
      return -1;
    }
    var ok, p := SerializeArgs(c, signature, buffer);
    if !ok {
      return -1;
    }
    size := p;
    ghost var body := buffer[8..p];
    LeLength(c.sender);
    LeLength(Header(size, c.opcode));
    StoreHeader(buffer, c.sender, Header(size, c.opcode));
    ghost var b := buffer[..size];
    assert b[..4] == buffer[..4] && b[4..8] == buffer[4..8] && b[8..] == buffer[8..p] == body;
  }

  /** The serialising half of wl_closure_send and wl_closure_queue: the buffer of the
      computed size always suffices and is filled exactly. */
  method SerializeToBuffer(c: Closure, signature: string) returns (b: seq<Byte>)
    requires AllHeld(Parse(signature), c.args)
    ensures EncodesClosure(c, b) && |b| == 8 + Widths(c.args)
  {
    hide EncodesClosure, Widths, ParseFrom;
    var words := BufferSize(c.args, signature);
    var buffer := new Byte[4 * words];
    var size := Serialize(c, signature, buffer);
    assert size == buffer.Length;
    b := buffer[..size];
  }

  method StoreHeader(buffer: array<Byte>, first: nat, second: nat)
    requires buffer.Length >= 8
    modifies buffer
    ensures buffer[..4] == Le(first) && buffer[4..8] == Le(second)
    ensures buffer[8..] == old(buffer[8..])
    ensures forall p :: 8 <= p <= buffer.Length ==> buffer[8..p] == old(buffer[8..p])
  {
    hide Le;
    LeLength(first);
    LeLength(second);
    Store(buffer, 0, Le(first));
    ghost var rest := buffer[4..];
    assert rest[4..] == buffer[8..];
    Store(buffer, 4, Le(second));
    assert buffer[..4] == buffer[0..4];
    forall p | 8 <= p <= buffer.Length
      ensures buffer[8..p] == old(buffer[8..p])
    {
      assert buffer[8..p] == buffer[8..][..p - 8];
      assert old(buffer[8..p]) == old(buffer[8..])[..p - 8];
    }
  }

  lemma LeLength(n: nat)
    ensures |Le(n)| == 4
  {
  }

  lemma NoWidths()
    ensures Widths([]) == 0
  {
  }

  lemma EmptyEncoding()
    ensures Encodes([], [])
  {
  }

  lemma HeldWidth(code: char, v: Value)
    requires Held(code, v)
    ensures Width(v) % 4 == 0 && (code == 'h' <==> Width(v) == 0) && (code != 'h' ==> Width(v) >= 4)
    ensures code == 'h' ==> EncodesArg(v, [])
  {
  }

  // ---------- the decoder

  datatype Error = Fine | TooShort | NotTerminated | NullObject | NullNewId | BadNewId | NoDescriptor

  /** What reading one argument yields: its value and width, the descriptors left and the
      other side's ids afterwards. */
  datatype Step = Step(value: Value, width: nat, fds: seq<int>, ids: seq<nat>, error: Error)

  datatype Outcome = Outcome(values: seq<Value>, fds: seq<int>, ids: seq<nat>, error: Error)

  function AsInt32(w: nat): int { if w < 0x8000_0000 then w else w - U32 }

  /** The C string at the start of s. */
  function UpToNul(s: seq<Byte>): seq<Byte> {
    if s == [] || s[0] == 0 then [] else [s[0]] + UpToNul(s[1..])
  }

  /** The text argument at the start of b: a string when text holds, an array otherwise. */
  function ReadText(b: seq<Byte>, fds: seq<int>, ids: seq<nat>, text: bool): Step
    requires |b| >= 4
  {
    var length := WordAt(b, 0);
    var width := 4 + 4 * RoundUp(length);
    var none := if text then Str(None) else Arr(Some([]));
    if text && length == 0 then Step(none, 4, fds, ids, Fine)
    else if width > |b| then Step(none, 4, fds, ids, TooShort)
    else if text && b[4 + length - 1] != 0 then Step(none, 4, fds, ids, NotTerminated)
    else
      var bytes := b[4..4 + length];
      Step(if text then Str(Some(UpToNul(bytes))) else Arr(Some(bytes)), width, fds, ids, Fine)
  }

  function ReadId(d: ArgDetails, id: nat, fds: seq<int>, side: Side, ids: seq<nat>): Step {
    var error := if id == 0 && !d.nullable then (if d.code == 'o' then NullObject else NullNewId)
                 else if d.code == 'n' && Reserve(side, ids, id) == None then BadNewId
                 else Fine;
    Step(Id(id), 4, fds, if d.code == 'n' && error == Fine then Reserve(side, ids, id).value else ids, error)
  }

  /** One round of the loop in wl_connection_demarshal, on the bytes still unread. */
  function ReadArg(d: ArgDetails, b: seq<Byte>, fds: seq<int>, side: Side, ids: seq<nat>): Step {
    if d.code == 'h' then
      if fds == [] then Step(Id(0), 0, fds, ids, NoDescriptor)
      else Step(Fd(fds[0]), 0, fds[1..], ids, Fine)
    else if |b| < 4 then Step(Id(0), 0, fds, ids, TooShort)
    else if d.code == 'i' then Step(Int(AsInt32(WordAt(b, 0))), 4, fds, ids, Fine)
    else if d.code == 'u' then Step(Uint(WordAt(b, 0)), 4, fds, ids, Fine)
    else if d.code == 'f' then Step(Fixed(AsInt32(WordAt(b, 0))), 4, fds, ids, Fine)
    else if d.code == 's' || d.code == 'a' then ReadText(b, fds, ids, d.code == 's')
    else ReadId(d, WordAt(b, 0), fds, side, ids)
  }

  /** A length word of n makes an argument of w bytes: the word, the n bytes and the least
      padding that ends it on a word boundary. */
  ghost predicate Padded(n: nat, w: nat) { w % 4 == 0 && 4 + n <= w < 4 + n + 4 }

  /** A string takes its length word and its bytes with the terminator, an array its length
      word and its bytes, padded to whole words; NULL takes a word. */
  lemma WidthExactly(v: Value)
    ensures v.Str? ==> if v.s.None? then Width(v) == 4 else Padded(|v.s.value| + 1, Width(v))
    ensures v.Arr? ==> if v.a.None? then Width(v) == 4 else Padded(|v.a.value|, Width(v))
    ensures !v.Str? && !v.Arr? ==> Width(v) == if v.Fd? then 0 else 4
  {
  }

  /** Reading a string or array from any bytes, whoever made them: the length word settles
      how many it takes, and it is refused exactly if they are not all there, or if a
      string is not terminated. */
  lemma ReadTextExactly(b: seq<Byte>, fds: seq<int>, ids: seq<nat>, text: bool, w: nat)
    requires |b| >= 4 && Padded(WordAt(b, 0), w)
    ensures var s, n := ReadText(b, fds, ids, text), WordAt(b, 0);
            if text && n == 0 then s == Step(Str(None), 4, fds, ids, Fine)
            else if |b| < w then s.error == TooShort
            else if text && b[3 + n] != 0 then s.error == NotTerminated
            else s == Step(if text then Str(Some(UpToNul(b[4..4 + n]))) else Arr(Some(b[4..4 + n])), w, fds, ids, Fine)
  {
    hide WordAt, UpToNul;
    OnePadding(WordAt(b, 0), w);
  }

  lemma OnePadding(n: nat, w: nat)
    requires Padded(n, w)
    ensures w == 4 + 4 * RoundUp(n)
  {
  }

  lemma ReadWidth(d: ArgDetails, b: seq<Byte>, fds: seq<int>, side: Side, ids: seq<nat>)
    ensures var s := ReadArg(d, b, fds, side, ids); s.width % 4 == 0 && (s.error == Fine ==> s.width <= |b|)
  {
    hide WordAt, AsInt32, Reserve, ReadText;
    if |b| >= 4 { TextReadWidth(b, fds, ids, d.code == 's'); }
  }

  lemma TextReadWidth(b: seq<Byte>, fds: seq<int>, ids: seq<nat>, text: bool)
    requires |b| >= 4
    ensures var s := ReadText(b, fds, ids, text); s.width % 4 == 0 && (s.error == Fine ==> s.width <= |b|)
  {
    hide WordAt, RoundUp, UpToNul;
  }

  /** The arguments that the bytes, descriptors and ids yield, up to the first error. */
  function ReadArgs(ds: seq<ArgDetails>, b: seq<Byte>, fds: seq<int>, side: Side, ids: seq<nat>): Outcome {
    if ds == [] then Outcome([], fds, ids, Fine)
    else
      var s := ReadArg(ds[0], b, fds, side, ids);
      if s.error != Fine then Outcome([], s.fds, s.ids, s.error)
      else
        ReadWidth(ds[0], b, fds, side, ids);
        var rest := ReadArgs(ds[1..], b[s.width..], s.fds, side, s.ids);
        rest.(values := [s.value] + rest.values)
  }

  lemma ReadNext(ds: seq<ArgDetails>, b: seq<Byte>, fds: seq<int>, side: Side, ids: seq<nat>, i: nat, p: nat)
    requires i < |ds| && p <= |b|
    ensures var s := ReadArg(ds[i], b[p..], fds, side, ids);
            var all := ReadArgs(ds[i..], b[p..], fds, side, ids);
            if s.error != Fine then all == Outcome([], s.fds, s.ids, s.error)
            else
              p + s.width <= |b| &&
              var rest := ReadArgs(ds[i + 1..], b[p + s.width..], s.fds, side, s.ids);
              all == rest.(values := [s.value] + rest.values)
  {
    hide ReadArg;
    var s := ReadArg(ds[i], b[p..], fds, side, ids);
    ReadWidth(ds[i], b[p..], fds, side, ids);
    assert ds[i..][1..] == ds[i + 1..];
    if s.error == Fine {
      assert b[p..][s.width..] == b[p + s.width..];
    }
  }

  lemma ReadNone(b: seq<Byte>, fds: seq<int>, side: Side, ids: seq<nat>)
    ensures ReadArgs([], b, fds, side, ids) == Outcome([], fds, ids, Fine)
  {
  }

  /** What is read as the header of a message: its own bytes, and behind fewer than 8 of
      them what lies beyond in memory. */
  function HeaderBytes(b: seq<Byte>, beyond: seq<Byte>): seq<Byte>
    requires |beyond| >= 8
  {
    if |b| < 8 then (b + beyond)[..8] else b
  }

  /** What is read as the arguments. */
  function Body(b: seq<Byte>): seq<Byte> { if |b| < 8 then [] else b[8..|b| / 4 * 4] }

  /** A message has a header of its own exactly if it claims 8 bytes or more. */
  lemma OwnHeaderExactly(size: nat)
    ensures (forall b: seq<Byte>, x: seq<Byte>, y: seq<Byte> :: |b| == size && |x| >= 8 && |y| >= 8 ==>
               HeaderBytes(b, x) == HeaderBytes(b, y)) <==> size >= 8
  {
    if size < 8 {
      var b: seq<Byte>, x: seq<Byte>, y: seq<Byte> := seq(size, _ => 0), seq(8, _ => 0), seq(8, _ => 1);
      assert HeaderBytes(b, x)[size] == 0 && HeaderBytes(b, y)[size] == 1;
    }
  }

  /** With fewer than 8 bytes a message is refused, unless it takes descriptors only and
      they are there. */
  lemma {:induction false} ShortExactly(ds: seq<ArgDetails>, fds: seq<int>, side: Side, ids: seq<nat>)
    ensures ReadArgs(ds, [], fds, side, ids).error == Fine <==>
            |ds| <= |fds| && forall i :: 0 <= i < |ds| ==> ds[i].code == 'h'
    decreases |ds|
  {
    hide WordAt, ReadText, ReadId;
    ReadsNone(ds, fds, side, ids);
    if ds != [] {
      if ds[0].code == 'h' && fds != [] {
        ShortExactly(ds[1..], fds[1..], side, ids);
        assert forall i :: 1 <= i < |ds| ==> ds[i] == ds[1..][i - 1];
        assert forall i :: 0 <= i < |ds| - 1 ==> ds[1..][i] == ds[i + 1];
      }
    }
  }

  lemma ReadsNone(ds: seq<ArgDetails>, fds: seq<int>, side: Side, ids: seq<nat>)
    ensures var o := ReadArgs(ds, [], fds, side, ids);
            if ds == [] then o.error == Fine
            else if ds[0].code != 'h' || fds == [] then o.error != Fine
            else o.error == ReadArgs(ds[1..], [], fds[1..], side, ids).error
  {
    if ds != [] && ds[0].code == 'h' && fds != [] {
      var none: seq<Byte> := [];
      assert none[0..] == none;
    }
  }

  /** wl_connection_demarshal: whatever happens, it consumes exactly the message; the
      descriptors it takes and the ids it reserves are those of the arguments read.  beyond
      is what lies in memory behind the message, which matters if it claims fewer than 8
      bytes. */
  method Demarshal(input: Buffer, size: nat, fds: seq<int>, objects: Map, signature: string, beyond: seq<Byte>)
    returns (r: Option<Closure>, left: seq<int>, error: Error)
    requires input.Valid() && size <= input.Size() && objects.Valid() && |beyond| >= 8
    modifies input`tail, objects`other
    ensures input.Valid() && objects.Valid() && input.Contents() == old(input.Contents())[size..]
    ensures |Parse(signature)| > MAX_ARGS ==> r == None && left == fds && objects.other == old(objects.other)
    ensures |Parse(signature)| <= MAX_ARGS ==>
              var b := old(input.Contents())[..size];
              var h := HeaderBytes(b, beyond);
              var o := ReadArgs(Parse(signature), Body(b), fds, objects.side, old(objects.other));
              && left == o.fds && objects.other == o.ids && error == o.error
              && r == if o.error == Fine then Some(Closure(WordAt(h, 0), WordAt(h, 4) % 65536, o.values)) else None
  {
    hide ReadArgs, ParseFrom, WordAt, Chain, NoDup, LiveTags, Slot, HeaderBytes, Body;
    var count := ArgCount(signature);
    if count > MAX_ARGS {
      input.Consume(size);
      return None, fds, Fine;
    }
    var b := input.Copy(size);
    var h, values := HeaderBytes(b, beyond), [];
    HeaderIsThere(b, beyond);
    values, left, error := DemarshalArgs(Body(b), fds, objects, signature, count);
    input.Consume(size);
    r := if error == Fine then Some(Closure(WordAt(h, 0), WordAt(h, 4) % 65536, values)) else None;
  }

  lemma HeaderIsThere(b: seq<Byte>, beyond: seq<Byte>)
    requires |beyond| >= 8
    ensures |HeaderBytes(b, beyond)| >= 8
  {
  }

  /** The loop of wl_connection_demarshal. */
  method DemarshalArgs(body: seq<Byte>, fds: seq<int>, objects: Map, signature: string, count: nat)
    returns (values: seq<Value>, left: seq<int>, error: Error)
    requires objects.Valid() && count == |Parse(signature)|
    modifies objects`other
    ensures objects.Valid()
    ensures Outcome(values, left, objects.other, error)
         == ReadArgs(Parse(signature), body, fds, objects.side, old(objects.other))
  {
    hide ReadArg, ReadArgs, ParseFrom, Chain, NoDup, LiveTags, IsCode;
    ghost var ds := Parse(signature);
    ParsedCodes(signature, false);
    var sig, i := signature, 0;
    var p: nat := 0;
    values, left, error := [], fds, Fine;
    ghost var all := ReadArgs(ds, body, fds, objects.side, objects.other);
    assert ds[0..] == ds && body[0..] == body;
    while i < count && error == Fine
      invariant objects.Valid() && i <= count && p <= |body|
      invariant error == Fine ==> Parse(sig) == ds[i..]
      invariant error == Fine ==> var rest := ReadArgs(ds[i..], body[p..], left, objects.side, objects.other);
                all == rest.(values := values + rest.values)
      invariant error != Fine ==> all == Outcome(values, left, objects.other, error)
      decreases count - i, error == Fine
    {
      var arg;
      arg, sig := GetNextArgument(sig);
      assert arg == ds[i] && Parse(sig) == ds[i..][1..];
      ReadNext(ds, body, left, objects.side, objects.other, i, p);
      var value, width;
      value, width, left, error := DemarshalArg(arg, body[p..], left, objects);
      if error == Fine {
        values := values + [value];
        p := p + width;
        i := i + 1;
      }
    }
    if error == Fine {
      assert ds[i..] == [];
      ReadNone(body[p..], left, objects.side, objects.other);
    }
  }

  /** The switch of wl_connection_demarshal. */
  method DemarshalArg(d: ArgDetails, b: seq<Byte>, fds: seq<int>, objects: Map)
    returns (value: Value, width: nat, left: seq<int>, error: Error)
    requires objects.Valid() && IsCode(d.code)
    modifies objects`other
    ensures objects.Valid()
    ensures ReadArg(d, b, fds, objects.side, old(objects.other)) == Step(value, width, left, objects.other, error)
  {
    hide WordAt, UpToNul, AsInt32, Meaning, Chain, LiveTags, NoDup, Map.Entries;
    if |b| >= 4 { WordBound(b, 0); }
    value, width, left, error := Id(0), 0, fds, Fine;
    if d.code != 'h' && |b| < 4 {
      error := TooShort;
      return;
    }
    match d.code {
      case 'h' =>
        if fds == [] {
          error := NoDescriptor;
        } else {
          value, left := Fd(fds[0]), fds[1..];
        }
      case 'u' => value, width := Uint(WordAt(b, 0)), 4;
      case 'i' => value, width := Int(AsInt32(WordAt(b, 0))), 4;
      case 'f' => value, width := Fixed(AsInt32(WordAt(b, 0))), 4;
      case 'o' =>
        value, width := Id(WordAt(b, 0)), 4;
        if WordAt(b, 0) == 0 && !d.nullable {
          error := NullObject;
        }
      case 'n' =>
        var id := WordAt(b, 0);
        value, width := Id(id), 4;
        if id == 0 && !d.nullable {
          error := NullNewId;
        } else {
          var ok := objects.ReserveNew(id);
          if !ok {
            error := BadNewId;
          }
        }
      case _ =>
        var length := WordAt(b, 0);
        width := 4;
        value := if d.code == 's' then Str(None) else Arr(Some([]));
        if d.code == 's' && length == 0 {
        } else if 4 + 4 * RoundUp(length) > |b| {
          error := TooShort;
        } else if d.code == 's' && b[4 + length - 1] != 0 {
          error := NotTerminated;
        } else {
          var bytes := b[4..4 + length];
          value := if d.code == 's' then Str(Some(UpToNul(bytes))) else Arr(Some(bytes));
          width := 4 + 4 * RoundUp(length);
        }
    }
  }

  lemma WordBound(b: seq<Byte>, p: nat)
    requires p + 4 <= |b|
    ensures WordAt(b, p) < U32
  {
  }

  // ---------- the round trip

  /** What the receiver gets for an argument of a closure. */
  function Received(v: Value): Value {
    match v
    case Object(o) => Id(IdOf(o))
    case Arr(a) => if a.None? then Arr(Some([])) else v
    case _ => v
  }

  function ReceivedAll(args: seq<Value>): seq<Value> {
    seq(|args|, i requires 0 <= i < |args| => Received(args[i]))
  }

  /** The descriptors of a closure, in order. */
  function FdsOf(args: seq<Value>): seq<int> {
    if args == [] then [] else (if args[0].Fd? then [args[0].fd] else []) + FdsOf(args[1..])
  }

  /** The peer map's ids after it accepted the new ids in order, if it does. */
  function ReserveAll(ds: seq<ArgDetails>, args: seq<Value>, side: Side, ids: seq<nat>): Option<seq<nat>>
    requires |ds| == |args|
  {
    if args == [] then Some(ids)
    else if ds[0].code == 'n' && args[0].Id? then
      match Reserve(side, ids, args[0].n)
      case Some(ids') => ReserveAll(ds[1..], args[1..], side, ids')
      case None => None
    else ReserveAll(ds[1..], args[1..], side, ids)
  }

  /** An object argument carries a real id wherever NULL is not allowed. */
  predicate RealIds(ds: seq<ArgDetails>, args: seq<Value>)
    requires |ds| == |args|
  {
    forall i :: 0 <= i < |ds| ==> RealId(ds[i], args[i])
  }

  lemma {:induction false} UpToNulOf(s: seq<Byte>)
    requires 0 !in s
    ensures UpToNul(s + [0]) == s
  {
    if s != [] {
      assert (s + [0])[1..] == s[1..] + [0];
      UpToNulOf(s[1..]);
    }
  }

  predicate RealId(d: ArgDetails, v: Value) {
    d.nullable || ((v.Object? ==> IdOf(v.o) != 0) && (v.Id? ==> v.n != 0))
  }

  lemma ReadTextBack(v: Value, b: seq<Byte>, fds: seq<int>, ids: seq<nat>)
    requires (v.Str? && (v.s.None? || 0 !in v.s.value)) || v.Arr?
    requires Width(v) <= |b| < U32 && EncodesArg(v, b[..Width(v)])
    ensures |b| >= 4 && ReadText(b, fds, ids, v.Str?) == Step(Received(v), Width(v), fds, ids, Fine)
  {
    var w := Width(v);
    assert b[..4] == b[..w][..4];
    if IsNull(v) {
      assert b[..w] == b[..4];
      WordOfLe(0, b);
      assert b[4..4] == [];
    } else if v.Str? {
      var n := |v.s.value|;
      WordOfLe(n + 1, b);
      TextBytes(v.s.value, b, w);
      UpToNulOf(v.s.value);
    } else {
      var n := |v.a.value|;
      WordOfLe(n, b);
      assert b[4..4 + n] == b[..w][4..4 + n];
    }
  }

  lemma TextBytes(s: seq<Byte>, b: seq<Byte>, w: nat)
    requires 4 + |s| < w <= |b| && b[..w][4..4 + |s|] == s && b[..w][4 + |s|] == 0
    ensures b[4..4 + |s| + 1] == s + [0] && b[4 + |s|] == 0
  {
    assert b[4..4 + |s|] == b[..w][4..4 + |s|];
    assert b[4..4 + |s| + 1] == b[4..4 + |s|] + [b[4 + |s|]];
  }

  /** Reading one encoded argument back fails only for a NULL or an unacceptable id. */
  lemma ReadBack(d: ArgDetails, v: Value, b: seq<Byte>, fds: seq<int>, side: Side, ids: seq<nat>)
    requires Held(d.code, v) && Width(v) <= |b| < U32 && EncodesArg(v, b[..Width(v)])
    requires v.Fd? ==> fds != [] && fds[0] == v.fd
    ensures var s := ReadArg(d, b, fds, side, ids);
            && (s.error == Fine <==> RealId(d, v) && (d.code == 'n' ==> Reserve(side, ids, v.n).Some?))
            && (s.error == Fine ==>
                  s == Step(Received(v), Width(v), if v.Fd? then fds[1..] else fds,
                            if d.code == 'n' then Reserve(side, ids, v.n).value else ids, Fine))
  {
    hide Le, WordAt, Reserve;
    if v.Str? || v.Arr? {
      ReadTextBack(v, b, fds, ids);
    } else if !v.Fd? {
      hide RoundUp;
      PlainFits(d.code, v);
      WordOfLe(Plain(v), b);
    }
  }

  lemma PlainFits(code: char, v: Value)
    requires Held(code, v) && !v.Str? && !v.Arr? && !v.Fd?
    ensures Plain(v) < U32
    ensures v.Int? ==> AsInt32(Plain(v)) == v.i
    ensures v.Fixed? ==> AsInt32(Plain(v)) == v.f
  {
  }

  /** Reading an encoded argument list back yields the same values, takes exactly its own
      descriptors and reserves exactly its new ids; it fails exactly when a NULL id
      stands where none is allowed or the peer map refuses a new id. */
  lemma {:induction false} RoundTrip(ds: seq<ArgDetails>, args: seq<Value>, b: seq<Byte>, fds: seq<int>,
                                     more: seq<int>, side: Side, ids: seq<nat>)
    requires AllHeld(ds, args) && Encodes(args, b) && |b| < U32 && fds == FdsOf(args) + more
    ensures var o := ReadArgs(ds, b, fds, side, ids);
            && (o.error == Fine <==> RealIds(ds, args) && ReserveAll(ds, args, side, ids).Some?)
            && (o.error == Fine ==>
                  o == Outcome(ReceivedAll(args), more, ReserveAll(ds, args, side, ids).value, Fine))
    decreases |args|
  {
    hide ReadArg, ReadArgs, EncodesArg, Held, Width, Reserve, Received, RealIds, FdsOf, ReceivedAll, ReserveAll;
    if args != [] {
      var d, v := ds[0], args[0];
      assert Held(d.code, v);
      HeadFd(args, more);
      ReadBack(d, v, b, fds, side, ids);
      RealIdsStep(ds, args);
      HeldCode(d.code, v);
      ReserveStep(ds, args, side, ids);
      ReadStep(ds, b, fds, side, ids);
      var s := ReadArg(d, b, fds, side, ids);
      if s.error == Fine {
        RoundTrip(ds[1..], args[1..], b[Width(v)..], s.fds, more, side, s.ids);
        ReceivedStep(args);
      }
    } else {
      NothingToRead(ds, b, fds, more, side, ids);
    }
  }

  lemma NothingToRead(ds: seq<ArgDetails>, b: seq<Byte>, fds: seq<int>, more: seq<int>, side: Side, ids: seq<nat>)
    requires ds == [] && fds == FdsOf([]) + more
    ensures ReadArgs(ds, b, fds, side, ids) == Outcome(ReceivedAll([]), more, ids, Fine)
    ensures RealIds(ds, []) && ReserveAll(ds, [], side, ids) == Some(ids)
  {
    assert fds == more;
  }

  lemma ReceivedStep(args: seq<Value>)
    requires args != []
    ensures ReceivedAll(args) == [Received(args[0])] + ReceivedAll(args[1..])
  {
  }

  lemma ReserveStep(ds: seq<ArgDetails>, args: seq<Value>, side: Side, ids: seq<nat>)
    requires |ds| == |args| > 0
    ensures ReserveAll(ds, args, side, ids) ==
            if ds[0].code == 'n' && args[0].Id? then
              match Reserve(side, ids, args[0].n)
              case Some(ids') => ReserveAll(ds[1..], args[1..], side, ids')
              case None => None
            else ReserveAll(ds[1..], args[1..], side, ids)
  {
  }

  lemma ReadStep(ds: seq<ArgDetails>, b: seq<Byte>, fds: seq<int>, side: Side, ids: seq<nat>)
    requires ds != []
    ensures var s, all := ReadArg(ds[0], b, fds, side, ids), ReadArgs(ds, b, fds, side, ids);
            if s.error != Fine then all == Outcome([], s.fds, s.ids, s.error)
            else
              s.width <= |b| &&
              var rest := ReadArgs(ds[1..], b[s.width..], s.fds, side, s.ids);
              all == rest.(values := [s.value] + rest.values)
  {
    ReadWidth(ds[0], b, fds, side, ids);
  }

  lemma HeldCode(code: char, v: Value)
    requires Held(code, v)
    ensures code == 'n' <==> v.Id?
  {
  }

  lemma HeadFd(args: seq<Value>, more: seq<int>)
    requires args != []
    ensures var fds := FdsOf(args) + more;
            if args[0].Fd? then fds != [] && fds[0] == args[0].fd && fds[1..] == FdsOf(args[1..]) + more
            else fds == FdsOf(args[1..]) + more
  {
    var rest := FdsOf(args[1..]);
    if args[0].Fd? {
      assert [args[0].fd] + rest + more == [args[0].fd] + (rest + more);
    } else {
      assert [] + rest == rest;
    }
  }

  lemma RealIdsStep(ds: seq<ArgDetails>, args: seq<Value>)
    requires |ds| == |args| > 0
    ensures RealIds(ds, args) <==> RealId(ds[0], args[0]) && RealIds(ds[1..], args[1..])
  {
    if RealId(ds[0], args[0]) && RealIds(ds[1..], args[1..]) {
      forall i | 0 <= i < |ds|
        ensures RealId(ds[i], args[i])
      {
        if i > 0 {
          assert ds[i] == ds[1..][i - 1] && args[i] == args[1..][i - 1];
          assert RealId(ds[1..][i - 1], args[1..][i - 1]);
        }
      }
    }
    if RealIds(ds, args) {
      assert RealId(ds[0], args[0]);
      forall i | 0 <= i < |ds| - 1
        ensures RealId(ds[1..][i], args[1..][i])
      {
        assert RealId(ds[i + 1], args[i + 1]);
      }
    }
  }

  /** A whole message of at most 4096 bytes: the header gives back sender, low 16 bits of
      the opcode and the exact size. */
  lemma HeaderRoundTrip(c: Closure, b: seq<Byte>)
    requires EncodesClosure(c, b) && c.sender < U32 && |b| <= 4096
    ensures WordAt(b, 0) == c.sender
    ensures WordAt(b, 4) % 65536 == c.opcode % 65536 && WordAt(b, 4) / 65536 == |b|
    ensures |b| == 8 + Widths(c.args) && |b| / 4 * 4 == |b|
  {
    hide Le, Encodes, Header, WordAt, Widths;
    WordOfLe(c.sender, b);
    HeaderParts(|b|, c.opcode);
    assert b[4..][..4] == b[4..8];
    WordOfLe(Header(|b|, c.opcode), b[4..]);
    WordShift(b);
    EncodedWidths(c.args, b[8..]);
    WidthsAligned(c.args);
  }

  lemma HeaderParts(size: nat, opcode: nat)
    requires size <= 4096
    ensures var h := Header(size, opcode);
            h < U32 && h % 65536 == opcode % 65536 && h / 65536 == size
  {
    var low := opcode % 65536;
    assert (size * 65536 + low) / 65536 == size;
  }

  lemma WordShift(b: seq<Byte>)
    requires |b| >= 8
    ensures WordAt(b, 4) == WordAt(b[4..], 0)
  {
  }

  lemma WidthAligned(v: Value)
    ensures Width(v) % 4 == 0
  {
    hide RoundUp;
  }

  lemma {:induction false} WidthsAligned(args: seq<Value>)
    ensures Widths(args) % 4 == 0
  {
    hide Width;
    if args != [] {
      WidthAligned(args[0]);
      WidthsAligned(args[1..]);
    }
  }

  /** What demarshalling a message that starts the input yields. */
  ghost function ReadMessage(ds: seq<ArgDetails>, b: seq<Byte>, fds: seq<int>, side: Side, ids: seq<nat>)
    : (Closure, Outcome)
    requires |b| >= 8
  {
    var o := ReadArgs(ds, b[8..|b| / 4 * 4], fds, side, ids);
    (Closure(WordAt(b, 0), WordAt(b, 4) % 65536, o.values), o)
  }

  /** The round trip of a message: sender, low opcode bits and arguments come back, the
      descriptors of later messages stay, and the header gives the size that the receiver
      consumes. */
  lemma MessageRoundTrip(c: Closure, signature: string, b: seq<Byte>, more: seq<int>, side: Side, ids: seq<nat>)
    requires AllHeld(Parse(signature), c.args) && c.sender < U32
    requires EncodesClosure(c, b) && |b| <= 4096
    ensures WordAt(b, 4) / 65536 == |b|
    ensures var ds := Parse(signature);
            var (d, o) := ReadMessage(ds, b, FdsOf(c.args) + more, side, ids);
            && (o.error == Fine <==> RealIds(ds, c.args) && ReserveAll(ds, c.args, side, ids).Some?)
            && (o.error == Fine ==>
                  && d == Closure(c.sender, c.opcode % 65536, ReceivedAll(c.args))
                  && o.fds == more && o.ids == ReserveAll(ds, c.args, side, ids).value)
  {
    hide ReadArgs, WordAt, Encodes, Widths, Le, Header, AllHeld;
    HeaderRoundTrip(c, b);
    assert b[8..|b|] == b[8..];
    RoundTrip(Parse(signature), c.args, b[8..], FdsOf(c.args) + more, more, side, ids);
  }

  /** Every closure that marshalling accepts carries real ids, if its objects have them. */
  lemma AcceptedIdsAreReal(ds: seq<ArgDetails>, args: seq<Value>, held: seq<Value>)
    requires AllPassed(ds, args) && !Refused(ds, args)
    requires |held| == |args| && forall i :: 0 <= i < |args| ==> held[i] == Hold(args[i])
    requires forall i :: 0 <= i < |args| ==> args[i] != Object(Some(0)) && args[i] != NewObject(Some(0))
    ensures AllHeld(ds, held) && RealIds(ds, held)
  {
    forall i | 0 <= i < |ds|
      ensures Held(ds[i].code, held[i]) && RealId(ds[i], held[i])
    {
      assert Passed(ds[i].code, args[i]);
      assert ds[i].nullable || !IsNull(args[i]);
    }
  }
}
