/** The code generator: the types table and the signature strings of emit_code, and
    what the runtime reads from them (foreign/wayland/src/scanner.c). */
module Scanner {

  import opened Signature

  datatype ArgType = NewId | Int | Unsigned | Fixed | String | Object | Array | Fd

  /** An interface name, or NULL. */
  datatype Interface = NoInterface | Named(name: string)

  datatype Arg = Arg(ty: ArgType, nullable: bool, iface: Interface)

  datatype Message = Message(args: seq<Arg>, since: nat)

  predicate IsNullableType(t: ArgType) { t in {String, Object, NewId, Array} }

  /** What start_element accepts: only nullable types are marked nullable, and only
      objects carry an interface. */
  predicate Accepted(a: Arg) {
    (a.nullable ==> IsNullableType(a.ty)) && (a.iface.Named? ==> a.ty in {NewId, Object})
  }

  predicate UntypedNewId(a: Arg) { a.ty == NewId && a.iface == NoInterface }

  // ---------- signatures

  /** The characters emit_messages prints for one argument. */
  function ArgCodes(a: Arg): string {
    (if IsNullableType(a.ty) && a.nullable then "?" else "") +
    match a.ty
    case Int => "i"
    case NewId => if a.iface == NoInterface then "sun" else "n"
    case Unsigned => "u"
    case Fixed => "f"
    case String => "s"
    case Object => "o"
    case Array => "a"
    case Fd => "h"
  }

  function Codes(args: seq<Arg>): string {
    if args == [] then "" else ArgCodes(args[0]) + Codes(args[1..])
  }

  function Digit(d: nat): char
    requires d < 10
  {
    '0' + d as char
  }

  /** printf("%d") of a non-negative number. */
  function Decimal(n: nat): string {
    (if n < 10 then "" else Decimal(n / 10)) + [Digit(n % 10)]
  }

  function SignatureOf(m: Message): string {
    (if m.since > 1 then Decimal(m.since) else "") + Codes(m.args)
  }

  /** The body of the argument loop of emit_messages. */
  method EmitArg(a: Arg) returns (printed: string)
    ensures printed == ArgCodes(a)
  {
    printed := "";
    if IsNullableType(a.ty) && a.nullable {
      printed := printed + "?";
    }
    match a.ty {
      case Int => printed := printed + "i";
      case NewId =>
        if a.iface == NoInterface {
          printed := printed + "su";
        }
        printed := printed + "n";
      case Unsigned => printed := printed + "u";
      case Fixed => printed := printed + "f";
      case String => printed := printed + "s";
      case Object => printed := printed + "o";
      case Array => printed := printed + "a";
      case Fd => printed := printed + "h";
    }
  }

  /** The loop of emit_messages that prints one signature. */
  method EmitSignature(m: Message) returns (sig: string)
    ensures sig == SignatureOf(m)
  {
    hide ArgCodes;
    sig := "";
    if m.since > 1 {
      sig := sig + Decimal(m.since);
    }
    assert m.args[0..] == m.args;
    var i := 0;
    while i < |m.args|
      invariant i <= |m.args| && sig + Codes(m.args[i..]) == SignatureOf(m)
    {
      var printed := EmitArg(m.args[i]);
      NextCodes(m.args, i, sig);
      sig := sig + printed;
      i := i + 1;
    }
  }

  lemma NextCodes(args: seq<Arg>, i: nat, sig: string)
    requires i < |args|
    ensures sig + Codes(args[i..]) == sig + ArgCodes(args[i]) + Codes(args[i + 1..])
  {
  }

  /** The arguments the runtime should see: an untyped new id travels as interface
      name, version and id, with its `?` on the name. */
  function Runtime(a: Arg): seq<ArgDetails> {
    match a.ty
    case Int => [ArgDetails('i', false)]
    case NewId =>
      if a.iface == NoInterface then
        [ArgDetails('s', a.nullable), ArgDetails('u', false), ArgDetails('n', false)]
      else [ArgDetails('n', a.nullable)]
    case Unsigned => [ArgDetails('u', false)]
    case Fixed => [ArgDetails('f', false)]
    case String => [ArgDetails('s', a.nullable)]
    case Object => [ArgDetails('o', a.nullable)]
    case Array => [ArgDetails('a', a.nullable)]
    case Fd => [ArgDetails('h', false)]
  }

  function RuntimeArgs(args: seq<Arg>): seq<ArgDetails> {
    if args == [] then [] else Runtime(args[0]) + RuntimeArgs(args[1..])
  }

  lemma ParseCode(c: char, nullable: bool, rest: string)
    requires IsCode(c)
    ensures ParseFrom([c] + rest, nullable) == [ArgDetails(c, nullable)] + Parse(rest)
  {
  }

  lemma ParseMark(rest: string)
    ensures Parse("?" + rest) == ParseFrom(rest, true)
  {
  }

  lemma ParseLetters(a: Arg, letters: string, nullable: bool, rest: string)
    requires ArgCodes(a.(nullable := false)) == letters && Accepted(a.(nullable := nullable))
    ensures ParseFrom(letters + rest, nullable)
         == Runtime(a.(nullable := nullable))[..1] + Runtime(a)[1..] + Parse(rest)
  {
    if UntypedNewId(a) {
      assert letters == "sun" && letters + rest == ['s'] + (['u'] + (['n'] + rest));
      ParseCode('n', false, rest);
      ParseCode('u', false, ['n'] + rest);
      ParseCode('s', nullable, ['u'] + (['n'] + rest));
    } else {
      assert |letters| == 1;
      assert letters == [letters[0]];
      ParseCode(letters[0], nullable, rest);
    }
  }

  lemma ParseArg(a: Arg, rest: string)
    requires Accepted(a)
    ensures Parse(ArgCodes(a) + rest) == Runtime(a) + Parse(rest)
  {
    hide ParseFrom;
    var letters := ArgCodes(a.(nullable := false));
    ParseLetters(a, letters, a.nullable, rest);
    if a.nullable {
      assert ArgCodes(a) + rest == "?" + (letters + rest);
      ParseMark(letters + rest);
    } else {
      assert ArgCodes(a) == letters;
    }
  }

  lemma {:induction false} ParseCodes(args: seq<Arg>)
    requires forall a :: a in args ==> Accepted(a)
    ensures Parse(Codes(args)) == RuntimeArgs(args)
  {
    if args != [] {
      ParseArg(args[0], Codes(args[1..]));
      ParseCodes(args[1..]);
    }
  }

  lemma {:induction false} DecimalDigits(n: nat)
    ensures Decimal(n) != [] && forall c :: c in Decimal(n) ==> IsDigit(c)
  {
    if n >= 10 { DecimalDigits(n / 10); }
  }

  /** Reading back the digits of n, and then rest. */
  lemma {:induction false} ReadDecimal(n: nat, rest: string)
    requires rest == [] || !IsDigit(rest[0])
    ensures ReadDigits(Decimal(n) + rest, 0) == n
  {
    DecimalDigits(n);
    ReadPrefix(Decimal(n), rest, 0);
    ReadAll(n);
  }

  lemma {:induction false} ReadPrefix(digits: string, rest: string, n: nat)
    requires (forall c :: c in digits ==> IsDigit(c)) && (rest == [] || !IsDigit(rest[0]))
    ensures ReadDigits(digits + rest, n) == ReadDigits(digits, n)
    decreases |digits|
  {
    if digits == [] {
      assert digits + rest == rest;
    } else {
      assert (digits + rest)[1..] == digits[1..] + rest;
      ReadPrefix(digits[1..], rest, 10 * n + DigitValue(digits[0]));
    }
  }

  lemma {:induction false} ReadAppended(digits: string, d: char, n: nat)
    requires (forall c :: c in digits ==> IsDigit(c)) && IsDigit(d)
    ensures ReadDigits(digits + [d], n) == 10 * ReadDigits(digits, n) + DigitValue(d)
    decreases |digits|
  {
    if digits == [] {
      assert digits + [d] == [d];
      assert ReadDigits([d][1..], 10 * n + DigitValue(d)) == 10 * n + DigitValue(d);
    } else {
      assert (digits + [d])[1..] == digits[1..] + [d];
      ReadAppended(digits[1..], d, 10 * n + DigitValue(digits[0]));
    }
  }

  lemma {:induction false} ReadAll(n: nat)
    ensures ReadDigits(Decimal(n), 0) == n
  {
    var d := Digit(n % 10);
    if n < 10 {
      ReadAppended("", d, 0);
      assert "" + [d] == [d];
    } else {
      DecimalDigits(n / 10);
      ReadAppended(Decimal(n / 10), d, 0);
      ReadAll(n / 10);
    }
  }

  lemma CodesStart(args: seq<Arg>)
    ensures Codes(args) == [] || IsCode(Codes(args)[0]) || Codes(args)[0] == '?'
  {
  }

  lemma AtoiOfCodes(s: string)
    requires s == [] || IsCode(s[0]) || s[0] == '?'
    ensures Atoi(s) == 0
  {
  }

  lemma AtoiOfDigits(s: string)
    requires s != [] && IsDigit(s[0])
    ensures Atoi(s) == ReadDigits(s, 0)
  {
  }

  /** Every emitted signature parses back: the since prefix to max(1, since), and the
      rest to the runtime arguments of the message. */
  lemma SignatureParsesBack(m: Message)
    requires forall a :: a in m.args ==> Accepted(a)
    ensures Parse(SignatureOf(m)) == RuntimeArgs(m.args)
    ensures GetSince(SignatureOf(m)) == if m.since > 1 then m.since else 1
  {
    hide Runtime, ArgCodes, Codes, Decimal, ReadDigits, Atoi, ParseFrom;
    var codes := Codes(m.args);
    ParseCodes(m.args);
    CodesStart(m.args);
    if m.since > 1 {
      var d := Decimal(m.since);
      DecimalDigits(m.since);
      SkipPrefix(d, codes);
      ReadDecimal(m.since, codes);
      assert (d + codes)[0] == d[0];
      AtoiOfDigits(d + codes);
    } else {
      assert "" + codes == codes;
      AtoiOfCodes(codes);
    }
  }

  // ---------- the types table

  /** The table entry for an argument. */
  function Entry(a: Arg): Interface {
    if a.ty == NewId || a.ty == Object then a.iface else NoInterface
  }

  predicate AllNull(m: Message) { forall a :: a in m.args ==> Entry(a) == NoInterface }

  /** types[index + j] is the interface of argument j. */
  ghost predicate TableRight(table: seq<Interface>, index: nat, m: Message) {
    index + |m.args| <= |table| && forall j :: 0 <= j < |m.args| ==> table[index + j] == Entry(m.args[j])
  }

  /** emit_types_forward_declarations: marks the messages without interfaces and
      lengthens the run of NULLs to the longest of them. */
  method ForwardDeclarations(messages: seq<Message>, nullRun: nat) returns (allNull: seq<bool>, run: nat)
    ensures |allNull| == |messages| && run >= nullRun
    ensures forall i :: 0 <= i < |messages| ==> allNull[i] == AllNull(messages[i])
    ensures forall i :: 0 <= i < |messages| && allNull[i] ==> |messages[i].args| <= run
    ensures run == nullRun || exists i :: 0 <= i < |messages| && allNull[i] && run == |messages[i].args|
  {
    allNull, run := [], nullRun;
    var i := 0;
    while i < |messages|
      invariant i <= |messages| && |allNull| == i && run >= nullRun
      invariant forall k :: 0 <= k < i ==> allNull[k] == AllNull(messages[k])
      invariant forall k :: 0 <= k < i && allNull[k] ==> |messages[k].args| <= run
      invariant run == nullRun || exists k :: 0 <= k < i && allNull[k] && run == |messages[k].args|
    {
      var m := messages[i];
      var length, noIface := 0, true;
      while length < |m.args|
        invariant length <= |m.args|
        invariant noIface <==> forall j :: 0 <= j < length ==> Entry(m.args[j]) == NoInterface
      {
        var a := m.args[length];
        length := length + 1;
        if (a.ty == NewId || a.ty == Object) && a.iface != NoInterface {
          noIface := false;
        }
      }
      if noIface && length > run {
        run := length;
      }
      allNull := allNull + [noIface];
      i := i + 1;
    }
  }

  /** The table entries of a message's own arguments. */
  ghost function EntriesOf(m: Message): seq<Interface> {
    seq(|m.args|, j requires 0 <= j < |m.args| => Entry(m.args[j]))
  }

  /** What the messages of a list add to the table: their own entries, one after the other,
      but none for a message without interfaces. */
  ghost function Rows(messages: seq<Message>): seq<Interface> {
    if messages == [] then []
    else
      var m := messages[|messages| - 1];
      Rows(messages[..|messages| - 1]) + if AllNull(m) then [] else EntriesOf(m)
  }

  ghost function AllRows(protocol: Protocol): seq<Interface> {
    if protocol == [] then [] else AllRows(protocol[..|protocol| - 1]) + Rows(protocol[|protocol| - 1])
  }

  lemma MoreRows(messages: seq<Message>, i: nat)
    requires i < |messages|
    ensures Rows(messages[..i + 1]) == Rows(messages[..i]) + if AllNull(messages[i]) then [] else EntriesOf(messages[i])
  {
    assert messages[..i + 1][..i] == messages[..i];
  }

  lemma MoreLists(protocol: Protocol, l: nat)
    requires l < |protocol|
    ensures AllRows(protocol[..l + 1]) == AllRows(protocol[..l]) + Rows(protocol[l])
  {
    assert protocol[..l + 1][..l] == protocol[..l];
  }

  /** emit_types: appends the entries of every message that has an interface. */
  method EmitTypes(messages: seq<Message>, allNull: seq<bool>, nullRun: nat, next: nat, table: seq<Interface>)
    returns (index: seq<nat>, next': nat, table': seq<Interface>)
    requires |allNull| == |messages| && |table| == nullRun + next
    requires forall j :: 0 <= j < nullRun ==> table[j] == NoInterface
    requires forall i :: 0 <= i < |messages| ==> allNull[i] == AllNull(messages[i])
    requires forall i :: 0 <= i < |messages| && allNull[i] ==> |messages[i].args| <= nullRun
    ensures |table'| == nullRun + next' && table <= table' && |index| == |messages|
    ensures forall i :: 0 <= i < |messages| ==> TableRight(table', index[i], messages[i])
    ensures forall i :: 0 <= i < |messages| && allNull[i] ==> index[i] == 0
    ensures table' == table + Rows(messages)
  {
    hide AllNull, Rows, EntriesOf, TableRight;
    index, next', table' := [], next, table;
    var i := 0;
    NoRows(messages);
    while i < |messages|
      invariant i <= |messages| && table' == table + Rows(messages[..i])
      invariant |index| == i && |table'| == nullRun + next'
      invariant forall k :: 0 <= k < i ==> TableRight(table', index[k], messages[k])
      invariant forall k :: 0 <= k < i && allNull[k] ==> index[k] == 0
    {
      var m := messages[i];
      ghost var before := table';
      MoreRows(messages, i);
      if allNull[i] {
        index := index + [0];
        NullRunRight(table', nullRun, m);
      } else {
        index := index + [nullRun + next'];
        next' := next' + |m.args|;
        table' := EmitEntries(m, table');
        OwnRight(before, m);
        LengthOfEntries(m);
      }
      forall k | 0 <= k < i
        ensures TableRight(table', index[k], messages[k])
      {
        StillRight(before, table', index[k], messages[k]);
      }
      i := i + 1;
    }
    assert messages[..i] == messages;
  }

  /** The entries of one message. */
  method EmitEntries(m: Message, table: seq<Interface>) returns (table': seq<Interface>)
    ensures table' == table + EntriesOf(m)
  {
    table' := table;
    var j := 0;
    while j < |m.args|
      invariant j <= |m.args| && table' == table + EntriesOf(m)[..j]
    {
      var a := m.args[j];
      table' := table' + [if a.ty == NewId || a.ty == Object then a.iface else NoInterface];
      j := j + 1;
    }
    assert EntriesOf(m)[..j] == EntriesOf(m);
  }

  lemma NoRows(messages: seq<Message>)
    ensures Rows(messages[..0]) == []
  {
  }

  lemma LengthOfEntries(m: Message)
    ensures |EntriesOf(m)| == |m.args|
  {
  }

  lemma NullRunRight(table: seq<Interface>, nullRun: nat, m: Message)
    requires nullRun <= |table| && AllNull(m) && |m.args| <= nullRun
    requires forall j :: 0 <= j < nullRun ==> table[j] == NoInterface
    ensures TableRight(table, 0, m)
  {
    assert forall j :: 0 <= j < |m.args| ==> m.args[j] in m.args;
  }

  lemma OwnRight(table: seq<Interface>, m: Message)
    ensures TableRight(table + EntriesOf(m), |table|, m)
  {
  }

  lemma StillRight(table: seq<Interface>, table': seq<Interface>, index: nat, m: Message)
    requires table <= table' && TableRight(table, index, m)
    ensures TableRight(table', index, m)
  {
  }

  /** A protocol, as the message lists that emit_code visits: the requests and then the
      events of each interface. */
  type Protocol = seq<seq<Message>>

  /** The table part of emit_code.  For every message of every interface, the table
      from its index on lists the interfaces of its arguments. */
  method EmitTable(protocol: Protocol) returns (run: nat, index: seq<seq<nat>>, table: seq<Interface>)
    ensures |index| == |protocol| && table == seq(run, _ => NoInterface) + AllRows(protocol)
    ensures run == 0 || HasNulls(protocol, run)
    ensures forall l, i :: 0 <= l < |protocol| && 0 <= i < |protocol[l]| ==>
              |index[l]| == |protocol[l]| && TableRight(table, index[l][i], protocol[l][i])
  {
    hide AllNull, Rows, AllRows, TableRight, HasNulls;
    var nulls;
    run, nulls := ForwardAll(protocol);
    table := seq(run, _ => NoInterface);
    index := [];
    var next: nat := 0;
    var l := 0;
    ghost var nothing := table;
    NoLists(protocol);
    while l < |protocol|
      invariant l <= |protocol| && |index| == l && |table| == run + next
      invariant table == nothing + AllRows(protocol[..l])
      invariant forall k :: 0 <= k < l ==> ListRight(table, index[k], protocol[k])
    {
      ghost var before := table;
      var ids;
      assert Marked(protocol[l], nulls[l], run);
      ids, next, table := EmitTypes(protocol[l], nulls[l], run, next, table);
      MoreLists(protocol, l);
      forall k | 0 <= k < l
        ensures ListRight(table, index[k], protocol[k])
      {
        ListStillRight(before, table, index[k], protocol[k]);
      }
      index := index + [ids];
      l := l + 1;
    }
    assert protocol[..l] == protocol;
  }

  /** The first loop over all lists: the marks, and how long the NULL run must be. */
  method ForwardAll(protocol: Protocol) returns (run: nat, nulls: seq<seq<bool>>)
    ensures |nulls| == |protocol| && forall k :: 0 <= k < |protocol| ==> Marked(protocol[k], nulls[k], run)
    ensures run == 0 || HasNulls(protocol, run)
  {
    hide AllNull;
    run, nulls := 0, [];
    var l := 0;
    while l < |protocol|
      invariant l <= |protocol| && |nulls| == l
      invariant forall k :: 0 <= k < l ==> Marked(protocol[k], nulls[k], run)
      invariant run == 0 || HasNulls(protocol, run)
    {
      ghost var run0 := run;
      var marks;
      marks, run := ForwardDeclarations(protocol[l], run);
      if run != run0 {
        var i :| 0 <= i < |protocol[l]| && marks[i] && run == |protocol[l][i].args|;
        assert NullsOf(protocol[l][i], run);
      }
      nulls := nulls + [marks];
      assert forall k :: 0 <= k < l ==> Marked(protocol[k], nulls[k], run0);
      l := l + 1;
    }
  }

  /** Some message without interfaces has n arguments. */
  ghost predicate HasNulls(protocol: Protocol, n: nat) {
    exists l, i :: 0 <= l < |protocol| && 0 <= i < |protocol[l]| && NullsOf(protocol[l][i], n)
  }

  lemma NoLists(protocol: Protocol)
    ensures AllRows(protocol[..0]) == []
  {
  }

  lemma ListStillRight(table: seq<Interface>, table': seq<Interface>, index: seq<nat>, messages: seq<Message>)
    requires table <= table' && ListRight(table, index, messages)
    ensures ListRight(table', index, messages)
  {
    forall i | 0 <= i < |messages|
      ensures TableRight(table', index[i], messages[i])
    {
      StillRight(table, table', index[i], messages[i]);
    }
  }

  /** A message without interfaces and with n arguments. */
  predicate NullsOf(m: Message, n: nat) { AllNull(m) && |m.args| == n }

  ghost predicate Marked(messages: seq<Message>, allNull: seq<bool>, run: nat) {
    && |allNull| == |messages|
    && (forall i :: 0 <= i < |messages| ==> allNull[i] == AllNull(messages[i]))
    && (forall i :: 0 <= i < |messages| && allNull[i] ==> |messages[i].args| <= run)
  }

  ghost predicate ListRight(table: seq<Interface>, index: seq<nat>, messages: seq<Message>) {
    && |index| == |messages|
    && (forall i :: 0 <= i < |messages| ==> TableRight(table, index[i], messages[i]))
  }

  // ---------- what wl_closure_lookup_objects finds

  function Untyped(args: seq<Arg>): nat {
    if args == [] then 0 else (if UntypedNewId(args[0]) then 1 else 0) + Untyped(args[1..])
  }

  lemma RuntimeLength(a: Arg)
    ensures |Runtime(a)| == if UntypedNewId(a) then 3 else 1
  {
  }

  /** The runtime position of argument j: two further on for every untyped new id
      before it. */
  lemma {:induction false} RuntimePosition(args: seq<Arg>, j: nat)
    requires j < |args|
    ensures var i := j + 2 * Untyped(args[..j]);
            i + |Runtime(args[j])| <= |RuntimeArgs(args)| && RuntimeArgs(args)[i] == Runtime(args[j])[0]
    decreases j
  {
    hide Runtime, UntypedNewId;
    RuntimeLength(args[0]);
    if j == 0 {
      assert args[..0] == [];
    } else {
      RuntimePosition(args[1..], j - 1);
      assert args[1..][..j - 1] == args[..j][1..];
      assert args[..j][0] == args[0];
    }
  }

  /** The runtime checks an object argument against types[i] at its runtime position i.
      That is the entry of its own declaration exactly when no untyped new id comes
      before it in the message. */
  lemma LookupPosition(m: Message, j: nat)
    requires j < |m.args|
    ensures j + 2 * Untyped(m.args[..j]) == j <==> forall k :: 0 <= k < j ==> !UntypedNewId(m.args[k])
  {
    UntypedCounts(m.args[..j]);
    forall k | 0 <= k < j
      ensures m.args[..j][k] == m.args[k]
    {
    }
  }

  lemma {:induction false} UntypedCounts(args: seq<Arg>)
    ensures Untyped(args) == 0 <==> forall k :: 0 <= k < |args| ==> !UntypedNewId(args[k])
  {
    if args != [] {
      UntypedCounts(args[1..]);
      assert forall k :: 1 <= k < |args| ==> args[k] == args[1..][k - 1];
    }
  }

  lemma LookupFindsInterface(table: seq<Interface>, index: nat, m: Message, j: nat)
    requires TableRight(table, index, m) && j < |m.args| && m.args[j].ty == Object
    requires forall k :: 0 <= k < j ==> !UntypedNewId(m.args[k])
    ensures j < |RuntimeArgs(m.args)| && RuntimeArgs(m.args)[j].code == 'o'
    ensures table[index + j] == m.args[j].iface
  {
    LookupPosition(m, j);
    RuntimePosition(m.args, j);
  }

  /** Behind an untyped new id the runtime looks past the table: of a protocol with this
      one message the table has two entries, and the object is checked against the fourth. */
  lemma LookupMissesInterface()
    ensures var m := Message([Arg(NewId, false, NoInterface), Arg(Object, false, Named("wl_surface"))], 1);
            var table := [NoInterface, Named("wl_surface")];
            && !AllNull(m) && TableRight(table, 0, m) && |table| == |m.args|
            && RuntimeArgs(m.args)[3].code == 'o' && 0 + 3 >= |table|
  {
    var a, b := Arg(NewId, false, NoInterface), Arg(Object, false, Named("wl_surface"));
    assert [a, b][1..] == [b] && [b][1..] == [];
    assert RuntimeArgs([b]) == Runtime(b) + RuntimeArgs([]);
    assert RuntimeArgs([a, b]) == Runtime(a) + RuntimeArgs([b]);
    assert b in [a, b];
  }
}
