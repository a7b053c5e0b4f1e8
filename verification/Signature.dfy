/** Message signatures as the runtime parses them
    (foreign/wayland/src/connection.c). */
module Signature {

  datatype ArgDetails = ArgDetails(code: char, nullable: bool)

  const NUL: char := '\0'

  /** The most arguments that a closure can hold. */
  const MAX_ARGS: nat := 20

  predicate IsCode(c: char) { c in {'i', 'u', 'f', 's', 'o', 'n', 'a', 'h'} }

  /** The arguments a signature describes, when a `?` has or has not been seen. */
  ghost function ParseFrom(sig: string, nullable: bool): seq<ArgDetails> {
    if sig == [] then []
    else if IsCode(sig[0]) then [ArgDetails(sig[0], nullable)] + ParseFrom(sig[1..], false)
    else ParseFrom(sig[1..], nullable || sig[0] == '?')
  }

  ghost function Parse(sig: string): seq<ArgDetails> { ParseFrom(sig, false) }

  lemma {:induction false} ParsedCodes(sig: string, nullable: bool)
    ensures forall d :: d in ParseFrom(sig, nullable) ==> IsCode(d.code)
  {
    if sig != [] {
      ParsedCodes(sig[1..], if IsCode(sig[0]) then false else nullable || sig[0] == '?');
    }
  }

  /** get_next_argument: repeated calls yield the parsed arguments one by one, then the
      NUL code. */
  method GetNextArgument(signature: string) returns (details: ArgDetails, rest: string)
    ensures details.code == NUL <==> Parse(signature) == []
    ensures details.code == NUL ==> rest == []
    ensures details.code != NUL ==> Parse(signature) == [details] + Parse(rest) && |rest| < |signature|
  {
    var nullable := false;
    rest := signature;
    while rest != []
      invariant |rest| <= |signature|
      invariant Parse(signature) == ParseFrom(rest, nullable)
      decreases |rest|
    {
      if IsCode(rest[0]) {
        return ArgDetails(rest[0], nullable), rest[1..];
      }
      if rest[0] == '?' {
        nullable := true;
      }
      rest := rest[1..];
    }
    details := ArgDetails(NUL, nullable);
  }

  lemma {:induction false} CodesParsed(sig: string, nullable: bool)
    ensures |ParseFrom(sig, nullable)| == |ParseFrom(sig, false)|
    decreases |sig|
  {
    if sig != [] && !IsCode(sig[0]) {
      CodesParsed(sig[1..], nullable || sig[0] == '?');
      CodesParsed(sig[1..], sig[0] == '?');
    }
  }

  /** arg_count_for_signature counts exactly the arguments get_next_argument yields. */
  method ArgCount(signature: string) returns (count: nat)
    ensures count == |Parse(signature)|
  {
    count := 0;
    var rest := signature;
    while rest != []
      invariant count + |Parse(rest)| == |Parse(signature)|
      decreases |rest|
    {
      if IsCode(rest[0]) {
        count := count + 1;
      } else {
        CodesParsed(rest[1..], rest[0] == '?');
      }
      rest := rest[1..];
    }
  }

  /** Characters that are no argument code and no `?` do not matter. */
  lemma {:induction false} SkipPrefix(prefix: string, sig: string)
    requires forall c :: c in prefix ==> !IsCode(c) && c != '?'
    ensures Parse(prefix + sig) == Parse(sig)
    decreases |prefix|
  {
    if prefix == [] {
      assert prefix + sig == sig;
    } else {
      assert (prefix + sig)[1..] == prefix[1..] + sig;
      SkipPrefix(prefix[1..], sig);
    }
  }

  // ---------- the version prefix

  predicate IsDigit(c: char) { '0' <= c <= '9' }

  predicate IsSpace(c: char) { c == ' ' || '\t' <= c <= '\r' }

  function DigitValue(c: char): nat
    requires IsDigit(c)
  {
    c as nat - '0' as nat
  }

  /** The number that the leading digits of s spell, after n was read. */
  function ReadDigits(s: string, n: nat): nat {
    if s == [] || !IsDigit(s[0]) then n else ReadDigits(s[1..], 10 * n + DigitValue(s[0]))
  }

  /** atoi, on values that fit an int. */
  function Atoi(s: string): int {
    if s == [] then 0
    else if IsSpace(s[0]) then Atoi(s[1..])
    else if s[0] == '-' then 0 - ReadDigits(s[1..], 0)
    else if s[0] == '+' then ReadDigits(s[1..], 0)
    else ReadDigits(s, 0)
  }

  /** wl_message_get_since. */
  function GetSince(signature: string): int {
    var since := Atoi(signature);
    if since == 0 then 1 else since
  }
}
