/** JSON values and a compact text form for them.

    The session serialises its manifest with json_dumps and reads it back
    with json_loads.  This module stands for that pair: `Encode` writes a value
    as compact JSON text (no whitespace) and `Decode` parses such text.  The
    property the session relies on is `DecodeEncode`: a document (an object
    or an array) comes back unchanged exactly when no string or key in it
    holds a NUL byte (`NulFree`), and fails to load otherwise.  Its text
    never holds a NUL byte, so the C-string handling around it loses
    nothing.  `Utf8` is the check json_string applies to the C strings the
    session turns into JSON strings. */
module Json {
  import opened Text

  datatype Json =
    | Null
    | Bool(b: bool)
    | Int(i: int)
    | Str(s: Bytes)
    | Arr(elems: seq<Json>)
    | Obj(members: seq<Member>)

  /** One `"key": value` pair of an object, in document order. */
  datatype Member = Member(key: Bytes, value: Json)

  /** A value json_loads can read back: no string and no key holds a NUL
      byte.  json_loads is called without JSON_ALLOW_NUL, so it refuses a
      \u0000 escape in a string and always refuses one in a key. */
  predicate NulFree(v: Json)
    decreases v, 1
  {
    match v
    case Str(s) => Nul !in s
    case Arr(vs) => forall i :: 0 <= i < |vs| ==> NulFree(vs[i])
    case Obj(ms) => forall i :: 0 <= i < |ms| ==> MemberNulFree(ms[i])
    case _ => true
  }

  predicate MemberNulFree(m: Member)
    decreases m, 0
  {
    Nul !in m.key && NulFree(m.value)
  }

  // ---------------------------------------------------------------------
  // UTF-8, as json_string checks it
  // ---------------------------------------------------------------------

  /** The length of the UTF-8 sequence that byte `b` starts: 1 for ASCII,
      2 to 4 for a lead byte, and 0 for a byte no sequence starts with (a
      continuation byte, the overlong leads 0xC0 and 0xC1, anything above
      0xF4). */
  function SequenceLength(b: Byte): (n: nat)
    ensures n <= 4
    ensures n == 1 <==> b as int < 0x80
  {
    var x := b as int;
    if x < 0x80 then 1
    else if x < 0xC2 then 0
    else if x < 0xE0 then 2
    else if x < 0xF0 then 3
    else if x < 0xF5 then 4
    else 0
  }

  predicate IsContinuation(b: Byte) { 0x80 <= b as int < 0xC0 }

  /** The value `v` extended by the six payload bits of each byte of `cs`. */
  function Accumulate(v: int, cs: Bytes): int
    decreases |cs|
  {
    if cs == [] then v else Accumulate(v * 64 + (cs[0] as int) % 64, cs[1..])
  }

  /** The code point a multi-byte sequence encodes: the lead byte's payload
      bits followed by six bits per continuation byte. */
  function CodePoint(s: Bytes): int
    requires 2 <= |s| <= 4
  {
    var lead := (s[0] as int) % (if |s| == 2 then 0x20 else if |s| == 3 then 0x10 else 0x08);
    Accumulate(lead, s[1..])
  }

  /** A well-formed multi-byte sequence: continuation bytes after the lead,
      and a code point that is at most 0x10FFFF, not a surrogate and not
      encodable in fewer bytes. */
  predicate ValidSequence(s: Bytes)
    requires 2 <= |s| <= 4
  {
    (forall k :: 1 <= k < |s| ==> IsContinuation(s[k])) &&
    var v := CodePoint(s);
    v <= 0x10FFFF && !(0xD800 <= v <= 0xDFFF) &&
    !(|s| == 2 && v < 0x80) && !(|s| == 3 && v < 0x800) && !(|s| == 4 && v < 0x10000)
  }

  /** jansson's UTF-8 check: `s` is a run of well-formed sequences.
      json_string returns NULL for any other string. */
  predicate Utf8(s: Bytes)
    decreases |s|
  {
    s == [] ||
    var n := SequenceLength(s[0]);
    n != 0 && n <= |s| && (n == 1 || ValidSequence(s[..n])) && Utf8(s[n..])
  }

  /** Every ASCII string is valid UTF-8. */
  lemma {:induction false} AsciiUtf8(s: Bytes)
    requires forall k :: 0 <= k < |s| ==> s[k] as int < 0x80
    ensures Utf8(s)
  {
    if s != [] {
      assert SequenceLength(s[0]) == 1;
      AsciiUtf8(s[1..]);
    }
  }

  /** A byte string ending in a lead byte with no continuation is not valid
      UTF-8: a Latin-1 "\xe9" alone is refused, its two-byte UTF-8 form
      0xC3 0xA9 is accepted. */
  lemma Latin1Refused()
    ensures !Utf8([0xE9 as char]) && Utf8([0xC3 as char, 0xA9 as char])
  {
    var two: Bytes := [0xC3 as char, 0xA9 as char];
    assert two[1..][1..] == [];
    assert Accumulate(3, two[1..]) == Accumulate(0xE9, []);
    assert CodePoint(two) == 0xE9;
    assert two[..2] == two && two[2..] == [];
  }

  // ---------------------------------------------------------------------
  // Text form
  // ---------------------------------------------------------------------

  predicate IsDigit(c: Byte) { '0' <= c <= '9' }

  function DigitChar(d: nat): (c: Byte)
    requires d < 10
    ensures IsDigit(c)
  {
    ('0' as int + d) as char
  }

  function DigitValue(c: Byte): (d: nat)
    requires IsDigit(c)
    ensures d < 10 && DigitChar(d) == c
  {
    c as int - '0' as int
  }

  /** Decimal digits of `n`, most significant first, without leading zeros. */
  function Digits(n: nat): (r: Bytes)
    ensures |r| > 0
    ensures forall k :: 0 <= k < |r| ==> IsDigit(r[k])
  {
    if n < 10 then [DigitChar(n)] else Digits(n / 10) + [DigitChar(n % 10)]
  }

  /** The number a run of decimal digits spells. */
  function DigitsValue(ds: Bytes): nat
    requires forall k :: 0 <= k < |ds| ==> IsDigit(ds[k])
  {
    if ds == [] then 0 else 10 * DigitsValue(ds[..|ds| - 1]) + DigitValue(ds[|ds| - 1])
  }

  /** The bytes of a string body: `"` and `\` are escaped, NUL becomes \u0000. */
  function Escape(s: Bytes): (r: Bytes)
    ensures Nul !in r
  {
    if s == [] then [] else EscapeByte(s[0]) + Escape(s[1..])
  }

  /** The text of one byte of a string body. */
  function EscapeByte(c: Byte): (r: Bytes)
    ensures Nul !in r && |r| > 0
  {
    if c == '"' then "\\\"" else if c == '\\' then "\\\\" else if c == Nul then "\\u0000" else [c]
  }

  function Quote(s: Bytes): (r: Bytes)
    ensures Nul !in r
  {
    "\"" + Escape(s) + "\""
  }

  /** Compact JSON text of `v`.  It never holds a NUL byte, and its first
      byte is never a closing bracket or brace. */
  function Encode(v: Json): (r: Bytes)
    ensures Nul !in r
    ensures |r| > 0 && r[0] != ']' && r[0] != '}'
    decreases v, 1
  {
    match v
    case Null => "null"
    case Bool(b) => if b then "true" else "false"
    case Int(i) => if i < 0 then "-" + Digits(-i) else Digits(i)
    case Str(s) => Quote(s)
    case Arr(vs) => "[" + EncodeElems(vs) + "]"
    case Obj(ms) => "{" + EncodeMembers(ms) + "}"
  }

  /** Array elements separated by commas. */
  function EncodeElems(vs: seq<Json>): (r: Bytes)
    ensures Nul !in r
    decreases vs, 0
  {
    if vs == [] then []
    else if |vs| == 1 then Encode(vs[0])
    else Encode(vs[0]) + "," + EncodeElems(vs[1..])
  }

  function EncodeMember(m: Member): (r: Bytes)
    ensures Nul !in r
    decreases m, 0
  {
    Quote(m.key) + ":" + Encode(m.value)
  }

  /** Object members separated by commas. */
  function EncodeMembers(ms: seq<Member>): (r: Bytes)
    ensures Nul !in r
    decreases ms, 0
  {
    if ms == [] then []
    else if |ms| == 1 then EncodeMember(ms[0])
    else EncodeMember(ms[0]) + "," + EncodeMembers(ms[1..])
  }

  // ---------------------------------------------------------------------
  // Parsing
  // ---------------------------------------------------------------------

  /** Length of the run of decimal digits at the front of `s`. */
  function DigitRun(s: Bytes): (n: nat)
    ensures n <= |s|
    ensures forall k :: 0 <= k < n ==> IsDigit(s[k])
    ensures n == |s| || !IsDigit(s[n])
  {
    if s == [] || !IsDigit(s[0]) then 0 else 1 + DigitRun(s[1..])
  }

  /** A natural number written in decimal at the front of `s`, and what follows it. */
  function ParseNat(s: Bytes): (r: Option<(nat, Bytes)>)
    ensures r.Some? ==> |r.value.1| < |s|
  {
    var n := DigitRun(s);
    if n == 0 then None else Some((DigitsValue(s[..n]), s[n..]))
  }

  /** The body of a string, read up to and including its closing quote.
      Without JSON_ALLOW_NUL json_loads refuses the escape \u0000, so no
      escape yields a NUL byte here. */
  function ParseChars(s: Bytes): (r: Option<(Bytes, Bytes)>)
    ensures r.Some? ==> |r.value.1| < |s| && Nul !in r.value.0
  {
    if s == [] then None
    else if s[0] == '"' then Some(([], s[1..]))
    else
      var (c, n) :=
        if s[0] == Nul then (Nul, 0)
        else if s[0] != '\\' then (s[0], 1)
        else if |s| >= 2 && (s[1] == '"' || s[1] == '\\') then (s[1], 2)
        else (Nul, 0);
      if n == 0 then None
      else
        match ParseChars(s[n..])
        case None => None
        case Some((t, rest)) => Some(([c] + t, rest))
  }

  /** A fixed keyword at the front of `s`. */
  function ParseWord(s: Bytes, word: Bytes, v: Json): (r: Option<(Json, Bytes)>)
    requires |word| > 0
    ensures r.Some? ==> |r.value.1| < |s|
  {
    if |s| >= |word| && s[..|word|] == word then Some((v, s[|word|..])) else None
  }

  /** One value at the front of `s`, and what follows it. */
  function ParseValue(s: Bytes): (r: Option<(Json, Bytes)>)
    ensures r.Some? ==> |r.value.1| < |s|
    decreases |s|, 0
  {
    if s == [] then None
    else if s[0] == 'n' then ParseWord(s, "null", Null)
    else if s[0] == 't' then ParseWord(s, "true", Bool(true))
    else if s[0] == 'f' then ParseWord(s, "false", Bool(false))
    else if s[0] == '"' then
      match ParseChars(s[1..])
      case None => None
      case Some((t, rest)) => Some((Str(t), rest))
    else if s[0] == '-' then
      match ParseNat(s[1..])
      case None => None
      case Some((n, rest)) => Some((Int(-(n as int)), rest))
    else if IsDigit(s[0]) then
      match ParseNat(s)
      case None => None
      case Some((n, rest)) => Some((Int(n), rest))
    else if s[0] == '[' then
      if |s| >= 2 && s[1] == ']' then Some((Arr([]), s[2..]))
      else
        match ParseElems(s[1..])
        case None => None
        case Some((vs, rest)) => Some((Arr(vs), rest))
    else if s[0] == '{' then
      if |s| >= 2 && s[1] == '}' then Some((Obj([]), s[2..]))
      else
        match ParseMembers(s[1..])
        case None => None
        case Some((ms, rest)) => Some((Obj(ms), rest))
    else None
  }

  /** One or more array elements, read up to and including the closing `]`. */
  function ParseElems(s: Bytes): (r: Option<(seq<Json>, Bytes)>)
    ensures r.Some? ==> |r.value.1| < |s|
    decreases |s|, 1
  {
    match ParseValue(s)
    case None => None
    case Some((v, rest)) =>
      if rest == [] then None
      else if rest[0] == ']' then Some(([v], rest[1..]))
      else if rest[0] == ',' then
        match ParseElems(rest[1..])
        case None => None
        case Some((vs, rest')) => Some(([v] + vs, rest'))
      else None
  }

  /** One or more object members, read up to and including the closing `}`. */
  function ParseMembers(s: Bytes): (r: Option<(seq<Member>, Bytes)>)
    ensures r.Some? ==> |r.value.1| < |s|
    decreases |s|, 1
  {
    if s == [] || s[0] != '"' then None
    else
      match ParseChars(s[1..])
      case None => None
      case Some((k, r1)) =>
        if r1 == [] || r1[0] != ':' then None
        else
          match ParseValue(r1[1..])
          case None => None
          case Some((v, r2)) =>
            if r2 == [] then None
            else if r2[0] == '}' then Some(([Member(k, v)], r2[1..]))
            else if r2[0] == ',' then
              match ParseMembers(r2[1..])
              case None => None
              case Some((ms, r3)) => Some(([Member(k, v)] + ms, r3))
            else None
  }

  /** json_loads without flags: the whole text is one array or object. */
  function Decode(text: Bytes): (r: Option<Json>)
    ensures r.Some? ==> r.value.Arr? || r.value.Obj?
  {
    match ParseValue(text)
    case Some((v, rest)) => if rest == [] && (v.Arr? || v.Obj?) then Some(v) else None
    case None => None
  }

  // ---------------------------------------------------------------------
  // Round trip
  // ---------------------------------------------------------------------

  /** The digits of `n` spell `n`. */
  lemma {:induction false} DigitsValueOfDigits(n: nat)
    ensures DigitsValue(Digits(n)) == n
  {
    if n >= 10 {
      var ds := Digits(n);
      assert ds[..|ds| - 1] == Digits(n / 10);
      DigitsValueOfDigits(n / 10);
    }
  }

  /** A digit run stops exactly where the digits stop. */
  lemma {:induction false} DigitRunOfDigits(ds: Bytes, rest: Bytes)
    requires forall k :: 0 <= k < |ds| ==> IsDigit(ds[k])
    requires rest == [] || !IsDigit(rest[0])
    ensures DigitRun(ds + rest) == |ds|
  {
    if ds != [] {
      assert (ds + rest)[1..] == ds[1..] + rest;
      DigitRunOfDigits(ds[1..], rest);
    }
  }

  lemma ParseNatDigits(n: nat, rest: Bytes)
    requires rest == [] || !IsDigit(rest[0])
    ensures ParseNat(Digits(n) + rest) == Some((n, rest))
  {
    var ds := Digits(n);
    DigitRunOfDigits(ds, rest);
    assert (ds + rest)[..|ds|] == ds;
    assert (ds + rest)[|ds|..] == rest;
    DigitsValueOfDigits(n);
  }

  /** A string body followed by its closing quote reads back as itself. */
  lemma {:induction false} ParseCharsEscape(s: Bytes, rest: Bytes)
    requires Nul !in s
    ensures ParseChars(Escape(s) + "\"" + rest) == Some((s, rest))
  {
    if s == [] {
      assert Escape(s) + "\"" + rest == "\"" + rest;
    } else {
      var c := s[0];
      var tail := Escape(s[1..]) + "\"" + rest;
      assert Escape(s) == EscapeByte(c) + Escape(s[1..]);
      Regroup4(EscapeByte(c), Escape(s[1..]), "\"", rest);
      assert c in s;
      assert Nul !in s[1..] by {
        forall k | 0 <= k < |s[1..]| ensures s[1..][k] != Nul { assert s[1..][k] == s[k + 1]; }
      }
      ParseCharsEscape(s[1..], rest);
      ParseCharsStep(c, tail, s[1..], rest);
      assert [c] + s[1..] == s;
    }
  }

  /** One escaped byte in front of text that reads back as `t`. */
  lemma ParseCharsStep(c: Byte, text: Bytes, t: Bytes, rest: Bytes)
    requires c != Nul && ParseChars(text) == Some((t, rest))
    ensures ParseChars(EscapeByte(c) + text) == Some(([c] + t, rest))
  {
    var e := EscapeByte(c);
    assert (e + text)[..|e|] == e && (e + text)[|e|..] == text;
  }

  lemma Regroup4(a: Bytes, b: Bytes, c: Bytes, d: Bytes)
    ensures a + b + c + d == a + (b + c + d)
  {
  }

  lemma {:induction false} ParseEncodeWord(v: Json, rest: Bytes)
    requires v.Null? || v.Bool?
    ensures ParseValue(Encode(v) + rest) == Some((v, rest))
  {
    var input := Encode(v) + rest;
    var w := Encode(v);
    assert input[..|w|] == w && input[|w|..] == rest;
  }

  lemma ParseEncodeInt(i: int, rest: Bytes)
    requires rest == [] || !IsDigit(rest[0])
    ensures ParseValue(Encode(Int(i)) + rest) == Some((Int(i), rest))
  {
    if i < 0 {
      ParseEncodeNegative(i, rest);
    } else {
      ParseEncodeNatural(i, rest);
    }
  }

  lemma ParseEncodeNegative(i: int, rest: Bytes)
    requires i < 0 && (rest == [] || !IsDigit(rest[0]))
    ensures ParseValue(Encode(Int(i)) + rest) == Some((Int(i), rest))
  {
    var n: nat := -i;
    var ds := Digits(n);
    assert Encode(Int(i)) == "-" + ds;
    ParseNatDigits(n, rest);
    ParseMinus(ds, rest, n);
    assert -(n as int) == i;
  }

  lemma ParseMinus(ds: Bytes, rest: Bytes, n: nat)
    requires ParseNat(ds + rest) == Some((n, rest))
    ensures ParseValue("-" + ds + rest) == Some((Int(-(n as int)), rest))
  {
    assert ("-" + ds + rest)[1..] == ds + rest;
  }

  lemma ParseEncodeNatural(n: nat, rest: Bytes)
    requires rest == [] || !IsDigit(rest[0])
    ensures ParseValue(Encode(Int(n)) + rest) == Some((Int(n), rest))
  {
    var input := Digits(n) + rest;
    assert Encode(Int(n)) == Digits(n);
    assert IsDigit(input[0]);
    ParseNatDigits(n, rest);
  }

  lemma {:induction false} ParseEncodeStr(t: Bytes, rest: Bytes)
    requires Nul !in t
    ensures ParseValue(Encode(Str(t)) + rest) == Some((Str(t), rest))
  {
    var input := Encode(Str(t)) + rest;
    assert input == "\"" + (Escape(t) + "\"" + rest);
    assert input[1..] == Escape(t) + "\"" + rest;
    ParseCharsEscape(t, rest);
  }

  /** Text of a scalar (null, boolean, number or string) reads back as itself. */
  lemma {:induction false} ParseEncodeScalar(v: Json, rest: Bytes)
    requires !v.Arr? && !v.Obj? && NulFree(v)
    requires rest == [] || !IsDigit(rest[0])
    ensures ParseValue(Encode(v) + rest) == Some((v, rest))
  {
    match v
    case Null => ParseEncodeWord(v, rest);
    case Bool(_) => ParseEncodeWord(v, rest);
    case Int(i) => ParseEncodeInt(i, rest);
    case Str(t) => ParseEncodeStr(t, rest);
  }

  /** The text of any value, followed by anything that does not continue a
      number, reads back as that value and leaves the rest untouched. */
  lemma {:induction false} ParseEncode(v: Json, rest: Bytes)
    requires NulFree(v)
    requires rest == [] || !IsDigit(rest[0])
    ensures ParseValue(Encode(v) + rest) == Some((v, rest))
    decreases v, 1
  {
    if v.Arr? {
      ParseEncodeArr(v.elems, rest);
    } else if v.Obj? {
      ParseEncodeObj(v.members, rest);
    } else {
      ParseEncodeScalar(v, rest);
    }
  }

  lemma {:induction false} ParseEncodeArr(vs: seq<Json>, rest: Bytes)
    requires NulFree(Arr(vs))
    ensures ParseValue(Encode(Arr(vs)) + rest) == Some((Arr(vs), rest))
    decreases vs, 1
  {
    if vs == [] {
      var input := Encode(Arr(vs)) + rest;
      assert input == "[]" + rest;
      assert input[2..] == rest;
    } else {
      var body := EncodeElems(vs);
      assert Encode(Arr(vs)) == "[" + body + "]";
      Regroup4("[", body, "]", rest);
      ParseElemsEncode(vs, rest);
      assert body[0] == Encode(vs[0])[0];
      ParseBracketOpen(body + "]" + rest, vs, rest);
    }
  }

  /** An opening bracket in front of elements that read back as `vs`. */
  lemma ParseBracketOpen(t: Bytes, vs: seq<Json>, rest: Bytes)
    requires t != [] && t[0] != ']' && ParseElems(t) == Some((vs, rest))
    ensures ParseValue("[" + t) == Some((Arr(vs), rest))
  {
    var s := "[" + t;
    assert s[1..] == t;
    ArrayOpenStep(s);
  }

  lemma {:induction false} ParseEncodeObj(ms: seq<Member>, rest: Bytes)
    requires NulFree(Obj(ms))
    ensures ParseValue(Encode(Obj(ms)) + rest) == Some((Obj(ms), rest))
    decreases ms, 2
  {
    if ms == [] {
      var input := Encode(Obj(ms)) + rest;
      assert input == "{}" + rest;
      assert input[2..] == rest;
    } else {
      var body := EncodeMembers(ms);
      assert Encode(Obj(ms)) == "{" + body + "}";
      Regroup4("{", body, "}", rest);
      ParseMembersEncode(ms, rest);
      assert body[0] == EncodeMember(ms[0])[0] == '"';
      ParseBraceOpen(body + "}" + rest, ms, rest);
    }
  }

  /** An opening brace in front of members that read back as `ms`. */
  lemma ParseBraceOpen(t: Bytes, ms: seq<Member>, rest: Bytes)
    requires t != [] && t[0] != '}' && ParseMembers(t) == Some((ms, rest))
    ensures ParseValue("{" + t) == Some((Obj(ms), rest))
  {
    var s := "{" + t;
    assert s[1..] == t;
    ObjectOpenStep(s);
  }

  lemma {:induction false} ParseElemsEncode(vs: seq<Json>, rest: Bytes)
    requires |vs| > 0 && NulFree(Arr(vs))
    ensures ParseElems(EncodeElems(vs) + "]" + rest) == Some((vs, rest))
    decreases vs, 0
  {
    var input := EncodeElems(vs) + "]" + rest;
    if |vs| == 1 {
      assert input == Encode(vs[0]) + ("]" + rest);
      ParseEncode(vs[0], "]" + rest);
      assert ("]" + rest)[1..] == rest;
      assert [vs[0]] == vs;
    } else {
      var tail := EncodeElems(vs[1..]) + "]" + rest;
      assert input == Encode(vs[0]) + ("," + tail);
      ParseEncode(vs[0], "," + tail);
      assert ("," + tail)[1..] == tail;
      ParseElemsEncode(vs[1..], rest);
      assert [vs[0]] + vs[1..] == vs;
    }
  }

  /** The key of a member and its value read back in turn. */
  lemma {:induction false} ParseMemberEncode(m: Member, after: Bytes)
    requires MemberNulFree(m)
    requires after == [] || !IsDigit(after[0])
    ensures var input := EncodeMember(m) + after;
      input[0] == '"' &&
      ParseChars(input[1..]) == Some((m.key, ":" + (Encode(m.value) + after))) &&
      ParseValue(Encode(m.value) + after) == Some((m.value, after))
    decreases m, 1
  {
    var value := ":" + (Encode(m.value) + after);
    var body := Escape(m.key) + "\"" + value;
    MemberText(m, after);
    assert ("\"" + body)[0] == '"' && ("\"" + body)[1..] == body;
    ParseCharsEscape(m.key, value);
    ParseEncode(m.value, after);
  }

  /** The text of a member followed by `after`, grouped the way it is read. */
  lemma MemberText(m: Member, after: Bytes)
    ensures EncodeMember(m) + after == "\"" + (Escape(m.key) + "\"" + (":" + (Encode(m.value) + after)))
  {
    var q, v := Escape(m.key), Encode(m.value);
    assert EncodeMember(m) == "\"" + q + "\"" + ":" + v;
    Regroup6("\"", q, "\"", ":", v, after);
  }

  lemma Regroup6(a: Bytes, b: Bytes, c: Bytes, d: Bytes, e: Bytes, f: Bytes)
    ensures a + b + c + d + e + f == a + (b + c + (d + (e + f)))
  {
  }

  lemma {:induction false} ParseMembersEncode(ms: seq<Member>, rest: Bytes)
    requires |ms| > 0 && NulFree(Obj(ms))
    ensures ParseMembers(EncodeMembers(ms) + "}" + rest) == Some((ms, rest))
    decreases ms, 1
  {
    if |ms| == 1 {
      ParseLastMemberEncode(ms, rest);
    } else {
      ParseMoreMembersEncode(ms, rest);
    }
  }

  lemma {:induction false} ParseLastMemberEncode(ms: seq<Member>, rest: Bytes)
    requires |ms| == 1 && NulFree(Obj(ms))
    ensures ParseMembers(EncodeMembers(ms) + "}" + rest) == Some((ms, rest))
    decreases ms, 0
  {
    MembersTextLast(ms, rest);
    ParseMembersLast(ms[0], rest);
    assert [ms[0]] == ms;
  }

  lemma {:induction false} ParseMoreMembersEncode(ms: seq<Member>, rest: Bytes)
    requires |ms| > 1 && NulFree(Obj(ms))
    ensures ParseMembers(EncodeMembers(ms) + "}" + rest) == Some((ms, rest))
    decreases ms, 0
  {
    var tail := EncodeMembers(ms[1..]) + "}" + rest;
    MembersTextCons(ms, rest);
    ParseMembersEncode(ms[1..], rest);
    ParseMembersCons(ms[0], tail, ms[1..], rest);
    assert [ms[0]] + ms[1..] == ms;
  }

  lemma MembersTextLast(ms: seq<Member>, rest: Bytes)
    requires |ms| == 1
    ensures EncodeMembers(ms) + "}" + rest == EncodeMember(ms[0]) + ("}" + rest)
    ensures ("}" + rest)[1..] == rest
  {
  }

  lemma MembersTextCons(ms: seq<Member>, rest: Bytes)
    requires |ms| > 1
    ensures EncodeMembers(ms) + "}" + rest == EncodeMember(ms[0]) + ("," + (EncodeMembers(ms[1..]) + "}" + rest))
  {
    var head, tail := EncodeMember(ms[0]), EncodeMembers(ms[1..]);
    assert EncodeMembers(ms) == head + "," + tail;
    Regroup(head, ",", tail, "}", rest);
  }

  lemma Regroup(a: Bytes, b: Bytes, c: Bytes, d: Bytes, e: Bytes)
    ensures a + b + c + d + e == a + (b + (c + d + e))
  {
  }

  /** One member read in front of the closing brace. */
  lemma {:induction false} ParseMembersLast(m: Member, rest: Bytes)
    requires MemberNulFree(m)
    ensures ParseMembers(EncodeMember(m) + ("}" + rest)) == Some(([m], rest))
    decreases m, 2
  {
    var after := "}" + rest;
    ParseMemberEncode(m, after);
    var t := Encode(m.value) + after;
    assert (":" + t)[1..] == t;
    assert after[1..] == rest;
  }

  /** One member read in front of a comma and the members after it. */
  lemma {:induction false} ParseMembersCons(m: Member, tail: Bytes, ms: seq<Member>, rest: Bytes)
    requires MemberNulFree(m) && ParseMembers(tail) == Some((ms, rest))
    ensures ParseMembers(EncodeMember(m) + ("," + tail)) == Some(([m] + ms, rest))
    decreases m, 2
  {
    var after := "," + tail;
    ParseMemberEncode(m, after);
    var t := Encode(m.value) + after;
    assert (":" + t)[1..] == t;
    assert after[1..] == tail;
  }

  // ---------------------------------------------------------------------
  // Text json_loads refuses
  // ---------------------------------------------------------------------

  /** A string body holding a NUL byte does not read back: its \u0000
      escape stops the parse. */
  lemma {:induction false} ParseCharsEscapeNul(s: Bytes, rest: Bytes)
    requires Nul in s
    ensures ParseChars(Escape(s) + "\"" + rest) == None
  {
    var c := s[0];
    var tail := Escape(s[1..]) + "\"" + rest;
    assert Escape(s) == EscapeByte(c) + Escape(s[1..]);
    Regroup4(EscapeByte(c), Escape(s[1..]), "\"", rest);
    if c == Nul {
      var input := EscapeByte(c) + tail;
      assert input[0] == '\\' && input[1] == 'u';
    } else {
      var k :| 0 <= k < |s| && s[k] == Nul;
      assert s[1..][k - 1] == Nul;
      ParseCharsEscapeNul(s[1..], rest);
      ParseCharsStepNone(c, tail);
    }
  }

  /** One escaped byte in front of text that does not read back. */
  lemma ParseCharsStepNone(c: Byte, text: Bytes)
    requires c != Nul && ParseChars(text) == None
    ensures ParseChars(EscapeByte(c) + text) == None
  {
    var e := EscapeByte(c);
    assert (e + text)[..|e|] == e && (e + text)[|e|..] == text;
  }

  /** The text of a value with a NUL in a string or a key does not read
      back, whatever follows it. */
  lemma {:induction false} ParseEncodeNul(v: Json, rest: Bytes)
    requires !NulFree(v)
    ensures ParseValue(Encode(v) + rest) == None
    decreases v, 1
  {
    if v.Str? {
      ParseEncodeStrNul(v.s, rest);
    } else if v.Arr? {
      ParseEncodeArrNul(v.elems, rest);
    } else {
      ParseEncodeObjNul(v.members, rest);
    }
  }

  lemma {:induction false} ParseEncodeStrNul(t: Bytes, rest: Bytes)
    requires Nul in t
    ensures ParseValue(Encode(Str(t)) + rest) == None
  {
    var input := Encode(Str(t)) + rest;
    assert input == "\"" + (Escape(t) + "\"" + rest);
    assert input[1..] == Escape(t) + "\"" + rest;
    ParseCharsEscapeNul(t, rest);
  }

  lemma {:induction false} ParseEncodeArrNul(vs: seq<Json>, rest: Bytes)
    requires !NulFree(Arr(vs))
    ensures ParseValue(Encode(Arr(vs)) + rest) == None
    decreases vs, 1
  {
    var body := EncodeElems(vs);
    assert Encode(Arr(vs)) == "[" + body + "]";
    Regroup4("[", body, "]", rest);
    ParseElemsNul(vs, rest);
    assert body[0] == Encode(vs[0])[0];
    ParseBracketOpenNone(body + "]" + rest);
  }

  lemma {:induction false} ParseEncodeObjNul(ms: seq<Member>, rest: Bytes)
    requires !NulFree(Obj(ms))
    ensures ParseValue(Encode(Obj(ms)) + rest) == None
    decreases ms, 2
  {
    var body := EncodeMembers(ms);
    assert Encode(Obj(ms)) == "{" + body + "}";
    Regroup4("{", body, "}", rest);
    ParseMembersNul(ms, rest);
    assert body[0] == EncodeMember(ms[0])[0] == '"';
    ParseBraceOpenNone(body + "}" + rest);
  }

  lemma ParseBracketOpenNone(t: Bytes)
    requires t != [] && t[0] != ']' && ParseElems(t) == None
    ensures ParseValue("[" + t) == None
  {
    var s := "[" + t;
    assert s[1..] == t;
    ArrayOpenStep(s);
  }

  /** How ParseValue reads text that opens a non-empty array. */
  lemma ArrayOpenStep(s: Bytes)
    requires |s| >= 2 && s[0] == '[' && s[1] != ']'
    ensures ParseValue(s) == match ParseElems(s[1..])
      case None => None case Some((vs, rest)) => Some((Arr(vs), rest))
  {
    assert !IsDigit(s[0]);
  }

  /** How ParseValue reads text that opens a non-empty object. */
  lemma ObjectOpenStep(s: Bytes)
    requires |s| >= 2 && s[0] == '{' && s[1] != '}'
    ensures ParseValue(s) == match ParseMembers(s[1..])
      case None => None case Some((ms, rest)) => Some((Obj(ms), rest))
  {
    assert !IsDigit(s[0]);
  }

  lemma ParseBraceOpenNone(t: Bytes)
    requires t != [] && t[0] != '}' && ParseMembers(t) == None
    ensures ParseValue("{" + t) == None
  {
    var s := "{" + t;
    assert s[1..] == t;
    ObjectOpenStep(s);
  }

  lemma {:induction false} ParseElemsNul(vs: seq<Json>, rest: Bytes)
    requires |vs| > 0 && !NulFree(Arr(vs))
    ensures ParseElems(EncodeElems(vs) + "]" + rest) == None
    decreases vs, 0
  {
    if |vs| == 1 {
      ElemsTextLast(vs, rest);
      ParseElemNul(vs[0], "]" + rest);
    } else {
      var tail := EncodeElems(vs[1..]) + "]" + rest;
      ElemsTextCons(vs, rest);
      if !NulFree(vs[0]) {
        ParseElemNul(vs[0], "," + tail);
      } else {
        var i :| 0 <= i < |vs| && !NulFree(vs[i]);
        assert vs[1..][i - 1] == vs[i];
        ParseElemsNul(vs[1..], rest);
        ParseElemsConsNone(vs[0], tail);
      }
    }
  }

  lemma ElemsTextLast(vs: seq<Json>, rest: Bytes)
    requires |vs| == 1
    ensures EncodeElems(vs) + "]" + rest == Encode(vs[0]) + ("]" + rest)
  {
  }

  lemma ElemsTextCons(vs: seq<Json>, rest: Bytes)
    requires |vs| > 1
    ensures EncodeElems(vs) + "]" + rest == Encode(vs[0]) + ("," + (EncodeElems(vs[1..]) + "]" + rest))
  {
    var head, tail := Encode(vs[0]), EncodeElems(vs[1..]);
    assert EncodeElems(vs) == head + "," + tail;
    Regroup(head, ",", tail, "]", rest);
  }

  /** An element with a NUL in a string or a key stops the parse. */
  lemma {:induction false} ParseElemNul(v: Json, after: Bytes)
    requires !NulFree(v)
    requires after == [] || !IsDigit(after[0])
    ensures ParseElems(Encode(v) + after) == None
    decreases v, 2
  {
    ParseEncodeNul(v, after);
  }

  /** A readable element in front of a comma and elements that do not read back. */
  lemma {:induction false} ParseElemsConsNone(v: Json, tail: Bytes)
    requires NulFree(v) && ParseElems(tail) == None
    ensures ParseElems(Encode(v) + ("," + tail)) == None
  {
    ParseEncode(v, "," + tail);
    assert ("," + tail)[1..] == tail;
  }

  lemma {:induction false} ParseMembersNul(ms: seq<Member>, rest: Bytes)
    requires |ms| > 0 && !NulFree(Obj(ms))
    ensures ParseMembers(EncodeMembers(ms) + "}" + rest) == None
    decreases ms, 1
  {
    if |ms| == 1 {
      MembersTextLast(ms, rest);
      ParseMemberNul(ms[0], "}" + rest);
    } else {
      ParseMoreMembersNul(ms, rest);
    }
  }

  lemma {:induction false} ParseMoreMembersNul(ms: seq<Member>, rest: Bytes)
    requires |ms| > 1 && !NulFree(Obj(ms))
    ensures ParseMembers(EncodeMembers(ms) + "}" + rest) == None
    decreases ms, 0
  {
    var tail := EncodeMembers(ms[1..]) + "}" + rest;
    MembersTextCons(ms, rest);
    if !MemberNulFree(ms[0]) {
      ParseMemberNul(ms[0], "," + tail);
    } else {
      assert !NulFree(Obj(ms[1..])) by {
        var i :| 0 <= i < |ms| && !MemberNulFree(ms[i]);
        assert ms[1..][i - 1] == ms[i];
      }
      ParseMembersNul(ms[1..], rest);
      ParseMembersConsNone(ms[0], tail);
    }
  }

  /** A member with a NUL in its key or its value stops the parse. */
  lemma {:induction false} ParseMemberNul(m: Member, after: Bytes)
    requires !MemberNulFree(m)
    requires after == [] || !IsDigit(after[0])
    ensures ParseMembers(EncodeMember(m) + after) == None
    decreases m, 2
  {
    var value := ":" + (Encode(m.value) + after);
    var body := Escape(m.key) + "\"" + value;
    MemberText(m, after);
    assert ("\"" + body)[0] == '"' && ("\"" + body)[1..] == body;
    if Nul in m.key {
      ParseCharsEscapeNul(m.key, value);
    } else {
      ParseCharsEscape(m.key, value);
      assert value[1..] == Encode(m.value) + after;
      ParseEncodeNul(m.value, after);
    }
  }

  /** A readable member in front of a comma and members that do not read back. */
  lemma {:induction false} ParseMembersConsNone(m: Member, tail: Bytes)
    requires MemberNulFree(m) && ParseMembers(tail) == None
    ensures ParseMembers(EncodeMember(m) + ("," + tail)) == None
  {
    var after := "," + tail;
    ParseMemberEncode(m, after);
    var t := Encode(m.value) + after;
    assert (":" + t)[1..] == t;
    assert after[1..] == tail;
  }

  /** json_loads(json_dumps(doc)) gives back doc exactly when no string and
      no key of doc holds a NUL byte; otherwise it fails (NULL). */
  lemma DecodeEncode(doc: Json)
    requires doc.Arr? || doc.Obj?
    ensures Decode(Encode(doc)) == if NulFree(doc) then Some(doc) else None
  {
    assert Encode(doc) + [] == Encode(doc);
    if NulFree(doc) {
      ParseEncode(doc, []);
    } else {
      ParseEncodeNul(doc, []);
    }
  }
}
