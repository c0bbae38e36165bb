/**
 * The part of JSON (RFC 8259) that a cursor uses: null, booleans, integral
 * numbers and strings, written the way Go's `encoding/json` marshals them and
 * read back the way it unmarshals them into an `interface{}`, except that a
 * number is read as an unbounded integer: Go reads it as a float64 and fails
 * on a literal beyond float64's range.
 */
module Json {
  import opened Wrappers
  import Utf8

  /** A JSON scalar, standing for what an `any` field holds after a JSON round. */
  datatype JsonValue = JNull | JBool(b: bool) | JNumber(n: int) | JString(s: string)

  const Quote: byte := 0x22
  const Backslash: byte := 0x5C
  const Comma: byte := 0x2C
  const CloseBrace: byte := 0x7D

  predicate IsDigit(b: byte)
  {
    0x30 <= b <= 0x39
  }

  // ---------------------------------------------------------------- numbers

  /** The decimal digits of `n`, most significant first, without leading zeros. */
  function Digits(n: nat): (r: seq<byte>)
    ensures |r| >= 1
    ensures forall i :: 0 <= i < |r| ==> IsDigit(r[i])
    ensures r[0] == 0x30 ==> n == 0 && |r| == 1
  {
    if n < 10 then [0x30 + n] else Digits(n / 10) + [0x30 + n % 10]
  }

  /** The number a run of decimal digits denotes. */
  function DigitsValue(ds: seq<byte>): nat
    requires forall i :: 0 <= i < |ds| ==> IsDigit(ds[i])
  {
    if ds == [] then 0
    else
      assert IsDigit(ds[|ds| - 1]);
      DigitsValue(ds[..|ds| - 1]) * 10 + (ds[|ds| - 1] as int - 0x30)
  }

  /** The length of the longest prefix of `b` made of digits. */
  function DigitRun(b: seq<byte>): (k: nat)
    ensures k <= |b|
    ensures forall i :: 0 <= i < k ==> IsDigit(b[i])
    ensures k < |b| ==> !IsDigit(b[k])
  {
    if b == [] || !IsDigit(b[0]) then 0 else 1 + DigitRun(b[1..])
  }

  function SerializeNumber(n: int): seq<byte>
  {
    if n < 0 then [0x2D] + Digits(-n) else Digits(n)
  }

  /**
   * A JSON integer: an optional minus sign, then `0` or a digit run not
   * starting with `0`, of any length (Go would reject one beyond float64's range).
   */
  function ParseNumber(b: seq<byte>): Option<(int, seq<byte>)>
  {
    var neg := |b| > 0 && b[0] == 0x2D;
    var t := if neg then b[1..] else b;
    if t == [] || !IsDigit(t[0]) then None
    else
      var k := if t[0] == 0x30 then 1 else DigitRun(t);
      var v: int := DigitsValue(t[..k]);
      Some((if neg then -v else v, t[k..]))
  }

  lemma {:induction false} DigitsValueOfDigits(n: nat)
    ensures DigitsValue(Digits(n)) == n
  {
    if n >= 10 {
      var ds := Digits(n);
      assert ds[..|ds| - 1] == Digits(n / 10);
      DigitsValueOfDigits(n / 10);
    }
  }

  lemma {:induction false} DigitRunOver(ds: seq<byte>, rest: seq<byte>)
    requires forall i :: 0 <= i < |ds| ==> IsDigit(ds[i])
    requires rest == [] || !IsDigit(rest[0])
    ensures DigitRun(ds + rest) == |ds|
  {
    if ds != [] {
      assert (ds + rest)[1..] == ds[1..] + rest;
      DigitRunOver(ds[1..], rest);
    } else {
      assert ds + rest == rest;
    }
  }

  lemma ParseDigitsAhead(ds: seq<byte>, rest: seq<byte>, n: nat)
    requires ds == Digits(n)
    requires rest == [] || !IsDigit(rest[0])
    ensures var t := ds + rest;
      t != [] && IsDigit(t[0]) && (if t[0] == 0x30 then 1 else DigitRun(t)) == |ds|
      && DigitsValue(t[..|ds|]) == n && t[|ds|..] == rest
  {
    var t := ds + rest;
    DigitsValueOfDigits(n);
    DigitRunOver(ds, rest);
    assert t[..|ds|] == ds && t[|ds|..] == rest;
  }

  /** A serialised number followed by a non-digit reads back as that number. */
  lemma ParseSerializeNumber(n: int, rest: seq<byte>)
    requires rest == [] || !IsDigit(rest[0])
    ensures ParseNumber(SerializeNumber(n) + rest) == Some((n, rest))
  {
    if n < 0 {
      SerializeNegative(-n, rest);
      ParseNegative(-n, rest);
    } else {
      ParseNonNegative(n, rest);
    }
  }

  lemma ParseNonNegative(m: nat, rest: seq<byte>)
    requires rest == [] || !IsDigit(rest[0])
    ensures ParseNumber(SerializeNumber(m) + rest) == Some((m as int, rest))
  {
    ParseDigitsAhead(Digits(m), rest, m);
  }

  lemma SerializeNegative(m: nat, rest: seq<byte>)
    requires m > 0
    ensures SerializeNumber(-(m as int)) + rest == [0x2D] + (Digits(m) + rest)
  {
  }

  lemma ParseNegative(m: nat, rest: seq<byte>)
    requires rest == [] || !IsDigit(rest[0])
    ensures ParseNumber([0x2D] + (Digits(m) + rest)) == Some((-(m as int), rest))
  {
    var ds := Digits(m);
    ParseDigitsAhead(ds, rest, m);
    var b := [0x2D] + (ds + rest);
    assert b[1..] == ds + rest;
  }

  // ---------------------------------------------------------------- strings

  const HexDigits: seq<byte> := [0x30, 0x31, 0x32, 0x33, 0x34, 0x35, 0x36, 0x37, 0x38, 0x39,
                                 0x61, 0x62, 0x63, 0x64, 0x65, 0x66]

  /** `\u` followed by four lower-case hex digits of a code unit below 0x10000. */
  function UnicodeEscape(u: nat): seq<byte>
    requires u < 0x1_0000
  {
    [Backslash, 0x75, HexDigits[u / 4096], HexDigits[(u / 256) % 16], HexDigits[(u / 16) % 16], HexDigits[u % 16]]
  }

  /**
   * How Go's encoder writes one character of a string (with its default HTML
   * escaping): quote and backslash are escaped, the control characters get
   * their short escapes or `\u00XX`, `<`, `>`, `&`, U+2028 and U+2029 get
   * `\uXXXX`, and every other character is written as its UTF-8 bytes.
   */
  function EscapeChar(c: char): seq<byte>
  {
    var n := c as int;
    if c == '"' then [Backslash, Quote]
    else if c == '\\' then [Backslash, Backslash]
    else if c == '\n' then [Backslash, 0x6E]
    else if c == '\r' then [Backslash, 0x72]
    else if c == '\t' then [Backslash, 0x74]
    else if n == 0x08 then [Backslash, 0x62]
    else if n == 0x0C then [Backslash, 0x66]
    else if n < 0x20 || c == '<' || c == '>' || c == '&' || n == 0x2028 || n == 0x2029 then UnicodeEscape(n)
    else Utf8.EncodeChar(c)
  }

  function EscapeString(s: string): seq<byte>
  {
    if s == [] then [] else EscapeChar(s[0]) + EscapeString(s[1..])
  }

  function SerializeString(s: string): seq<byte>
  {
    [Quote] + EscapeString(s) + [Quote]
  }

  function HexValue(b: byte): Option<nat>
  {
    if 0x30 <= b <= 0x39 then Some(b - 0x30)
    else if 0x61 <= b <= 0x66 then Some(b - 0x61 + 10)
    else if 0x41 <= b <= 0x46 then Some(b - 0x41 + 10)
    else None
  }

  /** The code unit of a `\uXXXX` escape at the front of `b`, as Go's `getu4`. */
  function GetU4(b: seq<byte>): Option<nat>
  {
    if |b| < 6 || b[0] != Backslash || b[1] != 0x75 then None
    else
      match (HexValue(b[2]), HexValue(b[3]), HexValue(b[4]), HexValue(b[5]))
      case (Some(h0), Some(h1), Some(h2), Some(h3)) => Some(h0 * 4096 + h1 * 256 + h2 * 16 + h3)
      case _ => None
  }

  predicate IsSurrogate(u: int)
  {
    0xD800 <= u < 0xE000
  }

  /**
   * One character of a string body at the front of `b` (which does not start
   * with the closing quote): the character and the number of bytes it took,
   * or None where Go's decoder reports a syntax error.
   */
  function ParseStringChar(b: seq<byte>): (r: Option<(char, nat)>)
    requires |b| > 0
    ensures r.Some? ==> 1 <= r.value.1 <= |b|
  {
    var c := b[0];
    if c == Backslash then
      if |b| < 2 then None
      else
        var e := b[1];
        if e == Quote || e == Backslash || e == 0x2F then Some((e as char, 2))
        else if e == 0x62 then Some((8 as char, 2))
        else if e == 0x66 then Some((12 as char, 2))
        else if e == 0x6E then Some(('\n', 2))
        else if e == 0x72 then Some(('\r', 2))
        else if e == 0x74 then Some(('\t', 2))
        else if e == 0x75 then
          match GetU4(b)
          case None => None
          case Some(u) =>
            if !IsSurrogate(u) then Some((u as char, 6))
            else
              match GetU4(b[6..])
              case Some(u2) =>
                if u < 0xDC00 && 0xDC00 <= u2 < 0xE000 then
                  Some((((u - 0xD800) * 1024 + (u2 - 0xDC00) + 0x1_0000) as char, 12))
                else Some((Utf8.ReplacementChar, 6))
              case None => Some((Utf8.ReplacementChar, 6))
        else None
    else if c < 0x20 then None
    else if c < 0x80 then Some((c as char, 1))
    else
      var (ch, size) := Utf8.DecodeRune(b);
      Some((ch, size))
  }

  /** A string body up to and including its closing quote; returns the text and what follows. */
  function ParseStringBody(b: seq<byte>): (r: Option<(string, seq<byte>)>)
    ensures r.Some? ==> |r.value.1| < |b|
    decreases |b|
  {
    if b == [] then None
    else if b[0] == Quote then Some(([], b[1..]))
    else
      match ParseStringChar(b)
      case None => None
      case Some((c, k)) =>
        match ParseStringBody(b[k..])
        case None => None
        case Some((s, rest)) => Some(([c] + s, rest))
  }

  function ParseString(b: seq<byte>): Option<(string, seq<byte>)>
  {
    if b == [] || b[0] != Quote then None else ParseStringBody(b[1..])
  }

  lemma HexDigitValue(d: nat)
    requires d < 16
    ensures HexValue(HexDigits[d]) == Some(d)
  {
  }

  lemma HexSplit(u: nat)
    requires u < 0x1_0000
    ensures u / 4096 < 16
    ensures (u / 4096) * 4096 + ((u / 256) % 16) * 256 + ((u / 16) % 16) * 16 + u % 16 == u
  {
    var a := u / 16;
    var b := a / 16;
    var c := b / 16;
    Div256(u, b, (a % 16) * 16 + u % 16);
    Utf8.Div4096(u, c, (b % 16) * 256 + (a % 16) * 16 + u % 16);
  }

  /** The quotient by 256 is the only one that leaves a remainder below 256. */
  lemma Div256(u: nat, q: nat, r: nat)
    requires 0 <= r < 256 && u == q * 256 + r
    ensures u / 256 == q
  {
  }


  lemma UnicodeEscapeRead(u: nat, rest: seq<byte>)
    requires u < 0x1_0000
    ensures GetU4(UnicodeEscape(u) + rest) == Some(u)
  {
    var d0, d1, d2, d3 := u / 4096, (u / 256) % 16, (u / 16) % 16, u % 16;
    HexSplit(u);
    HexDigitValue(d0);
    HexDigitValue(d1);
    HexDigitValue(d2);
    HexDigitValue(d3);
    var b := UnicodeEscape(u) + rest;
    assert b[0] == Backslash && b[1] == 0x75;
    assert b[2] == HexDigits[d0] && b[3] == HexDigits[d1] && b[4] == HexDigits[d2] && b[5] == HexDigits[d3];
  }

  /** Every escaped character reads back as itself. */
  lemma ParseEscapeChar(c: char, rest: seq<byte>)
    ensures |EscapeChar(c)| > 0 && EscapeChar(c)[0] != Quote
    ensures ParseStringChar(EscapeChar(c) + rest) == Some((c, |EscapeChar(c)|))
  {
    var n := c as int;
    if c == '"' || c == '\\' || c == '\n' || c == '\r' || c == '\t' || n == 0x08 || n == 0x0C {
      ParseShortEscape(c, rest);
    } else if n < 0x20 || c == '<' || c == '>' || c == '&' || n == 0x2028 || n == 0x2029 {
      ParseUnicodeEscape(c, rest);
    } else {
      Utf8.DecodeEncodeChar(c, rest);
    }
  }

  lemma ParseShortEscape(c: char, rest: seq<byte>)
    requires c == '"' || c == '\\' || c == '\n' || c == '\r' || c == '\t' || c as int == 0x08 || c as int == 0x0C
    ensures |EscapeChar(c)| == 2 && EscapeChar(c)[0] == Backslash
    ensures ParseStringChar(EscapeChar(c) + rest) == Some((c, 2))
  {
  }

  lemma ParseUnicodeEscape(c: char, rest: seq<byte>)
    requires var n := c as int;
      && !(c == '"' || c == '\\' || c == '\n' || c == '\r' || c == '\t' || n == 0x08 || n == 0x0C)
      && (n < 0x20 || c == '<' || c == '>' || c == '&' || n == 0x2028 || n == 0x2029)
    ensures EscapeChar(c) == UnicodeEscape(c as int)
    ensures ParseStringChar(EscapeChar(c) + rest) == Some((c, 6))
  {
    UnicodeEscapeRead(c as int, rest);
  }

  lemma {:induction false} ParseEscapeString(s: string, rest: seq<byte>)
    ensures ParseStringBody(EscapeString(s) + [Quote] + rest) == Some((s, rest))
  {
    var b := EscapeString(s) + [Quote] + rest;
    if s == [] {
      assert b == [Quote] + rest;
    } else {
      var e := EscapeChar(s[0]);
      var tail := EscapeString(s[1..]) + [Quote] + rest;
      assert b == e + tail;
      ParseEscapeChar(s[0], tail);
      assert b[|e|..] == tail;
      ParseEscapeString(s[1..], rest);
      assert [s[0]] + s[1..] == s;
    }
  }

  /** Only the escapes of RFC 8259 are read: `\'` is a syntax error, as in Go's scanner. */
  lemma ApostropheEscapeRejected()
    ensures ParseString([Quote, Backslash, 0x27, Quote]) == None
  {
  }

  /** A serialised string reads back as that string, whatever follows it. */
  lemma ParseSerializeString(s: string, rest: seq<byte>)
    ensures ParseString(SerializeString(s) + rest) == Some((s, rest))
  {
    var b := SerializeString(s) + rest;
    assert b[1..] == EscapeString(s) + [Quote] + rest;
    ParseEscapeString(s, rest);
  }

  // ---------------------------------------------------------------- values

  const NullBytes: seq<byte> := [0x6E, 0x75, 0x6C, 0x6C]
  const TrueBytes: seq<byte> := [0x74, 0x72, 0x75, 0x65]
  const FalseBytes: seq<byte> := [0x66, 0x61, 0x6C, 0x73, 0x65]

  function SerializeBool(b: bool): seq<byte>
  {
    if b then TrueBytes else FalseBytes
  }

  function ParseBool(b: seq<byte>): Option<(bool, seq<byte>)>
  {
    if |b| >= 4 && b[..4] == TrueBytes then Some((true, b[4..]))
    else if |b| >= 5 && b[..5] == FalseBytes then Some((false, b[5..]))
    else None
  }

  function SerializeValue(v: JsonValue): seq<byte>
  {
    match v
    case JNull => NullBytes
    case JBool(x) => SerializeBool(x)
    case JNumber(n) => SerializeNumber(n)
    case JString(s) => SerializeString(s)
  }

  /** One scalar value at the front of `b`; the first byte decides its kind. */
  function ParseValue(b: seq<byte>): Option<(JsonValue, seq<byte>)>
  {
    if b == [] then None
    else if b[0] == Quote then
      match ParseString(b)
      case None => None
      case Some((s, rest)) => Some((JString(s), rest))
    else if b[0] == 0x2D || IsDigit(b[0]) then
      match ParseNumber(b)
      case None => None
      case Some((n, rest)) => Some((JNumber(n), rest))
    else if |b| >= 4 && b[..4] == NullBytes then Some((JNull, b[4..]))
    else
      match ParseBool(b)
      case None => None
      case Some((x, rest)) => Some((JBool(x), rest))
  }

  lemma ParseSerializeBool(x: bool, rest: seq<byte>)
    ensures ParseBool(SerializeBool(x) + rest) == Some((x, rest))
  {
    var b := SerializeBool(x) + rest;
    if x {
      assert b[..4] == TrueBytes && b[4..] == rest;
    } else {
      assert b[..4] != TrueBytes by { assert b[0] != TrueBytes[0]; }
      assert b[..5] == FalseBytes && b[5..] == rest;
    }
  }

  /** A serialised value followed by a byte that cannot extend a number reads back as that value. */
  lemma ParseSerializeValue(v: JsonValue, rest: seq<byte>)
    requires rest == [] || !IsDigit(rest[0])
    ensures ParseValue(SerializeValue(v) + rest) == Some((v, rest))
  {
    var b := SerializeValue(v) + rest;
    match v
    case JNull =>
      assert b[..4] == NullBytes && b[4..] == rest;
    case JBool(x) =>
      assert b[..4] != NullBytes by { assert b[0] != NullBytes[0]; }
      ParseSerializeBool(x, rest);
    case JNumber(n) =>
      ParseSerializeNumber(n, rest);
    case JString(s) =>
      ParseSerializeString(s, rest);
  }
}
