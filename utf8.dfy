/**
 * UTF-8, as Go's `unicode/utf8` writes and reads it: `EncodeRune` for a
 * Unicode scalar value, and `DecodeRune`, which never fails but reads an
 * ill-formed or truncated sequence as U+FFFD of length one.
 */
module Utf8 {
  import opened Wrappers

  const ReplacementChar: char := '�'

  predicate IsContinuation(b: byte)
  {
    0x80 <= b < 0xC0
  }

  /** The UTF-8 bytes of one character; only ASCII characters take a single byte. */
  function EncodeChar(c: char): (r: seq<byte>)
    ensures 1 <= |r| <= 4
    ensures (|r| == 1) == (c as int < 0x80)
    ensures |r| == 1 ==> r[0] == c as int
    ensures |r| > 1 ==> r[0] >= 0xC0 && forall i :: 1 <= i < |r| ==> IsContinuation(r[i])
  {
    var n := c as int;
    if n < 0x80 then [n]
    else if n < 0x800 then [0xC0 + n / 64, 0x80 + n % 64]
    else if n < 0x1_0000 then [0xE0 + n / 4096, 0x80 + (n / 64) % 64, 0x80 + n % 64]
    else [0xF0 + n / 262144, 0x80 + (n / 4096) % 64, 0x80 + (n / 64) % 64, 0x80 + n % 64]
  }

  /** Reads one character from the front of `b`: the character and how many bytes it took. */
  function DecodeRune(b: seq<byte>): (r: (char, nat))
    requires |b| > 0
    ensures 1 <= r.1 <= |b| && r.1 <= 4
    ensures b[0] < 0x80 ==> r == (b[0] as char, 1)
  {
    var b0: int := b[0];
    if b0 < 0x80 then (b0 as char, 1)
    else if 0xC2 <= b0 < 0xE0 then
      if 2 <= |b| && IsContinuation(b[1]) then (((b0 - 0xC0) * 64 + (b[1] as int - 0x80)) as char, 2)
      else (ReplacementChar, 1)
    else if 0xE0 <= b0 < 0xF0 then
      var lo := if b0 == 0xE0 then 0xA0 else 0x80;
      var hi := if b0 == 0xED then 0xA0 else 0xC0;
      if 3 <= |b| && lo <= b[1] < hi && IsContinuation(b[2]) then
        (((b0 - 0xE0) * 4096 + (b[1] as int - 0x80) * 64 + (b[2] as int - 0x80)) as char, 3)
      else (ReplacementChar, 1)
    else if 0xF0 <= b0 < 0xF5 then
      var lo := if b0 == 0xF0 then 0x90 else 0x80;
      var hi := if b0 == 0xF4 then 0x90 else 0xC0;
      if 4 <= |b| && lo <= b[1] < hi && IsContinuation(b[2]) && IsContinuation(b[3]) then
        (((b0 - 0xF0) * 262144 + (b[1] as int - 0x80) * 4096 + (b[2] as int - 0x80) * 64 + (b[3] as int - 0x80)) as char, 4)
      else (ReplacementChar, 1)
    else (ReplacementChar, 1)
  }

  lemma TwoBytes(n: int)
    requires 0x80 <= n < 0x800
    ensures 0xC2 <= 0xC0 + n / 64 < 0xE0
    ensures (n / 64) * 64 + n % 64 == n
  {
  }

  lemma ThreeBytes(n: int)
    requires 0x800 <= n < 0x1_0000 && !(0xD800 <= n < 0xE000)
    ensures n / 4096 < 16
    ensures n / 4096 == 0 ==> (n / 64) % 64 >= 0x20
    ensures n / 4096 == 0xD ==> (n / 64) % 64 < 0x20
    ensures (n / 4096) * 4096 + ((n / 64) % 64) * 64 + n % 64 == n
  {
    var a := n / 64;
    Div4096(n, a / 64, (a % 64) * 64 + n % 64);
  }

  lemma FourBytes(n: int)
    requires 0x1_0000 <= n < 0x11_0000
    ensures 0 <= n / 262144 <= 4
    ensures n / 262144 == 0 ==> (n / 4096) % 64 >= 0x10
    ensures n / 262144 == 4 ==> (n / 4096) % 64 < 0x10
    ensures (n / 262144) * 262144 + ((n / 4096) % 64) * 4096 + ((n / 64) % 64) * 64 + n % 64 == n
  {
    var a := n / 64;
    var b := a / 64;
    Div4096(n, b, (a % 64) * 64 + n % 64);
    Div262144(n, b / 64, (b % 64) * 4096 + (a % 64) * 64 + n % 64);
  }

  /** The quotient by 4096 is the only one that leaves a remainder below 4096. */
  lemma Div4096(u: nat, q: nat, r: nat)
    requires 0 <= r < 4096 && u == q * 4096 + r
    ensures u / 4096 == q
  {
  }

  lemma Div262144(u: nat, q: nat, r: nat)
    requires 0 <= r < 262144 && u == q * 262144 + r
    ensures u / 262144 == q
  {
  }

  /** Reading the encoding of a character gives back that character and its length. */
  lemma DecodeEncodeChar(c: char, rest: seq<byte>)
    ensures DecodeRune(EncodeChar(c) + rest) == (c, |EncodeChar(c)|)
  {
    var n := c as int;
    var b := EncodeChar(c) + rest;
    if n < 0x80 {
    } else if n < 0x800 {
      TwoBytes(n);
    } else if n < 0x1_0000 {
      ThreeBytes(n);
    } else {
      FourBytes(n);
    }
  }
}
