/**
 * Standard base64 with padding (section 4 of RFC 4648), as Go's
 * `base64.StdEncoding`: `EncodeToString` and `DecodeString`.
 *
 * The decoder is Go's non-strict one: carriage returns and line feeds are
 * skipped wherever they appear, the input must then be a whole number of
 * four-character quanta, `=` padding may only end the last quantum, and the
 * unused low bits of a padded quantum are not required to be zero.
 */
module Base64 {
  import opened Wrappers

  const Pad: char := '='

  predicate IsAlphabetChar(c: char)
  {
    ('A' <= c <= 'Z') || ('a' <= c <= 'z') || ('0' <= c <= '9') || c == '+' || c == '/'
  }

  /** A text made of alphabet characters and padding only. */
  predicate Encoded(s: string)
  {
    forall i :: 0 <= i < |s| ==> IsAlphabetChar(s[i]) || s[i] == Pad
  }

  type index = i: int | 0 <= i < 64

  /** The character that stands for the 6-bit group `i`: A-Z, a-z, 0-9, `+`, `/`. */
  function CharOf(i: index): (c: char)
    ensures IsAlphabetChar(c)
  {
    if i < 26 then ('A' as int + i) as char
    else if i < 52 then ('a' as int + i - 26) as char
    else if i < 62 then ('0' as int + i - 52) as char
    else if i == 62 then '+'
    else '/'
  }


  /** The 6-bit group a character of the alphabet stands for. */
  function IndexOf(c: char): (i: index)
    requires IsAlphabetChar(c)
    ensures CharOf(i) == c
  {
    if 'A' <= c <= 'Z' then (c as int - 'A' as int)
    else if 'a' <= c <= 'z' then (c as int - 'a' as int + 26)
    else if '0' <= c <= '9' then (c as int - '0' as int + 52)
    else if c == '+' then 62
    else 63
  }

  lemma CharOfInAlphabet(i: index)
    ensures IsAlphabetChar(CharOf(i)) && IndexOf(CharOf(i)) == i
  {
  }

  /** Three bytes as four characters. */
  function EncodeTriple(b0: byte, b1: byte, b2: byte): (s: string)
    ensures |s| == 4 && Encoded(s)
  {
    [CharOf(b0 / 4), CharOf((b0 % 4) * 16 + b1 / 16), CharOf((b1 % 16) * 4 + b2 / 64), CharOf(b2 % 64)]
  }

  /** The final one or two bytes as a padded quantum. */
  function EncodeTail(b: seq<byte>): (s: string)
    requires 1 <= |b| <= 2
    ensures |s| == 4 && Encoded(s)
  {
    if |b| == 1 then [CharOf(b[0] / 4), CharOf((b[0] % 4) * 16), Pad, Pad]
    else [CharOf(b[0] / 4), CharOf((b[0] % 4) * 16 + b[1] / 16), CharOf((b[1] % 16) * 4), Pad]
  }

  function Encode(b: seq<byte>): (s: string)
    ensures |s| % 4 == 0
    ensures |s| == 4 * ((|b| + 2) / 3)
    ensures Encoded(s)
    decreases |b|
  {
    if |b| == 0 then ""
    else if |b| < 3 then EncodeTail(b)
    else
      var q, rest := EncodeTriple(b[0], b[1], b[2]), Encode(b[3..]);
      EncodedAppend(q, rest);
      QuantaLength(|b|);
      q + rest
  }

  /** Three more bytes take one more quantum. */
  lemma QuantaLength(n: nat)
    requires n >= 3
    ensures 4 + 4 * ((n - 3 + 2) / 3) == 4 * ((n + 2) / 3)
    ensures (4 + 4 * ((n - 3 + 2) / 3)) % 4 == 0
  {
    assert (n + 2) / 3 == (n - 3 + 2) / 3 + 1;
  }

  lemma EncodedAppend(s: string, t: string)
    requires Encoded(s) && Encoded(t)
    ensures Encoded(s + t)
  {
    forall i | 0 <= i < |s + t|
      ensures IsAlphabetChar((s + t)[i]) || (s + t)[i] == Pad
    {
      if i >= |s| {
        assert (s + t)[i] == t[i - |s|];
      }
    }
  }

  /** Drops the line breaks Go's decoder ignores. */
  function StripNewlines(s: string): (r: string)
    ensures |r| <= |s|
    ensures forall i :: 0 <= i < |r| ==> r[i] != '\r' && r[i] != '\n'
  {
    if s == [] then []
    else if s[0] == '\r' || s[0] == '\n' then StripNewlines(s[1..])
    else [s[0]] + StripNewlines(s[1..])
  }

  /** One quantum of four characters, `last` telling whether padding is allowed. */
  function DecodeQuantum(q: string, last: bool): Option<seq<byte>>
    requires |q| == 4
  {
    if !IsAlphabetChar(q[0]) || !IsAlphabetChar(q[1]) then None
    else
      var i0, i1 := IndexOf(q[0]), IndexOf(q[1]);
      if q[2] == Pad then
        if last && q[3] == Pad then Some([i0 * 4 + i1 / 16]) else None
      else if !IsAlphabetChar(q[2]) then None
      else
        var i2 := IndexOf(q[2]);
        if q[3] == Pad then
          if last then Some([i0 * 4 + i1 / 16, (i1 % 16) * 16 + i2 / 4]) else None
        else if !IsAlphabetChar(q[3]) then None
        else
          var i3 := IndexOf(q[3]);
          Some([i0 * 4 + i1 / 16, (i1 % 16) * 16 + i2 / 4, (i2 % 4) * 64 + i3])
  }

  function DecodeQuanta(s: string): Option<seq<byte>>
    requires |s| % 4 == 0
    decreases |s|
  {
    if |s| == 0 then Some([])
    else
      match DecodeQuantum(s[..4], |s| == 4)
      case None => None
      case Some(head) =>
        match DecodeQuanta(s[4..])
        case None => None
        case Some(tail) => Some(head + tail)
  }

  function Decode(s: string): Option<seq<byte>>
  {
    var t := StripNewlines(s);
    if |t| % 4 != 0 then None else DecodeQuanta(t)
  }

  lemma {:induction false} StripNewlinesIdentity(s: string)
    requires forall i :: 0 <= i < |s| ==> s[i] != '\r' && s[i] != '\n'
    ensures StripNewlines(s) == s
  {
    if s != [] {
      StripNewlinesIdentity(s[1..]);
    }
  }

  lemma JoinHigh(b0: byte, b1: byte)
    ensures (b0 / 4) * 4 + ((b0 % 4) * 16 + b1 / 16) / 16 == b0
    ensures (((b0 % 4) * 16 + b1 / 16) % 16) * 16 == (b1 / 16) * 16
  {
  }

  lemma JoinMiddle(b1: byte, b2: byte)
    ensures (b1 / 16) * 16 + ((b1 % 16) * 4 + b2 / 64) / 4 == b1
    ensures (((b1 % 16) * 4 + b2 / 64) % 4) * 64 + b2 % 64 == b2
  {
  }

  lemma DecodeTriple(t: seq<byte>, last: bool)
    requires |t| == 3
    ensures DecodeQuantum(EncodeTriple(t[0], t[1], t[2]), last) == Some(t)
  {
    var b0, b1, b2 := t[0], t[1], t[2];
    var i0, i1, i2, i3 := b0 / 4, (b0 % 4) * 16 + b1 / 16, (b1 % 16) * 4 + b2 / 64, b2 % 64;
    CharOfInAlphabet(i0);
    CharOfInAlphabet(i1);
    CharOfInAlphabet(i2);
    CharOfInAlphabet(i3);
    JoinHigh(b0, b1);
    JoinMiddle(b1, b2);
    assert t == [b0, b1, b2];
  }

  lemma EncodeCons(b: seq<byte>)
    requires |b| >= 3
    ensures |Encode(b)| >= 4 && Encode(b)[4..] == Encode(b[3..])
    ensures DecodeQuantum(Encode(b)[..4], |b| == 3) == Some(b[..3])
  {
    var q := EncodeTriple(b[0], b[1], b[2]);
    assert Encode(b) == q + Encode(b[3..]);
    assert Encode(b)[..4] == q;
    DecodeTriple(b[..3], |b| == 3);
  }

  lemma DecodeOne(b0: byte)
    ensures DecodeQuantum(EncodeTail([b0]), true) == Some([b0])
  {
    CharOfInAlphabet(b0 / 4);
    CharOfInAlphabet((b0 % 4) * 16);
    assert (b0 / 4) * 4 + ((b0 % 4) * 16) / 16 == b0;
  }

  lemma DecodeTwo(b0: byte, b1: byte)
    ensures DecodeQuantum(EncodeTail([b0, b1]), true) == Some([b0, b1])
  {
    CharOfInAlphabet(b0 / 4);
    CharOfInAlphabet((b0 % 4) * 16 + b1 / 16);
    CharOfInAlphabet((b1 % 16) * 4);
    JoinHigh(b0, b1);
    assert (b1 / 16) * 16 + ((b1 % 16) * 4) / 4 == b1;
  }

  lemma DecodeTail(b: seq<byte>)
    requires 1 <= |b| <= 2
    ensures DecodeQuantum(EncodeTail(b), true) == Some(b)
  {
    if |b| == 1 {
      assert b == [b[0]];
      DecodeOne(b[0]);
    } else {
      assert b == [b[0], b[1]];
      DecodeTwo(b[0], b[1]);
    }
  }

  lemma DecodeQuantaCons(s: string, head: seq<byte>, tail: seq<byte>)
    requires |s| >= 4 && |s| % 4 == 0
    requires DecodeQuantum(s[..4], |s| == 4) == Some(head)
    requires DecodeQuanta(s[4..]) == Some(tail)
    ensures DecodeQuanta(s) == Some(head + tail)
  {
  }

  lemma EncodeShort(b: seq<byte>)
    requires 1 <= |b| < 3
    ensures DecodeQuanta(Encode(b)) == Some(b)
  {
    DecodeTail(b);
    var s := Encode(b);
    assert s[..4] == s && s[4..] == [];
    DecodeQuantaCons(s, b, []);
    assert b + [] == b;
  }

  lemma TakeDrop<T>(s: seq<T>, k: nat)
    requires k <= |s|
    ensures s[..k] + s[k..] == s
  {
  }

  lemma EncodeLong(b: seq<byte>)
    requires |b| >= 3
    requires DecodeQuanta(Encode(b[3..])) == Some(b[3..])
    ensures DecodeQuanta(Encode(b)) == Some(b)
  {
    EncodeCons(b);
    TakeDrop(b, 3);
    DecodeQuantaCons(Encode(b), b[..3], b[3..]);
  }

  lemma {:induction false} DecodeQuantaEncode(b: seq<byte>)
    ensures DecodeQuanta(Encode(b)) == Some(b)
    decreases |b|
  {
    if |b| == 0 {
    } else if |b| < 3 {
      EncodeShort(b);
    } else {
      DecodeQuantaEncode(b[3..]);
      EncodeLong(b);
    }
  }

  /** Decoding undoes encoding. */
  lemma RoundTrip(b: seq<byte>)
    ensures Decode(Encode(b)) == Some(b)
  {
    StripNewlinesIdentity(Encode(b));
    DecodeQuantaEncode(b);
  }

  lemma {:induction false} StripNewlinesAppend(s: string, t: string)
    ensures StripNewlines(s + t) == StripNewlines(s) + StripNewlines(t)
  {
    if s == [] {
      assert s + t == t;
    } else {
      assert (s + t)[1..] == s[1..] + t;
      StripNewlinesAppend(s[1..], t);
    }
  }

  /**
   * Appending a text of length 3 modulo 4 (such as "invalid") without line
   * breaks to a whole number of quanta always makes decoding fail.
   */
  lemma AppendBreaksQuanta(s: string, junk: string)
    requires |StripNewlines(s)| % 4 == 0
    requires |junk| % 4 == 3
    requires forall i :: 0 <= i < |junk| ==> junk[i] != '\r' && junk[i] != '\n'
    ensures Decode(s + junk) == None
  {
    StripNewlinesAppend(s, junk);
    StripNewlinesIdentity(junk);
    ModSum(|StripNewlines(s)|, |junk|);
  }

  lemma ModSum(a: nat, b: nat)
    requires a % 4 == 0 && b % 4 == 3
    ensures (a + b) % 4 == 3
  {
  }
}
