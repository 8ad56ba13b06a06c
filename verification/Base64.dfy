/** Base64 as in section 4 of RFC 4648. */
module Base64 {

  import opened Bytes
  import opened Options

  const PAD: char := '='

  function Digit(v: nat): (c: char)
    requires v < 64
    ensures c != PAD
  {
    if v < 26 then (v + 'A' as int) as char
    else if v < 52 then (v - 26 + 'a' as int) as char
    else if v < 62 then (v - 52 + '0' as int) as char
    else if v == 62 then '+' else '/'
  }

  function DigitValue(c: char): (v: Option<nat>)
    ensures v.Some? ==> v.value < 64
  {
    if 'A' <= c <= 'Z' then Some(c as int - 'A' as int)
    else if 'a' <= c <= 'z' then Some(c as int - 'a' as int + 26)
    else if '0' <= c <= '9' then Some(c as int - '0' as int + 52)
    else if c == '+' then Some(62)
    else if c == '/' then Some(63)
    else None
  }

  function Triple(a: Byte, b: Byte, c: Byte): string {
    [Digit(a / 4), Digit(a % 4 * 16 + b / 16), Digit(b % 16 * 4 + c / 64), Digit(c % 64)]
  }

  function Encode(bytes: seq<Byte>): string {
    if bytes == [] then ""
    else if |bytes| == 1 then [Digit(bytes[0] / 4), Digit(bytes[0] % 4 * 16), PAD, PAD]
    else if |bytes| == 2 then
      [Digit(bytes[0] / 4), Digit(bytes[0] % 4 * 16 + bytes[1] / 16), Digit(bytes[1] % 16 * 4), PAD]
    else Triple(bytes[0], bytes[1], bytes[2]) + Encode(bytes[3..])
  }

  /** The bytes of one group of four digits, when its second value leaves nothing unexplained. */
  function GroupBytes(v: nat, w: nat, x: nat, y: nat): seq<Byte>
    requires v < 64 && w < 64 && x < 64 && y < 64
  {
    [v * 4 + w / 16, w % 16 * 16 + x / 4, x % 4 * 64 + y]
  }

  /** Decoding of well-formed text: groups of four digits, padding only in the last, spare bits zero. */
  function Decode(s: string): Option<seq<Byte>> {
    if s == "" then Some([])
    else if |s| < 4 then None
    else
      var v, w, x, y := DigitValue(s[0]), DigitValue(s[1]), DigitValue(s[2]), DigitValue(s[3]);
      if v.None? || w.None? then None
      else if |s| == 4 && s[2] == PAD && s[3] == PAD then
        if w.value % 16 != 0 then None else Some([v.value * 4 + w.value / 16])
      else if |s| == 4 && x.Some? && s[3] == PAD then
        if x.value % 4 != 0 then None
        else Some([v.value * 4 + w.value / 16, w.value % 16 * 16 + x.value / 4])
      else if x.None? || y.None? then None
      else
        var rest := Decode(s[4..]);
        if rest.None? then None else Some(GroupBytes(v.value, w.value, x.value, y.value) + rest.value)
  }

  lemma DigitRoundTrip(v: nat)
    requires v < 64
    ensures DigitValue(Digit(v)) == Some(v)
  {
  }

  lemma PadIsNoDigit()
    ensures DigitValue(PAD) == None
  {
  }

  lemma TripleRoundTrip(a: Byte, b: Byte, c: Byte)
    ensures GroupBytes(a / 4, a % 4 * 16 + b / 16, b % 16 * 4 + c / 64, c % 64) == [a, b, c]
  {
    TwoDigits(a, b);
    assert (b % 16 * 4 + c / 64) / 4 == b % 16 && (b % 16 * 4 + c / 64) % 4 == c / 64;
  }

  lemma TwoDigits(a: Byte, b: Byte)
    ensures (a % 4 * 16 + b / 16) / 16 == a % 4 && (a % 4 * 16 + b / 16) % 16 == b / 16
  {
  }

  lemma OneByte(a: Byte)
    ensures Decode(Encode([a])) == Some([a])
  {
    hide Digit, DigitValue;
    PadIsNoDigit();
    DigitRoundTrip(a / 4);
    DigitRoundTrip(a % 4 * 16);
    assert a % 4 * 16 / 16 == a % 4 && a % 4 * 16 % 16 == 0;
    assert a / 4 * 4 + a % 4 == a;
  }

  lemma TwoBytes(a: Byte, b: Byte)
    ensures Decode(Encode([a, b])) == Some([a, b])
  {
    hide Digit, DigitValue;
    PadIsNoDigit();
    DigitRoundTrip(a / 4);
    DigitRoundTrip(a % 4 * 16 + b / 16);
    DigitRoundTrip(b % 16 * 4);
    TripleRoundTrip(a, b, 0);
  }

  lemma DecodeTriple(a: Byte, b: Byte, c: Byte, s: string)
    requires Decode(s).Some?
    ensures Decode(Triple(a, b, c) + s) == Some([a, b, c] + Decode(s).value)
  {
    hide Digit, DigitValue;
    var t := Triple(a, b, c) + s;
    DigitRoundTrip(a / 4);
    DigitRoundTrip(a % 4 * 16 + b / 16);
    DigitRoundTrip(b % 16 * 4 + c / 64);
    DigitRoundTrip(c % 64);
    TripleRoundTrip(a, b, c);
    assert t[4..] == s;
    assert t[0] == Triple(a, b, c)[0] && t[1] == Triple(a, b, c)[1] && t[2] == Triple(a, b, c)[2] && t[3] == Triple(a, b, c)[3];
  }

  /** Decoding gives back what was encoded. */
  lemma {:induction false} DecodeOfEncode(bytes: seq<Byte>)
    ensures Decode(Encode(bytes)) == Some(bytes)
  {
    if bytes == [] {
    } else if |bytes| == 1 {
      hide Decode, Encode;
      OneByte(bytes[0]);
      assert bytes == [bytes[0]];
    } else if |bytes| == 2 {
      hide Decode, Encode;
      TwoBytes(bytes[0], bytes[1]);
      assert bytes == [bytes[0], bytes[1]];
    } else {
      hide Decode, Triple;
      DecodeOfEncode(bytes[3..]);
      DecodeTriple(bytes[0], bytes[1], bytes[2], Encode(bytes[3..]));
      assert bytes == [bytes[0], bytes[1], bytes[2]] + bytes[3..];
    }
  }

  // ---- what the characters stand for ----

  /** Table 1 of RFC 4648. */
  const UPPER: string := "ABCDEFGHIJKLMNOPQRSTUVWXYZ"
  const LOWER: string := "abcdefghijklmnopqrstuvwxyz"
  const NUMERALS: string := "0123456789"
  const ALPHABET: string := UPPER + LOWER + NUMERALS + "+/"

  lemma DigitIsInAlphabet(v: nat)
    requires v < 64
    ensures Digit(v) == ALPHABET[v]
  {
    assert v < 26 ==> ALPHABET[v] == UPPER[v];
    assert 26 <= v < 52 ==> ALPHABET[v] == LOWER[v - 26];
    assert 52 <= v < 62 ==> ALPHABET[v] == NUMERALS[v - 52];
  }

  /** The six bits a character stands for, none of them set in padding. */
  function SixBits(c: char): nat {
    if c == PAD || DigitValue(c).None? then 0 else DigitValue(c).value
  }

  /** Byte `i`, and zero bits past the end. */
  function ByteOr0(bytes: seq<Byte>, i: nat): Byte {
    if i < |bytes| then bytes[i] else 0
  }

  /**
   * Every group of three bytes is one of four characters that spell its 24 bits, first bits first; the last group is
   * filled with zero bits, and a padding character stands for each byte it lacks.
   */
  lemma {:induction false} GroupsSpellBytes(bytes: seq<Byte>, g: nat)
    requires 3 * g < |bytes|
    ensures 4 * g + 4 <= |Encode(bytes)|
    ensures var s := Encode(bytes);
            && SixBits(s[4 * g]) * 262144 + SixBits(s[4 * g + 1]) * 4096 + SixBits(s[4 * g + 2]) * 64 + SixBits(s[4 * g + 3])
               == bytes[3 * g] * 65536 + ByteOr0(bytes, 3 * g + 1) * 256 + ByteOr0(bytes, 3 * g + 2)
            && (s[4 * g + 2] == PAD <==> |bytes| <= 3 * g + 1) && (s[4 * g + 3] == PAD <==> |bytes| <= 3 * g + 2)
            && s[4 * g] != PAD && s[4 * g + 1] != PAD
  {
    hide Digit, DigitValue;
    if g > 0 {
      GroupsSpellBytes(bytes[3..], g - 1);
      assert Encode(bytes) == Triple(bytes[0], bytes[1], bytes[2]) + Encode(bytes[3..]);
    } else {
      FirstGroupSpells(bytes);
    }
  }

  lemma FirstGroupSpells(bytes: seq<Byte>)
    requires bytes != []
    ensures |Encode(bytes)| >= 4
    ensures var s := Encode(bytes);
            && SixBits(s[0]) * 262144 + SixBits(s[1]) * 4096 + SixBits(s[2]) * 64 + SixBits(s[3])
               == bytes[0] * 65536 + ByteOr0(bytes, 1) * 256 + ByteOr0(bytes, 2)
            && (s[2] == PAD <==> |bytes| <= 1) && (s[3] == PAD <==> |bytes| <= 2)
            && s[0] != PAD && s[1] != PAD
  {
    hide Digit, DigitValue;
    var a, b, c := bytes[0], ByteOr0(bytes, 1), ByteOr0(bytes, 2);
    PadIsNoDigit();
    DigitRoundTrip(a / 4);
    DigitRoundTrip(a % 4 * 16 + b / 16);
    DigitRoundTrip(b % 16 * 4 + c / 64);
    DigitRoundTrip(c % 64);
  }

  lemma DigitOfValue(c: char)
    requires DigitValue(c).Some?
    ensures Digit(DigitValue(c).value) == c
  {
  }

  lemma GroupRoundTrip(v: nat, w: nat, x: nat, y: nat)
    requires v < 64 && w < 64 && x < 64 && y < 64
    ensures var b := GroupBytes(v, w, x, y);
            && b[0] / 4 == v && b[0] % 4 * 16 + b[1] / 16 == w && b[1] % 16 * 4 + b[2] / 64 == x && b[2] % 64 == y
  {
    assert (v * 4 + w / 16) / 4 == v && (v * 4 + w / 16) % 4 == w / 16;
    assert (w % 16 * 16 + x / 4) / 16 == w % 16 && (w % 16 * 16 + x / 4) % 16 == x / 4;
    assert (x % 4 * 64 + y) / 64 == x % 4 && (x % 4 * 64 + y) % 64 == y;
  }

  lemma GroupWritten(v: nat, w: nat, x: nat, y: nat, rest: seq<Byte>)
    requires v < 64 && w < 64 && x < 64 && y < 64
    ensures Encode(GroupBytes(v, w, x, y) + rest) == [Digit(v), Digit(w), Digit(x), Digit(y)] + Encode(rest)
  {
    hide Digit;
    GroupRoundTrip(v, w, x, y);
    var b := GroupBytes(v, w, x, y);
    assert (b + rest)[3..] == rest;
  }

  lemma TailWritten(v: nat, w: nat, x: nat)
    requires v < 64 && w < 64 && x < 64
    ensures x % 4 == 0 ==> Encode([v * 4 + w / 16, w % 16 * 16 + x / 4]) == [Digit(v), Digit(w), Digit(x), PAD]
    ensures w % 16 == 0 ==> Encode([v * 4 + w / 16]) == [Digit(v), Digit(w), PAD, PAD]
  {
    hide Digit;
    GroupRoundTrip(v, w, x, 0);
  }

  lemma FirstDigits(s: string)
    requires s != "" && Decode(s).Some?
    ensures |s| >= 4 && DigitValue(s[0]).Some? && DigitValue(s[1]).Some?
    ensures var v, w, x, y := DigitValue(s[0]), DigitValue(s[1]), DigitValue(s[2]), DigitValue(s[3]);
            if x.Some? && y.Some? then
              && Decode(s[4..]).Some?
              && Decode(s).value == GroupBytes(v.value, w.value, x.value, y.value) + Decode(s[4..]).value
            else if x.Some? then
              && s == [s[0], s[1], s[2], PAD] && x.value % 4 == 0
              && Decode(s).value == [v.value * 4 + w.value / 16, w.value % 16 * 16 + x.value / 4]
            else s == [s[0], s[1], PAD, PAD] && w.value % 16 == 0 && Decode(s).value == [v.value * 4 + w.value / 16]
  {
    hide Digit, DigitValue, GroupBytes;
    PadIsNoDigit();
  }

  /** Only what encoding writes is decoded: encoding gives the text back. */
  lemma {:induction false} EncodeOfDecode(s: string)
    requires Decode(s).Some?
    ensures Encode(Decode(s).value) == s
  {
    hide *;
    if s != "" {
      FirstDigits(s);
      var v, w, x, y := DigitValue(s[0]), DigitValue(s[1]), DigitValue(s[2]), DigitValue(s[3]);
      DigitOfValue(s[0]);
      DigitOfValue(s[1]);
      if x.Some? && y.Some? {
        DigitOfValue(s[2]);
        DigitOfValue(s[3]);
        EncodeOfDecode(s[4..]);
        GroupWritten(v.value, w.value, x.value, y.value, Decode(s[4..]).value);
        assert s == [s[0], s[1], s[2], s[3]] + s[4..];
      } else if x.Some? {
        DigitOfValue(s[2]);
        TailWritten(v.value, w.value, x.value);
      } else {
        TailWritten(v.value, w.value, 0);
      }
    } else {
      NothingWritten();
    }
  }

  lemma NothingWritten()
    ensures Decode("") == Some([]) && Encode([]) == ""
  {
  }

  /** Four characters for every three bytes begun. */
  lemma {:induction false} EncodedLength(bytes: seq<Byte>)
    ensures |Encode(bytes)| == 4 * ((|bytes| + 2) / 3)
  {
    hide Digit;
    if |bytes| > 2 {
      EncodedLength(bytes[3..]);
      assert |Encode(bytes)| == 4 + |Encode(bytes[3..])|;
    }
  }
}
