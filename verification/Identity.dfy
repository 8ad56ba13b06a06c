/** The identity behind a node id: its low 256 bits, whatever form the id is given in. */
module Identity {

  import opened Modular
  import opened Options

  /** What a caller may hand over: a BigInt, a string, or something else. */
  datatype Given = Big(n: nat) | Text(s: string) | Other

  const HEX_DIGITS: string := "0123456789abcdef"

  function HexDigit(d: nat): (c: char)
    requires d < 16
    ensures c in HEX_DIGITS
  {
    HEX_DIGITS[d]
  }

  /** The last `width` digits of a number in lower-case hex, padded with zeros. */
  function LowHex(n: nat, width: nat): (s: string)
    ensures |s| == width && forall c :: c in s ==> c in HEX_DIGITS
  {
    if width == 0 then "" else LowHex(n / 16, width - 1) + [HexDigit(n % 16)]
  }

  predicate IsHex(s: string) {
    forall c :: c in s ==> c in HEX_DIGITS
  }

  /** `identitySuffix`: the guard key of an id, or nothing for what is no id. */
  function IdentitySuffix(id: Given): (key: Option<string>)
    ensures key.Some? ==> |key.value| == 64 && IsHex(key.value)
  {
    match id
    case Big(n) => Some(LowHex(n, 64))
    case Text(s) =>
      if |s| == 66 && IsHex(s) then Some(s[2..])
      else if |s| == 64 && IsHex(s) then Some(s)
      else None
    case Other => None
  }

  lemma {:induction false} LowHexDrops(n: nat, width: nat, drop: nat)
    ensures LowHex(n, drop + width)[drop..] == LowHex(n, width)
  {
    hide HexDigit;
    if width > 0 {
      LowHexDrops(n / 16, width - 1, drop);
      var all, digit := LowHex(n / 16, drop + (width - 1)), HexDigit(n % 16);
      assert (all + [digit])[drop..] == all[drop..] + [digit];
    }
  }

  /** An id, its full hex form and its bare 256-bit form all have one key. */
  lemma SuffixOfEveryForm(n: nat)
    ensures IdentitySuffix(Text(LowHex(n, 66))) == IdentitySuffix(Big(n))
    ensures IdentitySuffix(Text(LowHex(n, 64))) == IdentitySuffix(Big(n))
  {
    LowHexDrops(n, 64, 2);
  }

  /** The region byte in front never changes the key. */
  lemma RegionIsIgnored(region: string, other: string, bare: string)
    requires |region| == |other| == 2 && IsHex(region) && IsHex(other)
    requires |bare| == 64 && IsHex(bare)
    ensures IdentitySuffix(Text(region + bare)) == IdentitySuffix(Text(other + bare)) == Some(bare)
  {
    assert (region + bare)[2..] == bare && (other + bare)[2..] == bare;
  }

  function Pow16(k: nat): (p: nat)
    ensures p > 0
  {
    if k == 0 then 1 else 16 * Pow16(k - 1)
  }

  /** The value of a hex digit, by its character. */
  function DigitValue(c: char): int {
    if '0' <= c <= '9' then c as int - '0' as int else c as int - 'a' as int + 10
  }

  /** The number a hex text spells, most significant digit first. */
  function HexValue(s: string): int {
    if s == "" then 0 else 16 * HexValue(s[..|s| - 1]) + DigitValue(s[|s| - 1])
  }

  /** The key of an id spells its low 256 bits. */
  lemma KeySpellsLowBits(n: nat)
    ensures HexValue(IdentitySuffix(Big(n)).value) == n % Pow16(64)
  {
    LowHexValue(n, 64);
  }

  lemma {:induction false} LowHexValue(n: nat, width: nat)
    ensures HexValue(LowHex(n, width)) == n % Pow16(width)
  {
    if width > 0 {
      LowHexValue(n / 16, width - 1);
      var s := LowHex(n, width);
      assert s[..width - 1] == LowHex(n / 16, width - 1) && s[width - 1] == HexDigit(n % 16);
      DigitOfValue(n % 16);
      RemainderOf16(n, Pow16(width - 1));
    }
  }

  lemma DigitOfValue(d: nat)
    requires d < 16
    ensures DigitValue(HexDigit(d)) == d
  {
  }

  /** A remainder modulo sixteen times p, digit by digit. */
  lemma RemainderOf16(n: nat, p: nat)
    requires p > 0
    ensures n % (16 * p) == 16 * (n / 16 % p) + n % 16
  {
    var q, r := n / 16 / p, n / 16 % p;
    Scale16(q, p);
    assert n == q * (16 * p) + (16 * r + n % 16);
    RemainderUnique(n, q, 16 * r + n % 16, 16 * p);
  }

  /** The low digits agree exactly when the difference is a multiple of their weight. */
  ghost predicate AgreeBelow(a: nat, b: nat, width: nat) {
    exists q: int :: a - b == q * Pow16(width)
  }

  lemma HexDigitTellsApart(d: nat, e: nat)
    requires d < 16 && e < 16
    ensures HexDigit(d) == HexDigit(e) <==> d == e
  {
    assert forall i, j :: 0 <= i < j < 16 ==> HEX_DIGITS[i] != HEX_DIGITS[j];
  }

  lemma {:induction false} LowHexEqualIff(a: nat, b: nat, width: nat)
    ensures LowHex(a, width) == LowHex(b, width) <==> AgreeBelow(a, b, width)
  {
    if width == 0 {
      assert a - b == (a - b) * Pow16(0);
    } else {
      LowHexEqualIff(a / 16, b / 16, width - 1);
      LowHexLast(a, b, width);
      AgreeBelowLast(a, b, width);
    }
  }

  /** Equal digits are equal earlier digits and an equal last one. */
  lemma LowHexLast(a: nat, b: nat, width: nat)
    requires width > 0
    ensures LowHex(a, width) == LowHex(b, width) <==>
            LowHex(a / 16, width - 1) == LowHex(b / 16, width - 1) && a % 16 == b % 16
  {
    HexDigitTellsApart(a % 16, b % 16);
    var x, y := LowHex(a, width), LowHex(b, width);
    assert x[..width - 1] == LowHex(a / 16, width - 1) && y[..width - 1] == LowHex(b / 16, width - 1);
    assert x[width - 1] == HexDigit(a % 16) && y[width - 1] == HexDigit(b % 16);
  }

  lemma AgreeBelowLast(a: nat, b: nat, width: nat)
    requires width > 0
    ensures AgreeBelow(a, b, width) <==> AgreeBelow(a / 16, b / 16, width - 1) && a % 16 == b % 16
  {
    var p := Pow16(width - 1);
    if AgreeBelow(a / 16, b / 16, width - 1) && a % 16 == b % 16 {
      var q: int :| a / 16 - b / 16 == q * p;
      Scale16(q, p);
      assert a - b == q * Pow16(width);
    }
    if AgreeBelow(a, b, width) {
      var q: int :| a - b == q * Pow16(width);
      Scale16(q, p);
      SixteenApart(a, b, q * p);
      assert a / 16 - b / 16 == q * p;
    }
  }

  lemma SixteenApart(a: nat, b: nat, d: int)
    requires a - b == 16 * d
    ensures a / 16 - b / 16 == d && a % 16 == b % 16
  {
  }

  lemma Scale16(q: int, p: int)
    ensures q * (16 * p) == 16 * (q * p)
  {
  }

  /** Two ids share a key exactly when they agree in their low 256 bits. */
  lemma SameSuffixIff(a: nat, b: nat)
    ensures IdentitySuffix(Big(a)) == IdentitySuffix(Big(b)) <==> AgreeBelow(a, b, 64)
  {
    LowHexEqualIff(a, b, 64);
  }
}
