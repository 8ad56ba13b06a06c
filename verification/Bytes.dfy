/** Bytes and their little-endian and big-endian readings. */
module Bytes {
  import opened Modular

  type Byte = x: int | 0 <= x < 256

  /** Results of operations that throw in the source; the error is the message or the machine code. */
  datatype Result<+T> = Ok(value: T) | Err(error: string)

  function Pow256(n: nat): (r: nat)
    ensures r >= 1
  {
    if n == 0 then 1 else 256 * Pow256(n - 1)
  }

  /** The number a byte string denotes, least significant byte first. */
  function LeValue(b: seq<Byte>): nat {
    if b == [] then 0 else b[0] + 256 * LeValue(b[1..])
  }

  /** The first `len` bytes of a number, least significant byte first. */
  function LeBytes(n: nat, len: nat): (b: seq<Byte>)
    ensures |b| == len
  {
    if len == 0 then [] else [n % 256] + LeBytes(n / 256, len - 1)
  }

  lemma {:induction false} LeValueBound(b: seq<Byte>)
    ensures LeValue(b) < Pow256(|b|)
  {
    if b != [] {
      LeValueBound(b[1..]);
    }
  }

  /** Encoding what was decoded gives the bytes back. */
  lemma {:induction false} LeBytesOfLeValue(b: seq<Byte>)
    ensures LeBytes(LeValue(b), |b|) == b
  {
    if b != [] {
      LeBytesOfLeValue(b[1..]);
      assert LeValue(b) % 256 == b[0] && LeValue(b) / 256 == LeValue(b[1..]);
    }
  }

  /** Decoding what was encoded gives the number back, if it fits. */
  lemma {:induction false} LeValueOfLeBytes(n: nat, len: nat)
    requires n < Pow256(len)
    ensures LeValue(LeBytes(n, len)) == n
  {
    if len > 0 {
      LeValueOfLeBytes(n / 256, len - 1);
      assert LeBytes(n, len)[1..] == LeBytes(n / 256, len - 1);
    }
  }

  /** The first bytes are the low digits: what follows `k` bytes weighs 256^k. */
  lemma {:induction false} LeValueAppend(b: seq<Byte>, c: seq<Byte>)
    ensures LeValue(b + c) == LeValue(b) + Pow256(|b|) * LeValue(c)
  {
    if b == [] {
      assert b + c == c;
    } else {
      LeValueAppend(b[1..], c);
      assert (b + c)[1..] == b[1..] + c;
      assert 256 * (Pow256(|b| - 1) * LeValue(c)) == Pow256(|b|) * LeValue(c);
    }
  }

  /** 256^n is 2^(8n). */
  lemma {:induction false} Pow256IsExp2(n: nat)
    ensures Pow256(n) == Exp2(8 * n)
  {
    if n > 0 {
      Pow256IsExp2(n - 1);
      Exp2Add(8, 8 * (n - 1));
      Exp2Of8();
    }
  }

  lemma Exp2Of8()
    ensures Exp2(8) == 256
  {
    assert Exp2(4) == 2 * Exp2(3) && Exp2(2) == 4 && Exp2(3) == 2 * Exp2(2);
    Exp2Product(4, 4, 16, 16);
  }

  /** 32 bytes: the two top windows of the field's and the group order's numbers. */
  lemma TopWindows()
    ensures Exp2(248) == Pow256(31) && Exp2(252) == 16 * Pow256(31) && Exp2(255) == 128 * Pow256(31)
    ensures Exp2(256) == Pow256(32) == 256 * Pow256(31)
  {
    Pow256IsExp2(31);
    Pow256IsExp2(32);
    assert Exp2(249) == 2 * Exp2(248) && Exp2(250) == 2 * Exp2(249);
    assert Exp2(251) == 2 * Exp2(250) && Exp2(252) == 2 * Exp2(251);
    assert Exp2(253) == 2 * Exp2(252) && Exp2(254) == 2 * Exp2(253);
    assert Exp2(255) == 2 * Exp2(254) && Exp2(256) == 2 * Exp2(255);
  }

  // ---- byte strings laid end to end ----

  function Joined(chunks: seq<seq<Byte>>): seq<Byte> {
    if chunks == [] then [] else Joined(chunks[..|chunks| - 1]) + chunks[|chunks| - 1]
  }

  lemma JoinedPrefix(chunks: seq<seq<Byte>>, i: nat)
    ensures Joined(chunks[..0]) == []
    ensures i < |chunks| ==> Joined(chunks[..i + 1]) == Joined(chunks[..i]) + chunks[i]
  {
    if i < |chunks| {
      assert chunks[..i + 1][..i] == chunks[..i];
    }
  }

  lemma {:induction false} JoinedGrows(chunks: seq<seq<Byte>>, i: nat)
    requires i <= |chunks|
    ensures |Joined(chunks[..i])| <= |Joined(chunks)|
    decreases |chunks|
  {
    if i < |chunks| {
      var init := chunks[..|chunks| - 1];
      JoinedGrows(init, i);
      assert init[..i] == chunks[..i];
    } else {
      assert chunks[..i] == chunks;
    }
  }

  lemma JoinedNext(chunks: seq<seq<Byte>>, c: seq<Byte>)
    ensures Joined(chunks + [c]) == Joined(chunks) + c
  {
    assert (chunks + [c])[..|chunks|] == chunks;
  }

  lemma {:induction false} JoinedAppend(s: seq<seq<Byte>>, t: seq<seq<Byte>>)
    ensures Joined(s + t) == Joined(s) + Joined(t)
  {
    hide Joined;
    if t == [] {
      assert s + t == s;
      JoinedPrefix(t, 0);
      assert t == t[..0];
    } else {
      var init, last := t[..|t| - 1], t[|t| - 1];
      JoinedAppend(s, init);
      assert t == init + [last] && s + t == (s + init) + [last];
      JoinedNext(init, last);
      JoinedNext(s + init, last);
    }
  }

  lemma JoinedOne(c: seq<Byte>)
    ensures Joined([c]) == c
  {
    JoinedNext([], c);
    assert [] + [c] == [c];
  }
}
