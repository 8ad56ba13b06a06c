/** The signed ingest-ack proof: a fixed-width transcript, built alike by signer and verifier. */
module AckProof {

  import opened Bytes
  import Identity
  import opened Options

  const DOMAIN_BYTES: nat := 25
  const ID_BYTES: nat := 33
  const MSG_ID_BYTES: nat := 32
  const ATTEMPT_ID_BYTES: nat := 16
  const FLIGHT_NONCE_BYTES: nat := 16
  const ROOT_PUB_BYTES: nat := 32
  const SIG_BYTES: nat := 64
  const TRANSCRIPT_BYTES: nat := 197
  const MAX_SAFE_INTEGER: nat := 9007199254740991

  // ---- hex ----

  function NibbleOf(c: char): (v: Option<nat>)
    ensures v.Some? ==> v.value < 16
  {
    if '0' <= c <= '9' then Some(c as int - '0' as int)
    else if 'a' <= c <= 'f' then Some(c as int - 'a' as int + 10)
    else if 'A' <= c <= 'F' then Some(c as int - 'A' as int + 10)
    else None
  }

  function Nibble(v: nat): char
    requires v < 16
  {
    if v < 10 then (v + '0' as int) as char else (v - 10 + 'a' as int) as char
  }

  predicate IsHexText(s: string) {
    s != "" && |s| % 2 == 0 && forall c :: c in s ==> NibbleOf(c).Some?
  }

  /** Two digits a byte, for text that is all digits and even. */
  function HexBytes(s: string): (b: seq<Byte>)
    requires |s| % 2 == 0 && forall c :: c in s ==> NibbleOf(c).Some?
    ensures |b| == |s| / 2
  {
    if s == "" then [] else [16 * NibbleOf(s[0]).value + NibbleOf(s[1]).value] + HexBytes(s[2..])
  }

  function HexText(b: seq<Byte>): (s: string)
    ensures |s| == 2 * |b|
  {
    if b == [] then "" else [Nibble(b[0] / 16), Nibble(b[0] % 16)] + HexText(b[1..])
  }

  /** What a hex field of an expected width decodes to. */
  function Decoded(s: string, width: nat): Option<seq<Byte>> {
    if IsHexText(s) && |s| == 2 * width then Some(HexBytes(s)) else None
  }

  lemma {:induction false} HexBytesAppend(s: string, t: string)
    requires |s| % 2 == 0 && forall c :: c in s ==> NibbleOf(c).Some?
    requires |t| % 2 == 0 && forall c :: c in t ==> NibbleOf(c).Some?
    ensures HexBytes(s + t) == HexBytes(s) + HexBytes(t)
  {
    hide NibbleOf;
    if s == "" {
      assert s + t == t;
    } else {
      HexBytesAppend(s[2..], t);
      assert (s + t)[2..] == s[2..] + t;
      assert (s + t)[0] == s[0] && (s + t)[1] == s[1];
    }
  }

  lemma NibbleRoundTrip(v: nat)
    requires v < 16
    ensures NibbleOf(Nibble(v)) == Some(v)
  {
  }

  /** Decoding what was encoded gives the bytes back. */
  lemma {:induction false} HexRoundTrip(b: seq<Byte>)
    ensures forall c :: c in HexText(b) ==> NibbleOf(c).Some?
    ensures HexBytes(HexText(b)) == b
  {
    if b != [] {
      hide Nibble, NibbleOf;
      HexRoundTrip(b[1..]);
      NibbleRoundTrip(b[0] / 16);
      NibbleRoundTrip(b[0] % 16);
      assert HexText(b)[2..] == HexText(b[1..]);
    }
  }

  lemma DecodedHexText(b: seq<Byte>)
    requires b != []
    ensures Decoded(HexText(b), |b|) == Some(b)
  {
    HexRoundTrip(b);
  }

  /** The hex text of bytes spells the number they spell, most significant first. */
  lemma {:induction false} HexTextReads(b: seq<Byte>)
    ensures Identity.HexValue(HexText(b)) == BeValue(b)
  {
    if b != [] {
      var init, last := b[..|b| - 1], b[|b| - 1];
      HexTextReads(init);
      HexTextLast(init, last);
      assert b == init + [last];
      var s := HexText(init);
      assert (s + [Nibble(last / 16), Nibble(last % 16)])[..|s| + 1] == s + [Nibble(last / 16)];
      assert (s + [Nibble(last / 16)])[..|s|] == s;
    }
  }

  lemma {:induction false} HexTextLast(init: seq<Byte>, last: Byte)
    ensures HexText(init + [last]) == HexText(init) + [Nibble(last / 16), Nibble(last % 16)]
  {
    hide Nibble;
    if init != [] {
      HexTextLast(init[1..], last);
      assert (init + [last])[1..] == init[1..] + [last];
    }
  }

  function LowerChar(c: char): char {
    if 'A' <= c <= 'Z' then (c as int - 'A' as int + 'a' as int) as char else c
  }

  /** `toLowerCase`, as far as hex text goes. */
  function Lower(s: string): (t: string)
    ensures |t| == |s|
  {
    if s == "" then "" else [LowerChar(s[0])] + Lower(s[1..])
  }

  lemma LowerNibble(c: char)
    ensures NibbleOf(c).Some? ==> NibbleOf(LowerChar(c)) == NibbleOf(c)
  {
  }

  lemma {:induction false} LowerBytes(s: string)
    requires |s| % 2 == 0 && forall c :: c in s ==> NibbleOf(c).Some?
    ensures forall c :: c in Lower(s) ==> NibbleOf(c).Some?
    ensures HexBytes(Lower(s)) == HexBytes(s)
  {
    if s != "" {
      hide NibbleOf, LowerChar;
      LowerBytes(s[2..]);
      LowerNibble(s[0]);
      LowerNibble(s[1]);
      assert Lower(s) == [LowerChar(s[0]), LowerChar(s[1])] + Lower(s[2..]);
      assert Lower(s)[2..] == Lower(s[2..]);
    }
  }

  /** Lower case changes no decoded field. */
  lemma DecodedLower(s: string, width: nat)
    requires Decoded(s, width).Some?
    ensures Decoded(Lower(s), width) == Decoded(s, width)
  {
    LowerBytes(s);
  }

  // ---- the byte helpers ----

  /** `hexToBytes` with an expected width. */
  method HexToBytes(hex: string, width: nat) returns (out: Option<seq<Byte>>)
    ensures out == Decoded(hex, width)
  {
    hide NibbleOf, HexBytes;
    if |hex| == 0 || |hex| % 2 == 1 {
      return None;
    }
    for i := 0 to |hex|
      invariant forall c :: c in hex[..i] ==> NibbleOf(c).Some?
    {
      if NibbleOf(hex[i]).None? {
        return None;
      }
    }
    assert hex[..|hex|] == hex;
    var n := |hex| / 2;
    if n != width {
      return None;
    }
    var bytes := new Byte[n](_ => 0);
    NoHexBytes();
    for i := 0 to n
      invariant bytes.Length == n && bytes[..i] == HexBytes(hex[..2 * i])
    {
      var v := 16 * NibbleOf(hex[2 * i]).value + NibbleOf(hex[2 * i + 1]).value;
      bytes[i] := v;
      HexBytesAppend(hex[..2 * i], hex[2 * i..2 * i + 2]);
      assert hex[..2 * i] + hex[2 * i..2 * i + 2] == hex[..2 * (i + 1)];
      HexPair(hex[2 * i..2 * i + 2]);
    }
    assert hex[..2 * n] == hex;
    assert bytes[..] == bytes[..n];
    return Some(bytes[..]);
  }

  lemma HexPair(s: string)
    requires |s| == 2 && forall c :: c in s ==> NibbleOf(c).Some?
    ensures HexBytes(s) == [16 * NibbleOf(s[0]).value + NibbleOf(s[1]).value]
  {
    hide NibbleOf;
  }

  lemma NoHexBytes()
    ensures HexBytes("") == []
  {
  }

  method BytesToHex(bytes: seq<Byte>) returns (s: string)
    ensures s == HexText(bytes)
  {
    hide Nibble;
    s := "";
    for i := 0 to |bytes|
      invariant s + HexText(bytes[i..]) == HexText(bytes)
    {
      s := s + [Nibble(bytes[i] / 16), Nibble(bytes[i] % 16)];
      assert bytes[i..][1..] == bytes[i + 1..];
    }
  }

  /** The last `len` base-256 digits of a number, most significant first. */
  function BigEndian(n: nat, len: nat): (b: seq<Byte>)
    ensures |b| == len
  {
    if len == 0 then [] else BigEndian(n / 256, len - 1) + [n % 256]
  }

  function BeValue(b: seq<Byte>): nat {
    if b == [] then 0 else 256 * BeValue(b[..|b| - 1]) + b[|b| - 1]
  }

  lemma {:induction false} BigEndianRoundTrip(n: nat, len: nat)
    requires n < Pow256(len)
    ensures BeValue(BigEndian(n, len)) == n
  {
    if len > 0 {
      BigEndianRoundTrip(n / 256, len - 1);
      assert BigEndian(n, len)[..len - 1] == BigEndian(n / 256, len - 1);
    }
  }

  function Shifted(n: nat, k: nat): nat {
    if k == 0 then n else Shifted(n, k - 1) / 256
  }

  lemma {:induction false} BigEndianTail(n: nat, k: nat, len: nat)
    requires k < len
    ensures BigEndian(n, len)[len - 1 - k] == Shifted(n, k) % 256
  {
    if k > 0 {
      BigEndianTail(n / 256, k - 1, len - 1);
      ShiftedInside(n, k);
    }
  }

  lemma {:induction false} ShiftedInside(n: nat, k: nat)
    requires k > 0
    ensures Shifted(n, k) == Shifted(n / 256, k - 1)
  {
    if k > 1 {
      ShiftedInside(n, k - 1);
    }
  }

  /** `u64be`: filled from the last byte back. */
  method U64Be(n: nat) returns (b: array<Byte>)
    ensures fresh(b) && b[..] == BigEndian(n, 8)
  {
    b := new Byte[8](_ => 0);
    var v := n;
    var i := 8;
    while i > 0
      invariant b.Length == 8 && 0 <= i <= 8 && v == Shifted(n, 8 - i)
      invariant forall j :: i <= j < 8 ==> b[j] == BigEndian(n, 8)[j]
    {
      i := i - 1;
      BigEndianTail(n, 7 - i, 8);
      b[i] := v % 256;
      v := v / 256;
    }
  }

  /** `set`: a chunk copied into the buffer at an offset. */
  method CopyInto(out: array<Byte>, off: nat, c: seq<Byte>)
    requires off + |c| <= out.Length
    modifies out
    ensures forall k :: 0 <= k < out.Length ==> out[k] == if off <= k < off + |c| then c[k - off] else old(out[k])
  {
    for j := 0 to |c|
      invariant forall k :: 0 <= k < out.Length ==> out[k] == if off <= k < off + j then c[k - off] else old(out[k])
    {
      out[off + j] := c[j];
    }
  }

  /** `concat`. */
  method Concat(chunks: seq<seq<Byte>>) returns (out: array<Byte>)
    ensures fresh(out) && out[..] == Joined(chunks)
  {
    hide Joined;
    var len := 0;
    JoinedPrefix(chunks, 0);
    for i := 0 to |chunks|
      invariant len == |Joined(chunks[..i])|
    {
      JoinedPrefix(chunks, i);
      len := len + |chunks[i]|;
    }
    assert chunks[..|chunks|] == chunks;
    out := new Byte[len](_ => 0);
    var off := 0;
    for i := 0 to |chunks|
      invariant off == |Joined(chunks[..i])| <= out.Length == |Joined(chunks)| && fresh(out)
      invariant out[..off] == Joined(chunks[..i])
    {
      JoinedPrefix(chunks, i);
      JoinedGrows(chunks, i + 1);
      ghost var before := out[..off];
      CopyInto(out, off, chunks[i]);
      assert out[..off + |chunks[i]|] == before + chunks[i];
      off := off + |chunks[i]|;
    }
    assert out[..] == out[..off];
  }

  // ---- the transcript ----

  /** A field as a caller gives it: bytes, or anything read as text. */
  datatype Field = Raw(bytes: seq<Byte>) | Text(s: string)

  /** The fields of a proof; an epoch that is no integer is absent. */
  datatype Fields = Fields(
    purpose: int, op: int, topicId: Field, msgId: Field, epoch: Option<int>,
    attemptId: Field, ackTo: Field, flightNonce: Field, rootPub: Field)

  /** What the fields say, decoded. */
  datatype Facts = Facts(
    purpose: Byte, op: Byte, topicId: seq<Byte>, msgId: seq<Byte>, epoch: nat,
    attemptId: seq<Byte>, ackTo: seq<Byte>, flightNonce: seq<Byte>, rootPub: seq<Byte>)

  predicate IsPurpose(p: int) {
    p == 1 || p == 2 || p == 3
  }

  predicate IsOp(o: int) {
    o == 1 || o == 2
  }

  function FieldBytes(f: Field, width: nat): Option<seq<Byte>> {
    match f
    case Raw(b) => if |b| == width then Some(b) else None
    case Text(s) => Decoded(s, width)
  }

  predicate IsEpoch(e: Option<int>) {
    e.Some? && 0 <= e.value <= MAX_SAFE_INTEGER
  }

  /** The first thing wrong with a field set, in the order of the checks. */
  function Fault(f: Fields): Option<string> {
    if !IsPurpose(f.purpose) then Some("bad_purpose")
    else if !IsOp(f.op) then Some("bad_op")
    else if FieldBytes(f.topicId, ID_BYTES).None? then Some("bad_topic")
    else if FieldBytes(f.msgId, MSG_ID_BYTES).None? then Some("bad_msgid")
    else if !IsEpoch(f.epoch) then Some("bad_epoch")
    else if FieldBytes(f.attemptId, ATTEMPT_ID_BYTES).None? then Some("bad_attempt")
    else if FieldBytes(f.ackTo, ID_BYTES).None? then Some("bad_ackto")
    else if FieldBytes(f.flightNonce, FLIGHT_NONCE_BYTES).None? then Some("bad_nonce")
    else if FieldBytes(f.rootPub, ROOT_PUB_BYTES).None? then Some("bad_rootpub")
    else None
  }

  function FactsOf(f: Fields): Facts
    requires Fault(f).None?
  {
    Facts(f.purpose, f.op,
          FieldBytes(f.topicId, ID_BYTES).value, FieldBytes(f.msgId, MSG_ID_BYTES).value, f.epoch.value,
          FieldBytes(f.attemptId, ATTEMPT_ID_BYTES).value, FieldBytes(f.ackTo, ID_BYTES).value,
          FieldBytes(f.flightNonce, FLIGHT_NONCE_BYTES).value, FieldBytes(f.rootPub, ROOT_PUB_BYTES).value)
  }

  predicate WidthsOk(x: Facts) {
    && |x.topicId| == ID_BYTES && |x.msgId| == MSG_ID_BYTES && x.epoch <= MAX_SAFE_INTEGER
    && |x.attemptId| == ATTEMPT_ID_BYTES && |x.ackTo| == ID_BYTES
    && |x.flightNonce| == FLIGHT_NONCE_BYTES && |x.rootPub| == ROOT_PUB_BYTES
  }

  /** The domain AXONA_INGEST_ACK_PROOF_V1 in ASCII. */
  function DomainBytes(): (b: seq<Byte>)
    ensures |b| == DOMAIN_BYTES
  {
    [65, 88, 79, 78, 65, 95, 73, 78, 71, 69, 83, 84, 95, 65, 67, 75, 95, 80, 82, 79, 79, 70, 95, 86, 49]
  }

  function Transcript(x: Facts): seq<Byte> {
    DomainBytes() + [x.purpose] + [x.op] + x.topicId + x.msgId + BigEndian(x.epoch, 8)
    + x.attemptId + x.ackTo + x.flightNonce + x.rootPub
  }

  const DOMAIN: string := "AXONA_INGEST_ACK_PROOF_V1"

  lemma DomainIsAscii(i: nat)
    requires i < DOMAIN_BYTES
    ensures |DOMAIN| == DOMAIN_BYTES && DomainBytes()[i] == DOMAIN[i] as int
  {
  }

  // ---- which field is at fault ----

  const HEX_CHARS: set<char> :=
    {'0', '1', '2', '3', '4', '5', '6', '7', '8', '9', 'a', 'b', 'c', 'd', 'e', 'f', 'A', 'B', 'C', 'D', 'E', 'F'}

  /** So many bytes, or text of twice so many hex digits in either case. */
  predicate HasWidth(f: Field, width: nat) {
    match f
    case Raw(b) => |b| == width
    case Text(s) => |s| == 2 * width && forall c :: c in s ==> c in HEX_CHARS
  }

  /** The checks in their order, each by the code it throws. */
  const CODES: seq<string> :=
    ["bad_purpose", "bad_op", "bad_topic", "bad_msgid", "bad_epoch", "bad_attempt", "bad_ackto", "bad_nonce", "bad_rootpub"]

  predicate Passes(f: Fields, check: nat) {
    match check
    case 0 => f.purpose in {1, 2, 3}
    case 1 => f.op in {1, 2}
    case 2 => HasWidth(f.topicId, 33)
    case 3 => HasWidth(f.msgId, 32)
    case 4 => f.epoch.Some? && 0 <= f.epoch.value < 9007199254740992
    case 5 => HasWidth(f.attemptId, 16)
    case 6 => HasWidth(f.ackTo, 33)
    case 7 => HasWidth(f.flightNonce, 16)
    case _ => HasWidth(f.rootPub, 32)
  }

  lemma WidthIsDecoded(f: Field, width: nat)
    requires width > 0
    ensures HasWidth(f, width) <==> FieldBytes(f, width).Some?
  {
    assert forall c :: c in HEX_CHARS <==> NibbleOf(c).Some?;
  }

  /** The code of the first check that fails. */
  function FirstCode(f: Fields, check: nat): Option<string>
    requires check <= |CODES|
    decreases |CODES| - check
  {
    if check == |CODES| then None else if Passes(f, check) then FirstCode(f, check + 1) else Some(CODES[check])
  }

  /** A field set is refused with the code of the first check it fails, and accepted when it passes them all. */
  lemma FaultIsFirst(f: Fields)
    ensures Fault(f) == FirstCode(f, 0)
  {
    hide FieldBytes, HasWidth;
    WidthIsDecoded(f.topicId, 33);
    WidthIsDecoded(f.msgId, 32);
    WidthIsDecoded(f.attemptId, 16);
    WidthIsDecoded(f.ackTo, 33);
    WidthIsDecoded(f.flightNonce, 16);
    WidthIsDecoded(f.rootPub, 32);
    assert FirstCode(f, 7) == if !Passes(f, 7) then Some("bad_nonce") else if !Passes(f, 8) then Some("bad_rootpub") else None;
    assert FirstCode(f, 5) == if !Passes(f, 5) then Some("bad_attempt") else if !Passes(f, 6) then Some("bad_ackto") else FirstCode(f, 7);
    assert FirstCode(f, 3) == if !Passes(f, 3) then Some("bad_msgid") else if !Passes(f, 4) then Some("bad_epoch") else FirstCode(f, 5);
    assert FirstCode(f, 1) == if !Passes(f, 1) then Some("bad_op") else if !Passes(f, 2) then Some("bad_topic") else FirstCode(f, 3);
  }

  /** What a byte string goes on with after a beginning is found right behind that beginning. */
  lemma FieldAt(head: seq<Byte>, field: seq<Byte>, t: seq<Byte>)
    requires head + field <= t
    ensures head <= t && |head| + |field| <= |t| && t[|head|..|head| + |field|] == field
  {
    assert t[..|head + field|] == head + field;
    assert t[|head|..|head| + |field|] == t[..|head + field|][|head|..];
  }

  /** Every field has its place, whatever the others hold. */
  lemma Layout(x: Facts)
    requires WidthsOk(x)
    ensures var t := Transcript(x);
            && |t| == TRANSCRIPT_BYTES
            && t[..25] == DomainBytes() && t[25..26] == [x.purpose] && t[26..27] == [x.op]
            && t[27..60] == x.topicId && t[60..92] == x.msgId && t[92..100] == BigEndian(x.epoch, 8)
            && t[100..116] == x.attemptId && t[116..149] == x.ackTo
            && t[149..165] == x.flightNonce && t[165..197] == x.rootPub
  {
    hide DomainBytes, BigEndian;
    var h0 := DomainBytes();
    var h1 := h0 + [x.purpose];
    var h2 := h1 + [x.op];
    var h3 := h2 + x.topicId;
    var h4 := h3 + x.msgId;
    var h5 := h4 + BigEndian(x.epoch, 8);
    var h6 := h5 + x.attemptId;
    var h7 := h6 + x.ackTo;
    var h8 := h7 + x.flightNonce;
    var t := h8 + x.rootPub;
    FieldAt(h8, x.rootPub, t);
    FieldAt(h7, x.flightNonce, t);
    FieldAt(h6, x.ackTo, t);
    FieldAt(h5, x.attemptId, t);
    FieldAt(h4, BigEndian(x.epoch, 8), t);
    FieldAt(h3, x.msgId, t);
    FieldAt(h2, x.topicId, t);
    FieldAt(h1, [x.op], t);
    FieldAt(h0, [x.purpose], t);
  }

  /** No two sets of facts share their signed bytes. */
  lemma TranscriptInjective(x: Facts, y: Facts)
    requires WidthsOk(x) && WidthsOk(y)
    ensures Transcript(x) == Transcript(y) <==> x == y
  {
    hide Transcript, BigEndian, DomainBytes;
    Layout(x);
    Layout(y);
    assert Transcript(x) == Transcript(y) ==> [x.purpose] == [y.purpose] && [x.op] == [y.op];
    assert Pow256(8) == 18446744073709551616;
    BigEndianRoundTrip(x.epoch, 8);
    BigEndianRoundTrip(y.epoch, 8);
  }

  lemma FactsFit(f: Fields)
    requires Fault(f).None?
    ensures WidthsOk(FactsOf(f))
  {
    hide IsHexText;
  }

  /** Two field sets share their signed bytes exactly when they say the same, however each field was given. */
  lemma SignedBytesTellFacts(f: Fields, g: Fields)
    requires Fault(f).None? && Fault(g).None?
    ensures Transcript(FactsOf(f)) == Transcript(FactsOf(g)) <==> FactsOf(f) == FactsOf(g)
  {
    hide Fault, FactsOf, Transcript;
    FactsFit(f);
    FactsFit(g);
    TranscriptInjective(FactsOf(f), FactsOf(g));
  }

  method ReadField(f: Field, width: nat) returns (b: Option<seq<Byte>>)
    ensures b == FieldBytes(f, width)
  {
    match f {
      case Raw(bytes) => b := if |bytes| == width then Some(bytes) else None;
      case Text(s) => b := HexToBytes(s, width);
    }
  }

  /** `buildTranscript`: the bytes to sign, or the code of the first fault. */
  method BuildTranscript(f: Fields) returns (r: Result<seq<Byte>>)
    ensures Fault(f).Some? ==> r == Err(Fault(f).value)
    ensures Fault(f).None? ==> r == Ok(Transcript(FactsOf(f)))
  {
    hide FieldBytes, BigEndian, DomainBytes;
    if !IsPurpose(f.purpose) {
      return Err("bad_purpose");
    }
    if !IsOp(f.op) {
      return Err("bad_op");
    }
    var topic := ReadField(f.topicId, ID_BYTES);
    if topic.None? {
      return Err("bad_topic");
    }
    var msg := ReadField(f.msgId, MSG_ID_BYTES);
    if msg.None? {
      return Err("bad_msgid");
    }
    if !IsEpoch(f.epoch) {
      return Err("bad_epoch");
    }
    var attempt := ReadField(f.attemptId, ATTEMPT_ID_BYTES);
    if attempt.None? {
      return Err("bad_attempt");
    }
    var ackTo := ReadField(f.ackTo, ID_BYTES);
    if ackTo.None? {
      return Err("bad_ackto");
    }
    var nonce := ReadField(f.flightNonce, FLIGHT_NONCE_BYTES);
    if nonce.None? {
      return Err("bad_nonce");
    }
    var pub := ReadField(f.rootPub, ROOT_PUB_BYTES);
    if pub.None? {
      return Err("bad_rootpub");
    }
    var epoch := U64Be(f.epoch.value);
    var bytes := Concat([DomainBytes(), [f.purpose], [f.op], topic.value, msg.value, epoch[..],
                         attempt.value, ackTo.value, nonce.value, pub.value]);
    JoinedTen(DomainBytes(), [f.purpose], [f.op], topic.value, msg.value, epoch[..],
              attempt.value, ackTo.value, nonce.value, pub.value);
    return Ok(bytes[..]);
  }

  lemma JoinedFive(a: seq<Byte>, b: seq<Byte>, c: seq<Byte>, d: seq<Byte>, e: seq<Byte>)
    ensures Joined([a, b, c, d, e]) == a + b + c + d + e
  {
    assert [a, b, c, d] + [e] == [a, b, c, d, e];
    JoinedNext([a, b, c, d], e);
    assert [a, b, c] + [d] == [a, b, c, d];
    JoinedNext([a, b, c], d);
    assert [a, b] + [c] == [a, b, c];
    JoinedNext([a, b], c);
    assert [a] + [b] == [a, b];
    JoinedNext([a], b);
    assert [] + [a] == [a];
    JoinedNext([], a);
  }

  lemma JoinedTen(a: seq<Byte>, b: seq<Byte>, c: seq<Byte>, d: seq<Byte>, e: seq<Byte>, f: seq<Byte>,
                  g: seq<Byte>, h: seq<Byte>, i: seq<Byte>, j: seq<Byte>)
    ensures Joined([a, b, c, d, e, f, g, h, i, j]) == a + b + c + d + e + f + g + h + i + j
  {
    hide Joined;
    JoinedFive(a, b, c, d, e);
    JoinedFive(f, g, h, i, j);
    JoinedAppend([a, b, c, d, e], [f, g, h, i, j]);
    assert [a, b, c, d, e] + [f, g, h, i, j] == [a, b, c, d, e, f, g, h, i, j];
    assert a + b + c + d + e + (f + g + h + i + j) == a + b + c + d + e + f + g + h + i + j;
  }

  // ---- signing and verifying ----

  /** The wire frame: text for every id, the operation by name. */
  datatype Frame = Frame(
    purpose: int, op: string, topicId: string, msgId: string, epoch: Option<int>,
    attemptId: string, ackTo: string, flightNonce: string, rootPub: string, sig: string)

  function OpName(op: int): string {
    if op == 1 then "pub" else "kill"
  }

  function OpCode(name: string): Option<int> {
    if name == "pub" then Some(1) else if name == "kill" then Some(2) else None
  }

  function FieldText(f: Field): string {
    match f
    case Raw(b) => HexText(b)
    case Text(s) => Lower(s)
  }

  /** A message id given as text travels in the case it was given. */
  function MsgIdText(f: Field): string {
    match f
    case Raw(b) => HexText(b)
    case Text(s) => s
  }

  function FrameOf(f: Fields, sig: seq<Byte>): Frame {
    Frame(f.purpose, OpName(f.op), FieldText(f.topicId), MsgIdText(f.msgId), f.epoch,
          FieldText(f.attemptId), FieldText(f.ackTo), FieldText(f.flightNonce), FieldText(f.rootPub), HexText(sig))
  }

  /** `signAckProof`: `signer` stands for the root's transport key. */
  method SignAckProof(signer: seq<Byte> -> seq<Byte>, f: Fields) returns (r: Result<Frame>)
    ensures Fault(f).Some? ==> r == Err(Fault(f).value)
    ensures Fault(f).None? ==>
              var sig := signer(Transcript(FactsOf(f)));
              r == if |sig| == SIG_BYTES then Ok(FrameOf(f, sig)) else Err("bad_sig_len")
  {
    hide Fault, Transcript, FieldText, MsgIdText;
    var transcript := BuildTranscript(f);
    if transcript.Err? {
      return Err(transcript.error);
    }
    var sig := signer(transcript.value);
    if |sig| != SIG_BYTES {
      return Err("bad_sig_len");
    }
    return Ok(FrameOf(f, sig));
  }

  /** The field set a verifier rebuilds from a frame, with the key already decoded. */
  function FieldsOf(frame: Frame, op: int, rootPub: seq<Byte>): Fields {
    Fields(frame.purpose, op, Text(frame.topicId), Text(frame.msgId), frame.epoch,
           Text(frame.attemptId), Text(frame.ackTo), Text(frame.flightNonce), Raw(rootPub))
  }

  /** What is wrong with a frame before its signature is looked at. */
  function FrameFault(frame: Frame): Option<string> {
    if OpCode(frame.op).None? then Some("bad_op")
    else if !IsPurpose(frame.purpose) then Some("bad_purpose")
    else if Decoded(frame.sig, SIG_BYTES).None? then Some("bad_sig_len")
    else if Decoded(frame.rootPub, ROOT_PUB_BYTES).None? then Some("bad_rootpub")
    else Fault(FieldsOf(frame, OpCode(frame.op).value, Decoded(frame.rootPub, ROOT_PUB_BYTES).value))
  }

  /** The frame's checks come in the order operation, purpose, signature, key; then those of the fields it names. */
  lemma FrameFaultIsFirst(frame: Frame)
    ensures FrameFault(frame) ==
            if frame.op != "pub" && frame.op != "kill" then Some("bad_op")
            else if frame.purpose !in {1, 2, 3} then Some("bad_purpose")
            else if !HasWidth(Text(frame.sig), 64) then Some("bad_sig_len")
            else if !HasWidth(Text(frame.rootPub), 32) then Some("bad_rootpub")
            else FirstCode(FieldsOf(frame, if frame.op == "pub" then 1 else 2, Decoded(frame.rootPub, 32).value), 0)
  {
    hide HasWidth, Decoded, Fault, FirstCode;
    WidthIsDecoded(Text(frame.sig), 64);
    WidthIsDecoded(Text(frame.rootPub), 32);
    if OpCode(frame.op).Some? && Decoded(frame.rootPub, 32).Some? {
      FaultIsFirst(FieldsOf(frame, OpCode(frame.op).value, Decoded(frame.rootPub, 32).value));
    }
  }

  function FrameFacts(frame: Frame): Facts
    requires FrameFault(frame).None?
  {
    FactsOf(FieldsOf(frame, OpCode(frame.op).value, Decoded(frame.rootPub, ROOT_PUB_BYTES).value))
  }

  /** `verifyAckProof`: `verifies` stands for Ed25519 under a key. */
  method VerifyAckProof(verifies: (seq<Byte>, seq<Byte>, seq<Byte>) -> bool, frame: Frame) returns (r: Result<Fields>)
    ensures FrameFault(frame).Some? ==> r == Err(FrameFault(frame).value)
    ensures FrameFault(frame).None? ==>
              var x := FrameFacts(frame);
              if verifies(x.rootPub, Transcript(x), Decoded(frame.sig, SIG_BYTES).value)
              then r.Ok? && Fault(r.value).None? && FactsOf(r.value) == x
              else r == Err("bad_signature")
  {
    hide Transcript;
    var op := OpCode(frame.op);
    if op.None? {
      return Err("bad_op");
    }
    if !IsPurpose(frame.purpose) {
      return Err("bad_purpose");
    }
    var sig := HexToBytes(frame.sig, SIG_BYTES);
    if sig.None? {
      return Err("bad_sig_len");
    }
    var rootPub := HexToBytes(frame.rootPub, ROOT_PUB_BYTES);
    if rootPub.None? {
      return Err("bad_rootpub");
    }
    var fields := FieldsOf(frame, op.value, rootPub.value);
    var transcript := BuildTranscript(fields);
    if transcript.Err? {
      return Err(transcript.error);
    }
    if !verifies(rootPub.value, transcript.value, sig.value) {
      return Err("bad_signature");
    }
    var lowered := fields.(topicId := Text(Lower(frame.topicId)), attemptId := Text(Lower(frame.attemptId)),
                           ackTo := Text(Lower(frame.ackTo)), flightNonce := Text(Lower(frame.flightNonce)));
    LoweredFacts(fields, lowered);
    return Ok(lowered);
  }

  lemma LoweredField(s: string, width: nat)
    requires FieldBytes(Text(s), width).Some?
    ensures FieldBytes(Text(Lower(s)), width) == FieldBytes(Text(s), width)
  {
    DecodedLower(s, width);
  }

  lemma LoweredFacts(f: Fields, g: Fields)
    requires Fault(f).None? && f.topicId.Text? && f.attemptId.Text? && f.ackTo.Text? && f.flightNonce.Text?
    requires g == f.(topicId := Text(Lower(f.topicId.s)), attemptId := Text(Lower(f.attemptId.s)),
                     ackTo := Text(Lower(f.ackTo.s)), flightNonce := Text(Lower(f.flightNonce.s)))
    ensures Fault(g).None? && FactsOf(g) == FactsOf(f)
  {
    hide FieldBytes, Lower;
    LoweredField(f.topicId.s, ID_BYTES);
    LoweredField(f.attemptId.s, ATTEMPT_ID_BYTES);
    LoweredField(f.ackTo.s, ID_BYTES);
    LoweredField(f.flightNonce.s, FLIGHT_NONCE_BYTES);
  }

  lemma FieldWidth(f: Field, width: nat)
    ensures FieldBytes(f, width).Some? ==> |FieldBytes(f, width).value| == width
  {
  }

  lemma FieldTextDecodes(f: Field, width: nat)
    requires FieldBytes(f, width).Some? && width > 0
    ensures Decoded(FieldText(f), width) == FieldBytes(f, width)
    ensures Decoded(MsgIdText(f), width) == FieldBytes(f, width)
  {
    match f
    case Raw(b) => DecodedHexText(b);
    case Text(s) => DecodedLower(s, width);
  }

  predicate IsLowerHex(s: string) {
    forall c :: c in s ==> '0' <= c <= '9' || 'a' <= c <= 'f'
  }

  lemma {:induction false} HexTextIsLower(b: seq<Byte>)
    ensures IsLowerHex(HexText(b))
  {
    if b != [] {
      HexTextIsLower(b[1..]);
    }
  }

  lemma {:induction false} LowerIsLower(s: string)
    requires forall c :: c in s ==> NibbleOf(c).Some?
    ensures IsLowerHex(Lower(s))
  {
    if s != "" {
      LowerIsLower(s[1..]);
      assert s[0] in s && Lower(s) == [LowerChar(s[0])] + Lower(s[1..]);
    }
  }

  lemma FieldTextIsLower(f: Field, width: nat)
    requires FieldBytes(f, width).Some?
    ensures IsLowerHex(FieldText(f))
  {
    match f
    case Raw(b) => HexTextIsLower(b);
    case Text(s) => LowerIsLower(s);
  }

  /** A frame writes every id but the message's in lower case, however the field was given. */
  lemma FrameIsLowerCase(f: Fields, sig: seq<Byte>)
    requires Fault(f).None?
    ensures var w := FrameOf(f, sig);
            && IsLowerHex(w.topicId) && IsLowerHex(w.attemptId) && IsLowerHex(w.ackTo) && IsLowerHex(w.flightNonce)
            && IsLowerHex(w.rootPub) && IsLowerHex(w.sig)
            && w.msgId == (if f.msgId.Text? then f.msgId.s else HexText(f.msgId.bytes))
  {
    hide FieldBytes, FieldText, IsLowerHex;
    FieldTextIsLower(f.topicId, ID_BYTES);
    FieldTextIsLower(f.attemptId, ATTEMPT_ID_BYTES);
    FieldTextIsLower(f.ackTo, ID_BYTES);
    FieldTextIsLower(f.flightNonce, FLIGHT_NONCE_BYTES);
    FieldTextIsLower(f.rootPub, ROOT_PUB_BYTES);
    HexTextIsLower(sig);
  }

  /** The verifier rebuilds exactly the facts that were signed. */
  lemma FrameKeepsFacts(f: Fields, sig: seq<Byte>)
    requires Fault(f).None? && |sig| == SIG_BYTES
    ensures FrameFault(FrameOf(f, sig)).None?
    ensures FrameFacts(FrameOf(f, sig)) == FactsOf(f)
    ensures Decoded(FrameOf(f, sig).sig, SIG_BYTES) == Some(sig)
    ensures FrameOf(f, sig).op == (if f.op == 1 then "pub" else "kill")
  {
    hide Decoded, FieldText, MsgIdText, HexText;
    DecodedHexText(sig);
    FieldWidth(f.rootPub, ROOT_PUB_BYTES);
    FieldTextDecodes(f.topicId, ID_BYTES);
    FieldTextDecodes(f.msgId, MSG_ID_BYTES);
    FieldTextDecodes(f.attemptId, ATTEMPT_ID_BYTES);
    FieldTextDecodes(f.ackTo, ID_BYTES);
    FieldTextDecodes(f.flightNonce, FLIGHT_NONCE_BYTES);
    FieldTextDecodes(f.rootPub, ROOT_PUB_BYTES);
  }

  /** The proof as a whole: whoever signs valid fields with a key that verifies is accepted, with the same facts. */
  method SignThenVerify(
    signer: seq<Byte> -> seq<Byte>, verifies: (seq<Byte>, seq<Byte>, seq<Byte>) -> bool, f: Fields)
    returns (r: Result<Fields>)
    requires Fault(f).None?
    requires forall m :: |signer(m)| == SIG_BYTES && verifies(FactsOf(f).rootPub, m, signer(m))
    ensures r.Ok? && Fault(r.value).None? && FactsOf(r.value) == FactsOf(f)
  {
    hide Transcript, Fault, FactsOf, FrameFault, FrameFacts;
    var frame := SignAckProof(signer, f);
    FrameKeepsFacts(f, signer(Transcript(FactsOf(f))));
    r := VerifyAckProof(verifies, frame.value);
  }
}
