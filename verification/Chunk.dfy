/** Large payloads as self-describing messages, and their reassembly in any order. */
module Chunk {

  import opened Base64
  import opened Bytes
  import opened Counting
  import opened Options

  const ENVELOPE_RESERVE: int := 1024

  /** What arrives: a manifest or a chunk of some file, a message of the format that is neither, or anything else. */
  datatype Message =
    | Manifest(id: string, n: Option<int>, size: Option<int>, name: Option<string>, mime: Option<string>, meta: Option<string>)
    | Piece(id: string, i: int, n: Option<int>, d: string)
    | Malformed(id: string)
    | Foreign

  // ---- splitting ----

  /** `rawChunkSize`: the raw bytes whose base64 form fits beside the envelope. */
  function RawChunkSize(maxMessageBytes: int): (raw: nat)
    ensures raw >= 1
    ensures var room := maxMessageBytes - ENVELOPE_RESERVE;
            if room < 2 then raw == 1 else 4 * raw <= 3 * room < 4 * raw + 4
  {
    var r := (maxMessageBytes - ENVELOPE_RESERVE) * 3 / 4;
    if r < 1 then 1 else r
  }

  /**
   * A full chunk's base64 form fits in what the envelope leaves exactly from four characters up with a remainder of 0
   * or 1 of four, and exceeds it by at most two exactly from two characters up.
   */
  lemma FullChunkFits(maxMessageBytes: int, chunk: seq<Byte>)
    requires |chunk| == RawChunkSize(maxMessageBytes)
    ensures var room := maxMessageBytes - ENVELOPE_RESERVE;
            && (|Encode(chunk)| <= room <==> room >= 4 && room % 4 <= 1)
            && (|Encode(chunk)| <= room + 2 <==> room >= 2)
  {
    hide Encode;
    EncodedLength(chunk);
    var room := maxMessageBytes - ENVELOPE_RESERVE;
    var q, r := room / 4, room % 4;
    assert room * 3 == 4 * (3 * q) + 3 * r;
    assert room * 3 / 4 == 3 * q + 3 * r / 4;
  }

  /** The chunks of a byte array: as many full ones as there are, then the rest, and one empty chunk for no bytes. */
  function Slices(bytes: seq<Byte>, raw: nat): (s: seq<seq<Byte>>)
    requires raw >= 1
    ensures |s| >= 1
  {
    if |bytes| <= raw then [bytes] else [bytes[..raw]] + Slices(bytes[raw..], raw)
  }

  /** Splitting loses nothing. */
  lemma {:induction false} JoinedSlices(bytes: seq<Byte>, raw: nat)
    requires raw >= 1
    ensures Joined(Slices(bytes, raw)) == bytes
  {
    hide Joined;
    if |bytes| <= raw {
      JoinedOne(bytes);
    } else {
      JoinedSlices(bytes[raw..], raw);
      JoinedOne(bytes[..raw]);
      JoinedAppend([bytes[..raw]], Slices(bytes[raw..], raw));
      assert bytes == bytes[..raw] + bytes[raw..];
    }
  }

  function Min(a: int, b: int): int {
    if a < b then a else b
  }

  /** The i-th chunk is the i-th stretch of `raw` bytes. */
  lemma {:induction false} SliceAt(bytes: seq<Byte>, raw: nat, i: nat)
    requires raw >= 1 && i < |Slices(bytes, raw)|
    ensures Repeated(raw, i) <= |bytes|
    ensures Slices(bytes, raw)[i] == bytes[Repeated(raw, i)..Min(|bytes|, Repeated(raw, i) + raw)]
    ensures i + 1 < |Slices(bytes, raw)| ==> Repeated(raw, i + 1) < |bytes|
    ensures i + 1 == |Slices(bytes, raw)| ==> |bytes| <= Repeated(raw, i + 1)
  {
    if |bytes| <= raw {
      assert bytes[0..|bytes|] == bytes;
    } else if i == 0 {
      assert bytes[0..raw] == bytes[..raw];
    } else {
      var rest := bytes[raw..];
      SliceAt(rest, raw, i - 1);
      StretchOfRest(bytes, raw, Repeated(raw, i - 1), Min(|rest|, Repeated(raw, i - 1) + raw));
      assert Slices(bytes, raw)[i] == Slices(rest, raw)[i - 1];
    }
  }

  lemma StretchOfRest(bytes: seq<Byte>, raw: nat, start: nat, end: nat)
    requires raw <= |bytes| && start <= end <= |bytes| - raw
    ensures bytes[raw..][start..end] == bytes[raw + start..raw + end]
  {
  }

  /** `Math.max(1, Math.ceil(length / raw))`. */
  function ChunkCount(length: nat, raw: nat): nat
    requires raw >= 1
  {
    var n := (length + raw - 1) / raw;
    if n < 1 then 1 else n
  }

  lemma QuotientBetween(a: nat, b: nat, q: nat)
    requires b >= 1 && q * b <= a < q * b + b
    ensures a / b == q
  {
    StepProduct(a / b, q, b);
    StepProduct(q, a / b, b);
  }

  lemma StepProduct(i: nat, j: nat, b: nat)
    ensures i < j ==> i * b + b <= j * b
  {
    RepeatedIsProduct(b, i);
    RepeatedIsProduct(b, j);
    if i < j {
      RepeatedMonotone(b, i + 1, j);
    }
  }

  lemma ChunkCountIsSlices(bytes: seq<Byte>, raw: nat)
    requires raw >= 1
    ensures ChunkCount(|bytes|, raw) == |Slices(bytes, raw)|
  {
    var n := |Slices(bytes, raw)|;
    SliceAt(bytes, raw, n - 1);
    if n >= 2 {
      SliceAt(bytes, raw, n - 2);
    }
    RepeatedIsProduct(raw, n);
    RepeatedIsProduct(raw, n - 1);
    if |bytes| > 0 {
      assert raw * n == n * raw;
      QuotientBetween(|bytes| + raw - 1, raw, n);
    } else {
      QuotientBetween(raw - 1, raw, 0);
    }
  }

  function PieceOf(bytes: seq<Byte>, id: string, raw: nat, i: nat): Message
    requires raw >= 1 && i < |Slices(bytes, raw)|
  {
    Piece(id, i, Some(|Slices(bytes, raw)|), Encode(Slices(bytes, raw)[i]))
  }

  function ManifestOf(bytes: seq<Byte>, id: string, raw: nat, name: string, mime: string, meta: Option<string>): Message
    requires raw >= 1
  {
    Manifest(id, Some(|Slices(bytes, raw)|), Some(|bytes|), Some(name), Some(mime), meta)
  }

  /** `chunkBytes`: the manifest, then every chunk in order. */
  method ChunkBytes(bytes: seq<Byte>, id: string, name: string, mime: string, meta: Option<string>, maxMessageBytes: int)
    returns (messages: seq<Message>, n: nat)
    ensures var raw := RawChunkSize(maxMessageBytes);
            && n == |Slices(bytes, raw)| && |messages| == n + 1
            && messages[0] == ManifestOf(bytes, id, raw, name, mime, meta)
            && forall i :: 0 <= i < n ==> messages[i + 1] == PieceOf(bytes, id, raw, i)
  {
    hide Slices, Encode, Repeated;
    var raw := RawChunkSize(maxMessageBytes);
    n := ChunkCount(|bytes|, raw);
    ChunkCountIsSlices(bytes, raw);
    messages := [Manifest(id, Some(n), Some(|bytes|), Some(name), Some(mime), meta)];
    for i := 0 to n
      invariant |messages| == i + 1
      invariant messages[0] == ManifestOf(bytes, id, raw, name, mime, meta)
      invariant forall j :: 0 <= j < i ==> messages[j + 1] == PieceOf(bytes, id, raw, j)
    {
      SliceAt(bytes, raw, i);
      RepeatedIsProduct(raw, i);
      RepeatedIsProduct(raw, i + 1);
      var slice := bytes[i * raw..Min(|bytes|, (i + 1) * raw)];
      messages := messages + [Piece(id, i, Some(n), Encode(slice))];
    }
  }

  // ---- reassembly of one file ----

  datatype File = File(
    n: Option<int>, meta: Option<string>, name: string, mime: string, size: Option<int>,
    slots: map<int, seq<Byte>>, fired: bool)

  /** What `onComplete` is handed. */
  datatype Delivered = Delivered(id: string, name: string, mime: string, size: nat, bytes: seq<Byte>, meta: Option<string>)

  /** What accepting a message comes to: refused, taken, a completed file, or an exception out of `complete`. */
  datatype Outcome = Refused | Accepted | Completed(file: Delivered) | Thrown

  function NewFile(): File {
    File(None, None, "file", "application/octet-stream", None, map[], false)
  }

  function OrElse<T>(v: Option<T>, default_: T): T {
    if v.Some? then v.value else default_
  }

  /** `b64ToBytes`: well-formed base64 is decoded as such; what the platform makes of anything else is left open. */
  function TextBytes(lenient: string -> seq<Byte>, d: string): seq<Byte> {
    OrElse(Decode(d), lenient(d))
  }

  /** The file after its metadata or a slot has been recorded. */
  function Recorded(lenient: string -> seq<Byte>, f: File, m: Message): File {
    match m
    case Manifest(_, n, size, name, mime, meta) =>
      f.(name := OrElse(name, f.name), mime := OrElse(mime, f.mime),
         size := if size.Some? then size else f.size, meta := if meta.Some? then meta else f.meta,
         n := if n.Some? then n else f.n)
    case Piece(_, i, n, d) =>
      f.(n := if f.n.Some? then f.n else n,
         slots := if i in f.slots then f.slots else f.slots[i := TextBytes(lenient, d)])
    case _ => f
  }

  predicate IsFull(f: File) {
    !f.fired && f.n.Some? && |f.slots| == f.n.value
  }

  ghost predicate HasAll(f: File, n: nat) {
    forall i :: 0 <= i < n ==> i in f.slots
  }

  function SlotsUpTo(f: File, n: nat): seq<Byte>
    requires forall i :: 0 <= i < n ==> i in f.slots
  {
    if n == 0 then [] else SlotsUpTo(f, n - 1) + f.slots[n - 1]
  }

  function Zeros(n: nat): seq<Byte> {
    seq(n, _ => 0)
  }

  /** The assembled bytes fit the announced size; a longer announcement leaves zeros behind them. */
  ghost predicate Fits(f: File) {
    IsFull(f) && f.n.value >= 0 && HasAll(f, f.n.value) &&
    (f.size.Some? ==> f.size.value >= |SlotsUpTo(f, f.n.value)|)
  }

  ghost function Assembled(f: File): seq<Byte>
    requires Fits(f)
  {
    var joined := SlotsUpTo(f, f.n.value);
    joined + Zeros(if f.size.Some? then f.size.value - |joined| else 0)
  }

  function Freed(f: File): File {
    f.(fired := true, slots := map[])
  }

  ghost function AfterComplete(id: string, f: File): (File, Outcome) {
    if !IsFull(f) then (f, Accepted)
    else if !Fits(f) then (f, Thrown)
    else (Freed(f), Completed(Delivered(id, f.name, f.mime, |Assembled(f)|, Assembled(f), f.meta)))
  }

  /** One message of the file's own id. */
  ghost function FileStep(lenient: string -> seq<Byte>, id: string, f: File, m: Message): (File, Outcome) {
    if f.fired then (f, Accepted)
    else if m.Malformed? || m.Foreign? then (f, Refused)
    else AfterComplete(id, Recorded(lenient, f, m))
  }

  // ---- the reassembler ----

  class Reassembler {
    const only: Option<string>
    const lenient: string -> seq<Byte>
    var files: map<string, File>
    var last: Option<string>
    /** Every completion announced, in order. */
    ghost var announced: seq<Delivered>

    constructor (only: Option<string>, lenient: string -> seq<Byte>)
      ensures files == map[] && announced == [] && this.only == only && this.lenient == lenient
    {
      this.only, this.lenient := only, lenient;
      files, last, announced := map[], None, [];
    }

    function FileOf(id: string): File
      reads this
    {
      if id in files then files[id] else NewFile()
    }

    predicate Wants(m: Message)
      reads this
    {
      !m.Foreign? && (only.Some? ==> m.id == only.value)
    }

    /** The first loop of `complete`: the bytes in all slots; a missing one throws. */
    method SlotBytes(f: File) returns (len: Option<nat>)
      requires IsFull(f)
      ensures len.Some? <==> f.n.value < 0 || HasAll(f, f.n.value)
      ensures len.Some? && f.n.value >= 0 ==> len.value == |SlotsUpTo(f, f.n.value)|
    {
      var total, n := 0, f.n.value;
      for i := 0 to n
        invariant HasAll(f, i) && total == |SlotsUpTo(f, i)|
      {
        if i !in f.slots {
          return None;
        }
        total := total + |f.slots[i]|;
      }
      return Some(total);
    }

    /** `set`: one slot copied into the buffer at an offset. */
    method CopySlot(buffer: array<Byte>, off: nat, c: seq<Byte>)
      requires off + |c| <= buffer.Length
      modifies buffer
      ensures buffer[..] == old(buffer[..off]) + c + old(buffer[off + |c|..])
    {
      for j := 0 to |c|
        invariant forall k :: 0 <= k < buffer.Length ==>
                    buffer[k] == if off <= k < off + j then c[k - off] else old(buffer[k])
      {
        buffer[off + j] := c[j];
      }
    }

    /** Copies the slots into one buffer; a missing slot or a buffer too small throws. */
    method Assemble(f: File) returns (bytes: Option<array<Byte>>)
      requires IsFull(f)
      ensures bytes.Some? <==> Fits(f)
      ensures bytes.Some? ==> fresh(bytes.value) && bytes.value[..] == Assembled(f)
    {
      var len := SlotBytes(f);
      if len.None? || (f.size.Some? && f.size.value < 0) {
        return None;
      }
      var n := f.n.value;
      var buffer := new Byte[if f.size.Some? then f.size.value else len.value](_ => 0);
      var off := 0;
      for i := 0 to n
        invariant off == |SlotsUpTo(f, i)| <= buffer.Length && fresh(buffer)
        invariant buffer[..] == SlotsUpTo(f, i) + Zeros(buffer.Length - off)
      {
        var c := f.slots[i];
        SlotsGrow(f, i + 1, n);
        if off + |c| > buffer.Length {
          return None;
        }
        ghost var before := buffer[..];
        CopySlot(buffer, off, c);
        assert before[..off] == SlotsUpTo(f, i);
        assert before[off + |c|..] == Zeros(buffer.Length - (off + |c|));
        off := off + |c|;
      }
      return Some(buffer);
    }

    /** `complete`: announces the file when every slot is there. */
    method Complete(id: string, f: File) returns (out: Outcome)
      modifies this`files, this`announced
      ensures out == AfterComplete(id, f).1
      ensures files == if out.Completed? then old(files)[id := AfterComplete(id, f).0] else old(files)
      ensures announced == old(announced) + if out.Completed? then [out.file] else []
    {
      hide Fits, Assembled;
      if f.fired || f.n.None? || |f.slots| != f.n.value {
        return Accepted;
      }
      var bytes := Assemble(f);
      if bytes.None? {
        return Thrown;
      }
      files := files[id := Freed(f)];
      var file := Delivered(id, f.name, f.mime, bytes.value.Length, bytes.value[..], f.meta);
      announced := announced + [file];
      return Completed(file);
    }

    /** `accept`. */
    method Accept(m: Message) returns (out: Outcome)
      modifies this
      ensures m.Foreign? || (only.Some? && m.id != only.value) ==>
                out == Refused && files == old(files) && announced == old(announced)
      ensures !m.Foreign? && (only.None? || m.id == only.value) ==>
                var after := FileStep(lenient, m.id, old(FileOf(m.id)), m);
                && files == old(files)[m.id := after.0]
                && out == after.1
                && last == Some(m.id)
      ensures announced == old(announced) + if out.Completed? then [out.file] else []
    {
      hide Recorded, Fits, Assembled, IsFull;
      if m.Foreign? || (only.Some? && m.id != only.value) {
        return Refused;
      }
      var f := FileOf(m.id);
      files := files[m.id := f];
      last := Some(m.id);
      if f.fired {
        return Accepted;
      }
      if m.Malformed? {
        return Refused;
      }
      f := Recorded(lenient, f, m);
      files := files[m.id := f];
      out := Complete(m.id, f);
    }

    /**
     * A whole delivery, one `accept` for each message in the order they arrive: whatever else the stream carries,
     * the file is announced once when all its chunks came and not at all otherwise, with the original bytes.
     */
    method Deliver(
      ms: seq<Message>, ghost bytes: seq<Byte>, ghost id: string, ghost raw: nat, ghost name: string, ghost mime: string,
      ghost meta: Option<string>)
      requires raw >= 1 && Genuine(bytes, id, raw, name, mime, meta, ms)
      requires id !in files && (only.Some? ==> only.value == id)
      modifies this
      ensures var all := Indices(|Slices(bytes, raw)|);
              Announces(bytes, id, old(announced), announced, Seen(id, ms, |ms|) == all)
    {
      hide FileStep, Slices, Indices, Seen, Genuine, Announces, OutcomeOf, FileAfter;
      ghost var before := announced;
      NothingSeen(bytes, id, raw, ms);
      NothingAnnounced(bytes, id, before);
      NoRecordYet(lenient, id, ms);
      for k := 0 to |ms|
        invariant FileOf(id) == FileAfter(lenient, id, ms, k)
        invariant Announces(bytes, id, before, announced, Seen(id, ms, k) == Indices(|Slices(bytes, raw)|))
      {
        ghost var was := announced;
        ghost var wanted := Wants(ms[k]);
        if wanted {
          CompletedIsOwn(lenient, ms[k].id, FileOf(ms[k].id), ms[k]);
        }
        var out := Accept(ms[k]);
        FileAfterNext(lenient, id, ms, k);
        CompletesAtLastMissing(lenient, bytes, id, raw, name, mime, meta, ms, k);
        SeenGrows(id, ms, k, k + 1);
        SeenNext(id, ms, k);
        SeenInRange(lenient, bytes, id, raw, name, mime, meta, ms, k + 1);
        ghost var all := Indices(|Slices(bytes, raw)|);
        ghost var mine := out.Completed? && out.file.id == id;
        assert Concerns(id, ms[k]) ==> out == OutcomeOf(lenient, id, ms, k);
        assert mine ==> Concerns(id, ms[k]);
        assert !Concerns(id, ms[k]) ==> Seen(id, ms, k + 1) == Seen(id, ms, k);
        assert mine <==> Seen(id, ms, k) != all && Seen(id, ms, k + 1) == all;
        AnnouncesNext(bytes, id, before, was, Seen(id, ms, k) == all, out);
      }
    }

    /** `missing`: the indices still awaited, once the count is known. */
    method Missing(id: string) returns (indices: Option<seq<int>>)
      ensures indices.None? <==> id !in files || files[id].n.None?
      ensures indices.Some? ==>
                forall i :: i in indices.value <==> 0 <= i < files[id].n.value && i !in files[id].slots
    {
      if id !in files || files[id].n.None? {
        return None;
      }
      var f := files[id];
      var found: seq<int> := [];
      var i := 0;
      while i < f.n.value
        invariant i == 0 || 0 <= i <= f.n.value
        invariant forall j :: j in found <==> 0 <= j < i && j !in f.slots
      {
        if i !in f.slots {
          found := found + [i];
        }
        i := i + 1;
      }
      return Some(found);
    }
  }

  lemma {:induction false} SlotsGrow(f: File, i: nat, n: nat)
    requires i <= n && HasAll(f, n)
    ensures |SlotsUpTo(f, i)| <= |SlotsUpTo(f, n)|
  {
    if i < n {
      SlotsGrow(f, i, n - 1);
    }
  }

  // ---- whole deliveries ----

  /** A delivery in which every message of the file's own id is its manifest, one of its chunks, or malformed. */
  ghost predicate Genuine(bytes: seq<Byte>, id: string, raw: nat, name: string, mime: string, meta: Option<string>, ms: seq<Message>)
    requires raw >= 1
  {
    forall k :: 0 <= k < |ms| ==> IsGenuine(bytes, id, raw, name, mime, meta, ms[k])
  }

  ghost predicate IsGenuine(bytes: seq<Byte>, id: string, raw: nat, name: string, mime: string, meta: Option<string>, m: Message)
    requires raw >= 1
  {
    || m.Foreign?
    || m.Malformed?
    || m.id != id
    || m == ManifestOf(bytes, id, raw, name, mime, meta)
    || (m.Piece? && 0 <= m.i < |Slices(bytes, raw)| && m == PieceOf(bytes, id, raw, m.i))
  }

  predicate Concerns(id: string, m: Message) {
    !m.Foreign? && m.id == id
  }

  /** The chunk indices of the file among the first `k` messages. */
  ghost function Seen(id: string, ms: seq<Message>, k: nat): set<int>
    requires k <= |ms|
  {
    set j | 0 <= j < k && Concerns(id, ms[j]) && ms[j].Piece? :: ms[j].i
  }

  /** The file's record after the first `k` messages. */
  ghost function FileAfter(lenient: string -> seq<Byte>, id: string, ms: seq<Message>, k: nat): File
    requires k <= |ms|
  {
    if k == 0 then NewFile()
    else if Concerns(id, ms[k - 1]) then FileStep(lenient, id, FileAfter(lenient, id, ms, k - 1), ms[k - 1]).0
    else FileAfter(lenient, id, ms, k - 1)
  }

  /** What accepting message `k` comes to for the file. */
  ghost function OutcomeOf(lenient: string -> seq<Byte>, id: string, ms: seq<Message>, k: nat): Outcome
    requires k < |ms|
  {
    if Concerns(id, ms[k]) then FileStep(lenient, id, FileAfter(lenient, id, ms, k), ms[k]).1 else Refused
  }

  ghost function Indices(n: nat): (r: set<int>)
    ensures forall i :: i in r <==> 0 <= i < n
  {
    if n == 0 then {} else Indices(n - 1) + {n - 1}
  }

  lemma {:induction false} IndicesCount(n: nat)
    ensures |Indices(n)| == n
  {
    if n > 0 {
      IndicesCount(n - 1);
    }
  }

  /** What the record is while some chunk is missing: exactly the chunks seen, under the right count and size. */
  ghost predicate Collecting(bytes: seq<Byte>, raw: nat, seen: set<int>, f: File)
    requires raw >= 1
  {
    var s := Slices(bytes, raw);
    && !f.fired
    && f.slots.Keys == seen
    && (forall i :: i in seen ==> 0 <= i < |s| && f.slots[i] == s[i])
    && (f.n.Some? ==> f.n.value == |s|)
    && (seen != {} ==> f.n.Some?)
    && (f.size.Some? ==> f.size.value == |bytes|)
  }

  lemma {:induction false} SlotsAreSlices(bytes: seq<Byte>, raw: nat, seen: set<int>, f: File, n: nat)
    requires raw >= 1 && Collecting(bytes, raw, seen, f) && n <= |Slices(bytes, raw)|
    requires forall i :: 0 <= i < n ==> i in seen
    ensures HasAll(f, n) && SlotsUpTo(f, n) == Joined(Slices(bytes, raw)[..n])
  {
    if n > 0 {
      SlotsAreSlices(bytes, raw, seen, f, n - 1);
      var s := Slices(bytes, raw);
      assert s[..n] == s[..n - 1] + [s[n - 1]];
      JoinedNext(s[..n - 1], s[n - 1]);
    }
  }

  /** A full record of genuine chunks assembles to the original bytes. */
  lemma FullIsOriginal(bytes: seq<Byte>, raw: nat, seen: set<int>, f: File)
    requires raw >= 1 && Collecting(bytes, raw, seen, f) && seen == Indices(|Slices(bytes, raw)|)
    ensures Fits(f) && Assembled(f) == bytes
  {
    var s := Slices(bytes, raw);
    IndicesCount(|s|);
    assert |f.slots| == |f.slots.Keys|;
    assert 0 in Indices(|s|);
    SlotsAreSlices(bytes, raw, seen, f, |s|);
    assert s[..|s|] == s;
    JoinedSlices(bytes, raw);
  }

  lemma NotFullWhileMissing(bytes: seq<Byte>, raw: nat, seen: set<int>, f: File)
    requires raw >= 1 && Collecting(bytes, raw, seen, f) && seen < Indices(|Slices(bytes, raw)|)
    ensures !IsFull(f)
  {
    hide Slices, Indices;
    var all := Indices(|Slices(bytes, raw)|);
    IndicesCount(|Slices(bytes, raw)|);
    assert |f.slots| == |f.slots.Keys|;
    assert all == seen + (all - seen);
  }

  lemma GenuineRecorded(
    lenient: string -> seq<Byte>, bytes: seq<Byte>, id: string, raw: nat, name: string, mime: string, meta: Option<string>,
    m: Message, seen: set<int>, f: File)
    requires raw >= 1 && IsGenuine(bytes, id, raw, name, mime, meta, m) && Concerns(id, m) && !m.Malformed?
    requires Collecting(bytes, raw, seen, f)
    ensures m.Manifest? || m.Piece?
    ensures Collecting(bytes, raw, if m.Piece? then seen + {m.i} else seen, Recorded(lenient, f, m))
  {
    if m.Piece? {
      DecodeOfEncode(Slices(bytes, raw)[m.i]);
    }
  }

  /** The state of the record after any genuine delivery so far: collecting what was seen, or delivered once all was. */
  lemma {:induction false} RecordAfter(
    lenient: string -> seq<Byte>, bytes: seq<Byte>, id: string, raw: nat, name: string, mime: string, meta: Option<string>,
    ms: seq<Message>, k: nat)
    requires raw >= 1 && Genuine(bytes, id, raw, name, mime, meta, ms) && k <= |ms|
    ensures var all := Indices(|Slices(bytes, raw)|);
            var f := FileAfter(lenient, id, ms, k);
            && Seen(id, ms, k) <= all
            && (Seen(id, ms, k) < all ==> Collecting(bytes, raw, Seen(id, ms, k), f))
            && (Seen(id, ms, k) == all ==> f.fired)
  {
    hide FileStep, Collecting, Indices, Slices;
    var all := Indices(|Slices(bytes, raw)|);
    if k == 0 {
      NothingSeen(bytes, id, raw, ms);
    } else {
      RecordAfter(lenient, bytes, id, raw, name, mime, meta, ms, k - 1);
      assert IsGenuine(bytes, id, raw, name, mime, meta, ms[k - 1]);
      SeenNext(id, ms, k - 1);
      if Concerns(id, ms[k - 1]) {
        StepOutcome(lenient, bytes, id, raw, name, mime, meta, ms, k - 1);
      }
    }
  }

  lemma NothingSeen(bytes: seq<Byte>, id: string, raw: nat, ms: seq<Message>)
    requires raw >= 1
    ensures Seen(id, ms, 0) == {} && {} < Indices(|Slices(bytes, raw)|)
    ensures Collecting(bytes, raw, {}, NewFile())
  {
    assert 0 in Indices(|Slices(bytes, raw)|);
  }

  lemma SeenNext(id: string, ms: seq<Message>, k: nat)
    requires k < |ms|
    ensures if Concerns(id, ms[k]) && ms[k].Piece? then Seen(id, ms, k + 1) == Seen(id, ms, k) + {ms[k].i}
            else Seen(id, ms, k + 1) == Seen(id, ms, k)
  {
  }

  lemma PieceInRange(bytes: seq<Byte>, id: string, raw: nat, name: string, mime: string, meta: Option<string>, m: Message)
    requires raw >= 1 && IsGenuine(bytes, id, raw, name, mime, meta, m) && Concerns(id, m) && m.Piece?
    ensures m.i in Indices(|Slices(bytes, raw)|)
  {
  }

  /** One genuine message: it completes the file exactly when it brings the last missing index. */
  lemma StepOutcome(
    lenient: string -> seq<Byte>, bytes: seq<Byte>, id: string, raw: nat, name: string, mime: string, meta: Option<string>,
    ms: seq<Message>, k: nat)
    requires raw >= 1 && k < |ms| && IsGenuine(bytes, id, raw, name, mime, meta, ms[k]) && Concerns(id, ms[k])
    requires var all := Indices(|Slices(bytes, raw)|);
             var f := FileAfter(lenient, id, ms, k);
             && Seen(id, ms, k) <= all
             && (Seen(id, ms, k) < all ==> Collecting(bytes, raw, Seen(id, ms, k), f))
             && (Seen(id, ms, k) == all ==> f.fired)
    ensures var all := Indices(|Slices(bytes, raw)|);
            var after := FileStep(lenient, id, FileAfter(lenient, id, ms, k), ms[k]);
            && Seen(id, ms, k + 1) <= all
            && (Seen(id, ms, k + 1) < all ==> Collecting(bytes, raw, Seen(id, ms, k + 1), after.0))
            && (Seen(id, ms, k + 1) == all ==> after.0.fired)
            && (after.1.Completed? <==> Seen(id, ms, k) < all && Seen(id, ms, k + 1) == all)
            && (after.1.Completed? ==> after.1.file.id == id && after.1.file.bytes == bytes && after.1.file.size == |bytes|)
            && after.1 != Thrown
  {
    hide Collecting, Indices, Slices, Seen, Recorded, Fits, Assembled, IsFull, IsGenuine, FileAfter;
    var all := Indices(|Slices(bytes, raw)|);
    var f := FileAfter(lenient, id, ms, k);
    SeenNext(id, ms, k);
    if ms[k].Piece? {
      PieceInRange(bytes, id, raw, name, mime, meta, ms[k]);
    }
    if Seen(id, ms, k) < all {
      CollectingOpen(bytes, raw, Seen(id, ms, k), f);
    }
    if Seen(id, ms, k) < all && !ms[k].Malformed? {
      GenuineRecorded(lenient, bytes, id, raw, name, mime, meta, ms[k], Seen(id, ms, k), f);
      var g := Recorded(lenient, f, ms[k]);
      if Seen(id, ms, k + 1) == all {
        FullIsOriginal(bytes, raw, all, g);
        FitsIsFull(g);
      } else {
        NotFullWhileMissing(bytes, raw, Seen(id, ms, k + 1), g);
      }
    }
  }

  lemma CollectingOpen(bytes: seq<Byte>, raw: nat, seen: set<int>, f: File)
    requires raw >= 1 && Collecting(bytes, raw, seen, f)
    ensures !f.fired
  {
  }

  lemma FitsIsFull(f: File)
    requires Fits(f)
    ensures IsFull(f)
  {
  }

  /** The round trip: a message completes the file exactly when it brings the last missing index, always with the original bytes, and never throws. */
  lemma CompletesAtLastMissing(
    lenient: string -> seq<Byte>, bytes: seq<Byte>, id: string, raw: nat, name: string, mime: string, meta: Option<string>,
    ms: seq<Message>, k: nat)
    requires raw >= 1 && Genuine(bytes, id, raw, name, mime, meta, ms) && k < |ms|
    ensures var all := Indices(|Slices(bytes, raw)|);
            var out := OutcomeOf(lenient, id, ms, k);
            && (out.Completed? <==> Seen(id, ms, k) != all && Seen(id, ms, k + 1) == all)
            && (out.Completed? ==> out.file.bytes == bytes)
            && out != Thrown
  {
    hide FileStep, Collecting, Slices, Indices;
    RecordAfter(lenient, bytes, id, raw, name, mime, meta, ms, k);
    SeenNext(id, ms, k);
    assert IsGenuine(bytes, id, raw, name, mime, meta, ms[k]);
    if Concerns(id, ms[k]) {
      StepOutcome(lenient, bytes, id, raw, name, mime, meta, ms, k);
    }
  }

  // ---- what a file is called ----

  /** The manifest is among the first `k` messages. */
  ghost predicate Told(id: string, ms: seq<Message>, k: nat)
    requires k <= |ms|
  {
    exists j :: 0 <= j < k && Concerns(id, ms[j]) && ms[j].Manifest?
  }

  /** The record carries what its manifest says, or the defaults before one came. */
  ghost predicate Labelled(f: File, told: bool, name: string, mime: string, meta: Option<string>) {
    && f.name == (if told then name else "file")
    && f.mime == (if told then mime else "application/octet-stream")
    && f.meta == if told then meta else None
  }

  lemma LabelsRecorded(
    lenient: string -> seq<Byte>, bytes: seq<Byte>, id: string, raw: nat, name: string, mime: string, meta: Option<string>,
    ms: seq<Message>, k: nat)
    requires raw >= 1 && k < |ms| && IsGenuine(bytes, id, raw, name, mime, meta, ms[k]) && Concerns(id, ms[k])
    requires var f := FileAfter(lenient, id, ms, k); !f.fired ==> Labelled(f, Told(id, ms, k), name, mime, meta)
    ensures var (g, out) := FileStep(lenient, id, FileAfter(lenient, id, ms, k), ms[k]);
            && (!g.fired ==> Labelled(g, Told(id, ms, k + 1), name, mime, meta))
            && (out.Completed? ==> var d := out.file;
                  Labelled(NewFile().(name := d.name, mime := d.mime, meta := d.meta), Told(id, ms, k + 1), name, mime, meta))
  {
    hide Slices, Fits, Assembled, IsFull, FileAfter;
    TellsNext(id, ms, k);
  }

  lemma TellsNext(id: string, ms: seq<Message>, k: nat)
    requires k < |ms|
    ensures Told(id, ms, k + 1) <==> Told(id, ms, k) || (Concerns(id, ms[k]) && ms[k].Manifest?)
  {
  }

  lemma {:induction false} LabelsAfter(
    lenient: string -> seq<Byte>, bytes: seq<Byte>, id: string, raw: nat, name: string, mime: string, meta: Option<string>,
    ms: seq<Message>, k: nat)
    requires raw >= 1 && Genuine(bytes, id, raw, name, mime, meta, ms) && k <= |ms|
    ensures var f := FileAfter(lenient, id, ms, k); !f.fired ==> Labelled(f, Told(id, ms, k), name, mime, meta)
  {
    hide FileStep, IsGenuine, Told, Labelled;
    if k == 0 {
      NothingTold(id, ms, name, mime, meta);
    } else {
      LabelsAfter(lenient, bytes, id, raw, name, mime, meta, ms, k - 1);
      assert IsGenuine(bytes, id, raw, name, mime, meta, ms[k - 1]);
      TellsNext(id, ms, k - 1);
      FileAfterNext(lenient, id, ms, k - 1);
      if Concerns(id, ms[k - 1]) {
        LabelsRecorded(lenient, bytes, id, raw, name, mime, meta, ms, k - 1);
      }
    }
  }

  lemma NothingTold(id: string, ms: seq<Message>, name: string, mime: string, meta: Option<string>)
    ensures !Told(id, ms, 0) && Labelled(NewFile(), false, name, mime, meta)
  {
  }

  /** A completed file has the size of the payload, and the name, type and metadata of its manifest, or the defaults when none came before its last chunk. */
  lemma CompletedSaysManifest(
    lenient: string -> seq<Byte>, bytes: seq<Byte>, id: string, raw: nat, name: string, mime: string, meta: Option<string>,
    ms: seq<Message>, k: nat)
    requires raw >= 1 && Genuine(bytes, id, raw, name, mime, meta, ms) && k < |ms|
    requires OutcomeOf(lenient, id, ms, k).Completed?
    ensures var file := OutcomeOf(lenient, id, ms, k).file;
            && file.id == id && file.size == |bytes| && file.bytes == bytes
            && if Told(id, ms, k + 1) then file.name == name && file.mime == mime && file.meta == meta
               else file.name == "file" && file.mime == "application/octet-stream" && file.meta == None
  {
    hide FileStep, IsGenuine, Told, FileAfter, Slices;
    assert IsGenuine(bytes, id, raw, name, mime, meta, ms[k]);
    LabelsAfter(lenient, bytes, id, raw, name, mime, meta, ms, k);
    LabelsRecorded(lenient, bytes, id, raw, name, mime, meta, ms, k);
    RecordAfter(lenient, bytes, id, raw, name, mime, meta, ms, k);
    StepOutcome(lenient, bytes, id, raw, name, mime, meta, ms, k);
  }

  /** What a manifest names replaces what is on record, and what it does not name stays; a chunk gives its bytes and at most the count. */
  lemma MessageUpdates(lenient: string -> seq<Byte>, f: File, m: Message)
    ensures var g := Recorded(lenient, f, m);
            && (m.Manifest? ==>
                  && g.name == (if m.name.Some? then m.name.value else f.name)
                  && g.mime == (if m.mime.Some? then m.mime.value else f.mime)
                  && g.size == (if m.size.Some? then m.size else f.size) && g.meta == (if m.meta.Some? then m.meta else f.meta)
                  && g.n == (if m.n.Some? then m.n else f.n) && g.slots == f.slots && g.fired == f.fired)
            && (m.Piece? ==>
                  && g == f.(n := g.n, slots := g.slots)
                  && g.n == (if f.n.Some? then f.n else m.n)
                  && g.slots.Keys == f.slots.Keys + {m.i}
                  && (m.i !in f.slots && Decode(m.d).Some? ==> g.slots[m.i] == Decode(m.d).value))
  {
    hide Decode;
  }

  /**
   * A file ends at the message that leaves as many slots as its count: with all slots in order, filled up with zeros
   * to the size announced, or with the exception of an index that is not there or a size too small. Ended well, it
   * keeps no bytes.
   */
  lemma FullFileEnds(lenient: string -> seq<Byte>, id: string, f: File, m: Message)
    requires !f.fired && (m.Manifest? || m.Piece?)
    ensures var g := Recorded(lenient, f, m);
            var (h, out) := FileStep(lenient, id, f, m);
            if g.n.Some? && |g.slots| == g.n.value then
              var n := |g.slots|;
              && (out.Thrown? || out.Completed?)
              && (out.Thrown? ==> h == g)
              && (out.Completed? ==> h.fired && h.slots == map[])
              && (out.Completed? <==> HasAll(g, n) && (g.size.Some? ==> |SlotsUpTo(g, n)| <= g.size.value))
              && (out.Completed? ==> var bytes := out.file.bytes;
                    && SlotsUpTo(g, n) <= bytes && out.file.size == |bytes|
                    && |bytes| == (if g.size.Some? then g.size.value else |SlotsUpTo(g, n)|)
                    && (forall i :: |SlotsUpTo(g, n)| <= i < |bytes| ==> bytes[i] == 0)
                    && out.file.id == id && out.file.name == g.name && out.file.mime == g.mime && out.file.meta == g.meta)
            else out == Accepted && h == g
  {
    hide Recorded, SlotsUpTo;
    RecordedOpen(lenient, f, m);
  }

  lemma RecordedOpen(lenient: string -> seq<Byte>, f: File, m: Message)
    ensures Recorded(lenient, f, m).fired == f.fired
  {
  }

  /** While a file is incomplete the first chunk of every index stays, and a manifest's count replaces one a chunk gave. */
  lemma FirstChunkWins(lenient: string -> seq<Byte>, id: string, f: File, m: Message)
    ensures var g := FileStep(lenient, id, f, m).0;
            && (f.fired ==> g == f)
            && (!g.fired ==>
                  && (forall i :: i in f.slots ==> i in g.slots && g.slots[i] == f.slots[i])
                  && (forall i :: i in g.slots ==> i in f.slots || (m.Piece? && m.i == i))
                  && (f.n.Some? && g.n != f.n ==> m.Manifest? && g.n == m.n))
  {
    hide Fits, Assembled, IsFull, Decode;
  }

  lemma {:induction false} SeenGrows(id: string, ms: seq<Message>, j: nat, k: nat)
    requires j <= k <= |ms|
    ensures Seen(id, ms, j) <= Seen(id, ms, k)
  {
  }

  /** The messages that completed the file. */
  ghost function Completions(lenient: string -> seq<Byte>, id: string, ms: seq<Message>, k: nat): set<nat>
    requires k <= |ms|
  {
    if k == 0 then {}
    else Completions(lenient, id, ms, k - 1) + if OutcomeOf(lenient, id, ms, k - 1).Completed? then {k - 1} else {}
  }

  /** A delivery with every chunk at least once completes the file exactly once; one without some chunk never does. */
  lemma {:induction false} CompletesOnce(
    lenient: string -> seq<Byte>, bytes: seq<Byte>, id: string, raw: nat, name: string, mime: string, meta: Option<string>,
    ms: seq<Message>, k: nat)
    requires raw >= 1 && Genuine(bytes, id, raw, name, mime, meta, ms) && k <= |ms|
    ensures |Completions(lenient, id, ms, k)| == if Seen(id, ms, k) == Indices(|Slices(bytes, raw)|) then 1 else 0
    ensures forall j :: j in Completions(lenient, id, ms, k) ==> j < k
  {
    hide OutcomeOf, Slices, Indices, Seen, Genuine;
    if k == 0 {
      NothingSeen(bytes, id, raw, ms);
    } else {
      CompletesOnce(lenient, bytes, id, raw, name, mime, meta, ms, k - 1);
      CompletesAtLastMissing(lenient, bytes, id, raw, name, mime, meta, ms, k - 1);
      SeenGrows(id, ms, k - 1, k);
      SeenInRange(lenient, bytes, id, raw, name, mime, meta, ms, k);
    }
  }

  /** What was announced under an id, in order. */
  ghost function Under(s: seq<Delivered>, id: string): seq<Delivered> {
    if s == [] then [] else Under(s[..|s| - 1], id) + if s[|s| - 1].id == id then [s[|s| - 1]] else []
  }

  /** The announcements under an id grew by one file with these bytes, or by none. */
  ghost predicate Announces(bytes: seq<Byte>, id: string, before: seq<Delivered>, after: seq<Delivered>, once: bool) {
    var was, now := Under(before, id), Under(after, id);
    && before <= after && was <= now
    && |now| == |was| + (if once then 1 else 0)
    && (once ==> now[|was|].bytes == bytes)
  }

  lemma NothingAnnounced(bytes: seq<Byte>, id: string, s: seq<Delivered>)
    ensures Announces(bytes, id, s, s, false)
  {
  }

  lemma AnnouncesNext(
    bytes: seq<Byte>, id: string, before: seq<Delivered>, after: seq<Delivered>, once: bool, out: Outcome)
    requires Announces(bytes, id, before, after, once)
    requires out.Completed? && out.file.id == id ==> !once && out.file.bytes == bytes
    ensures var mine := out.Completed? && out.file.id == id;
            Announces(bytes, id, before, after + (if out.Completed? then [out.file] else []), once || mine)
  {
    if out.Completed? {
      assert (after + [out.file])[..|after|] == after;
    } else {
      assert after + [] == after;
    }
  }

  lemma FileAfterNext(lenient: string -> seq<Byte>, id: string, ms: seq<Message>, k: nat)
    requires k < |ms|
    ensures if Concerns(id, ms[k]) then
              (FileAfter(lenient, id, ms, k + 1), OutcomeOf(lenient, id, ms, k)) ==
              FileStep(lenient, id, FileAfter(lenient, id, ms, k), ms[k])
            else FileAfter(lenient, id, ms, k + 1) == FileAfter(lenient, id, ms, k)
  {
    hide FileStep;
  }

  lemma CompletedIsOwn(lenient: string -> seq<Byte>, id: string, f: File, m: Message)
    ensures var out := FileStep(lenient, id, f, m).1; out.Completed? ==> out.file.id == id
  {
    hide Recorded, Fits, Assembled, IsFull;
  }

  lemma NoRecordYet(lenient: string -> seq<Byte>, id: string, ms: seq<Message>)
    ensures FileAfter(lenient, id, ms, 0) == NewFile()
  {
  }

  lemma SeenInRange(
    lenient: string -> seq<Byte>, bytes: seq<Byte>, id: string, raw: nat, name: string, mime: string, meta: Option<string>,
    ms: seq<Message>, k: nat)
    requires raw >= 1 && Genuine(bytes, id, raw, name, mime, meta, ms) && k <= |ms|
    ensures Seen(id, ms, k) <= Indices(|Slices(bytes, raw)|)
  {
    RecordAfter(lenient, bytes, id, raw, name, mime, meta, ms, k);
  }
}
