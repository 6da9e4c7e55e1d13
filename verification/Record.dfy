/** WAL records: a 16-byte header, a payload, and zeros up to the next 8-byte boundary. */
module Record {
  type Byte = x: int | 0 <= x < 256

  const U32: nat := 0x1_0000_0000
  const HEADER: nat := 16

  /** The checksum is any function of the bytes it covers. */
  type Checksum = seq<Byte> -> nat

  // ---------------------------------------------------------------- little-endian numbers

  function Wrap(n: nat): (w: nat)
    ensures w < U32 && (n < U32 ==> w == n)
  {
    n % U32
  }

  function Encode(n: nat): (s: seq<Byte>)
    ensures |s| == 4
  {
    var w := Wrap(n);
    [w % 256, w / 256 % 256, w / 256 / 256 % 256, w / 256 / 256 / 256]
  }

  function Decode(s: seq<Byte>): (n: nat)
    requires |s| == 4
    ensures n < U32
  {
    s[0] as int + 0x100 * s[1] as int + 0x1_0000 * s[2] as int + 0x100_0000 * s[3] as int
  }

  lemma NumberRoundTrip(n: nat)
    ensures Decode(Encode(n)) == Wrap(n)
  {
    var w := Wrap(n);
    var a := w / 256;
    var b := a / 256;
    var c := b / 256;
    assert w == 256 * a + w % 256 && a == 256 * b + a % 256 && b == 256 * c + b % 256;
  }

  // ---------------------------------------------------------------- headers

  datatype Header = Header(crc: nat, kind: Byte, flags: Byte, reserved0: Byte, reserved1: Byte, length: nat, padding: nat) {
    /** RecordHeader::TotalSize, in 32-bit arithmetic. */
    function TotalSize(): nat { Wrap(HEADER + length + padding) }
  }

  function Serialize(h: Header): (s: seq<Byte>)
    ensures |s| == HEADER
  {
    Encode(h.crc) + [h.kind, h.flags, h.reserved0, h.reserved1] + Encode(h.length) + Encode(h.padding)
  }

  function Deserialize(s: seq<Byte>): Header
    requires |s| >= HEADER
  {
    Header(Decode(s[..4]), s[4], s[5], s[6], s[7], Decode(s[8..12]), Decode(s[12..16]))
  }

  lemma HeaderRoundTrip(h: Header, rest: seq<Byte>)
    requires h.length < U32 && h.padding < U32
    ensures Deserialize(Serialize(h) + rest) == h.(crc := Wrap(h.crc))
  {
    var s := Serialize(h) + rest;
    assert s[..4] == Encode(h.crc) && s[8..12] == Encode(h.length) && s[12..16] == Encode(h.padding);
    NumberRoundTrip(h.crc);
    NumberRoundTrip(h.length);
    NumberRoundTrip(h.padding);
  }

  /** RecordHeader::CalculatePadding: up to the next multiple of 8. */
  function Padding(length: nat): (p: nat)
    ensures p < 8
  {
    var remainder := Wrap(HEADER + length) % 8;
    if remainder == 0 then 0 else 8 - remainder
  }

  lemma PaddingAligns(length: nat)
    requires HEADER + length < U32
    ensures (HEADER + length + Padding(length)) % 8 == 0
  {
  }

  // ---------------------------------------------------------------- whole records

  datatype Rec = Rec(kind: Byte, payload: seq<Byte>) {
    /** A size that 32 bits hold. */
    predicate Fits() { HEADER + |payload| + 8 <= U32 }

    /** Replay takes a header without kind and payload for empty space. */
    predicate Blank() { kind == 0 && payload == [] }

    predicate Sound() { Fits() && !Blank() }
  }

  function Zeros(n: nat): (s: seq<Byte>)
    ensures |s| == n
  {
    seq(n, _ => 0)
  }

  function HeaderOf(crc: Checksum, r: Rec): Header {
    var h := Header(0, r.kind, 0, 0, 0, Wrap(|r.payload|), Padding(Wrap(|r.payload|)));
    h.(crc := crc(Serialize(h)[4..] + r.payload))
  }

  /** The bytes of a record. */
  function Built(crc: Checksum, r: Rec): (s: seq<Byte>)
    ensures |s| == HEADER + |r.payload| + Padding(Wrap(|r.payload|))
  {
    Serialize(HeaderOf(crc, r)) + r.payload + Zeros(Padding(Wrap(|r.payload|)))
  }

  /** What the parser accepts: enough bytes, and the right checksum. */
  predicate Parses(crc: Checksum, data: seq<Byte>) {
    && |data| >= HEADER
    && var h := Deserialize(data);
       && |data| >= HEADER + h.length + h.padding
       && Wrap(crc(data[4..16] + data[16..16 + h.length])) == h.crc
  }

  function ParsedRec(data: seq<Byte>): Rec
    requires |data| >= HEADER && |data| >= HEADER + Deserialize(data).length
  {
    Rec(data[4], data[16..16 + Deserialize(data).length])
  }

  /** The number that four bytes spell, lowest first. */
  function Spelled(a: Byte, b: Byte, c: Byte, d: Byte): nat { a as int + 256 * b as int + 65536 * c as int + 16777216 * d as int }

  /** The format of a record, byte by byte. */
  lemma Layout(crc: Checksum, r: Rec)
    requires r.Fits()
    ensures var b, n := Built(crc, r), |r.payload|;
            && |b| >= HEADER + n && |b| % 8 == 0 && |b| < HEADER + n + 8
            && Spelled(b[0], b[1], b[2], b[3]) == crc(b[4..16 + n]) % U32
            && b[4] == r.kind && b[5] == b[6] == b[7] == 0
            && Spelled(b[8], b[9], b[10], b[11]) == n && Spelled(b[12], b[13], b[14], b[15]) == |b| - HEADER - n
            && b[16..16 + n] == r.payload && forall k | 16 + n <= k < |b| :: b[k] == 0
  {
    hide Encode;
    ParseBuilt(crc, r, []);
    var b := Built(crc, r);
    assert b + [] == b;
    assert b[4..16] + b[16..16 + |r.payload|] == b[4..16 + |r.payload|];
    assert b[5] == 0;
  }

  /** A built record parses back, whatever follows it. */
  lemma ParseBuilt(crc: Checksum, r: Rec, rest: seq<Byte>)
    requires r.Fits()
    ensures var data := Built(crc, r) + rest;
            && Parses(crc, data) && ParsedRec(data) == r
            && Deserialize(data).TotalSize() == |Built(crc, r)| && |Built(crc, r)| % 8 == 0
  {
    var h, data := HeaderOf(crc, r), Built(crc, r) + rest;
    var tail := r.payload + Zeros(h.padding) + rest;
    assert data == Serialize(h) + tail;
    HeaderRoundTrip(h, tail);
    PaddingAligns(|r.payload|);
    assert data[16..16 + |r.payload|] == r.payload;
    assert data[4..16] == Serialize(h)[4..] == Serialize(h.(crc := 0))[4..];
  }

  // ---------------------------------------------------------------- building and parsing

  /** Copies bytes into a buffer. */
  method CopyInto(buffer: array<Byte>, at: nat, data: seq<Byte>)
    requires at + |data| <= buffer.Length
    modifies buffer
    ensures buffer[..] == old(buffer[..at]) + data + old(buffer[at + |data|..])
  {
    for k := 0 to |data|
      invariant buffer[..at + k] == old(buffer[..at]) + data[..k]
      invariant buffer[at + k..] == old(buffer[at + k..])
    {
      buffer[at + k] := data[k];
      assert buffer[..at + k + 1] == buffer[..at + k] + [data[k]];
    }
    assert buffer[..] == buffer[..at + |data|] + buffer[at + |data|..];
  }

  class RecordBuilder {
    var kind: Byte
    var payload: seq<Byte>

    constructor (kind: Byte, payload: seq<Byte>)
      ensures this.kind == kind && this.payload == payload
    {
      this.kind, this.payload := kind, payload;
    }

    /** RecordBuilder::Build: header and payload are copied into a zeroed buffer. */
    method Build(crc: Checksum) returns (result: array<Byte>)
      ensures result[..] == Built(crc, Rec(kind, payload))
    {
      var header := Header(0, kind, 0, 0, 0, Wrap(|payload|), Padding(Wrap(|payload|)));
      var total := HEADER + |payload| + header.padding;
      result := new Byte[total](_ => 0);
      header := header.(crc := crc(Serialize(header)[4..] + payload));
      CopyInto(result, 0, Serialize(header));
      CopyInto(result, HEADER, payload);
    }
  }

  class RecordParser {
    var header: Header
    var payload: seq<Byte>
    var valid: bool

    /** RecordParser::RecordParser: the fields are set as far as the bytes allow. */
    constructor (crc: Checksum, data: seq<Byte>)
      ensures valid <==> Parses(crc, data)
      ensures valid ==> header == Deserialize(data) && Rec(header.kind, payload) == ParsedRec(data)
    {
      header, payload, valid := Header(0, 0, 0, 0, 0, 0, 0), [], false;
      new;
      if |data| >= HEADER {
        header := Deserialize(data);
        if |data| >= HEADER + header.length + header.padding {
          if Wrap(crc(data[4..16] + data[16..16 + header.length])) == header.crc {
            payload := data[16..16 + header.length];
            valid := true;
          }
        }
      }
    }
  }
}
