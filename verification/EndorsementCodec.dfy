/** The binary form of an endorsement (common/endorsement/endorsement.cpp): a magic word, three
    16-byte ids, an expiry time and two length-prefixed byte strings, all numbers big-endian. */
module EndorsementCodec {
  import opened Common
  import opened ErdTree

  const MAGIC: Bytes := [82, 83, 69, 49]

  /** Magic, ids, expiry and the two sizes. */
  const HEADER := 68

  /** A buffer's size is a 32-bit number. */
  type Buffer = b: Bytes | |b| < TWO_32

  // ---------------------------------------------------------------- big-endian numbers

  function Pow256(k: nat): nat
    ensures Pow256(k) > 0
  {
    if k == 0 then 1 else 256 * Pow256(k - 1)
  }

  function BigEndian(n: nat, width: nat): (b: Bytes)
    ensures |b| == width
  {
    if width == 0 then [] else BigEndian(n / 256, width - 1) + [n % 256]
  }

  function Number(b: Bytes): nat {
    if b == [] then 0 else 256 * Number(b[..|b| - 1]) + b[|b| - 1]
  }

  /** A number that fits its width is read back. */
  lemma {:induction false} NumberOfBigEndian(n: nat, width: nat)
    requires n < Pow256(width)
    ensures Number(BigEndian(n, width)) == n
  {
    if width > 0 {
      NumberOfBigEndian(n / 256, width - 1);
      var b := BigEndian(n, width);
      assert b[..|b| - 1] == BigEndian(n / 256, width - 1);
    }
  }

  lemma {:induction false} BigEndianOfNumber(b: Bytes)
    ensures Number(b) < Pow256(|b|) && BigEndian(Number(b), |b|) == b
  {
    if b != [] {
      BigEndianOfNumber(b[..|b| - 1]);
      assert b == b[..|b| - 1] + [b[|b| - 1]];
    }
  }

  lemma Widths()
    ensures Pow256(4) == TWO_32 && Pow256(8) == TWO_32 * TWO_32
  {
    assert Pow256(3) == 0x100_0000 && Pow256(6) == 0x1_0000_0000_0000;
  }

  // ---------------------------------------------------------------- encoding

  /** Magic and ids: 52 bytes. */
  function IdBytes(e: Endorsement): Bytes {
    MAGIC + e.subject + e.service + e.kind
  }

  /** Expiry and sizes, the sizes cut to 32 bits: 16 bytes. */
  function SizeBytes(e: Endorsement): Bytes {
    BigEndian(e.validUntil, 8) + BigEndian(|e.value| % TWO_32, 4) + BigEndian(|e.signature| % TWO_32, 4)
  }

  function Encoded(e: Endorsement): Bytes {
    IdBytes(e) + SizeBytes(e) + e.value + e.signature
  }

  /** Copying a string into a buffer keeps only as much as the low 32 bits of its size say. */
  function ToBuffer(b: Bytes): Buffer {
    b[..|b| % TWO_32]
  }

  /** An endorsement without signature is not serialized. */
  function Serialized(e: Endorsement): Option<Buffer> {
    if e.signature == [] then None else Some(ToBuffer(Encoded(e)))
  }

  // ---------------------------------------------------------------- decoding

  /** The layout as one reads it off a buffer: every part at its place, nothing left over,
      and a signature present. */
  function Deserialized(b: Buffer): Option<Endorsement> {
    if |b| < HEADER || b[..4] != MAGIC then None
    else
      var valueSize, signatureSize := Number(b[60..64]), Number(b[64..68]);
      if |b| != HEADER + valueSize + signatureSize || signatureSize == 0 then None
      else Some(Endorsement(b[4..20], b[20..36], b[36..52], b[68..68 + valueSize], Expiry(b[52..60]),
                            b[68 + valueSize..]))
  }

  function Expiry(b: Bytes): Uint64
    requires |b| == 8
  {
    BigEndianOfNumber(b);
    Widths();
    Number(b)
  }

  // ---------------------------------------------------------------- the two are inverse

  lemma EncodedSize(e: Endorsement)
    ensures |Encoded(e)| == HEADER + |e.value| + |e.signature|
  {
  }

  /** What is sent is the front of the encoding, as many bytes as the low 32 bits of its size say. */
  lemma SerializedIsFront(e: Endorsement)
    requires e.signature != []
    ensures Serialized(e).value <= Encoded(e)
    ensures |Serialized(e).value| == (68 + |e.value| + |e.signature|) % 0x1_0000_0000
  {
    EncodedSize(e);
  }

  lemma SmallBuffer(b: Buffer)
    ensures ToBuffer(b) == b
  {
  }

  lemma Slice(b: Bytes, i: nat, j: nat, k: nat, l: nat)
    requires i <= j <= |b| && k <= l <= j - i
    ensures b[i..j][k..l] == b[i + k..i + l]
    ensures i == 0 ==> b[i..j] == b[..j] && b[i + k..i + l] == b[k..l]
    ensures k == 0 ==> b[i..j][k..l] == b[i..j][..l]
    ensures l == j - i ==> b[i..j][k..l] == b[i..j][k..]
  {
    var part := b[i..j];
    assert forall x | 0 <= x < l - k :: part[k..l][x] == part[k + x] == b[i + k..i + l][x];
  }

  /** Where each part of a buffer lies, given its three sections. */
  lemma Sections(b: Bytes, e: Endorsement)
    requires |b| >= HEADER
    ensures b[..52] == IdBytes(e) <==>
            b[..4] == MAGIC && b[4..20] == e.subject && b[20..36] == e.service && b[36..52] == e.kind
    ensures b[52..68] == SizeBytes(e) <==>
            b[52..60] == BigEndian(e.validUntil, 8)
            && b[60..64] == BigEndian(|e.value| % TWO_32, 4) && b[64..68] == BigEndian(|e.signature| % TWO_32, 4)
  {
    Four(b[..52], MAGIC, e.subject, e.service, e.kind);
    Slice(b, 0, 52, 0, 4);
    Slice(b, 0, 52, 4, 20);
    Slice(b, 0, 52, 20, 36);
    Slice(b, 0, 52, 36, 52);
    var time := BigEndian(e.validUntil, 8);
    var size, size' := BigEndian(|e.value| % TWO_32, 4), BigEndian(|e.signature| % TWO_32, 4);
    Three(b[52..68], time, size, size');
    Slice(b, 52, 68, 0, 8);
    Slice(b, 52, 68, 8, 12);
    Slice(b, 52, 68, 12, 16);
  }

  lemma Four(b: Bytes, w: Bytes, x: Bytes, y: Bytes, z: Bytes)
    requires |b| == |w| + |x| + |y| + |z|
    ensures b == w + x + y + z <==>
            b[..|w|] == w && b[|w|..|w| + |x|] == x && b[|w| + |x|..|w| + |x| + |y|] == y && b[|w| + |x| + |y|..] == z
  {
    Three(b, w + x, y, z);
    var wx := b[..|w| + |x|];
    assert wx[..|w|] == b[..|w|] && wx[|w|..] == b[|w|..|w| + |x|];
    assert wx == wx[..|w|] + wx[|w|..];
  }

  lemma Three(b: Bytes, x: Bytes, y: Bytes, z: Bytes)
    requires |b| == |x| + |y| + |z|
    ensures b == x + y + z <==> b[..|x|] == x && b[|x|..|x| + |y|] == y && b[|x| + |y|..] == z
  {
    assert b == b[..|x|] + b[|x|..|x| + |y|] + b[|x| + |y|..];
  }

  lemma Layout(e: Endorsement)
    ensures var b := Encoded(e);
            && |b| == HEADER + |e.value| + |e.signature|
            && b[..52] == IdBytes(e) && b[52..68] == SizeBytes(e)
            && b[68..68 + |e.value|] == e.value && b[68 + |e.value|..] == e.signature
  {
    Four(Encoded(e), IdBytes(e), SizeBytes(e), e.value, e.signature);
  }

  lemma SizeKept(n: nat)
    requires n < TWO_32
    ensures n % TWO_32 == n && n < Pow256(4)
  {
    Widths();
  }

  lemma SizeRoundTrip(n: nat)
    requires n < TWO_32
    ensures Number(BigEndian(n % TWO_32, 4)) == n
  {
    SizeKept(n);
    NumberOfBigEndian(n, 4);
  }

  lemma ExpiryRoundTrip(t: Uint64)
    ensures Expiry(BigEndian(t, 8)) == t
  {
    Widths();
    NumberOfBigEndian(t, 8);
  }

  lemma DecodeFitting(e: Endorsement)
    requires e.signature != [] && HEADER + |e.value| + |e.signature| < TWO_32
    ensures Deserialized(Encoded(e)) == Some(e)
  {
    Layout(e);
    Sections(Encoded(e), e);
    ExpiryRoundTrip(e.validUntil);
    SizeRoundTrip(|e.value|);
    SizeRoundTrip(|e.signature|);
  }

  /** Decoding what was encoded gives the endorsement back exactly when the whole encoding
      fits a 32-bit size; 32-bit field sizes alone do not suffice. */
  lemma DecodeEncode(e: Endorsement)
    requires e.signature != []
    ensures Deserialized(Serialized(e).value) == Some(e) <==> HEADER + |e.value| + |e.signature| < TWO_32
  {
    var b := Encoded(e);
    EncodedSize(e);
    if |b| < TWO_32 {
      SmallBuffer(b);
      DecodeFitting(e);
    } else {
      DecodedSize(ToBuffer(b));
    }
  }

  lemma DecodedSize(b: Buffer)
    ensures var e := Deserialized(b); e.Some? ==> HEADER + |e.value.value| + |e.value.signature| == |b|
  {
  }

  /** An endorsement whose fields are all below 2^32 bytes and that is nevertheless lost. */
  lemma FieldSizesDoNotSuffice()
    ensures exists e: Endorsement ::
              && |e.value| < TWO_32 && 0 < |e.signature| < TWO_32
              && Deserialized(Serialized(e).value) != Some(e)
  {
    var id: Uuid := seq(16, i => 0);
    var e := Endorsement(id, id, id, seq(TWO_32 - HEADER, i => 0), 0, [1]);
    DecodeEncode(e);
    assert |e.value| < TWO_32 && 0 < |e.signature| < TWO_32;
  }

  lemma SizeRead(b: Bytes)
    requires |b| == 4
    ensures BigEndian(Number(b) % TWO_32, 4) == b
  {
    BigEndianOfNumber(b);
    Widths();
    SizeKept(Number(b));
  }

  /** Whatever the decoder accepts, encoding it again gives the same bytes. */
  lemma EncodeDecode(b: Buffer)
    requires Deserialized(b).Some?
    ensures Serialized(Deserialized(b).value) == Some(b)
  {
    var e := Deserialized(b).value;
    BigEndianOfNumber(b[52..60]);
    SizeRead(b[60..64]);
    SizeRead(b[64..68]);
    Sections(b, e);
    Four(b, IdBytes(e), SizeBytes(e), e.value, e.signature);
    SmallBuffer(b);
  }

  // ---------------------------------------------------------------- byte by byte

  lemma {:induction false} NumberOf(b: Bytes, last: Byte)
    ensures Number(b + [last]) == 256 * Number(b) + last
  {
    assert (b + [last])[..|b|] == b;
  }

  /** Big-endian: the first byte weighs most. */
  lemma FourBytes(b: Bytes)
    requires |b| == 4
    ensures Number(b) == WordAt(b, 0)
  {
    assert b == (([b[0]] + [b[1]]) + [b[2]]) + [b[3]];
    NumberOf([], b[0]);
    assert [] + [b[0]] == [b[0]];
    NumberOf([b[0]], b[1]);
    NumberOf([b[0]] + [b[1]], b[2]);
    NumberOf(([b[0]] + [b[1]]) + [b[2]], b[3]);
  }

  lemma EightBytes(b: Bytes)
    requires |b| == 8
    ensures Number(b) == TWO_32 * Number(b[..4]) + Number(b[4..])
  {
    FourBytes(b[4..]);
    assert b == (((b[..4] + [b[4]]) + [b[5]]) + [b[6]]) + [b[7]];
    NumberOf(b[..4], b[4]);
    NumberOf(b[..4] + [b[4]], b[5]);
    NumberOf((b[..4] + [b[4]]) + [b[5]], b[6]);
    NumberOf(((b[..4] + [b[4]]) + [b[5]]) + [b[6]], b[7]);
  }

  /** The number that starts at position i, most significant byte first. */
  function WordAt(b: Bytes, i: nat): nat
    requires i + 4 <= |b|
  {
    0x100_0000 * (b[i] as int) + 0x1_0000 * (b[i + 1] as int) + 0x100 * (b[i + 2] as int) + b[i + 3]
  }

  lemma WordIsNumber(b: Bytes, i: nat)
    requires i + 4 <= |b|
    ensures WordAt(b, i) == Number(b[i..i + 4])
  {
    FourBytes(b[i..i + 4]);
  }

  /** The serialized form, byte by byte: "RSE1", subject, service and type, the expiry and the two
      sizes as big-endian numbers, value and signature. */
  lemma EncodedBytes(e: Endorsement)
    ensures var b := Encoded(e);
            && |b| == 68 + |e.value| + |e.signature|
            && b[0] == 'R' as int && b[1] == 'S' as int && b[2] == 'E' as int && b[3] == '1' as int
            && b[4..20] == e.subject && b[20..36] == e.service && b[36..52] == e.kind
            && b[68..68 + |e.value|] == e.value && b[68 + |e.value|..] == e.signature
  {
    Layout(e);
    Sections(Encoded(e), e);
    assert Encoded(e)[..4] == MAGIC;
  }

  lemma EncodedNumbers(e: Endorsement)
    ensures |Encoded(e)| >= 68
    ensures e.validUntil == 0x1_0000_0000 * WordAt(Encoded(e), 52) + WordAt(Encoded(e), 56)
    ensures WordAt(Encoded(e), 60) == |e.value| % 0x1_0000_0000
    ensures WordAt(Encoded(e), 64) == |e.signature| % 0x1_0000_0000
  {
    var b := Encoded(e);
    Layout(e);
    Sections(b, e);
    Widths();
    NumberOfBigEndian(e.validUntil, 8);
    EightBytes(b[52..60]);
    assert b[52..60][..4] == b[52..56] && b[52..60][4..] == b[56..60];
    WordIsNumber(b, 52);
    WordIsNumber(b, 56);
    EncodedSizes(e);
  }

  lemma EncodedSizes(e: Endorsement)
    ensures |Encoded(e)| >= 68
    ensures WordAt(Encoded(e), 60) == |e.value| % 0x1_0000_0000
    ensures WordAt(Encoded(e), 64) == |e.signature| % 0x1_0000_0000
  {
    var b := Encoded(e);
    Layout(e);
    Sections(b, e);
    Widths();
    NumberOfBigEndian(|e.value| % TWO_32, 4);
    NumberOfBigEndian(|e.signature| % TWO_32, 4);
    WordIsNumber(b, 60);
    WordIsNumber(b, 64);
  }

  // ---------------------------------------------------------------- the encoder

  /** A number shifted right by so many bytes. */
  function Shifted(value: nat, bytes: nat): nat {
    if bytes == 0 then value else Shifted(value, bytes - 1) / 256
  }

  /** Appends a number of the given width, most significant byte first. */
  method AppendUint(bytes: Bytes, value: nat, width: nat) returns (out: Bytes)
    ensures out == bytes + BigEndian(value, width)
  {
    out := bytes;
    var shift := width;
    while shift > 0
      invariant 0 <= shift <= width
      invariant out == bytes + BigEndian(Shifted(value, shift), width - shift)
    {
      ghost var high := BigEndian(Shifted(value, shift), width - shift);
      shift := shift - 1;
      var low := Shifted(value, shift) % 256;
      out := out + [low];
      assert (bytes + high) + [low] == bytes + (high + [low]);
    }
  }

  lemma JoinedSizes(w: Bytes, x: Bytes, y: Bytes, z: Bytes)
    ensures w + x + y + z == w + (x + y + z)
  {
  }

  method Serialize(e: Endorsement) returns (r: Option<Buffer>)
    ensures r == Serialized(e)
  {
    if e.signature == [] {
      return None;
    }
    var serialized := MAGIC;
    serialized := serialized + e.subject;
    serialized := serialized + e.service;
    serialized := serialized + e.kind;
    serialized := AppendUint(serialized, e.validUntil, 8);
    serialized := AppendUint(serialized, |e.value| % TWO_32, 4);
    serialized := AppendUint(serialized, |e.signature| % TWO_32, 4);
    serialized := serialized + e.value;
    serialized := serialized + e.signature;
    JoinedSizes(IdBytes(e), BigEndian(e.validUntil, 8), BigEndian(|e.value| % TWO_32, 4),
                BigEndian(|e.signature| % TWO_32, 4));
    r := Some(ToBuffer(serialized));
  }

  // ---------------------------------------------------------------- the decoder

  class BufferReader {
    const data: Buffer
    var offset: nat

    ghost predicate Valid()
      reads this
    {
      offset <= |data|
    }

    constructor (data: Buffer)
      ensures Valid() && this.data == data && offset == 0
    {
      this.data, offset := data, 0;
    }

    method ReadBytes(count: nat) returns (r: Option<Bytes>)
      requires Valid()
      modifies this
      ensures Valid()
      ensures r.Some? <==> old(offset) + count <= |data|
      ensures r.Some? ==> offset == old(offset) + count && r.value == data[old(offset)..offset]
      ensures r.None? ==> offset == old(offset)
    {
      if offset + count > |data| {
        return None;
      }
      r := Some(data[offset..offset + count]);
      offset := offset + count;
    }

    /** Reads a number byte by byte, shifting up by eight bits each time. */
    method ReadUint(width: nat) returns (r: Option<nat>)
      requires Valid()
      modifies this
      ensures Valid()
      ensures r.Some? <==> old(offset) + width <= |data|
      ensures r.Some? ==> offset == old(offset) + width && r.value == Number(data[old(offset)..offset])
      ensures r.None? ==> offset == old(offset)
    {
      var bytes := ReadBytes(width);
      if bytes.None? {
        return None;
      }
      var value: nat := 0;
      for i := 0 to |bytes.value|
        invariant value == Number(bytes.value[..i])
      {
        assert bytes.value[..i + 1][..i] == bytes.value[..i];
        value := 256 * value + bytes.value[i];
      }
      assert bytes.value[..|bytes.value|] == bytes.value;
      r := Some(value);
    }

    method ExpectMagic() returns (ok: bool)
      requires Valid()
      modifies this
      ensures Valid()
      ensures ok <==> old(offset) + 4 <= |data| && data[old(offset)..old(offset) + 4] == MAGIC
      ensures ok ==> offset == old(offset) + 4
    {
      var bytes := ReadBytes(4);
      ok := bytes.Some? && bytes.value == MAGIC;
    }

    predicate Done()
      reads this
    {
      offset == |data|
    }
  }

  /** Reads the fixed part after the magic word. */
  method ReadHeader(reader: BufferReader) returns (r: Option<(Uuid, Uuid, Uuid, Uint64, nat, nat)>)
    requires reader.Valid() && reader.offset == 4
    modifies reader
    ensures reader.Valid()
    ensures r.Some? <==> |reader.data| >= HEADER
    ensures r.Some? ==>
              && reader.offset == HEADER
              && r.value == (reader.data[4..20], reader.data[20..36], reader.data[36..52], Expiry(reader.data[52..60]),
                             Number(reader.data[60..64]), Number(reader.data[64..68]))
  {
    var subject := reader.ReadBytes(16);
    if subject.None? { return None; }
    var service := reader.ReadBytes(16);
    if service.None? { return None; }
    var kind := reader.ReadBytes(16);
    if kind.None? { return None; }
    var validUntil := reader.ReadUint(8);
    if validUntil.None? { return None; }
    var valueSize := reader.ReadUint(4);
    if valueSize.None? { return None; }
    var signatureSize := reader.ReadUint(4);
    if signatureSize.None? { return None; }
    BigEndianOfNumber(reader.data[52..60]);
    Widths();
    r := Some((subject.value, service.value, kind.value, validUntil.value, valueSize.value, signatureSize.value));
  }

  lemma ToTheEnd(b: Buffer, start: nat)
    requires start <= |b|
    ensures b[start..|b|] == b[start..]
  {
  }

  /** Reading field by field accepts exactly the well laid out buffers. */
  method Deserialize(b: Buffer) returns (r: Option<Endorsement>)
    ensures r == Deserialized(b)
  {
    var reader := new BufferReader(b);
    assert |b| >= 4 ==> b[0..4] == b[..4];
    var magic := reader.ExpectMagic();
    if !magic {
      return None;
    }
    var header := ReadHeader(reader);
    if header.None? {
      return None;
    }
    var (subject, service, kind, validUntil, valueSize, signatureSize) := header.value;
    var value := reader.ReadBytes(valueSize);
    if value.None? {
      return None;
    }
    var signature := reader.ReadBytes(signatureSize);
    if signature.None? {
      return None;
    }
    if !reader.Done() || signature.value == [] {
      return None;
    }
    ToTheEnd(b, HEADER + valueSize);
    r := Some(Endorsement(subject, service, kind, value.value, validUntil, signature.value));
  }
}
