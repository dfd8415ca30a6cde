/** Upper-case hexadecimal fields of the capsule prelude. */
module HexFields {
  import opened Machine

  function Digit(d: nat): byte
    requires d < 16
  {
    if d < 10 then '0' as int + d else 'A' as int + d - 10
  }

  function DigitValue(b: byte): (d: Option<nat>)
    ensures d.Some? ==> d.value < 16 && Digit(d.value) == b
  {
    if '0' as int <= b <= '9' as int then Some(b - '0' as int)
    else if 'A' as int <= b <= 'F' as int then Some(b - 'A' as int + 10)
    else None
  }

  /** `format!("{v:0kX}")` for a value of at most `k` digits. */
  function Hex(v: nat, k: nat): (s: Bytes)
    ensures |s| == k
  {
    if k == 0 then [] else Hex(v / 16, k - 1) + [Digit(v % 16)]
  }

  function HexValue(s: Bytes): Option<nat> {
    if s == [] then Some(0) else
    var high, low := HexValue(s[..|s| - 1]), DigitValue(s[|s| - 1]);
    if high.None? || low.None? then None else Some(16 * high.value + low.value)
  }

  function Pow16(k: nat): nat {
    if k == 0 then 1 else 16 * Pow16(k - 1)
  }

  /** `parse_hex_u16` and `parse_hex_u32`: digit by digit, high nibble first. */
  method ParseHex(bytes: Bytes, width: nat) returns (r: Option<nat>)
    ensures r == if |bytes| != width then None else HexValue(bytes)
  {
    if |bytes| != width {
      return None;
    }
    var v: nat := 0;
    for i := 0 to |bytes|
      invariant HexValue(bytes[..i]) == Some(v)
    {
      assert bytes[..i + 1][..i] == bytes[..i];
      var d := DigitValue(bytes[i]);
      if d.None? {
        NoValue(bytes, i + 1);
        return None;
      }
      v := 16 * v + d.value;
    }
    assert bytes[..|bytes|] == bytes;
    return Some(v);
  }

  lemma {:induction false} NoValue(s: Bytes, i: nat)
    requires i <= |s| && HexValue(s[..i]).None?
    ensures HexValue(s).None?
    decreases |s| - i
  {
    if i < |s| {
      assert s[..i + 1][..i] == s[..i];
      NoValue(s, i + 1);
    } else {
      assert s[..i] == s;
    }
  }

  lemma {:induction false} ValueOfHex(v: nat, k: nat)
    requires v < Pow16(k)
    ensures HexValue(Hex(v, k)) == Some(v)
  {
    if k > 0 {
      ValueOfHex(v / 16, k - 1);
      assert Hex(v, k)[..k - 1] == Hex(v / 16, k - 1);
      assert DigitValue(Digit(v % 16)) == Some(v % 16);
    }
  }

  lemma {:induction false} HexOfValue(s: Bytes)
    requires HexValue(s).Some?
    ensures HexValue(s).value < Pow16(|s|)
    ensures Hex(HexValue(s).value, |s|) == s
  {
    if s != [] {
      var front, last := s[..|s| - 1], s[|s| - 1];
      HexOfValue(front);
      var v, h, d := HexValue(s).value, HexValue(front).value, DigitValue(last).value;
      assert v / 16 == h && v % 16 == d;
      assert s == front + [last];
    }
  }

  lemma {:induction false} Widths()
    ensures Pow16(4) == U16_MAX + 1
    ensures Pow16(8) == U32_MAX + 1
  {
    assert Pow16(2) == 256;
    assert Pow16(3) == 16 * Pow16(2);
    assert Pow16(4) == 16 * Pow16(3);
    assert Pow16(5) == 16 * Pow16(4);
    assert Pow16(6) == 16 * Pow16(5);
    assert Pow16(7) == 16 * Pow16(6);
  }
}

/** Streaming capsule reader and writer (crates/gump-capsule/src/stream.rs). */
module CapsuleStream {
  import opened Machine
  import opened Concatenation
  import opened Cbor
  import opened CapsuleHeader
  import opened SegmentTable
  import opened HexFields

  const MAX_SIGNATURE_SEGMENT_BYTES: nat := 256 * 1024
  const DEFAULT_STREAM_CHUNK_BYTES: nat := 64 * 1024
  const PRELUDE_LEN: nat := 24
  const CAPSULE: Bytes := Ascii("CAPSULE")
  const VERSION: Bytes := Ascii("0001")
  const ENCODING_C: byte := 'C' as int

  /** BLAKE3 and CRC-32, uninterpreted. Feeding either in pieces is feeding the concatenation. */
  datatype Checks = Checks(blake3: ContentHash, crc32: Bytes -> u32)

  // ---- What a capsule file is ---------------------------------------------

  /** The file starts with a prelude, a header of the declared length and a byte-string head. */
  predicate Framed(file: Bytes) {
    && |file| >= PRELUDE_LEN
    && file[..7] == CAPSULE
    && HexValue(file[7..11]) == Some(1)
    && file[11] == ENCODING_C
    && HexValue(file[12..16]).Some?
    && HexValue(file[16..24]).Some?
    && PRELUDE_LEN + HeaderLen(file) <= |file|
    && ReadHead(file, PRELUDE_LEN + HeaderLen(file)).Ok?
    && ReadHead(file, PRELUDE_LEN + HeaderLen(file)).value.major == 2
  }

  function HeaderLen(file: Bytes): nat
    requires |file| >= PRELUDE_LEN && HexValue(file[12..16]).Some?
  {
    HexValue(file[12..16]).value
  }

  function BodyCrc(file: Bytes): nat
    requires Framed(file)
  {
    HexValue(file[16..24]).value
  }

  function HeaderBytes(file: Bytes): Bytes
    requires Framed(file)
  {
    file[PRELUDE_LEN..PRELUDE_LEN + HeaderLen(file)]
  }

  /** Offset of the payload's first byte, and the length its head declares. */
  function InnerOffset(file: Bytes): (n: nat)
    requires Framed(file)
    ensures PRELUDE_LEN + HeaderLen(file) < n <= |file|
  {
    ReadHead(file, PRELUDE_LEN + HeaderLen(file)).value.next
  }

  function InnerLen(file: Bytes): u64
    requires Framed(file)
  {
    ReadHead(file, PRELUDE_LEN + HeaderLen(file)).value.value
  }

  function Inner(file: Bytes): Bytes
    requires Framed(file)
  {
    file[InnerOffset(file)..]
  }

  datatype Meta = Meta(header: Header, table: Table, signatureSegment: Bytes, innerFileOffset: nat)

  /** The file is a complete capsule and `m` is what there is to know about it. */
  ghost predicate Accepts(c: Checks, file: Bytes, m: Meta) {
    && Framed(file)
    && InnerOffset(file) + InnerLen(file) == |file|
    && Verified(c.blake3, Inner(file), m.table)
    && m.table[4].storedLength <= MAX_SIGNATURE_SEGMENT_BYTES
    && BodyCrc(file) == c.crc32(file[PRELUDE_LEN..])
    && Decoded(HeaderBytes(file)) == Ok(m.header)
    && m.signatureSegment == SegmentBytes(Inner(file), m.table[4])
    && m.innerFileOffset == InnerOffset(file)
  }

  lemma {:induction false} AcceptsUnique(c: Checks, file: Bytes, m: Meta, n: Meta)
    requires Accepts(c, file, m) && Accepts(c, file, n)
    ensures m == n
  {
    hide Framed, Verified, Decoded;
    VerifiedUnique(c.blake3, Inner(file), m.table, n.table);
  }

  // ---- Reading ------------------------------------------------------------

  /** A `Read` over a file of known contents. */
  class Reader {
    const data: Bytes
    var pos: nat

    predicate Valid()
      reads this
    {
      pos <= |data|
    }

    constructor (data: Bytes)
      ensures Valid() && this.data == data && pos == 0
    {
      this.data := data;
      pos := 0;
    }

    method ReadExact(n: nat) returns (r: Result<Bytes>)
      requires Valid()
      modifies this
      ensures Valid()
      ensures r.Ok? <==> old(pos) + n <= |data|
      ensures r.Ok? ==> pos == old(pos) + n && r.value == data[old(pos)..pos] && |r.value| == n
      ensures r.Err? ==> r.kind == IoError
    {
      if pos + n > |data| {
        pos := |data|;
        return Err(IoError);
      }
      r := Ok(data[pos..pos + n]);
      pos := pos + n;
    }

    /** `read_cbor_bstr_prefix`. */
    method BstrPrefix() returns (r: Result<(Bytes, u64)>)
      requires Valid()
      modifies this
      ensures Valid()
      ensures r.Ok? <==> ReadHead(data, old(pos)).Ok? && ReadHead(data, old(pos)).value.major == 2
      ensures r.Ok? ==> ReadHead(data, old(pos)) == Ok(Item(2, r.value.1, pos))
                        && r.value.0 == data[old(pos)..pos] && |r.value.0| <= 9
      ensures r.Err? ==> r.kind != Overflow
    {
      var start := pos;
      var first := ReadExact(1);
      if first.Err? {
        return Err(IoError);
      }
      var major, info := first.value[0] / 32, first.value[0] % 32;
      if major != 2 {
        return Err(FramingError);
      }
      match ArgumentWidth(info) {
        case None =>
          return Err(FramingError);
        case Some(w) =>
          if w == 0 {
            return Ok((first.value, info));
          }
          var argument := ReadExact(w);
          if argument.Err? {
            return Err(IoError);
          }
          ArgumentFits(argument.value);
          assert first.value + argument.value == data[start..pos];
          return Ok((first.value + argument.value, BigEndian.FromBe(argument.value)));
      }
    }
  }

  datatype Framing = Framing(headerEncoded: Bytes, bodyCrc: nat, innerLen: u64, innerFileOffset: nat, fed: Bytes,
                             peak: nat)

  /** Prelude, header bytes and payload head; `fed` is what the CRC has seen. */
  method ReadFraming(r: Reader) returns (f: Result<Framing>)
    requires r.Valid() && r.pos == 0
    modifies r
    ensures r.Valid()
    ensures f.Ok? <==> Framed(r.data)
    ensures f.Err? ==> f.kind != Overflow
    ensures f.Ok? ==>
              && r.pos == f.value.innerFileOffset == InnerOffset(r.data)
              && f.value.headerEncoded == HeaderBytes(r.data)
              && f.value.bodyCrc == BodyCrc(r.data)
              && f.value.innerLen == InnerLen(r.data)
              && f.value.fed == r.data[PRELUDE_LEN..r.pos]
              && f.value.peak == Max(PRELUDE_LEN, HeaderLen(r.data))
  {
    hide ReadHead, HexValue;
    var prelude := r.ReadExact(PRELUDE_LEN);
    if prelude.Err? {
      return Err(IoError);
    }
    var p := prelude.value;
    assert p == r.data[..24];
    PreludeFields(r.data);
    if p[..7] != CAPSULE {
      return Err(FramingError);
    }
    var version := ParseHex(p[7..11], 4);
    if version != Some(1) || p[11] != ENCODING_C {
      return Err(FramingError);
    }
    var headerLen := ParseHex(p[12..16], 4);
    var bodyCrc := ParseHex(p[16..24], 8);
    if headerLen.None? || bodyCrc.None? {
      return Err(FramingError);
    }
    var header := r.ReadExact(headerLen.value);
    if header.Err? {
      return Err(IoError);
    }
    var fed := header.value;
    ghost var mid := r.pos;
    var prefix := r.BstrPrefix();
    if prefix.Err? {
      return Err(prefix.kind);
    }
    fed := fed + prefix.value.0;
    assert fed == r.data[PRELUDE_LEN..r.pos];
    var peak := Max(Max(PRELUDE_LEN, headerLen.value), |prefix.value.0|);
    var offset := PRELUDE_LEN + headerLen.value + |prefix.value.0|;
    return Ok(Framing(header.value, bodyCrc.value, prefix.value.1, offset, fed, peak));
  }

  lemma {:induction false} PreludeFields(file: Bytes)
    requires |file| >= PRELUDE_LEN
    ensures var p := file[..24];
            p[..7] == file[..7] && p[7..11] == file[7..11] && p[12..16] == file[12..16] && p[16..24] == file[16..24]
  {
  }

  /** Reads one segment in chunks, feeding CRC and hash and keeping the bytes if asked. */
  method StreamSegment(r: Reader, length: u64, chunk: nat, keep: bool, fed: Bytes)
    returns (ok: bool, fed': Bytes, hashed: Bytes, kept: Bytes)
    requires r.Valid() && chunk > 0
    modifies r
    ensures r.Valid()
    ensures ok <==> old(r.pos) + length <= |r.data|
    ensures ok ==>
              && r.pos == old(r.pos) + length
              && hashed == r.data[old(r.pos)..r.pos]
              && fed' == fed + hashed
              && kept == if keep then hashed else []
  {
    fed', hashed, kept := fed, [], [];
    var remaining: nat := length;
    ghost var start := r.pos;
    while remaining > 0
      invariant r.Valid() && remaining <= length && r.pos == start + (length - remaining)
      invariant hashed == r.data[start..r.pos]
      invariant fed' == fed + hashed
      invariant kept == if keep then hashed else []
    {
      var n := Min(remaining, chunk);
      ghost var mid := r.pos;
      var scratch := r.ReadExact(n);
      if scratch.Err? {
        return false, fed', hashed, kept;
      }
      assert r.data[start..mid] + scratch.value == r.data[start..r.pos];
      fed' := fed' + scratch.value;
      hashed := hashed + scratch.value;
      if keep {
        kept := kept + scratch.value;
      }
      remaining := remaining - n;
    }
    ok := true;
  }

  /** Segment `i` of a table, taken from the file. */
  function InFile(file: Bytes, off: nat, d: Descriptor): Bytes
    requires off + d.End() <= |file|
  {
    file[off + d.offset..off + d.End()]
  }

  lemma {:induction false} InFileIsSegment(file: Bytes, off: nat, d: Descriptor)
    requires off <= |file| && off + d.End() <= |file|
    ensures SegmentBytes(file[off..], d) == InFile(file, off, d)
  {
  }

  /** What is checked once the table is known. */
  ghost predicate SegmentsOk(c: Checks, file: Bytes, off: nat, t: Table, n: nat)
    requires n <= 5
  {
    forall i :: 0 <= i < n ==> SegmentOk(c, file, off, t[i])
  }

  ghost predicate SegmentOk(c: Checks, file: Bytes, off: nat, d: Descriptor) {
    off + d.End() <= |file| && c.blake3(InFile(file, off, d)) == d.digest
  }

  datatype Streamed = Streamed(fed: Bytes, signature: Bytes)

  /** Streams the five segments after the table. */
  method StreamSegments(c: Checks, r: Reader, t: Table, chunk: nat, fed: Bytes, ghost off: nat)
    returns (s: Result<Streamed>)
    requires r.Valid() && chunk > 0 && Contiguous(t)
    requires r.pos == off + TABLE_BYTE_LEN && PRELUDE_LEN <= off && fed == r.data[PRELUDE_LEN..r.pos]
    modifies r
    ensures r.Valid()
    ensures s.Ok? <==> SegmentsOk(c, r.data, off, t, 5) && t[4].storedLength <= MAX_SIGNATURE_SEGMENT_BYTES
    ensures s.Err? ==> s.kind != Overflow
    ensures s.Ok? ==>
              && r.pos == off + t[4].End()
              && s.value.fed == r.data[PRELUDE_LEN..r.pos]
              && s.value.signature == InFile(r.data, off, t[4])
  {
    var fed' := fed;
    var signature: Bytes := [];
    for i := 0 to 5
      invariant r.Valid() && r.pos == off + Before(t, i)
      invariant SegmentsOk(c, r.data, off, t, i)
      invariant fed' == r.data[PRELUDE_LEN..r.pos]
      invariant i == 5 ==> t[4].storedLength <= MAX_SIGNATURE_SEGMENT_BYTES && signature == InFile(r.data, off, t[4])
      invariant i < 5 ==> signature == []
    {
      var d := t[i];
      assert ContiguousAt(t, i);
      var keep := d.segmentType == ReleaseSignature;
      assert keep <==> i == 4;
      if keep && d.storedLength > MAX_SIGNATURE_SEGMENT_BYTES {
        return Err(SegmentError);
      }
      ghost var start := r.pos;
      var ok, fed'', hashed, kept := StreamSegment(r, d.storedLength, chunk, keep, fed');
      if !ok {
        assert !SegmentOk(c, r.data, off, t[i]);
        return Err(IoError);
      }
      assert fed'' == r.data[PRELUDE_LEN..r.pos];
      fed' := fed'';
      if keep {
        signature := signature + kept;
      }
      assert hashed == InFile(r.data, off, t[i]);
      if c.blake3(hashed) != d.digest {
        assert !SegmentOk(c, r.data, off, t[i]);
        return Err(SegmentError);
      }
    }
    return Ok(Streamed(fed', signature));
  }

  /** Everything demanded before the header is decoded, in terms of the table that stands in the file. */
  ghost predicate Demands(c: Checks, file: Bytes, t: Table)
    requires Framed(file)
  {
    && Contiguous(t)
    && InnerLen(file) == t[4].End()
    && SegmentsOk(c, file, InnerOffset(file), t, 5)
    && t[4].storedLength <= MAX_SIGNATURE_SEGMENT_BYTES
    && |file| == InnerOffset(file) + t[4].End()
    && BodyCrc(file) == c.crc32(file[PRELUDE_LEN..])
  }

  /** Verification gets as far as the header. */
  ghost predicate ReachesHeader(c: Checks, file: Bytes) {
    Framed(file) && exists t :: TableInFile(file, t) && Demands(c, file, t)
  }

  ghost predicate TableInFile(file: Bytes, t: Table)
    requires Framed(file)
  {
    InnerOffset(file) + TABLE_BYTE_LEN <= |file|
    && file[InnerOffset(file)..InnerOffset(file) + TABLE_BYTE_LEN] == EncodedTable(t)
  }

  lemma {:induction false} AcceptsDemands(c: Checks, file: Bytes, m: Meta)
    requires Accepts(c, file, m)
    ensures Framed(file) && TableInFile(file, m.table) && Demands(c, file, m.table)
  {
    hide Framed, Decoded, EncodedTable;
    var off, t := InnerOffset(file), m.table;
    assert Inner(file)[..TABLE_BYTE_LEN] == file[off..off + TABLE_BYTE_LEN];
    forall i | 0 <= i < 5 ensures SegmentOk(c, file, off, t[i]) {
      InFileIsSegment(file, off, t[i]);
    }
  }

  function MetaOf(file: Bytes, t: Table): Meta
    requires Framed(file) && InnerOffset(file) + t[4].End() <= |file| && Decoded(HeaderBytes(file)).Ok?
  {
    Meta(Decoded(HeaderBytes(file)).value, t, InFile(file, InnerOffset(file), t[4]), InnerOffset(file))
  }

  lemma {:induction false} DemandsAccept(c: Checks, file: Bytes, t: Table)
    requires Framed(file) && TableInFile(file, t) && Demands(c, file, t) && Decoded(HeaderBytes(file)).Ok?
    ensures Accepts(c, file, MetaOf(file, t))
  {
    hide Framed, Decoded, EncodedTable;
    var off, inner := InnerOffset(file), Inner(file);
    assert inner[..TABLE_BYTE_LEN] == file[off..off + TABLE_BYTE_LEN];
    forall i | 0 <= i < 5 ensures t[i].End() <= |inner| && c.blake3(SegmentBytes(inner, t[i])) == t[i].digest {
      assert SegmentOk(c, file, off, t[i]);
      InFileIsSegment(file, off, t[i]);
    }
    EndsAscend(t, 0);
  }

  lemma {:induction false} AcceptsReaches(c: Checks, file: Bytes)
    requires !ReachesHeader(c, file)
    ensures forall m :: !Accepts(c, file, m)
  {
    hide Framed, Demands, Accepts, TableInFile;
    forall m ensures !Accepts(c, file, m) {
      if Accepts(c, file, m) {
        AcceptsDemands(c, file, m);
      }
    }
  }

  /** A file whose table fails a demand is refused before its header is looked at. */
  lemma {:induction false} Refused(c: Checks, file: Bytes, t: Table)
    requires Framed(file) && TableInFile(file, t) && Contiguous(t) && !Demands(c, file, t)
    ensures !ReachesHeader(c, file) && forall m :: !Accepts(c, file, m)
  {
    hide Framed, Demands, Accepts, EncodedTable, Contiguous;
    forall u | TableInFile(file, u) ensures !Demands(c, file, u) {
      if Demands(c, file, u) {
        ContiguousIsFlagless(t);
        DemandsContiguous(c, file, u);
        ContiguousIsFlagless(u);
        EncodedTableInjective(t, u);
      }
    }
    AcceptsReaches(c, file);
  }

  lemma {:induction false} DemandsContiguous(c: Checks, file: Bytes, t: Table)
    requires Framed(file) && Demands(c, file, t)
    ensures Contiguous(t)
  {
  }

  lemma {:induction false} RefusedWithoutTable(c: Checks, file: Bytes)
    requires Framed(file)
    requires InnerLen(file) < TABLE_BYTE_LEN || InnerOffset(file) + TABLE_BYTE_LEN > |file|
             || forall t: Table :: Contiguous(t) ==>
                  EncodedTable(t) != file[InnerOffset(file)..InnerOffset(file) + TABLE_BYTE_LEN]
    ensures !ReachesHeader(c, file) && forall m :: !Accepts(c, file, m)
  {
    hide Framed, Accepts, EncodedTable, Contiguous, Demands;
    forall t | TableInFile(file, t) ensures !Demands(c, file, t) {
      if Demands(c, file, t) {
        DemandsHasTable(c, file, t);
      }
    }
    AcceptsReaches(c, file);
  }

  lemma {:induction false} DemandsHasTable(c: Checks, file: Bytes, t: Table)
    requires Framed(file) && Demands(c, file, t)
    ensures InnerLen(file) >= TABLE_BYTE_LEN && Contiguous(t)
  {
    hide Framed;
    EndsAscend(t, 4);
  }

  /**
   * `StreamingCapsuleReader::verify`. Whatever the chunk size, it succeeds exactly on the files
   * that are complete capsules and returns the one description of them. The buffer size it reports
   * is that of the header, the table or one chunk; besides, it keeps the signature, which is
   * bounded. It panics exactly where decoding the header overflows in a file otherwise in order.
   */
  method Verify(c: Checks, file: Bytes, chunk: nat) returns (r: Result<Meta>, peak: nat)
    requires chunk > 0
    ensures r.Ok? ==> Accepts(c, file, r.value)
    ensures r.Err? ==> forall m :: !Accepts(c, file, m)
    ensures r.Ok? ==> peak == Max(Max(HeaderLen(file), TABLE_BYTE_LEN), chunk)
    ensures r.Ok? ==> |r.value.signatureSegment| <= MAX_SIGNATURE_SEGMENT_BYTES
    ensures r.Err? && r.kind == Overflow <==> ReachesHeader(c, file) && Decoded(HeaderBytes(file)) == Err(Overflow)
  {
    hide Framed, Accepts, Demands, EncodedTable, Contiguous, SegmentsOk, Decoded, ReachesHeader;
    peak := 0;
    var reader := new Reader(file);
    var f := ReadFraming(reader);
    if f.Err? {
      NotFramed(c, file);
      return Err(f.kind), peak;
    }
    var off := f.value.innerFileOffset;
    var fed := f.value.fed;
    if f.value.innerLen < TABLE_BYTE_LEN {
      RefusedWithoutTable(c, file);
      return Err(TableError), peak;
    }
    var tableBytes := reader.ReadExact(TABLE_BYTE_LEN);
    if tableBytes.Err? {
      RefusedWithoutTable(c, file);
      return Err(IoError), peak;
    }
    fed := fed + tableBytes.value;
    assert fed == file[PRELUDE_LEN..reader.pos];
    var parsed := ParseTableBytes(tableBytes.value);
    if parsed.Err? {
      RefusedWithoutTable(c, file);
      return Err(parsed.kind), peak;
    }
    var t := parsed.value;
    if t[4].End() != f.value.innerLen {
      LengthDemanded(c, file, t);
      Refused(c, file, t);
      return Err(TableError), peak;
    }
    peak := Max(Max(f.value.peak, TABLE_BYTE_LEN), chunk);
    var streamed := StreamSegments(c, reader, t, chunk, fed, off);
    if streamed.Err? {
      SegmentsDemanded(c, file, t);
      Refused(c, file, t);
      return Err(streamed.kind), peak;
    }
    if reader.pos != |file| {
      TailDemanded(c, file, t);
      Refused(c, file, t);
      return Err(FramingError), peak;
    }
    assert streamed.value.fed == file[PRELUDE_LEN..];
    if c.crc32(streamed.value.fed) != f.value.bodyCrc {
      TailDemanded(c, file, t);
      Refused(c, file, t);
      return Err(FramingError), peak;
    }
    var header := DecodeCbor(f.value.headerEncoded);
    DemandsMet(c, file, t);
    if header.Err? {
      HeaderDemanded(c, file);
      return Err(header.kind), peak;
    }
    DemandsAccept(c, file, t);
    SignatureSize(c, file, MetaOf(file, t));
    return Ok(Meta(header.value, t, streamed.value.signature, off)), peak;
  }

  lemma {:induction false} SignatureSize(c: Checks, file: Bytes, m: Meta)
    requires Accepts(c, file, m)
    ensures |m.signatureSegment| <= MAX_SIGNATURE_SEGMENT_BYTES
  {
    hide Framed, Decoded;
  }

  lemma {:induction false} NotFramed(c: Checks, file: Bytes)
    requires !Framed(file)
    ensures !ReachesHeader(c, file) && forall m :: !Accepts(c, file, m)
  {
    hide Framed;
  }

  lemma {:induction false} LengthDemanded(c: Checks, file: Bytes, t: Table)
    requires Framed(file) && InnerLen(file) != t[4].End()
    ensures !Demands(c, file, t)
  {
    hide Framed;
  }

  lemma {:induction false} SegmentsDemanded(c: Checks, file: Bytes, t: Table)
    requires Framed(file)
    requires !(SegmentsOk(c, file, InnerOffset(file), t, 5) && t[4].storedLength <= MAX_SIGNATURE_SEGMENT_BYTES)
    ensures !Demands(c, file, t)
  {
    hide Framed;
  }

  lemma {:induction false} TailDemanded(c: Checks, file: Bytes, t: Table)
    requires Framed(file)
    requires InnerOffset(file) + t[4].End() != |file| || BodyCrc(file) != c.crc32(file[PRELUDE_LEN..])
    ensures !Demands(c, file, t)
  {
    hide Framed;
  }

  lemma {:induction false} HeaderDemanded(c: Checks, file: Bytes)
    requires Framed(file) && Decoded(HeaderBytes(file)).Err?
    ensures forall m :: !Accepts(c, file, m)
  {
    hide Framed;
  }

  lemma {:induction false} DemandsMet(c: Checks, file: Bytes, t: Table)
    requires Framed(file) && TableInFile(file, t) && Contiguous(t)
    requires InnerLen(file) == t[4].End() && SegmentsOk(c, file, InnerOffset(file), t, 5)
    requires t[4].storedLength <= MAX_SIGNATURE_SEGMENT_BYTES && |file| == InnerOffset(file) + t[4].End()
    requires BodyCrc(file) == c.crc32(file[PRELUDE_LEN..])
    ensures Demands(c, file, t) && ReachesHeader(c, file)
  {
    hide Framed;
  }

  /**
   * Chunked verification refines buffered verification: on a file whose framing, checksum and
   * header are in order, both accept or both reject, with the same table; only a signature
   * beyond the memory bound sets them apart.
   */
  method StreamedAndBuffered(c: Checks, file: Bytes, chunk: nat)
    returns (streamed: Result<Meta>, buffered: Result<Table>)
    requires chunk > 0
    requires Framed(file) && InnerOffset(file) + InnerLen(file) == |file|
    requires BodyCrc(file) == c.crc32(file[PRELUDE_LEN..]) && Decoded(HeaderBytes(file)).Ok?
    ensures streamed.Ok? <==> buffered.Ok? && buffered.value[4].storedLength <= MAX_SIGNATURE_SEGMENT_BYTES
    ensures streamed.Ok? ==> streamed.value.table == buffered.value
  {
    hide Framed, Decoded, Verified, Accepts;
    var peak;
    streamed, peak := Verify(c, file, chunk);
    buffered := ParseAndVerify(c.blake3, Inner(file));
    if streamed.Ok? {
      AcceptsVerified(c, file, streamed.value);
      if buffered.Ok? {
        VerifiedUnique(c.blake3, Inner(file), streamed.value.table, buffered.value);
      }
    } else if buffered.Ok? && buffered.value[4].storedLength <= MAX_SIGNATURE_SEGMENT_BYTES {
      VerifiedAccepted(c, file, buffered.value);
    }
  }

  lemma {:induction false} AcceptsVerified(c: Checks, file: Bytes, m: Meta)
    requires Accepts(c, file, m)
    ensures Framed(file) && Verified(c.blake3, Inner(file), m.table)
    ensures m.table[4].storedLength <= MAX_SIGNATURE_SEGMENT_BYTES
  {
    hide Framed, Decoded, Verified;
  }

  lemma {:induction false} VerifiedAccepted(c: Checks, file: Bytes, t: Table)
    requires Framed(file) && InnerOffset(file) + InnerLen(file) == |file|
    requires BodyCrc(file) == c.crc32(file[PRELUDE_LEN..]) && Decoded(HeaderBytes(file)).Ok?
    requires Verified(c.blake3, Inner(file), t) && t[4].storedLength <= MAX_SIGNATURE_SEGMENT_BYTES
    ensures InnerOffset(file) + t[4].End() <= |file| && Accepts(c, file, MetaOf(file, t))
  {
    hide Framed, Decoded;
    InFileIsSegment(file, InnerOffset(file), t[4]);
  }

  // ---- Writing ------------------------------------------------------------

  /** Writing `b` at `pos`, over what is there and past the end. */
  function Overwrite(data: Bytes, pos: nat, b: Bytes): Bytes
    requires pos <= |data|
  {
    data[..pos] + b + if pos + |b| < |data| then data[pos + |b|..] else []
  }

  lemma {:induction false} OverwriteMore(data: Bytes, pos: nat, a: Bytes, b: Bytes)
    requires pos <= |data|
    ensures pos + |a| <= |Overwrite(data, pos, a)|
    ensures Overwrite(Overwrite(data, pos, a), pos + |a|, b) == Overwrite(data, pos, a + b)
  {
  }

  /** Patching bytes that were just written. */
  lemma {:induction false} OverwritePatch(data: Bytes, pos: nat, a: Bytes, b: Bytes, b': Bytes, d: Bytes)
    requires pos <= |data| && |b| == |b'|
    ensures pos + |a| <= |Overwrite(data, pos, a + b + d)|
    ensures Overwrite(Overwrite(data, pos, a + b + d), pos + |a|, b') == Overwrite(data, pos, a + b' + d)
  {
  }

  /** A `Write + Seek` target. */
  class SeekWriter {
    var data: Bytes
    var pos: nat

    predicate Valid()
      reads this
    {
      pos <= |data|
    }

    constructor ()
      ensures Valid() && data == [] && pos == 0
    {
      data := [];
      pos := 0;
    }

    method WriteAll(b: Bytes)
      requires Valid()
      modifies this
      ensures Valid() && data == Overwrite(old(data), old(pos), b) && pos == old(pos) + |b|
    {
      data := Overwrite(data, pos, b);
      pos := pos + |b|;
    }

    method Seek(p: nat)
      requires Valid() && p <= |data|
      modifies this`pos
      ensures Valid() && pos == p
    {
      pos := p;
    }
  }

  function Joined(segments: seq<Bytes>): Bytes {
    if segments == [] then [] else Joined(segments[..|segments| - 1]) + segments[|segments| - 1]
  }

  /** The parts of a capsule made from five segments. */
  function PartsOf(c: Checks, segments: seq<Bytes>, logical: seq<u64>): (parts: seq<Part>)
    requires |segments| == |logical| == 5
    requires forall i :: 0 <= i < 5 ==> |segments[i]| <= U64_MAX
    ensures |parts| == 5
  {
    seq(5, i requires 0 <= i < 5 =>
      Part(FromNumber(i + 1).value, |segments[i]|, logical[i], c.blake3(segments[i])))
  }

  function Body(h: Header, t: Table, segments: seq<Bytes>): Bytes
    requires ValidSigner(h.releaseSigner) && TABLE_BYTE_LEN + |Joined(segments)| <= U64_MAX
  {
    Encoded(h) + Head(2, TABLE_BYTE_LEN + |Joined(segments)|) + EncodedTable(t) + Joined(segments)
  }

  const START: Bytes := CAPSULE + VERSION + [ENCODING_C]

  /** The file the writer is to produce. */
  function CapsuleBytes(c: Checks, h: Header, t: Table, segments: seq<Bytes>): Bytes
    requires ValidSigner(h.releaseSigner) && TABLE_BYTE_LEN + |Joined(segments)| <= U64_MAX
  {
    var body := Body(h, t, segments);
    START + Hex(|Encoded(h)|, 4) + Hex(c.crc32(body), 8) + body
  }

  /** Placeholder for the checksum. */
  const ZEROS: Bytes := Ascii("00000000")

  lemma {:induction false} JoinedNext(segments: seq<Bytes>, i: nat)
    requires i < |segments|
    ensures Joined(segments[..i + 1]) == Joined(segments[..i]) + segments[i]
  {
    assert segments[..i + 1][..i] == segments[..i];
  }

  lemma {:induction false} PartsFit(c: Checks, segments: seq<Bytes>, logical: seq<u64>)
    requires |segments| == |logical| == 5
    requires forall i :: 0 <= i < 5 ==> |segments[i]| <= U64_MAX
    ensures PartsInOrder(PartsOf(c, segments, logical))
    ensures TotalStored(PartsOf(c, segments, logical)) == |Joined(segments)|
  {
    var parts := PartsOf(c, segments, logical);
    TotalIsLength(parts, segments, 5);
    assert parts[..5] == parts && segments[..5] == segments;
  }

  lemma {:induction false} TotalIsLength(parts: seq<Part>, segments: seq<Bytes>, i: nat)
    requires i <= |parts| == |segments|
    requires forall j :: 0 <= j < |parts| ==> parts[j].storedLength == |segments[j]|
    ensures TotalStored(parts[..i]) == |Joined(segments[..i])|
  {
    if i > 0 {
      TotalIsLength(parts, segments, i - 1);
      TotalNext(parts, i - 1);
      JoinedNext(segments, i - 1);
    }
  }

  lemma {:induction false} OverwriteNothing(data: Bytes, pos: nat)
    requires pos <= |data|
    ensures Overwrite(data, pos, []) == data
  {
    assert data[..pos] + data[pos..] == data;
  }

  /** One `write_all`, with the ghost record of all that has been written since `start`. */
  method Push(w: SeekWriter, ghost base: Bytes, ghost start: nat, ghost written: Bytes, b: Bytes)
    returns (ghost written': Bytes)
    requires w.Valid() && start <= |base|
    requires w.data == Overwrite(base, start, written) && w.pos == start + |written|
    modifies w
    ensures w.Valid() && written' == written + b
    ensures w.data == Overwrite(base, start, written') && w.pos == start + |written'|
  {
    hide Overwrite;
    w.WriteAll(b);
    OverwriteMore(base, start, written, b);
    written' := written + b;
  }

  datatype WriteReport = WriteReport(header: Header, table: Table, bytesWritten: nat)

  /**
   * `write_gump_capsule_streaming` for segments in memory: hashes first, streams framing and
   * segments with a zero checksum, then seeks back and patches the real one in. On failure
   * nothing has been written.
   */
  method WriteStreaming(c: Checks, w: SeekWriter, h: Header, segments: seq<Bytes>, logical: seq<u64>)
    returns (r: Result<WriteReport>)
    requires |segments| == |logical| == 5
    requires forall i :: 0 <= i < 5 ==> |segments[i]| <= U64_MAX
    requires w.Valid()
    modifies w
    ensures w.Valid()
    ensures r.Ok? <==> ValidSigner(h.releaseSigner) && TABLE_BYTE_LEN + |Joined(segments)| <= U64_MAX
    ensures r.Err? ==> w.data == old(w.data) && w.pos == old(w.pos)
    ensures r.Ok? ==>
              && r.value.header == h
              && Contiguous(r.value.table) && Describes(r.value.table, PartsOf(c, segments, logical))
              && w.data == Overwrite(old(w.data), old(w.pos), CapsuleBytes(c, h, r.value.table, segments))
              && w.pos == old(w.pos) + r.value.bytesWritten
              && r.value.bytesWritten == |CapsuleBytes(c, h, r.value.table, segments)|
  {
    hide ValidSigner, Encoded, EncodedTable, Hex, Head, Overwrite, Contiguous, Describes, Joined, TotalStored;
    var parts := PartsOf(c, segments, logical);
    PartsFit(c, segments, logical);
    var built := FromHashedParts(parts);
    if built.Err? {
      return Err(built.kind);
    }
    var t := built.value;
    var tableBytes := Encode(t);
    var innerLen := t[4].End();
    var encoded := EncodeCbor(h);
    if encoded.Err? {
      return Err(encoded.kind);
    }
    var header := encoded.value;
    EncodedFits(h);
    var start := w.pos;
    var fed := StreamBody(w, header, Head(2, innerLen), tableBytes, segments);
    assert fed == Body(h, t, segments);
    var end := w.pos;
    var patch := Hex(c.crc32(fed), 8);
    OverwritePatch(old(w.data), start, START + Hex(|header|, 4), ZEROS, patch, fed);
    OverwriteSize(old(w.data), start, START + Hex(|header|, 4) + patch + fed);
    w.Seek(start + 16);
    w.WriteAll(patch);
    w.Seek(end);
    return Ok(WriteReport(h, t, end - start));
  }

  lemma {:induction false} OverwriteSize(data: Bytes, pos: nat, b: Bytes)
    requires pos <= |data|
    ensures |Overwrite(data, pos, b)| >= pos + |b|
  {
  }

  /** Prelude with a zero checksum, header, payload head, table and segments; returns what the CRC saw. */
  method StreamBody(w: SeekWriter, header: Bytes, prefix: Bytes, tableBytes: Bytes, segments: seq<Bytes>)
    returns (fed: Bytes)
    requires w.Valid() && |segments| == 5
    modifies w
    ensures w.Valid()
    ensures fed == header + prefix + tableBytes + Joined(segments)
    ensures w.data == Overwrite(old(w.data), old(w.pos), START + Hex(|header|, 4) + ZEROS + fed)
    ensures w.pos == old(w.pos) + PRELUDE_LEN + |fed|
  {
    hide Hex, Overwrite, Joined;
    var start := w.pos;
    ghost var base := w.data;
    OverwriteNothing(base, start);
    ghost var written := Push(w, base, start, [], CAPSULE);
    written := Push(w, base, start, written, VERSION);
    written := Push(w, base, start, written, [ENCODING_C]);
    assert written == START;
    written := Push(w, base, start, written, Hex(|header|, 4));
    written := Push(w, base, start, written, ZEROS);
    ghost var before := written;
    fed := [];
    written := Push(w, base, start, written, header);
    fed := fed + header;
    written := Push(w, base, start, written, prefix);
    fed := fed + prefix;
    written := Push(w, base, start, written, tableBytes);
    fed := fed + tableBytes;
    assert written == before + fed;
    fed := StreamBodies(w, segments, fed, base, start, before);
  }

  method StreamBodies(w: SeekWriter, segments: seq<Bytes>, fixed: Bytes,
                      ghost base: Bytes, ghost start: nat, ghost before: Bytes)
    returns (fed: Bytes)
    requires w.Valid() && start <= |base|
    requires w.data == Overwrite(base, start, before + fixed) && w.pos == start + |before + fixed|
    modifies w
    ensures w.Valid() && fed == fixed + Joined(segments)
    ensures w.data == Overwrite(base, start, before + fed) && w.pos == start + |before + fed|
  {
    hide Overwrite;
    fed := fixed;
    assert segments[..0] == [];
    for i := 0 to |segments|
      invariant w.Valid() && w.data == Overwrite(base, start, before + fed) && w.pos == start + |before + fed|
      invariant fed == fixed + Joined(segments[..i])
    {
      hide Joined;
      JoinedNext(segments, i);
      ghost var written := Push(w, base, start, before + fed, segments[i]);
      assert written == before + (fed + segments[i]);
      fed := fed + segments[i];
    }
    assert segments[..|segments|] == segments;
  }
}
