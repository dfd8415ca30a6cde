/** What the streaming writer produces and the streaming verifier accepts are the same files. */
module CapsuleRoundTrip {
  import opened Machine
  import opened Concatenation
  import opened Cbor
  import opened CapsuleHeader
  import opened SegmentTable
  import opened HexFields
  import opened CapsuleStream

  /** Writer inputs that do not fail, and the table built from them. */
  ghost predicate Writable(c: Checks, h: Header, t: Table, segments: seq<Bytes>, logical: seq<u64>) {
    && ValidSigner(h.releaseSigner)
    && |segments| == |logical| == 5
    && (forall i :: 0 <= i < 5 ==> |segments[i]| <= U64_MAX)
    && TABLE_BYTE_LEN + |Joined(segments)| <= U64_MAX
    && Contiguous(t)
    && Describes(t, PartsOf(c, segments, logical))
  }

  // ---- The payload --------------------------------------------------------

  lemma {:induction false} EndsAreJoinedLengths(t: Table, segments: seq<Bytes>, i: nat)
    requires Contiguous(t) && |segments| == 5 && i <= 5
    requires forall j :: 0 <= j < 5 ==> t[j].storedLength == |segments[j]|
    ensures Before(t, i) == TABLE_BYTE_LEN + |Joined(segments[..i])|
  {
    if i > 0 {
      EndsAreJoinedLengths(t, segments, i - 1);
      assert ContiguousAt(t, i - 1);
      JoinedNext(segments, i - 1);
    } else {
      assert segments[..0] == [];
    }
  }

  lemma {:induction false} JoinedAt(segments: seq<Bytes>, i: nat, n: nat)
    requires i < n <= |segments|
    ensures |Joined(segments[..i])| + |segments[i]| <= |Joined(segments[..n])|
    ensures Joined(segments[..n])[|Joined(segments[..i])|..|Joined(segments[..i])| + |segments[i]|] == segments[i]
    decreases n
  {
    hide Joined;
    JoinedNext(segments, n - 1);
    if i < n - 1 {
      JoinedAt(segments, i, n - 1);
    }
  }

  /** Each segment sits in the payload exactly where its descriptor says. */
  lemma {:induction false} SegmentInPayload(t: Table, segments: seq<Bytes>, i: nat)
    requires Contiguous(t) && |segments| == 5 && i < 5
    requires forall j :: 0 <= j < 5 ==> t[j].storedLength == |segments[j]|
    ensures var inner := EncodedTable(t) + Joined(segments);
            |inner| == t[4].End() && t[i].End() <= |inner| && SegmentBytes(inner, t[i]) == segments[i]
  {
    hide EncodedTable, Joined;
    EndsAreJoinedLengths(t, segments, 5);
    EndsAreJoinedLengths(t, segments, i);
    assert ContiguousAt(t, i);
    assert segments[..5] == segments;
    JoinedAt(segments, i, 5);
    var from := |Joined(segments[..i])|;
    assert t[i].offset == TABLE_BYTE_LEN + from;
    assert SegmentBytes(EncodedTable(t) + Joined(segments), t[i]) == Joined(segments)[from..from + |segments[i]|];
  }

  lemma {:induction false} PayloadVerifies(c: Checks, h: Header, t: Table, segments: seq<Bytes>, logical: seq<u64>)
    requires Writable(c, h, t, segments, logical)
    ensures Verified(c.blake3, EncodedTable(t) + Joined(segments), t)
  {
    hide EncodedTable, Joined, Contiguous, ValidSigner;
    var inner := EncodedTable(t) + Joined(segments);
    forall i | 0 <= i < 5
      ensures |inner| == t[4].End() && t[i].End() <= |inner| && c.blake3(SegmentBytes(inner, t[i])) == t[i].digest
    {
      SegmentInPayload(t, segments, i);
    }
    assert inner[..TABLE_BYTE_LEN] == EncodedTable(t);
    assert t[4].End() == |inner|;
  }

  // ---- The file -----------------------------------------------------------

  /** Where the pieces of a written file are. */
  lemma {:induction false} FileLayout(start: Bytes, len: Bytes, crc: Bytes, header: Bytes, prefix: Bytes, inner: Bytes)
    requires |start| == 12 && |len| == 4 && |crc| == 8
    ensures var file := start + len + crc + (header + prefix + inner);
            && file[..12] == start && file[12..16] == len && file[16..24] == crc
            && file[24..] == header + prefix + inner
            && file[24..24 + |header|] == header
            && At(file, 24 + |header|, prefix)
            && file[24 + |header| + |prefix|..] == inner
  {
    var file := start + len + crc + (header + prefix + inner);
    var body := header + prefix + inner;
    assert file[24..] == body;
    assert body[..|header|] == header && body[|header|..|header| + |prefix|] == prefix;
    assert body[|header| + |prefix|..] == inner;
    assert file[24..24 + |header|] == body[..|header|];
    assert file[24 + |header|..24 + |header| + |prefix|] == body[|header|..|header| + |prefix|];
    assert file[24 + |header| + |prefix|..] == body[|header| + |prefix|..];
  }

  lemma {:induction false} StartFields()
    ensures |START| == 12 && START[..7] == CAPSULE && START[7..11] == VERSION && START[11] == ENCODING_C
    ensures HexValue(VERSION) == Some(1)
  {
    assert VERSION == Hex(1, 4) by {
      assert Hex(0, 1) == [Digit(0)] && Hex(0, 2) == Hex(0, 1) + [Digit(0)];
      assert Hex(0, 3) == Hex(0, 2) + [Digit(0)];
    }
    HexFields.Widths();
    ValueOfHex(1, 4);
  }

  function InnerOf(t: Table, segments: seq<Bytes>): Bytes {
    EncodedTable(t) + Joined(segments)
  }

  /** The framing of a written file reads back. */
  lemma {:induction false} WrittenIsFramed(c: Checks, h: Header, t: Table, segments: seq<Bytes>)
    requires ValidSigner(h.releaseSigner) && TABLE_BYTE_LEN + |Joined(segments)| <= U64_MAX
    ensures var file := CapsuleBytes(c, h, t, segments);
            && Framed(file)
            && HeaderBytes(file) == Encoded(h)
            && BodyCrc(file) == c.crc32(file[PRELUDE_LEN..])
            && InnerLen(file) == TABLE_BYTE_LEN + |Joined(segments)|
            && InnerOffset(file) + InnerLen(file) == |file|
            && Inner(file) == InnerOf(t, segments)
            && file[PRELUDE_LEN + HeaderLen(file)..InnerOffset(file)] == Head(2, InnerLen(file))
  {
    hide EncodedTable, Joined, ValidSigner, Encoded, Hex, HexValue, Head, ReadHead;
    var file := CapsuleBytes(c, h, t, segments);
    var header, inner := Encoded(h), InnerOf(t, segments);
    var prefix := Head(2, |inner|);
    var body := Body(h, t, segments);
    assert body == header + prefix + inner;
    var len, crc := Hex(|header|, 4), Hex(c.crc32(body), 8);
    assert file == START + len + crc + (header + prefix + inner);
    StartFields();
    FileLayout(START, len, crc, header, prefix, inner);
    PreludeSlices(file);
    EncodedFits(h);
    HexFields.Widths();
    ValueOfHex(|header|, 4);
    ValueOfHex(c.crc32(body), 8);
    HeadReads(file, 24 + |header|, 2, |inner|);
  }

  lemma {:induction false} PreludeSlices(file: Bytes)
    requires |file| >= 12 && file[..12] == START
    ensures file[..7] == CAPSULE && file[7..11] == VERSION && file[11] == ENCODING_C
  {
    StartFields();
    assert file[..7] == file[..12][..7] && file[7..11] == file[..12][7..11] && file[11] == file[..12][11];
  }

  /**
   * The verifier takes a written file exactly when the signature segment is within its memory
   * bound, and then returns the header, the table and the signature that were written.
   */
  lemma {:induction false} WrittenVerifies(c: Checks, h: Header, t: Table, segments: seq<Bytes>, logical: seq<u64>)
    requires Writable(c, h, t, segments, logical)
    ensures var file := CapsuleBytes(c, h, t, segments);
            Framed(file)
            && (|segments[4]| <= MAX_SIGNATURE_SEGMENT_BYTES ==>
                  Accepts(c, file, Meta(h, t, segments[4], InnerOffset(file))))
            && (|segments[4]| > MAX_SIGNATURE_SEGMENT_BYTES ==> forall m :: !Accepts(c, file, m))
  {
    hide EncodedTable, Joined, ValidSigner, Framed, Decoded, Encoded, Contiguous, CapsuleBytes, Verified;
    var file := CapsuleBytes(c, h, t, segments);
    WrittenIsFramed(c, h, t, segments);
    PayloadVerifies(c, h, t, segments, logical);
    DecodeEncode(h);
    SegmentInPayload(t, segments, 4);
    if |segments[4]| > MAX_SIGNATURE_SEGMENT_BYTES {
      forall m ensures !Accepts(c, file, m) {
        if Accepts(c, file, m) {
          VerifiedUnique(c.blake3, Inner(file), t, m.table);
        }
      }
    }
  }

  /** Every segment is found in the file at the payload offset plus its descriptor's offset. */
  lemma {:induction false} SegmentsInFile(c: Checks, h: Header, t: Table, segments: seq<Bytes>, logical: seq<u64>,
                                          i: nat)
    requires Writable(c, h, t, segments, logical) && i < 5
    ensures var file := CapsuleBytes(c, h, t, segments);
            Framed(file) && InnerOffset(file) + t[i].End() <= |file|
            && InFile(file, InnerOffset(file), t[i]) == segments[i]
  {
    hide EncodedTable, Joined, ValidSigner, Framed, Encoded, Contiguous, CapsuleBytes;
    var file := CapsuleBytes(c, h, t, segments);
    WrittenIsFramed(c, h, t, segments);
    SegmentInPayload(t, segments, i);
    InFileIsSegment(file, InnerOffset(file), t[i]);
  }

  // ---- The other direction ------------------------------------------------

  /** The segments of an accepted file. */
  function SegmentsOf(file: Bytes, t: Table): (s: seq<Bytes>)
    requires Framed(file) && EndsIn(t, |Inner(file)|)
    ensures |s| == 5
  {
    seq(5, i requires 0 <= i < 5 => SegmentBytes(Inner(file), t[i]))
  }

  predicate EndsIn(t: Table, n: nat) {
    forall i :: 0 <= i < 5 ==> t[i].End() <= n
  }

  lemma {:induction false} JoinedIsTail(inner: Bytes, t: Table, segments: seq<Bytes>, n: nat)
    requires Contiguous(t) && EndsIn(t, |inner|) && |segments| == 5 && n <= 5
    requires forall i :: 0 <= i < 5 ==> segments[i] == SegmentBytes(inner, t[i])
    requires TABLE_BYTE_LEN <= |inner|
    ensures TABLE_BYTE_LEN <= Before(t, n) <= |inner|
    ensures Joined(segments[..n]) == inner[TABLE_BYTE_LEN..Before(t, n)]
  {
    if n == 0 {
      assert segments[..0] == [];
    } else {
      JoinedIsTail(inner, t, segments, n - 1);
      JoinedNext(segments, n - 1);
      assert ContiguousAt(t, n - 1);
      assert inner[TABLE_BYTE_LEN..t[n - 1].offset] + inner[t[n - 1].offset..t[n - 1].End()]
          == inner[TABLE_BYTE_LEN..t[n - 1].End()];
    }
  }

  /**
   * Conversely, an accepted file whose header and payload head are in their shortest form is
   * byte for byte what the writer makes of its own header, table and segments.
   */
  lemma {:induction false} CanonicalIsWritten(c: Checks, file: Bytes, m: Meta)
    requires Accepts(c, file, m) && ValidSigner(m.header.releaseSigner)
    requires HeaderBytes(file) == Encoded(m.header)
    requires file[PRELUDE_LEN + HeaderLen(file)..InnerOffset(file)] == Head(2, InnerLen(file))
    ensures EndsIn(m.table, |Inner(file)|)
    ensures var segments := SegmentsOf(file, m.table);
            TABLE_BYTE_LEN + |Joined(segments)| <= U64_MAX
            && file == CapsuleBytes(c, m.header, m.table, segments)
  {
    hide EncodedTable, Joined, ValidSigner, Encoded, HexValue, Hex, ReadHead, Decoded, Contiguous, Head;
    var t, inner := m.table, Inner(file);
    var segments := SegmentsOf(file, t);
    JoinedIsTail(inner, t, segments, 5);
    assert segments[..5] == segments;
    assert Joined(segments) == inner[TABLE_BYTE_LEN..];
    assert inner == EncodedTable(t) + Joined(segments);
    FileSplits(c, file);
    assert Body(m.header, t, segments) == file[PRELUDE_LEN..];
  }

  /** A framed file is its prelude, header, payload head and payload, the numbers in fixed-width hex. */
  lemma {:induction false} FileSplits(c: Checks, file: Bytes)
    requires Framed(file)
    ensures |HeaderBytes(file)| == HeaderLen(file)
    ensures file[PRELUDE_LEN..]
            == HeaderBytes(file) + file[PRELUDE_LEN + HeaderLen(file)..InnerOffset(file)] + Inner(file)
    ensures file == START + Hex(HeaderLen(file), 4) + Hex(BodyCrc(file), 8) + file[PRELUDE_LEN..]
  {
    hide HexValue, Hex, ReadHead;
    StartFields();
    HexOfValue(file[7..11]);
    HexOfValue(VERSION);
    HexOfValue(file[12..16]);
    HexOfValue(file[16..24]);
    assert file[7..11] == VERSION;
    assert file == file[..7] + file[7..11] + [file[11]] + file[12..16] + file[16..24] + file[24..];
    var a, b := PRELUDE_LEN + HeaderLen(file), InnerOffset(file);
    assert file[PRELUDE_LEN..] == file[PRELUDE_LEN..a] + file[a..b] + file[b..];
  }

  // ---- End to end ---------------------------------------------------------

  /** Write with the streaming writer, read with the streaming verifier, at any chunk size. */
  method WriteThenVerify(c: Checks, h: Header, segments: seq<Bytes>, logical: seq<u64>, chunk: nat)
    returns (file: Bytes, written: Result<WriteReport>, verified: Result<Meta>)
    requires |segments| == |logical| == 5 && chunk > 0
    requires forall i :: 0 <= i < 5 ==> |segments[i]| <= U64_MAX
    ensures written.Ok? <==> ValidSigner(h.releaseSigner) && TABLE_BYTE_LEN + |Joined(segments)| <= U64_MAX
    ensures written.Ok? ==> (verified.Ok? <==> |segments[4]| <= MAX_SIGNATURE_SEGMENT_BYTES)
    ensures written.Ok? && verified.Ok? ==>
              && verified.value.header == h
              && verified.value.table == written.value.table
              && verified.value.signatureSegment == segments[4]
              && forall i :: 0 <= i < 5 ==>
                   var d := verified.value.table[i];
                   d.storedLength == |segments[i]| && d.logicalLength == logical[i]
                   && verified.value.innerFileOffset + d.End() <= |file|
                   && InFile(file, verified.value.innerFileOffset, d) == segments[i]
  {
    hide EncodedTable, Joined, ValidSigner, Framed, Contiguous, CapsuleBytes, Accepts;
    var w := new SeekWriter();
    written := WriteStreaming(c, w, h, segments, logical);
    file := w.data;
    var peak;
    verified, peak := Verify(c, file, chunk);
    if written.Ok? {
      var t := written.value.table;
      FreshOverwrite(CapsuleBytes(c, h, t, segments));
      WrittenVerifies(c, h, t, segments, logical);
      forall i | 0 <= i < 5
        ensures Framed(file) && InnerOffset(file) + t[i].End() <= |file|
                && InFile(file, InnerOffset(file), t[i]) == segments[i]
      {
        SegmentsInFile(c, h, t, segments, logical, i);
      }
      if verified.Ok? && |segments[4]| <= MAX_SIGNATURE_SEGMENT_BYTES {
        AcceptsUnique(c, file, verified.value, Meta(h, t, segments[4], InnerOffset(file)));
      }
    }
  }

  lemma {:induction false} FreshOverwrite(b: Bytes)
    ensures Overwrite([], 0, b) == b
  {
  }
}
