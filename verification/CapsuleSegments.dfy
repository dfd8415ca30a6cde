/** The GUMPDEP1 segment table (crates/gump-capsule/src/segment.rs). */
module SegmentTable {
  import opened Machine
  import opened BigEndian
  import opened Concatenation
  import opened Cbor

  const MAGIC: Bytes := Ascii("GUMPDEP1")
  const TABLE_VERSION: nat := 1
  const SEGMENT_COUNT: nat := 5
  const TABLE_PREFIX_LEN: nat := 16
  const SEGMENT_DESC_LEN: nat := 64
  const TABLE_BYTE_LEN: nat := 336

  datatype SegmentType = PublicMetadata | ApplicationArchive | ProtectedConfig | KeyEnvelope | ReleaseSignature
  {
    function Number(): (n: nat)
      ensures 1 <= n <= 5
    {
      match this
      case PublicMetadata => 1
      case ApplicationArchive => 2
      case ProtectedConfig => 3
      case KeyEnvelope => 4
      case ReleaseSignature => 5
    }
  }

  function FromNumber(n: nat): (t: Option<SegmentType>)
    ensures t.Some? <==> 1 <= n <= 5
    ensures t.Some? ==> t.value.Number() == n
  {
    if n == 1 then Some(PublicMetadata)
    else if n == 2 then Some(ApplicationArchive)
    else if n == 3 then Some(ProtectedConfig)
    else if n == 4 then Some(KeyEnvelope)
    else if n == 5 then Some(ReleaseSignature)
    else None
  }

  datatype Descriptor = Descriptor(
    segmentType: SegmentType, flags: u16, offset: u64, storedLength: u64, logicalLength: u64, digest: Digest32)
  {
    function End(): nat {
      offset + storedLength
    }
  }

  type Table = t: seq<Descriptor> | |t| == 5
    witness seq(5, i => Descriptor(PublicMetadata, 0, 0, 0, 0, seq(32, _ => 0)))

  // ---- Wire form ----------------------------------------------------------

  const PREFIX: Bytes := MAGIC + Be(TABLE_VERSION, 2) + Be(SEGMENT_COUNT, 2) + Be(TABLE_BYTE_LEN, 4)

  function Numbers(d: Descriptor): (b: Bytes)
    ensures |b| == 32
  {
    Be(d.segmentType.Number(), 2) + Be(d.flags, 2) + Be(0, 4)
    + Be(d.offset, 8) + Be(d.storedLength, 8) + Be(d.logicalLength, 8)
  }

  function DescriptorBytes(d: Descriptor): (b: Bytes)
    ensures |b| == 64
  {
    Numbers(d) + d.digest
  }

  function Rows(ds: seq<Descriptor>): (b: Bytes)
    ensures |b| == 64 * |ds|
  {
    if ds == [] then [] else Rows(ds[..|ds| - 1]) + DescriptorBytes(ds[|ds| - 1])
  }

  function EncodedTable(t: Table): (b: Bytes)
    ensures |b| == TABLE_BYTE_LEN
  {
    PREFIX + Rows(t)
  }

  ghost predicate ContiguousAt(ds: seq<Descriptor>, i: nat)
    requires i < |ds|
  {
    && ds[i].segmentType.Number() == i + 1
    && ds[i].flags == 0
    && ds[i].offset == Before(ds, i)
    && ds[i].End() <= U64_MAX
  }

  /** Where the segments before row `i` end. */
  function Before(ds: seq<Descriptor>, i: nat): nat
    requires i <= |ds|
  {
    if i == 0 then TABLE_BYTE_LEN else ds[i - 1].End()
  }

  ghost predicate ContiguousUpto(ds: seq<Descriptor>, n: nat)
    requires n <= |ds|
  {
    forall i :: 0 <= i < n ==> ContiguousAt(ds, i)
  }

  /** Types 1 to 5 in order, no flags, segments contiguous from the end of the table, ends within `u64`. */
  ghost predicate Contiguous(ds: Table) {
    ContiguousUpto(ds, 5)
  }

  /** Appends the table field by field. */
  method Encode(t: Table) returns (out: Bytes)
    ensures out == EncodedTable(t)
  {
    hide DescriptorBytes, Be;
    out := MAGIC;
    out := out + Be(TABLE_VERSION, 2);
    out := out + Be(SEGMENT_COUNT, 2);
    out := out + Be(TABLE_BYTE_LEN, 4);
    for i := 0 to |t|
      invariant out == PREFIX + Rows(t[..i])
    {
      hide Rows;
      var row := EncodeDescriptor(t[i]);
      RowsNext(t, i);
      out := out + row;
    }
    assert t[..|t|] == t;
  }

  lemma {:induction false} RowsNext(ds: seq<Descriptor>, i: nat)
    requires i < |ds|
    ensures Rows(ds[..i + 1]) == Rows(ds[..i]) + DescriptorBytes(ds[i])
  {
    assert ds[..i + 1][..i] == ds[..i];
  }

  method EncodeDescriptor(d: Descriptor) returns (out: Bytes)
    ensures out == DescriptorBytes(d)
  {
    out := Be(d.segmentType.Number(), 2);
    out := out + Be(d.flags, 2);
    out := out + Be(0, 4);
    out := out + Be(d.offset, 8);
    out := out + Be(d.storedLength, 8);
    out := out + Be(d.logicalLength, 8);
    out := out + d.digest;
  }

  // ---- Building -----------------------------------------------------------

  datatype Part = Part(segmentType: SegmentType, storedLength: u64, logicalLength: u64, digest: Digest32)

  function TotalStored(parts: seq<Part>): nat {
    if parts == [] then 0 else TotalStored(parts[..|parts| - 1]) + parts[|parts| - 1].storedLength
  }

  ghost predicate PartsInOrder(parts: seq<Part>) {
    forall i :: 0 <= i < |parts| ==> parts[i].segmentType.Number() == i + 1
  }

  ghost predicate Describes(ds: seq<Descriptor>, parts: seq<Part>) {
    && |ds| == |parts|
    && forall i :: 0 <= i < |ds| ==>
         ds[i].segmentType == parts[i].segmentType && ds[i].storedLength == parts[i].storedLength
         && ds[i].logicalLength == parts[i].logicalLength && ds[i].digest == parts[i].digest
  }

  /** Lays five hashed parts out one after another; fails only on disorder or an end past `u64`. */
  method FromHashedParts(parts: seq<Part>) returns (r: Result<Table>)
    requires |parts| == 5
    ensures r.Ok? <==> PartsInOrder(parts) && TABLE_BYTE_LEN + TotalStored(parts) <= U64_MAX
    ensures r.Ok? ==> Contiguous(r.value) && Describes(r.value, parts)
    ensures r.Ok? ==> r.value[4].End() == TABLE_BYTE_LEN + TotalStored(parts)
    ensures r.Err? ==> r.kind == TableError
  {
    var offset: u64 := TABLE_BYTE_LEN;
    var ds: seq<Descriptor> := [];
    for i := 0 to 5
      invariant |ds| == i && ContiguousUpto(ds, i) && Describes(ds, parts[..i])
      invariant PartsInOrder(parts[..i])
      invariant offset == TABLE_BYTE_LEN + TotalStored(parts[..i])
      invariant offset == Before(ds, i)
    {
      hide TotalStored, ContiguousUpto;
      var p := parts[i];
      if p.segmentType.Number() != i + 1 {
        return Err(TableError);
      }
      TotalNext(parts, i);
      if offset + p.storedLength > U64_MAX {
        TotalGrows(parts, i + 1);
        return Err(TableError);
      }
      ghost var prior := ds;
      ds := ds + [Descriptor(p.segmentType, 0, offset, p.storedLength, p.logicalLength, p.digest)];
      offset := offset + p.storedLength;
      ContiguousAppend(prior, ds);
    }
    assert parts[..5] == parts;
    return Ok(ds);
  }

  lemma {:induction false} ContiguousAppend(a: seq<Descriptor>, b: seq<Descriptor>)
    requires |b| == |a| + 1 && b[..|a|] == a && ContiguousUpto(a, |a|) && ContiguousAt(b, |a|)
    ensures ContiguousUpto(b, |b|)
  {
    forall i | 0 <= i < |b| ensures ContiguousAt(b, i) {
      if i < |a| {
        assert ContiguousAt(a, i) && a[i] == b[i];
        assert i > 0 ==> a[i - 1] == b[i - 1];
      }
    }
  }

  lemma {:induction false} TotalNext(parts: seq<Part>, i: nat)
    requires i < |parts|
    ensures TotalStored(parts[..i + 1]) == TotalStored(parts[..i]) + parts[i].storedLength
  {
    assert parts[..i + 1][..i] == parts[..i];
  }

  lemma {:induction false} TotalGrows(parts: seq<Part>, i: nat)
    requires i <= |parts|
    ensures TotalStored(parts[..i]) <= TotalStored(parts)
    decreases |parts| - i
  {
    if i < |parts| {
      TotalGrows(parts, i + 1);
      TotalNext(parts, i);
    } else {
      assert parts[..i] == parts;
    }
  }

  // ---- Reading ------------------------------------------------------------

  function Slice(b: Bytes, from: nat, width: nat): (s: Bytes)
    requires from + width <= |b|
    ensures |s| == width
  {
    b[from..from + width]
  }

  /** A 64-byte row with a known type and zero flags and reserved bytes. */
  function ReadDescriptor(b: Bytes): Option<Descriptor>
    requires |b| == 64
  {
    FieldsFit(b);
    var ty := FromNumber(FromBe(Slice(b, 0, 2)));
    if ty.None? || FromBe(Slice(b, 2, 2)) != 0 || FromBe(Slice(b, 4, 4)) != 0 then None
    else Some(Descriptor(ty.value, 0, FromBe(Slice(b, 8, 8)), FromBe(Slice(b, 16, 8)), FromBe(Slice(b, 24, 8)),
                         Slice(b, 32, 32)))
  }

  lemma {:induction false} FieldsFit(b: Bytes)
    requires |b| == 64
    ensures FromBe(Slice(b, 8, 8)) <= U64_MAX && FromBe(Slice(b, 16, 8)) <= U64_MAX
    ensures FromBe(Slice(b, 24, 8)) <= U64_MAX
  {
    ArgumentFits(Slice(b, 8, 8));
    ArgumentFits(Slice(b, 16, 8));
    ArgumentFits(Slice(b, 24, 8));
  }

  /** The six numbers and the digest of a row, cut out of its bytes. */
  lemma {:induction false} RowFields(d: Descriptor)
    ensures var b := DescriptorBytes(d);
            && Slice(b, 0, 2) == Be(d.segmentType.Number(), 2)
            && Slice(b, 2, 2) == Be(d.flags, 2)
            && Slice(b, 4, 4) == Be(0, 4)
            && Slice(b, 8, 8) == Be(d.offset, 8)
            && Slice(b, 16, 8) == Be(d.storedLength, 8)
            && Slice(b, 24, 8) == Be(d.logicalLength, 8)
            && Slice(b, 32, 32) == d.digest
  {
  }

  lemma {:induction false} RowSplits(b: Bytes)
    requires |b| == 64
    ensures b == Slice(b, 0, 2) + Slice(b, 2, 2) + Slice(b, 4, 4) + Slice(b, 8, 8) + Slice(b, 16, 8)
                 + Slice(b, 24, 8) + Slice(b, 32, 32)
  {
  }

  /** Reading accepts exactly the rows that encode a flagless descriptor, and returns it. */
  lemma {:induction false} ReadDescriptorExactly(b: Bytes, d: Descriptor)
    requires |b| == 64
    ensures ReadDescriptor(b) == Some(d) <==> d.flags == 0 && DescriptorBytes(d) == b
  {
    hide DescriptorBytes, Be, FromBe, Slice;
    if d.flags == 0 && DescriptorBytes(d) == b {
      RowFields(d);
      Widths();
      FromBeOfBe(d.segmentType.Number(), 2);
      FromBeOfBe(0, 2);
      FromBeOfBe(0, 4);
      FromBeOfBe(d.offset, 8);
      FromBeOfBe(d.storedLength, 8);
      FromBeOfBe(d.logicalLength, 8);
    } else if ReadDescriptor(b) == Some(d) {
      BeOfFromBe(Slice(b, 0, 2));
      BeOfFromBe(Slice(b, 2, 2));
      BeOfFromBe(Slice(b, 4, 4));
      BeOfFromBe(Slice(b, 8, 8));
      BeOfFromBe(Slice(b, 16, 8));
      BeOfFromBe(Slice(b, 24, 8));
      RowSplits(b);
      RowJoins(d);
    }
  }

  lemma {:induction false} RowJoins(d: Descriptor)
    ensures DescriptorBytes(d)
            == Be(d.segmentType.Number(), 2) + Be(d.flags, 2) + Be(0, 4) + Be(d.offset, 8)
               + Be(d.storedLength, 8) + Be(d.logicalLength, 8) + d.digest
  {
  }

  lemma {:induction false} RowAt(ds: seq<Descriptor>, i: nat)
    requires i < |ds|
    ensures Rows(ds)[64 * i..64 * (i + 1)] == DescriptorBytes(ds[i])
  {
    hide DescriptorBytes;
    var front := ds[..|ds| - 1];
    if i < |ds| - 1 {
      RowAt(front, i);
      assert Rows(ds)[64 * i..64 * (i + 1)] == Rows(front)[64 * i..64 * (i + 1)];
    }
  }

  /** Row `i` of an encoded table. */
  function RowOf(table: Bytes, i: nat): (b: Bytes)
    requires |table| == TABLE_BYTE_LEN && i < 5
    ensures |b| == 64
  {
    table[TABLE_PREFIX_LEN + 64 * i..TABLE_PREFIX_LEN + 64 * (i + 1)]
  }

  lemma {:induction false} TableRow(t: Table, i: nat)
    requires i < 5
    ensures RowOf(EncodedTable(t), i) == DescriptorBytes(t[i])
  {
    hide DescriptorBytes, Be;
    RowAt(t, i);
    assert RowOf(EncodedTable(t), i) == Rows(t)[64 * i..64 * (i + 1)];
  }

  lemma {:induction false} RowsFromRows(table: Bytes, ds: seq<Descriptor>)
    requires |table| == TABLE_BYTE_LEN && |ds| <= 5
    requires forall i :: 0 <= i < |ds| ==> RowOf(table, i) == DescriptorBytes(ds[i])
    ensures Rows(ds) == table[TABLE_PREFIX_LEN..TABLE_PREFIX_LEN + 64 * |ds|]
  {
    hide DescriptorBytes;
    if ds != [] {
      var n := |ds| - 1;
      RowsFromRows(table, ds[..n]);
      var from, mid := TABLE_PREFIX_LEN, TABLE_PREFIX_LEN + 64 * n;
      assert table[from..mid + 64] == table[from..mid] + table[mid..mid + 64];
    }
  }

  ghost predicate Flagless(t: Table) {
    forall i :: 0 <= i < 5 ==> t[i].flags == 0
  }

  lemma {:induction false} ContiguousIsFlagless(t: Table)
    requires Contiguous(t)
    ensures Flagless(t)
  {
    forall i | 0 <= i < 5 ensures t[i].flags == 0 {
      assert ContiguousAt(t, i);
    }
  }

  /** Encoding is injective on tables: the bytes give every descriptor back. */
  lemma {:induction false} EncodedTableInjective(t: Table, u: Table)
    requires EncodedTable(t) == EncodedTable(u) && Flagless(t) && Flagless(u)
    ensures t == u
  {
    hide DescriptorBytes, EncodedTable, ReadDescriptor;
    forall i | 0 <= i < 5 ensures t[i] == u[i] {
      TableRow(t, i);
      TableRow(u, i);
      ReadDescriptorExactly(DescriptorBytes(t[i]), t[i]);
      ReadDescriptorExactly(DescriptorBytes(t[i]), u[i]);
    }
  }

  /** The fixed prefix is read number by number. */
  predicate PrefixOk(table: Bytes)
    requires |table| >= TABLE_PREFIX_LEN
  {
    && table[..8] == MAGIC
    && FromBe(table[8..10]) == TABLE_VERSION
    && FromBe(table[10..12]) == SEGMENT_COUNT
    && FromBe(table[12..16]) == TABLE_BYTE_LEN
  }

  lemma {:induction false} PrefixOkExactly(table: Bytes)
    requires |table| >= TABLE_PREFIX_LEN
    ensures PrefixOk(table) <==> table[..16] == PREFIX
  {
    hide Be, FromBe;
    Widths();
    FromBeOfBe(TABLE_VERSION, 2);
    FromBeOfBe(SEGMENT_COUNT, 2);
    FromBeOfBe(TABLE_BYTE_LEN, 4);
    BeOfFromBe(table[8..10]);
    BeOfFromBe(table[10..12]);
    BeOfFromBe(table[12..16]);
    assert PREFIX[..8] == MAGIC && PREFIX[8..10] == Be(TABLE_VERSION, 2);
    assert PREFIX[10..12] == Be(SEGMENT_COUNT, 2) && PREFIX[12..16] == Be(TABLE_BYTE_LEN, 4);
    assert table[..16] == table[..8] + table[8..10] + table[10..12] + table[12..16];
    assert table[..16][..8] == table[..8] && table[..16][8..10] == table[8..10];
    assert table[..16][10..12] == table[10..12] && table[..16][12..16] == table[12..16];
  }

  /** Prefix, rows and type order, common to both readers. */
  method ReadRows(table: Bytes) returns (r: Result<Table>)
    requires |table| == TABLE_BYTE_LEN
    ensures r.Ok? ==> EncodedTable(r.value) == table
    ensures r.Ok? ==> forall i :: 0 <= i < 5 ==> r.value[i].segmentType.Number() == i + 1
    ensures r.Ok? ==> Flagless(r.value)
    ensures r.Err? ==> r.kind == TableError && forall t: Table :: Contiguous(t) ==> EncodedTable(t) != table
  {
    hide DescriptorBytes, ReadDescriptor, EncodedTable;
    PrefixOkExactly(table);
    if !PrefixOk(table) {
      NoTableWithoutPrefix(table);
      return Err(TableError);
    }
    var ds: seq<Descriptor> := [];
    for i := 0 to 5
      invariant |ds| == i
      invariant forall j :: 0 <= j < i ==> ReadDescriptor(RowOf(table, j)) == Some(ds[j])
    {
      var d := ReadDescriptor(RowOf(table, i));
      if d.None? {
        NoTableWithoutRow(table, i);
        return Err(TableError);
      }
      ds := ds + [d.value];
    }
    for i := 0 to 5
      invariant forall j :: 0 <= j < i ==> ds[j].segmentType.Number() == j + 1
    {
      if ds[i].segmentType.Number() != i + 1 {
        NoTableOutOfOrder(table, ds, i);
        return Err(TableError);
      }
    }
    forall j | 0 <= j < 5 ensures RowOf(table, j) == DescriptorBytes(ds[j]) && ds[j].flags == 0 {
      ReadDescriptorExactly(RowOf(table, j), ds[j]);
    }
    TableFromRows(table, ds);
    return Ok(ds);
  }

  lemma {:induction false} TableFromRows(table: Bytes, ds: Table)
    requires |table| == TABLE_BYTE_LEN && PrefixOk(table)
    requires forall j :: 0 <= j < 5 ==> RowOf(table, j) == DescriptorBytes(ds[j])
    ensures EncodedTable(ds) == table
  {
    hide DescriptorBytes, Rows;
    RowsFromRows(table, ds);
    PrefixOkExactly(table);
    assert table == table[..16] + table[16..];
  }

  lemma {:induction false} NoTableWithoutPrefix(table: Bytes)
    requires |table| == TABLE_BYTE_LEN && !PrefixOk(table)
    ensures forall t: Table :: Contiguous(t) ==> EncodedTable(t) != table
  {
    forall t: Table | Contiguous(t) ensures EncodedTable(t) != table {
      PrefixOkExactly(table);
      assert EncodedTable(t)[..16] == PREFIX;
    }
  }

  lemma {:induction false} NoTableWithoutRow(table: Bytes, i: nat)
    requires |table| == TABLE_BYTE_LEN && i < 5 && ReadDescriptor(RowOf(table, i)).None?
    ensures forall t: Table :: Contiguous(t) ==> EncodedTable(t) != table
  {
    hide DescriptorBytes, ReadDescriptor, EncodedTable, RowOf;
    forall t: Table | Contiguous(t) ensures EncodedTable(t) != table {
      assert ContiguousAt(t, i);
      TableRow(t, i);
      ReadDescriptorExactly(RowOf(table, i), t[i]);
    }
  }

  lemma {:induction false} NoTableOutOfOrder(table: Bytes, ds: seq<Descriptor>, i: nat)
    requires |table| == TABLE_BYTE_LEN && |ds| == 5 && i < 5
    requires ReadDescriptor(RowOf(table, i)) == Some(ds[i]) && ds[i].segmentType.Number() != i + 1
    ensures forall t: Table :: Contiguous(t) ==> EncodedTable(t) != table
  {
    hide DescriptorBytes, ReadDescriptor, EncodedTable, RowOf;
    forall t: Table | Contiguous(t) ensures EncodedTable(t) != table {
      assert ContiguousAt(t, i);
      TableRow(t, i);
      ReadDescriptorExactly(RowOf(table, i), t[i]);
    }
  }

  /**
   * Parsing inverts encoding on exactly the contiguous tables: it returns the one contiguous
   * table with these bytes, and refuses when there is none.
   */
  method ParseTableBytes(table: Bytes) returns (r: Result<Table>)
    ensures r.Ok? ==> Contiguous(r.value) && EncodedTable(r.value) == table
    ensures r.Err? ==> r.kind == TableError && forall t: Table :: Contiguous(t) ==> EncodedTable(t) != table
  {
    hide EncodedTable;
    if |table| != TABLE_BYTE_LEN {
      return Err(TableError);
    }
    r := ReadRows(table);
    if r.Err? {
      return;
    }
    var ds := r.value;
    var cursor: u64 := TABLE_BYTE_LEN;
    for i := 0 to 5
      invariant ContiguousUpto(ds, i)
      invariant cursor == Before(ds, i)
    {
      if ds[i].offset != cursor || ds[i].offset + ds[i].storedLength > U64_MAX {
        assert !ContiguousAt(ds, i);
        OnlyTable(table, ds);
        return Err(TableError);
      }
      cursor := ds[i].End();
    }
    return Ok(ds);
  }

  /** If these bytes encode a flagless table that is not contiguous, no contiguous table has them. */
  lemma {:induction false} OnlyTable(table: Bytes, ds: Table)
    requires EncodedTable(ds) == table && Flagless(ds) && !Contiguous(ds)
    ensures forall t: Table :: Contiguous(t) ==> EncodedTable(t) != table
  {
    hide EncodedTable, Contiguous;
    forall t: Table | Contiguous(t) ensures EncodedTable(t) != table {
      if EncodedTable(t) == table {
        ContiguousIsFlagless(t);
        EncodedTableInjective(t, ds);
      }
    }
  }

  // ---- Buffered verification ----------------------------------------------

  type ContentHash = Bytes -> Digest32

  function SegmentBytes(inner: Bytes, d: Descriptor): Bytes
    requires d.End() <= |inner|
  {
    inner[d.offset..d.End()]
  }

  /** The payload is this table followed by exactly the segments it describes, digests included. */
  ghost predicate Verified(hash: ContentHash, inner: Bytes, t: Table) {
    && Contiguous(t)
    && |inner| == t[4].End()
    && |inner| >= TABLE_BYTE_LEN
    && inner[..TABLE_BYTE_LEN] == EncodedTable(t)
    && EndsWithin(t, |inner|)
    && forall i :: 0 <= i < 5 ==> hash(SegmentBytes(inner, t[i])) == t[i].digest
  }

  ghost predicate EndsWithin(t: Table, n: nat) {
    forall i :: 0 <= i < 5 ==> t[i].End() <= n
  }

  lemma {:induction false} EndsAscend(t: Table, i: nat)
    requires Contiguous(t) && i < 5
    ensures TABLE_BYTE_LEN <= t[i].offset <= t[i].End() <= t[4].End()
  {
    assert ContiguousAt(t, 0) && ContiguousAt(t, 1) && ContiguousAt(t, 2) && ContiguousAt(t, 3) && ContiguousAt(t, 4);
  }

  /** Accepts a payload held in memory exactly when some table verifies it, and returns that table. */
  method ParseAndVerify(hash: ContentHash, inner: Bytes) returns (r: Result<Table>)
    ensures r.Ok? ==> Verified(hash, inner, r.value)
    ensures r.Err? ==> forall t: Table :: !Verified(hash, inner, t)
  {
    hide EncodedTable;
    if |inner| < TABLE_BYTE_LEN {
      return Err(TableError);
    }
    r := ReadRows(inner[..TABLE_BYTE_LEN]);
    if r.Err? {
      return;
    }
    var ds := r.value;
    var cursor: u64 := TABLE_BYTE_LEN;
    for i := 0 to 5
      invariant ContiguousUpto(ds, i)
      invariant cursor == Before(ds, i)
      invariant forall j :: 0 <= j < i ==>
                  ds[j].End() <= |inner| && hash(SegmentBytes(inner, ds[j])) == ds[j].digest
    {
      var d := ds[i];
      if d.offset != cursor || d.offset + d.storedLength > U64_MAX {
        assert !ContiguousAt(ds, i);
        NotVerified(hash, inner, ds);
        return Err(TableError);
      }
      var end := d.End();
      if end > |inner| || hash(inner[d.offset..end]) != d.digest {
        SegmentWrong(hash, inner, ds, i);
        NotVerified(hash, inner, ds);
        return Err(SegmentError);
      }
      cursor := end;
    }
    if cursor != |inner| {
      NotVerified(hash, inner, ds);
      return Err(TableError);
    }
    return Ok(ds);
  }

  lemma {:induction false} SegmentWrong(hash: ContentHash, inner: Bytes, t: Table, i: nat)
    requires i < 5 && (t[i].End() > |inner| || hash(SegmentBytes(inner, t[i])) != t[i].digest)
    ensures !Verified(hash, inner, t)
  {
  }

  /** Only the table read from the payload could have verified it. */
  lemma {:induction false} NotVerified(hash: ContentHash, inner: Bytes, ds: Table)
    requires |inner| >= TABLE_BYTE_LEN && EncodedTable(ds) == inner[..TABLE_BYTE_LEN]
    requires Flagless(ds) && !Verified(hash, inner, ds)
    ensures forall t: Table :: !Verified(hash, inner, t)
  {
    hide EncodedTable, Contiguous;
    forall t: Table ensures !Verified(hash, inner, t) {
      if Verified(hash, inner, t) {
        ContiguousIsFlagless(t);
        EncodedTableInjective(t, ds);
      }
    }
  }

  lemma {:induction false} VerifiedUnique(hash: ContentHash, inner: Bytes, t: Table, u: Table)
    requires Verified(hash, inner, t) && Verified(hash, inner, u)
    ensures t == u
  {
    hide EncodedTable, Contiguous;
    ContiguousIsFlagless(t);
    ContiguousIsFlagless(u);
    EncodedTableInjective(t, u);
  }
}
