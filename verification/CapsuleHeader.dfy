/** CBOR heads and UTF-8, as the capsule dialect uses them (section 3 of RFC 8949). */
module Cbor {
  import opened Machine
  import opened BigEndian

  /** `Overflow` is no error value of the source but the panic of its unchecked `pos + n`. */
  datatype ErrorKind = HeaderError | FramingError | TableError | SegmentError | IoError | Overflow

  datatype Result<+T> = Ok(value: T) | Err(kind: ErrorKind)

  /** `encode_len`: the shortest head for a major type and its argument. */
  function Head(major: nat, n: u64): (s: Bytes)
    requires major < 8
    ensures 1 <= |s| <= 9
  {
    if n < 24 then [32 * major + n]
    else if n <= U8_MAX then [32 * major + 24] + Be(n, 1)
    else if n <= U16_MAX then [32 * major + 25] + Be(n, 2)
    else if n <= U32_MAX then [32 * major + 26] + Be(n, 4)
    else [32 * major + 27] + Be(n, 8)
  }

  /** How many argument bytes follow an initial byte; `None` for reserved and indefinite forms. */
  function ArgumentWidth(info: nat): Option<nat> {
    if info < 24 then Some(0)
    else if info == 24 then Some(1)
    else if info == 25 then Some(2)
    else if info == 26 then Some(4)
    else if info == 27 then Some(8)
    else None
  }

  datatype Item = Item(major: nat, value: u64, next: nat)

  /**
   * What reading on to `end`, past the last byte, comes to. When the sum does not fit 64 bits a
   * checked build panics on it, and an unchecked one on the slice whose end wrapped below its start.
   */
  function CutShort(end: nat): ErrorKind {
    if end > U64_MAX then Overflow else HeaderError
  }

  /** `read_initial`: major type, argument, and where the item goes on. Any width is accepted. */
  function ReadHead(bytes: Bytes, pos: nat): (r: Result<Item>)
    requires pos <= |bytes|
    ensures r.Ok? ==> pos < r.value.next <= |bytes| && r.value.major < 8
  {
    if pos == |bytes| then Err(CutShort(pos + 1)) else
    var major, info := bytes[pos] / 32, bytes[pos] % 32;
    match ArgumentWidth(info)
    case None => Err(HeaderError)
    case Some(w) =>
      if pos + 1 + w > |bytes| then Err(CutShort(pos + 1 + w))
      else if w == 0 then Ok(Item(major, info, pos + 1))
      else
        var argument := bytes[pos + 1..pos + 1 + w];
        ArgumentFits(argument);
        Ok(Item(major, FromBe(argument), pos + 1 + w))
  }

  lemma {:induction false} ArgumentFits(s: Bytes)
    requires |s| <= 8
    ensures FromBe(s) <= U64_MAX
  {
    BeOfFromBe(s);
    Widths();
    PowMonotone(|s|, 8);
  }

  lemma {:induction false} PowMonotone(j: nat, k: nat)
    requires j <= k
    ensures Pow256(j) <= Pow256(k)
  {
    if j < k {
      PowMonotone(j, k - 1);
    }
  }

  /** `s` stands at `pos` in `bytes`. */
  ghost predicate At(bytes: Bytes, pos: nat, s: Bytes) {
    pos + |s| <= |bytes| && bytes[pos..pos + |s|] == s
  }

  lemma {:induction false} AtSplit(bytes: Bytes, pos: nat, a: Bytes, b: Bytes)
    requires At(bytes, pos, a + b)
    ensures At(bytes, pos, a) && At(bytes, pos + |a|, b)
  {
    var ab := bytes[pos..pos + |a + b|];
    assert ab[..|a|] == a && ab[|a|..] == b;
    assert bytes[pos..pos + |a|] == ab[..|a|];
    assert bytes[pos + |a|..pos + |a| + |b|] == ab[|a|..];
  }

  /** A written head reads back, wherever it stands. */
  lemma {:induction false} HeadReads(bytes: Bytes, pos: nat, major: nat, n: u64)
    requires major < 8 && At(bytes, pos, Head(major, n))
    ensures pos < |bytes| && ReadHead(bytes, pos) == Ok(Item(major, n, pos + |Head(major, n)|))
  {
    var head := Head(major, n);
    Widths();
    assert bytes[pos] == head[0];
    if n >= 24 {
      var w := |head| - 1;
      assert bytes[pos + 1..pos + 1 + w] == head[1..];
      assert head[1..] == Be(n, w);
      FromBeOfBe(n, w);
      assert head[0] / 32 == major && head[0] % 32 == 24 + (if w == 1 then 0 else if w == 2 then 1 else if w == 4 then 2 else 3);
    }
  }

  predicate Continuation(b: byte) {
    0x80 <= b <= 0xBF
  }

  /** Well-formed UTF-8 (table 3-7 of the Unicode Standard), as `String::from_utf8` demands. */
  predicate Utf8(s: Bytes)
    decreases |s|
  {
    || s == []
    || (s[0] <= 0x7F && Utf8(s[1..]))
    || (|s| >= 2 && 0xC2 <= s[0] <= 0xDF && Continuation(s[1]) && Utf8(s[2..]))
    || (|s| >= 3 && ThreeByteLead(s[0], s[1]) && Continuation(s[2]) && Utf8(s[3..]))
    || (|s| >= 4 && FourByteLead(s[0], s[1]) && Continuation(s[2]) && Continuation(s[3]) && Utf8(s[4..]))
  }

  predicate ThreeByteLead(a: byte, b: byte) {
    || (a == 0xE0 && 0xA0 <= b <= 0xBF)
    || ((0xE1 <= a <= 0xEC || 0xEE <= a <= 0xEF) && Continuation(b))
    || (a == 0xED && 0x80 <= b <= 0x9F)
  }

  predicate FourByteLead(a: byte, b: byte) {
    || (a == 0xF0 && 0x90 <= b <= 0xBF)
    || (0xF1 <= a <= 0xF3 && Continuation(b))
    || (a == 0xF4 && 0x80 <= b <= 0x8F)
  }

  ghost predicate IsAscii(s: Bytes) {
    forall i :: 0 <= i < |s| ==> s[i] <= 0x7F
  }

  lemma {:induction false} AsciiIsUtf8(s: Bytes)
    requires IsAscii(s)
    ensures Utf8(s)
    decreases |s|
  {
    if s != [] {
      AsciiIsUtf8(s[1..]);
    }
  }
}

/** The deterministic header map of `gump/deployment/1` (crates/gump-capsule/src/header.rs). */
module CapsuleHeader {
  import opened Machine
  import opened Concatenation
  import opened Cbor

  type i64 = x: int | -0x8000_0000_0000_0000 <= x <= 0x7FFF_FFFF_FFFF_FFFF

  const DIALECT: Bytes := Ascii("gump/deployment/1")
  const PAYLOAD_LAYOUT: Bytes := Ascii("gump-segments/1")

  datatype Header = Header(capsuleId: Id16, clusterId: Id16, releaseSigner: Bytes, createdUnixMs: i64)

  datatype Field = Dialect | CapsuleIdField | ClusterIdField | PayloadLayout | ReleaseSigner | CreatedUnixMs

  function Name(f: Field): (s: Bytes)
    ensures 7 <= |s| <= 15
  {
    match f
    case Dialect => Ascii("dialect")
    case CapsuleIdField => Ascii("capsule_id")
    case ClusterIdField => Ascii("cluster_id")
    case PayloadLayout => Ascii("payload_layout")
    case ReleaseSigner => Ascii("release_signer")
    case CreatedUnixMs => Ascii("created_unix_ms")
  }

  predicate LowerHex(b: byte) {
    '0' as int <= b <= '9' as int || 'a' as int <= b <= 'f' as int
  }

  /** What `encode_cbor` demands of the signer fingerprint. */
  predicate ValidSigner(s: Bytes) {
    1 <= |s| <= 256 && forall i :: 0 <= i < |s| ==> LowerHex(s[i])
  }

  // ---- Wire form ----------------------------------------------------------

  function Text(s: Bytes): Bytes
    requires |s| <= U64_MAX
  {
    Head(3, |s|) + s
  }

  function IntItem(v: i64): Bytes {
    if v >= 0 then Head(0, v) else Head(1, -1 - v)
  }

  function Value(h: Header, f: Field): Bytes
    requires ValidSigner(h.releaseSigner)
  {
    match f
    case Dialect => Text(DIALECT)
    case CapsuleIdField => Head(2, 16) + h.capsuleId
    case ClusterIdField => Head(2, 16) + h.clusterId
    case PayloadLayout => Text(PAYLOAD_LAYOUT)
    case ReleaseSigner => Text(h.releaseSigner)
    case CreatedUnixMs => IntItem(h.createdUnixMs)
  }

  /** Map keys in the order of their encodings. */
  const FIELDS: seq<Field> :=
    [Dialect, CapsuleIdField, ClusterIdField, PayloadLayout, ReleaseSigner, CreatedUnixMs]

  function Entry(h: Header, f: Field): Bytes
    requires ValidSigner(h.releaseSigner)
  {
    Text(Name(f)) + Value(h, f)
  }

  function Entries(h: Header, fields: seq<Field>): Bytes
    requires ValidSigner(h.releaseSigner)
  {
    if fields == [] then [] else Entry(h, fields[0]) + Entries(h, fields[1..])
  }

  function Encoded(h: Header): Bytes
    requires ValidSigner(h.releaseSigner)
  {
    [0xa6] + Entries(h, FIELDS)
  }

  /** `encode_cbor`: checks the signer, then appends item by item. */
  method EncodeCbor(h: Header) returns (r: Result<Bytes>)
    ensures r.Ok? <==> ValidSigner(h.releaseSigner)
    ensures r.Ok? ==> r.value == Encoded(h)
    ensures r.Err? ==> r.kind == HeaderError
  {
    if h.releaseSigner == [] || |h.releaseSigner| > 256 {
      return Err(HeaderError);
    }
    if exists i :: 0 <= i < |h.releaseSigner| && !LowerHex(h.releaseSigner[i]) {
      return Err(HeaderError);
    }
    var out := AppendFields(h);
    return Ok(out);
  }

  /** The body of `encode_cbor`, item after item. */
  method AppendFields(h: Header) returns (out: Bytes)
    requires ValidSigner(h.releaseSigner)
    ensures out == Encoded(h)
  {
    SignerFits(h.releaseSigner);
    hide Name, Text, Entries, Head, IntItem, ValidSigner, Upto;
    out := AppendIds(h);
    out := EncodeText(out, Name(PayloadLayout));
    out := EncodeText(out, PAYLOAD_LAYOUT);
    assert out == Upto(h, 4) by { UptoNext(h, 4); }
    out := EncodeText(out, Name(ReleaseSigner));
    out := EncodeText(out, h.releaseSigner);
    assert out == Upto(h, 5) by { UptoNext(h, 5); }
    out := EncodeText(out, Name(CreatedUnixMs));
    out := out + IntItem(h.createdUnixMs);
    assert out == Upto(h, 6) by { UptoNext(h, 6); }
    UptoAll(h, 6);
  }

  /** The map head and the entries before the payload layout. */
  method AppendIds(h: Header) returns (out: Bytes)
    requires ValidSigner(h.releaseSigner)
    ensures out == Upto(h, 3)
  {
    hide Name, Text, Entries, Head, IntItem, ValidSigner, Upto;
    out := [0xa6];
    assert out == Upto(h, 0) by { UptoStart(h); }
    out := EncodeText(out, Name(Dialect));
    out := EncodeText(out, DIALECT);
    assert out == Upto(h, 1) by { UptoNext(h, 1); }
    out := EncodeText(out, Name(CapsuleIdField));
    out := EncodeBstr16(out, h.capsuleId);
    assert out == Upto(h, 2) by { UptoNext(h, 2); }
    out := EncodeText(out, Name(ClusterIdField));
    out := EncodeBstr16(out, h.clusterId);
    assert out == Upto(h, 3) by { UptoNext(h, 3); }
  }

  lemma {:induction false} SignerFits(s: Bytes)
    requires ValidSigner(s)
    ensures |s| <= 256
  {
  }

  method EncodeText(prior: Bytes, s: Bytes) returns (out: Bytes)
    requires |s| <= U64_MAX
    ensures out == prior + Text(s)
  {
    out := prior + Head(3, |s|);
    out := out + s;
  }

  method EncodeBstr16(prior: Bytes, id: Id16) returns (out: Bytes)
    ensures out == prior + (Head(2, 16) + id)
  {
    out := prior + Head(2, 16);
    out := out + id;
  }

  /** The encoding after `i` entries. */
  function Upto(h: Header, i: nat): Bytes
    requires ValidSigner(h.releaseSigner) && i <= 6
  {
    if i == 0 then [0xa6] else Upto(h, i - 1) + Entry(h, FIELDS[i - 1])
  }

  lemma {:induction false} UptoStart(h: Header)
    requires ValidSigner(h.releaseSigner)
    ensures Upto(h, 0) == [0xa6]
  {
  }

  lemma {:induction false} UptoNext(h: Header, i: nat)
    requires ValidSigner(h.releaseSigner) && 1 <= i <= 6
    ensures Upto(h, i) == Upto(h, i - 1) + Text(Name(FIELDS[i - 1])) + Value(h, FIELDS[i - 1])
  {
    hide Text, Name, Value;
  }

  lemma {:induction false} UptoAll(h: Header, i: nat)
    requires ValidSigner(h.releaseSigner) && i <= 6
    ensures Upto(h, i) + Entries(h, FIELDS[i..]) == Encoded(h)
    ensures i == 6 ==> Upto(h, i) == Encoded(h)
  {
    hide Entry;
    if i > 0 {
      UptoAll(h, i - 1);
      assert FIELDS[i - 1..][0] == FIELDS[i - 1] && FIELDS[i - 1..][1..] == FIELDS[i..];
    }
  }

  lemma {:induction false} ShortText(s: Bytes)
    requires |s| < 24
    ensures Text(s) == [0x60 + |s|] + s
  {
  }

  function Prefix(dialect: Bytes, value: Bytes, capsule: Bytes, id: Bytes, cluster: Bytes, id': Bytes): Bytes {
    [0xa6, 0x67] + dialect + [0x71] + value + [0x6a] + capsule + [0x50] + id + [0x6a] + cluster + [0x50] + id'
  }

  lemma {:induction false} PrefixOffsets(dialect: Bytes, value: Bytes, capsule: Bytes, id: Bytes, cluster: Bytes,
                                         id': Bytes)
    requires |dialect| == 7 && |value| == 17 && |capsule| == |cluster| == 10 && |id| == |id'| == 16
    ensures var b := Prefix(dialect, value, capsule, id, cluster, id');
            && |b| == 83 && b[0] == 0xa6 && b[2..9] == dialect && b[10..27] == value && b[28..38] == capsule
            && b[38] == 0x50 && b[39..55] == id && b[56..66] == cluster && b[66] == 0x50 && b[67..83] == id'
  {
  }

  lemma {:induction false} HeaderPrefix(h: Header)
    requires ValidSigner(h.releaseSigner)
    ensures Upto(h, 3)
         == Prefix(Ascii("dialect"), Ascii("gump/deployment/1"), Ascii("capsule_id"), h.capsuleId, Ascii("cluster_id"),
                   h.clusterId)
    ensures Upto(h, 3) <= Encoded(h)
  {
    hide Upto, Entries, ValidSigner, Encoded, Text, Ascii;
    UptoStart(h);
    UptoNext(h, 1);
    UptoNext(h, 2);
    UptoNext(h, 3);
    UptoAll(h, 3);
    AsciiLengths();
    ShortText(Ascii("dialect"));
    ShortText(DIALECT);
    ShortText(Ascii("capsule_id"));
    ShortText(Ascii("cluster_id"));
    assert Head(2, 16) == [0x50];
  }

  lemma {:induction false} AsciiLengths()
    ensures |Ascii("dialect")| == 7 && |Ascii("gump/deployment/1")| == 17
    ensures |Ascii("capsule_id")| == |Ascii("cluster_id")| == 10
  {
  }

  /** Where dialect, capsule and cluster stand in every header. */
  lemma {:induction false} HeaderOffsets(h: Header)
    requires ValidSigner(h.releaseSigner)
    ensures var b := Encoded(h);
            && |b| >= 83 && b[0] == 0xa6
            && b[2..9] == Ascii("dialect") && b[10..27] == Ascii("gump/deployment/1")
            && b[28..38] == Ascii("capsule_id") && b[38] == 0x50 && b[39..55] == h.capsuleId
            && b[56..66] == Ascii("cluster_id") && b[66] == 0x50 && b[67..83] == h.clusterId
  {
    hide Upto, Encoded, Prefix, Ascii;
    HeaderPrefix(h);
    AsciiLengths();
    PrefixOffsets(Ascii("dialect"), Ascii("gump/deployment/1"), Ascii("capsule_id"), h.capsuleId, Ascii("cluster_id"),
                  h.clusterId);
    var b, front := Encoded(h), Upto(h, 3);
    assert b[..83] == front;
    assert b[2..9] == front[2..9] && b[10..27] == front[10..27] && b[28..38] == front[28..38];
    assert b[39..55] == front[39..55] && b[56..66] == front[56..66] && b[67..83] == front[67..83];
  }

  // ---- Reading ------------------------------------------------------------

  /** `<` on byte strings. */
  predicate BytesLess(a: Bytes, b: Bytes)
    decreases |a|
  {
    if b == [] then false
    else if a == [] then true
    else a[0] < b[0] || (a[0] == b[0] && BytesLess(a[1..], b[1..]))
  }

  function ReadText(bytes: Bytes, pos: nat): (r: Result<(Bytes, nat)>)
    requires pos <= |bytes|
    ensures r.Ok? ==> pos < r.value.1 <= |bytes|
  {
    match ReadHead(bytes, pos)
    case Err(e) => Err(e)
    case Ok(Item(major, n, next)) =>
      if major != 3 then Err(HeaderError)
      else if next + n > |bytes| then Err(CutShort(next + n))
      else if !Utf8(bytes[next..next + n]) then Err(HeaderError)
      else Ok((bytes[next..next + n], next + n))
  }

  function ReadBstr(bytes: Bytes, pos: nat): (r: Result<(Bytes, nat)>)
    requires pos <= |bytes|
    ensures r.Ok? ==> pos < r.value.1 <= |bytes|
  {
    match ReadHead(bytes, pos)
    case Err(e) => Err(e)
    case Ok(Item(major, n, next)) =>
      if major != 2 then Err(FramingError)
      else if next + n > |bytes| then Err(CutShort(next + n))
      else Ok((bytes[next..next + n], next + n))
  }

  function ReadId(bytes: Bytes, pos: nat): (r: Result<(Id16, nat)>)
    requires pos <= |bytes|
    ensures r.Ok? ==> pos < r.value.1 <= |bytes|
  {
    match ReadBstr(bytes, pos)
    case Err(e) => Err(e)
    case Ok((b, next)) => if |b| != 16 then Err(HeaderError) else Ok((b, next))
  }

  function ReadInt(bytes: Bytes, pos: nat): (r: Result<(i64, nat)>)
    requires pos <= |bytes|
    ensures r.Ok? ==> pos < r.value.1 <= |bytes|
  {
    match ReadHead(bytes, pos)
    case Err(e) => Err(e)
    case Ok(Item(major, n, next)) =>
      if major > 1 || n > 0x7FFF_FFFF_FFFF_FFFF then Err(HeaderError)
      else Ok((if major == 0 then n else -1 - n, next))
  }

  /** The fields read so far and the encoding of the last key. */
  datatype Partial = Partial(
    dialect: Option<Bytes>, capsuleId: Option<Id16>, clusterId: Option<Id16>, payloadLayout: Option<Bytes>,
    releaseSigner: Option<Bytes>, createdUnixMs: Option<i64>, lastKey: Bytes)

  const NOTHING: Partial := Partial(None, None, None, None, None, None, [])

  /** One key and its value. */
  function ReadEntry(bytes: Bytes, pos: nat, p: Partial): (r: Result<(Partial, nat)>)
    requires pos <= |bytes|
    ensures r.Ok? ==> pos < r.value.1 <= |bytes|
  {
    match ReadText(bytes, pos)
    case Err(e) => Err(e)
    case Ok((key, next)) =>
      var enc := bytes[pos..next];
      if p.lastKey != [] && !BytesLess(p.lastKey, enc) then Err(HeaderError)
      else ReadValue(bytes, next, key, p.(lastKey := enc))
  }

  function ReadValue(bytes: Bytes, pos: nat, key: Bytes, p: Partial): (r: Result<(Partial, nat)>)
    requires pos <= |bytes|
    ensures r.Ok? ==> pos < r.value.1 <= |bytes|
  {
    if key == Name(Dialect) then
      match ReadText(bytes, pos) case Err(e) => Err(e) case Ok((s, q)) => Ok((p.(dialect := Some(s)), q))
    else if key == Name(CapsuleIdField) then
      match ReadId(bytes, pos) case Err(e) => Err(e) case Ok((s, q)) => Ok((p.(capsuleId := Some(s)), q))
    else if key == Name(ClusterIdField) then
      match ReadId(bytes, pos) case Err(e) => Err(e) case Ok((s, q)) => Ok((p.(clusterId := Some(s)), q))
    else if key == Name(PayloadLayout) then
      match ReadText(bytes, pos) case Err(e) => Err(e) case Ok((s, q)) => Ok((p.(payloadLayout := Some(s)), q))
    else if key == Name(ReleaseSigner) then
      match ReadText(bytes, pos) case Err(e) => Err(e) case Ok((s, q)) => Ok((p.(releaseSigner := Some(s)), q))
    else if key == Name(CreatedUnixMs) then
      match ReadInt(bytes, pos) case Err(e) => Err(e) case Ok((v, q)) => Ok((p.(createdUnixMs := Some(v)), q))
    else Err(HeaderError)
  }

  function ReadEntries(bytes: Bytes, pos: nat, p: Partial, n: nat): (r: Result<(Partial, nat)>)
    requires pos <= |bytes|
    ensures r.Ok? ==> pos <= r.value.1 <= |bytes|
    decreases n
  {
    if n == 0 then Ok((p, pos)) else
    match ReadEntry(bytes, pos, p)
    case Err(e) => Err(e)
    case Ok((p', next)) => ReadEntries(bytes, next, p', n - 1)
  }

  function Finish(p: Partial): Result<Header> {
    if p.dialect != Some(DIALECT) || p.payloadLayout != Some(PAYLOAD_LAYOUT) then Err(HeaderError)
    else if p.capsuleId.None? || p.clusterId.None? || p.releaseSigner.None? || p.createdUnixMs.None?
    then Err(HeaderError)
    else Ok(Header(p.capsuleId.value, p.clusterId.value, p.releaseSigner.value, p.createdUnixMs.value))
  }

  /** The header a byte string decodes to, if any. */
  function Decoded(bytes: Bytes): Result<Header> {
    match ReadHead(bytes, 0)
    case Err(e) => Err(e)
    case Ok(Item(major, n, next)) =>
      if major != 5 || n != 6 then Err(HeaderError) else
      match ReadEntries(bytes, next, NOTHING, 6)
      case Err(e) => Err(e)
      case Ok((p, end)) => if end != |bytes| then Err(HeaderError) else Finish(p)
  }

  /** The reader the source threads through the decode loop. */
  class Cursor {
    const bytes: Bytes
    var pos: nat

    predicate Valid()
      reads this
    {
      pos <= |bytes|
    }

    constructor (bytes: Bytes)
      ensures Valid() && this.bytes == bytes && pos == 0
    {
      this.bytes := bytes;
      pos := 0;
    }

    method Take(n: nat) returns (r: Result<Bytes>)
      requires Valid()
      modifies this
      ensures Valid()
      ensures r == if old(pos) + n > |bytes| then Err(CutShort(old(pos) + n)) else Ok(bytes[old(pos)..old(pos) + n])
      ensures pos == if r.Ok? then old(pos) + n else old(pos)
    {
      if pos + n > |bytes| {
        return Err(CutShort(pos + n));
      }
      r := Ok(bytes[pos..pos + n]);
      pos := pos + n;
    }

    method Initial() returns (r: Result<(nat, u64)>)
      requires Valid()
      modifies this
      ensures Valid()
      ensures r.Ok? <==> ReadHead(bytes, old(pos)).Ok?
      ensures r.Ok? ==> ReadHead(bytes, old(pos)) == Ok(Item(r.value.0, r.value.1, pos))
      ensures r.Err? ==> ReadHead(bytes, old(pos)) == Err(r.kind)
    {
      var first := Take(1);
      if first.Err? {
        return Err(first.kind);
      }
      var major, info := first.value[0] / 32, first.value[0] % 32;
      match ArgumentWidth(info) {
        case None =>
          return Err(HeaderError);
        case Some(w) =>
          if w == 0 {
            return Ok((major, info));
          }
          var argument := Take(w);
          if argument.Err? {
            return Err(argument.kind);
          }
          ArgumentFits(argument.value);
          return Ok((major, BigEndian.FromBe(argument.value)));
      }
    }

    method TextItem() returns (r: Result<Bytes>)
      requires Valid()
      modifies this
      ensures Valid()
      ensures r.Ok? ==> ReadText(bytes, old(pos)) == Ok((r.value, pos))
      ensures r.Err? ==> ReadText(bytes, old(pos)) == Err(r.kind)
    {
      var head := Initial();
      if head.Err? {
        return Err(head.kind);
      }
      if head.value.0 != 3 {
        return Err(HeaderError);
      }
      var s := Take(head.value.1);
      if s.Err? {
        return Err(s.kind);
      }
      if !Utf8(s.value) {
        return Err(HeaderError);
      }
      return s;
    }

    method BstrItem() returns (r: Result<Bytes>)
      requires Valid()
      modifies this
      ensures Valid()
      ensures r.Ok? ==> ReadBstr(bytes, old(pos)) == Ok((r.value, pos))
      ensures r.Err? ==> ReadBstr(bytes, old(pos)) == Err(r.kind)
    {
      var head := Initial();
      if head.Err? {
        return Err(head.kind);
      }
      if head.value.0 != 2 {
        return Err(FramingError);
      }
      r := Take(head.value.1);
    }

    method IdItem() returns (r: Result<Id16>)
      requires Valid()
      modifies this
      ensures Valid()
      ensures r.Ok? ==> ReadId(bytes, old(pos)) == Ok((r.value, pos))
      ensures r.Err? ==> ReadId(bytes, old(pos)) == Err(r.kind)
    {
      var b := BstrItem();
      if b.Err? {
        return Err(b.kind);
      }
      if |b.value| != 16 {
        return Err(HeaderError);
      }
      return Ok(b.value);
    }

    method IntItem() returns (r: Result<i64>)
      requires Valid()
      modifies this
      ensures Valid()
      ensures r.Ok? ==> ReadInt(bytes, old(pos)) == Ok((r.value, pos))
      ensures r.Err? ==> ReadInt(bytes, old(pos)) == Err(r.kind)
    {
      var head := Initial();
      if head.Err? {
        return Err(head.kind);
      }
      if head.value.0 > 1 || head.value.1 > 0x7FFF_FFFF_FFFF_FFFF {
        return Err(HeaderError);
      }
      var v: int := head.value.1;
      return Ok(if head.value.0 == 0 then v else -1 - v);
    }

    /** The six-way dispatch on the key. */
    method ValueItem(key: Bytes, p: Partial) returns (r: Result<Partial>)
      requires Valid()
      modifies this
      ensures Valid()
      ensures r.Ok? ==> ReadValue(bytes, old(pos), key, p) == Ok((r.value, pos))
      ensures r.Err? ==> ReadValue(bytes, old(pos), key, p) == Err(r.kind)
    {
      hide ReadText, ReadId, ReadInt, Name;
      if key == Name(Dialect) {
        var s := TextItem();
        return if s.Err? then Err(s.kind) else Ok(p.(dialect := Some(s.value)));
      } else if key == Name(CapsuleIdField) {
        var s := IdItem();
        return if s.Err? then Err(s.kind) else Ok(p.(capsuleId := Some(s.value)));
      } else if key == Name(ClusterIdField) {
        var s := IdItem();
        return if s.Err? then Err(s.kind) else Ok(p.(clusterId := Some(s.value)));
      } else if key == Name(PayloadLayout) {
        var s := TextItem();
        return if s.Err? then Err(s.kind) else Ok(p.(payloadLayout := Some(s.value)));
      } else if key == Name(ReleaseSigner) {
        var s := TextItem();
        return if s.Err? then Err(s.kind) else Ok(p.(releaseSigner := Some(s.value)));
      } else if key == Name(CreatedUnixMs) {
        var v := IntItem();
        return if v.Err? then Err(v.kind) else Ok(p.(createdUnixMs := Some(v.value)));
      }
      return Err(HeaderError);
    }
  }

  /** `decode_cbor`: a loop over six entries that fills optional fields. */
  method DecodeCbor(bytes: Bytes) returns (r: Result<Header>)
    ensures r == Decoded(bytes)
  {
    hide ReadText, ReadValue, ReadHead, Finish, BytesLess;
    var cur := new Cursor(bytes);
    var head := cur.Initial();
    if head.Err? {
      return Err(head.kind);
    }
    if head.value.0 != 5 || head.value.1 != 6 {
      return Err(HeaderError);
    }
    var p := NOTHING;
    ghost var start := cur.pos;
    for i := 0 to 6
      invariant cur.Valid()
      invariant ReadEntries(bytes, start, NOTHING, 6) == ReadEntries(bytes, cur.pos, p, 6 - i)
    {
      var keyStart := cur.pos;
      var key := cur.TextItem();
      if key.Err? {
        return Err(key.kind);
      }
      var enc := bytes[keyStart..cur.pos];
      if p.lastKey != [] && !BytesLess(p.lastKey, enc) {
        return Err(HeaderError);
      }
      var next := cur.ValueItem(key.value, p.(lastKey := enc));
      if next.Err? {
        return Err(next.kind);
      }
      p := next.value;
    }
    if cur.pos != |bytes| {
      return Err(HeaderError);
    }
    return Finish(p);
  }

  // ---- When decoding overflows --------------------------------------------

  /** Longer than any slice of the source can be. */
  const SLICE_MAX: nat := 0x7FFF_FFFF_FFFF_FFFF

  /** At this place stands the head of a text or byte string that ends past 64 bits. */
  ghost predicate OverlongAt(bytes: Bytes, pos: nat, major: nat) {
    pos <= |bytes| && ReadHead(bytes, pos).Ok?
    && var item := ReadHead(bytes, pos).value;
       item.major == major && item.next + item.value > U64_MAX
  }

  /** A string item overflows exactly at such a head. */
  lemma {:induction false} ItemOverflows(bytes: Bytes, pos: nat)
    requires pos <= |bytes| <= SLICE_MAX
    ensures ReadText(bytes, pos) == Err(Overflow) <==> OverlongAt(bytes, pos, 3)
    ensures ReadBstr(bytes, pos) == Err(Overflow) <==> OverlongAt(bytes, pos, 2)
    ensures ReadId(bytes, pos) == Err(Overflow) <==> OverlongAt(bytes, pos, 2)
    ensures ReadInt(bytes, pos) != Err(Overflow)
  {
  }

  /** The value of this key is read as the kind of string of this major type. */
  predicate StringValued(key: Bytes, major: nat) {
    || (major == 3 && (key == Name(Dialect) || key == Name(PayloadLayout) || key == Name(ReleaseSigner)))
    || (major == 2 && (key == Name(CapsuleIdField) || key == Name(ClusterIdField)))
  }

  /** An entry overflows at its key, or at a string value whose key is known and in order. */
  ghost predicate EntryOverflows(bytes: Bytes, pos: nat, lastKey: Bytes) {
    || OverlongAt(bytes, pos, 3)
    || (pos <= |bytes| && ReadText(bytes, pos).Ok?
        && var (key, next) := ReadText(bytes, pos).value;
           && (lastKey == [] || BytesLess(lastKey, bytes[pos..next]))
           && exists major :: StringValued(key, major) && OverlongAt(bytes, next, major))
  }

  lemma {:induction false} EntryOverflowsIff(bytes: Bytes, pos: nat, p: Partial)
    requires pos <= |bytes| <= SLICE_MAX
    ensures ReadEntry(bytes, pos, p) == Err(Overflow) <==> EntryOverflows(bytes, pos, p.lastKey)
  {
    hide ReadText, ReadId, ReadInt, Name, OverlongAt, BytesLess;
    ItemOverflows(bytes, pos);
    if ReadText(bytes, pos).Ok? {
      var (key, next) := ReadText(bytes, pos).value;
      ItemOverflows(bytes, next);
      ValueOverflowsIff(bytes, next, key, p.(lastKey := bytes[pos..next]));
    }
  }

  lemma {:induction false} ValueOverflowsIff(bytes: Bytes, pos: nat, key: Bytes, p: Partial)
    requires pos <= |bytes| <= SLICE_MAX
    ensures ReadValue(bytes, pos, key, p) == Err(Overflow)
            <==> exists major :: StringValued(key, major) && OverlongAt(bytes, pos, major)
  {
    hide ReadText, ReadId, ReadInt, Name, OverlongAt;
    ItemOverflows(bytes, pos);
    NamesApart();
    if StringValued(key, 3) && OverlongAt(bytes, pos, 3) {
    } else if StringValued(key, 2) && OverlongAt(bytes, pos, 2) {
    }
  }

  lemma {:induction false} NamesApart()
    ensures forall f, g :: Name(f) == Name(g) ==> f == g
  {
    hide Name;
    forall f, g | Name(f) == Name(g) ensures f == g {
      NamesDiffer(f, g);
    }
  }

  /** Some entry is reached, all before it having been read, that overflows. */
  ghost predicate EntriesOverflow(bytes: Bytes, pos: nat, p: Partial, n: nat)
    requires pos <= |bytes|
    decreases n
  {
    n > 0
    && (EntryOverflows(bytes, pos, p.lastKey)
        || (ReadEntry(bytes, pos, p).Ok?
            && var (p', next) := ReadEntry(bytes, pos, p).value;
               EntriesOverflow(bytes, next, p', n - 1)))
  }

  lemma {:induction false} EntriesOverflowIff(bytes: Bytes, pos: nat, p: Partial, n: nat)
    requires pos <= |bytes| <= SLICE_MAX
    ensures ReadEntries(bytes, pos, p, n) == Err(Overflow) <==> EntriesOverflow(bytes, pos, p, n)
    decreases n
  {
    hide ReadEntry, EntryOverflows;
    if n > 0 {
      EntryOverflowsIff(bytes, pos, p);
      if ReadEntry(bytes, pos, p).Ok? {
        var (p', next) := ReadEntry(bytes, pos, p).value;
        EntriesOverflowIff(bytes, next, p', n - 1);
      }
    }
  }

  /** Decoding panics exactly when one of six entries, reached in order, overflows. */
  lemma {:induction false} DecodeOverflowsIff(bytes: Bytes)
    requires |bytes| <= SLICE_MAX
    ensures Decoded(bytes) == Err(Overflow)
            <==> ReadHead(bytes, 0).Ok? && ReadHead(bytes, 0).value.major == 5 && ReadHead(bytes, 0).value.value == 6
                 && EntriesOverflow(bytes, ReadHead(bytes, 0).value.next, NOTHING, 6)
  {
    hide ReadEntries, EntriesOverflow, Finish;
    if ReadHead(bytes, 0).Ok? {
      EntriesOverflowIff(bytes, ReadHead(bytes, 0).value.next, NOTHING, 6);
    }
    FinishNeverOverflows();
  }

  lemma {:induction false} FinishNeverOverflows()
    ensures forall p :: Finish(p) != Err(Overflow)
  {
  }

  /** Ten bytes are enough: a map of six whose first key claims 2^64 - 1 bytes. */
  lemma {:induction false} OverflowingHeader()
    ensures Decoded([0xa6] + Head(3, U64_MAX)) == Err(Overflow)
  {
    hide Head, ReadValue;
    var bytes := [0xa6] + Head(3, U64_MAX);
    assert bytes[1..1 + |Head(3, U64_MAX)|] == Head(3, U64_MAX);
    HeadReads(bytes, 1, 3, U64_MAX);
    assert ReadHead(bytes, 0) == Ok(Item(5, 6, 1));
    assert ReadText(bytes, 1) == Err(Overflow);
  }

  // ---- Decoding inverts encoding ------------------------------------------

  lemma {:induction false} TextReads(bytes: Bytes, pos: nat, s: Bytes)
    requires |s| <= U64_MAX && Utf8(s) && At(bytes, pos, Text(s))
    ensures ReadText(bytes, pos) == Ok((s, pos + |Text(s)|))
  {
    hide Head, Utf8, ReadHead;
    AtSplit(bytes, pos, Head(3, |s|), s);
    HeadReads(bytes, pos, 3, |s|);
  }

  lemma {:induction false} IdReads(bytes: Bytes, pos: nat, id: Id16)
    requires At(bytes, pos, Head(2, 16) + id)
    ensures ReadId(bytes, pos) == Ok((id, pos + |Head(2, 16) + id|))
  {
    AtSplit(bytes, pos, Head(2, 16), id);
    HeadReads(bytes, pos, 2, 16);
  }

  lemma {:induction false} IntReads(bytes: Bytes, pos: nat, v: i64)
    requires At(bytes, pos, IntItem(v))
    ensures ReadInt(bytes, pos) == Ok((v, pos + |IntItem(v)|))
  {
    if v >= 0 {
      HeadReads(bytes, pos, 0, v);
    } else {
      HeadReads(bytes, pos, 1, -1 - v);
    }
  }

  lemma {:induction false} AsciiText(s: string)
    requires forall i :: 0 <= i < |s| ==> s[i] as int <= 0x7F
    ensures Utf8(Ascii(s))
  {
    AsciiIsUtf8(Ascii(s));
  }

  lemma {:induction false} NameIsUtf8(f: Field)
    ensures Utf8(Name(f))
  {
    match f {
      case Dialect => AsciiText("dialect");
      case CapsuleIdField => AsciiText("capsule_id");
      case ClusterIdField => AsciiText("cluster_id");
      case PayloadLayout => AsciiText("payload_layout");
      case ReleaseSigner => AsciiText("release_signer");
      case CreatedUnixMs => AsciiText("created_unix_ms");
    }
  }

  lemma {:induction false} ConstantsAreUtf8()
    ensures Utf8(DIALECT) && Utf8(PAYLOAD_LAYOUT)
  {
    hide Utf8;
    AsciiText("gump/deployment/1");
    AsciiText("gump-segments/1");
  }

  lemma {:induction false} SignerIsUtf8(s: Bytes)
    requires ValidSigner(s)
    ensures Utf8(s)
  {
    AsciiIsUtf8(s);
  }

  lemma {:induction false} NamesDiffer(f: Field, g: Field)
    ensures Name(f) == Name(g) <==> f == g
  {
    hide Name;
    NameShapes();
  }

  /** The field set by an entry. */
  function With(p: Partial, h: Header, f: Field): Partial {
    match f
    case Dialect => p.(dialect := Some(DIALECT))
    case CapsuleIdField => p.(capsuleId := Some(h.capsuleId))
    case ClusterIdField => p.(clusterId := Some(h.clusterId))
    case PayloadLayout => p.(payloadLayout := Some(PAYLOAD_LAYOUT))
    case ReleaseSigner => p.(releaseSigner := Some(h.releaseSigner))
    case CreatedUnixMs => p.(createdUnixMs := Some(h.createdUnixMs))
  }

  lemma {:induction false} ValueReads(bytes: Bytes, pos: nat, h: Header, f: Field, p: Partial)
    requires ValidSigner(h.releaseSigner) && At(bytes, pos, Value(h, f))
    ensures ReadValue(bytes, pos, Name(f), p) == Ok((With(p, h, f), pos + |Value(h, f)|))
  {
    hide ReadText, ReadId, ReadInt, Name, Text, IntItem, Head, Utf8, At;
    NamesDiffer(f, Dialect);
    NamesDiffer(f, CapsuleIdField);
    NamesDiffer(f, ClusterIdField);
    NamesDiffer(f, PayloadLayout);
    NamesDiffer(f, ReleaseSigner);
    ConstantsAreUtf8();
    SignerIsUtf8(h.releaseSigner);
    match f {
      case Dialect => TextReads(bytes, pos, DIALECT);
      case CapsuleIdField => IdReads(bytes, pos, h.capsuleId);
      case ClusterIdField => IdReads(bytes, pos, h.clusterId);
      case PayloadLayout => TextReads(bytes, pos, PAYLOAD_LAYOUT);
      case ReleaseSigner => TextReads(bytes, pos, h.releaseSigner);
      case CreatedUnixMs => IntReads(bytes, pos, h.createdUnixMs);
    }
  }

  lemma {:induction false} EntryReads(bytes: Bytes, pos: nat, h: Header, f: Field, p: Partial)
    requires ValidSigner(h.releaseSigner) && At(bytes, pos, Entry(h, f))
    requires p.lastKey == [] || BytesLess(p.lastKey, Text(Name(f)))
    ensures ReadEntry(bytes, pos, p)
            == Ok((With(p.(lastKey := Text(Name(f))), h, f), pos + |Entry(h, f)|))
  {
    hide ReadText, ReadValue, Name, Text, Value, Head, BytesLess, Utf8;
    NameIsUtf8(f);
    AtSplit(bytes, pos, Text(Name(f)), Value(h, f));
    TextReads(bytes, pos, Name(f));
    ValueReads(bytes, pos + |Text(Name(f))|, h, f, p.(lastKey := Text(Name(f))));
  }

  /** The field order is the order of the key encodings (section 4.2.1 of RFC 8949). */
  lemma {:induction false} KeysAscend(i: nat, j: nat)
    requires i < j < 6
    ensures BytesLess(Text(Name(FIELDS[i])), Text(Name(FIELDS[j])))
  {
    hide Name, BytesLess, Text;
    NameShapes();
    if |Name(FIELDS[i])| < |Name(FIELDS[j])| {
      ShorterKeyFirst(Name(FIELDS[i]), Name(FIELDS[j]));
    } else if i == 1 {
      EarlierKeyFirst(Name(CapsuleIdField), Name(ClusterIdField), 1);
    } else {
      EarlierKeyFirst(Name(PayloadLayout), Name(ReleaseSigner), 0);
    }
  }

  lemma {:induction false} NameShapes()
    ensures |Name(Dialect)| == 7 && |Name(CreatedUnixMs)| == 15
    ensures |Name(CapsuleIdField)| == |Name(ClusterIdField)| == 10
    ensures |Name(PayloadLayout)| == |Name(ReleaseSigner)| == 14
    ensures Name(CapsuleIdField)[0] == Name(ClusterIdField)[0]
    ensures Name(CapsuleIdField)[1] < Name(ClusterIdField)[1]
    ensures Name(PayloadLayout)[0] < Name(ReleaseSigner)[0]
  {
  }

  lemma {:induction false} ShorterKeyFirst(a: Bytes, b: Bytes)
    requires |a| < |b| < 24
    ensures BytesLess(Text(a), Text(b))
  {
    assert Text(a)[0] == 0x60 + |a| && Text(b)[0] == 0x60 + |b|;
  }

  lemma {:induction false} EarlierKeyFirst(a: Bytes, b: Bytes, k: nat)
    requires k < |a| == |b| < 24 && a[..k] == b[..k] && a[k] < b[k]
    ensures BytesLess(Text(a), Text(b))
  {
    assert Text(a)[0] == Text(b)[0] && Text(a)[1..] == a && Text(b)[1..] == b;
    FirstDifference(a, b, k);
  }

  lemma {:induction false} FirstDifference(a: Bytes, b: Bytes, k: nat)
    requires k < |a| && k < |b| && a[..k] == b[..k] && a[k] < b[k]
    ensures BytesLess(a, b)
    decreases k
  {
    if k > 0 {
      assert a[0] == a[..k][0] == b[..k][0] == b[0];
      assert a[1..][..k - 1] == a[..k][1..] && b[1..][..k - 1] == b[..k][1..];
      FirstDifference(a[1..], b[1..], k - 1);
    }
  }

  function Gathered(p: Partial, h: Header, i: nat): Partial
    requires i <= 6
  {
    if i == 0 then p else With(Gathered(p, h, i - 1).(lastKey := Text(Name(FIELDS[i - 1]))), h, FIELDS[i - 1])
  }

  lemma {:induction false} EntriesRead(bytes: Bytes, pos: nat, h: Header, i: nat)
    requires ValidSigner(h.releaseSigner) && i <= 6 && At(bytes, pos, Entries(h, FIELDS[i..]))
    ensures ReadEntries(bytes, pos, Gathered(NOTHING, h, i), 6 - i)
            == Ok((Gathered(NOTHING, h, 6), pos + |Entries(h, FIELDS[i..])|))
    decreases 6 - i
  {
    hide ReadEntry, Entry, Text, Name, BytesLess, With;
    if i < 6 {
      var f := FIELDS[i];
      assert FIELDS[i..][0] == f && FIELDS[i..][1..] == FIELDS[i + 1..];
      AtSplit(bytes, pos, Entry(h, f), Entries(h, FIELDS[i + 1..]));
      GatheredLast(h, i);
      if i > 0 {
        KeysAscend(i - 1, i);
      }
      EntryReads(bytes, pos, h, f, Gathered(NOTHING, h, i));
      EntriesRead(bytes, pos + |Entry(h, f)|, h, i + 1);
    }
  }

  lemma {:induction false} GatheredLast(h: Header, i: nat)
    requires i <= 6
    ensures Gathered(NOTHING, h, i).lastKey == if i == 0 then [] else Text(Name(FIELDS[i - 1]))
  {
    hide Name, Text;
  }

  lemma {:induction false} GatheredAll(h: Header)
    ensures Finish(Gathered(NOTHING, h, 6)) == Ok(h)
  {
    hide Text, Name;
    assert Gathered(NOTHING, h, 2).dialect == Some(DIALECT);
    assert Gathered(NOTHING, h, 2).capsuleId == Some(h.capsuleId);
    assert Gathered(NOTHING, h, 4) == With(Gathered(NOTHING, h, 3).(lastKey := Text(Name(FIELDS[3]))), h, FIELDS[3]);
    assert Gathered(NOTHING, h, 5) == With(Gathered(NOTHING, h, 4).(lastKey := Text(Name(FIELDS[4]))), h, FIELDS[4]);
  }

  /** Decoding any map head of six followed by the encoded entries gives the header back. */
  lemma {:induction false} DecodesAfterHead(head: Bytes, h: Header)
    requires ValidSigner(h.releaseSigner)
    requires ReadHead(head + Entries(h, FIELDS), 0) == Ok(Item(5, 6, |head|))
    ensures Decoded(head + Entries(h, FIELDS)) == Ok(h)
  {
    hide ReadHead, ReadEntries, Finish, Entries;
    var bytes := head + Entries(h, FIELDS);
    assert FIELDS[0..] == FIELDS;
    assert bytes[|head|..|head| + |Entries(h, FIELDS)|] == Entries(h, FIELDS);
    EntriesRead(bytes, |head|, h, 0);
    GatheredAll(h);
  }

  lemma {:induction false} DecodeEncode(h: Header)
    requires ValidSigner(h.releaseSigner)
    ensures Decoded(Encoded(h)) == Ok(h)
  {
    hide Decoded, Entries;
    DecodesAfterHead([0xa6], h);
  }

  /**
   * The reader does not insist on the shortest heads, so no header has a single encoding it
   * accepts: the map head may also be written in two bytes.
   */
  lemma {:induction false} DecodeAcceptsLongerHead(h: Header)
    requires ValidSigner(h.releaseSigner)
    ensures [0xb8, 6] + Entries(h, FIELDS) != Encoded(h)
    ensures Decoded([0xb8, 6] + Entries(h, FIELDS)) == Ok(h)
  {
    hide Decoded, Entries;
    var bytes := [0xb8, 6] + Entries(h, FIELDS);
    assert bytes[0] != Encoded(h)[0];
    assert bytes[1..2] == [6];
    assert [6][..0] == [];
    DecodesAfterHead([0xb8, 6], h);
  }

  /** A header never outgrows the 16-bit length field of the capsule prelude. */
  lemma {:induction false} EncodedFits(h: Header)
    requires ValidSigner(h.releaseSigner)
    ensures |Encoded(h)| <= U16_MAX
  {
    EntriesFit(h, FIELDS);
  }

  lemma {:induction false} EntriesFit(h: Header, fields: seq<Field>)
    requires ValidSigner(h.releaseSigner)
    ensures |Entries(h, fields)| <= 300 * |fields|
  {
    hide Name;
    if fields != [] {
      EntriesFit(h, fields[1..]);
    }
  }
}
