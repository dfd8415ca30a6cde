/** Base-128 varints of the control stream (crates/gump-protocol/src/frame.rs). */
module Varint {
  import opened Machine

  datatype FrameError =
    | Truncated
    | VarintOverflow
    | LengthExceedsCeiling(length: nat, ceiling: nat)
    | EmptyFrame

  datatype Decoded = Ok(value: u64, used: nat) | Err(error: FrameError)

  const MAX_GROUPS: nat := 10

  /** `t` moved up by `k` groups of seven bits, without a width limit. */
  function Shift(t: nat, k: nat): nat {
    if k == 0 then t else 128 * Shift(t, k - 1)
  }

  function Pow128(k: nat): nat {
    Shift(1, k)
  }

  lemma {:induction false} TopShift(t: nat)
    ensures Shift(t, 9) == t * 0x8000_0000_0000_0000
    ensures Shift(t, 10) == t * 0x40_0000_0000_0000_0000
  {
    assert Shift(t, 2) == 128 * Shift(t, 1);
    assert Shift(t, 3) == 128 * Shift(t, 2);
    assert Shift(t, 4) == 128 * Shift(t, 3);
    assert Shift(t, 5) == 128 * Shift(t, 4);
    assert Shift(t, 6) == 128 * Shift(t, 5);
    assert Shift(t, 7) == 128 * Shift(t, 6);
    assert Shift(t, 8) == 128 * Shift(t, 7);
    assert Shift(t, 9) == 128 * Shift(t, 8);
  }

  lemma {:induction false} Pow128Monotone(j: nat, k: nat)
    requires j <= k
    ensures Pow128(j) <= Pow128(k)
  {
    if j < k {
      Pow128Monotone(j, k - 1);
    }
  }

  // ---- The wire form and its meaning -------------------------------------

  /** The shortest base-128 form: seven bits a byte, low group first, bit 7 set on all but the last. */
  function Encoding(v: nat): (s: Bytes)
    ensures |s| > 0
  {
    if v < 128 then [v] else [128 + v % 128] + Encoding(v / 128)
  }

  /** The number a string of groups stands for, continuation bits ignored. */
  function GroupValue(s: Bytes): nat {
    if s == [] then 0 else s[0] % 128 + 128 * GroupValue(s[1..])
  }

  /** `t << (7 * k)` on a `u64` for a seven-bit `t`: of the tenth group only the lowest bit is left. */
  function Shift64(t: nat, k: nat): nat {
    if k < 9 then Shift(t, k) else Shift(t % 2, k)
  }

  /** What at most ten groups stand for in 64 bits. */
  function Value64(s: Bytes): (v: u64)
    requires |s| <= MAX_GROUPS
  {
    Value64Fits(s);
    if |s| < MAX_GROUPS then GroupValue(s) else GroupValue(s[..9]) + Shift64(s[9] % 128, 9)
  }

  lemma {:induction false} Value64Fits(s: Bytes)
    requires |s| <= MAX_GROUPS
    ensures |s| < MAX_GROUPS ==> GroupValue(s) < Pow128(9) == 0x8000_0000_0000_0000
    ensures |s| == MAX_GROUPS ==> GroupValue(s[..9]) + Shift64(s[9] % 128, 9) <= U64_MAX
  {
    TopShift(1);
    if |s| < MAX_GROUPS {
      GroupValueAppend(s, 0);
      Pow128Monotone(|s|, 9);
    } else {
      GroupValueAppend(s[..9], 0);
      TopShift(s[9] % 128 % 2);
    }
  }

  /** A number that fits loses nothing. */
  lemma {:induction false} Value64Exact(s: Bytes)
    requires |s| <= MAX_GROUPS && GroupValue(s) <= U64_MAX
    ensures Value64(s) == GroupValue(s)
  {
    if |s| == MAX_GROUPS {
      GroupValueAppend(s[..9], s[9]);
      assert s[..9] + [s[9]] == s;
      TopShift(s[9] % 128);
      assert s[9] % 128 <= 1;
    }
  }

  predicate Continues(b: byte) {
    b >= 128
  }

  /** `s` is one complete varint: only its last byte has bit 7 clear. */
  ghost predicate Complete(s: Bytes) {
    && s != []
    && !Continues(s[|s| - 1])
    && forall i :: 0 <= i < |s| - 1 ==> Continues(s[i])
  }

  lemma {:induction false} GroupValueAppend(s: Bytes, b: byte)
    ensures GroupValue(s + [b]) == GroupValue(s) + Shift(b % 128, |s|)
    ensures GroupValue(s) < Pow128(|s|)
  {
    if s == [] {
      assert s + [b] == [b];
      assert [b][1..] == [];
    } else {
      GroupValueAppend(s[1..], b);
      assert (s + [b])[1..] == s[1..] + [b];
    }
  }

  lemma {:induction false} EncodingMeaning(v: nat)
    ensures Complete(Encoding(v))
    ensures GroupValue(Encoding(v)) == v
  {
    if v >= 128 {
      EncodingMeaning(v / 128);
      var rest := Encoding(v / 128);
      assert Encoding(v)[1..] == rest;
      forall i | 0 <= i < |Encoding(v)| - 1 ensures Continues(Encoding(v)[i]) {
        if i > 0 {
          assert Encoding(v)[i] == rest[i - 1];
        }
      }
    }
  }

  lemma {:induction false} EncodingLength(v: nat, k: nat)
    requires k > 0 && v < Pow128(k)
    ensures |Encoding(v)| <= k
  {
    if v >= 128 {
      EncodingLength(v / 128, k - 1);
    }
  }

  /** The first complete varint within ten bytes, if there is one. */
  function Read(buf: Bytes): (r: Decoded)
  {
    ReadFrom(buf, 0)
  }

  function ReadFrom(buf: Bytes, i: nat): (r: Decoded)
    requires i <= |buf|
    decreases |buf| - i
  {
    if i >= MAX_GROUPS then Err(VarintOverflow)
    else if i == |buf| then Err(Truncated)
    else if Continues(buf[i]) then ReadFrom(buf, i + 1)
    else Ok(Value64(buf[..i + 1]), i + 1)
  }

  // ---- The two loops ------------------------------------------------------

  /** Appends the varint of `value` to `prior`, one group an iteration. */
  method EncodeVarint(value: u64, prior: Bytes) returns (out: Bytes)
    ensures out == prior + Encoding(value)
  {
    out := prior;
    var v: nat := value;
    while true
      invariant out + Encoding(v) == prior + Encoding(value)
      decreases v
    {
      var low := v % 128;
      var rest := v / 128;
      if rest != 0 {
        assert Encoding(v) == [128 + low] + Encoding(rest);
        out := out + [128 + low];
        v := rest;
      } else {
        assert Encoding(v) == [low];
        out := out + [low];
        break;
      }
    }
  }

  /**
   * Reads groups until one has bit 7 clear. A group shifted past bit 63 loses its high
   * bits, as Rust's `<<` on `u64` drops them; `|=` is addition because the accumulated
   * value is below `2^shift`.
   */
  method DecodeVarint(buf: Bytes) returns (r: Decoded)
    ensures r == Read(buf)
  {
    var value: u64 := 0;
    var shift := 0;
    var i := 0;
    while i < |buf|
      invariant 0 <= i <= |buf| && i <= 9
      invariant shift == 7 * i
      invariant value == Value64(buf[..i])
      invariant Read(buf) == ReadFrom(buf, i)
    {
      var b := buf[i];
      AddGroup(buf[..i], b);
      assert buf[..i] + [b] == buf[..i + 1];
      value := value + Shift64(b % 128, i);
      if !Continues(b) {
        return Ok(value, i + 1);
      }
      shift := shift + 7;
      if shift >= 64 {
        return Err(VarintOverflow);
      }
      i := i + 1;
    }
    return Err(Truncated);
  }

  /** One more group. */
  lemma {:induction false} AddGroup(s: Bytes, b: byte)
    requires |s| <= 9
    ensures GroupValue(s) + Shift64(b % 128, |s|) == Value64(s + [b])
  {
    assert (s + [b])[..|s|] == s;
    if |s| < 9 {
      GroupValueAppend(s, b);
    }
  }

  // ---- What the reader accepts --------------------------------------------

  lemma {:induction false} ReadFromComplete(buf: Bytes, n: nat, i: nat)
    requires 0 < n <= |buf| && n <= MAX_GROUPS && Complete(buf[..n]) && i < n
    ensures ReadFrom(buf, i) == Ok(Value64(buf[..n]), n)
    decreases n - i
  {
    assert buf[..n][i] == buf[i];
    if i < n - 1 {
      ReadFromComplete(buf, n, i + 1);
    }
  }

  lemma {:induction false} ReadFromIncomplete(buf: Bytes, i: nat)
    requires i <= |buf| && i <= MAX_GROUPS
    requires forall j :: 0 <= j < i ==> Continues(buf[j])
    ensures ReadFrom(buf, i).Ok? ==>
              var n := ReadFrom(buf, i).used;
              0 < n <= |buf| && n <= MAX_GROUPS && Complete(buf[..n])
    ensures ReadFrom(buf, i).Err? ==>
              ReadFrom(buf, i).error == if |buf| < MAX_GROUPS then Truncated else VarintOverflow
    decreases |buf| - i
  {
    if i < MAX_GROUPS && i < |buf| && Continues(buf[i]) {
      ReadFromIncomplete(buf, i + 1);
    }
  }

  /**
   * `Read` finds a complete varint of at most ten bytes exactly when the buffer starts with
   * one, with the value those groups have in 64 bits; otherwise the error says whether more
   * bytes could have helped.
   */
  lemma {:induction false} ReadExactly(buf: Bytes)
    ensures Read(buf).Ok? <==> exists n :: 0 < n <= |buf| && n <= MAX_GROUPS && Complete(buf[..n])
    ensures forall n :: 0 < n <= |buf| && n <= MAX_GROUPS && Complete(buf[..n])
              ==> Read(buf) == Ok(Value64(buf[..n]), n)
    ensures Read(buf).Err? ==>
              Read(buf).error == if |buf| < MAX_GROUPS then Truncated else VarintOverflow
  {
    ReadFromIncomplete(buf, 0);
    forall n | 0 < n <= |buf| && n <= MAX_GROUPS && Complete(buf[..n])
      ensures Read(buf) == Ok(Value64(buf[..n]), n)
    {
      ReadFromComplete(buf, n, 0);
    }
  }

  /** Decoding inverts encoding for every `u64`, whatever follows on the stream. */
  lemma {:induction false} RoundTrip(v: u64, rest: Bytes)
    ensures |Encoding(v)| <= MAX_GROUPS
    ensures Read(Encoding(v) + rest) == Ok(v, |Encoding(v)|)
  {
    EncodingMeaning(v);
    TopShift(1);
    EncodingLength(v, MAX_GROUPS);
    Value64Exact(Encoding(v));
    var buf := Encoding(v) + rest;
    assert buf[..|Encoding(v)|] == Encoding(v);
    ReadFromComplete(buf, |Encoding(v)|, 0);
  }
}

/** Length-prefixed frames and their per-kind ceilings. */
module Framing {
  import opened Machine
  import opened Varint

  datatype FrameKind = Control | Error | Hello

  function MaxLen(kind: FrameKind): nat {
    match kind
    case Control => 0x10_0000
    case Error => 0x4000
    case Hello => 0x1_0000
  }

  datatype Prefix = Length(length: nat, prefix: nat) | BadPrefix(error: FrameError)

  datatype Frame = Payload(payload: Bytes, used: nat) | BadFrame(error: FrameError)

  datatype Wire = Sent(bytes: Bytes) | Refused(error: FrameError)

  function DecodeFramePrefix(buf: Bytes, kind: FrameKind): Prefix {
    match Read(buf)
    case Err(e) => BadPrefix(e)
    case Ok(length, prefix) =>
      if length == 0 then BadPrefix(EmptyFrame)
      else if length > MaxLen(kind) then BadPrefix(LengthExceedsCeiling(length, MaxLen(kind)))
      else if |buf| < prefix + length then BadPrefix(Truncated)
      else Length(length, prefix)
  }

  function SplitFrame(buf: Bytes, kind: FrameKind): (r: Frame)
    ensures r.Payload? ==> |r.payload| < r.used <= |buf| && r.payload == buf[r.used - |r.payload|..r.used]
    ensures r.Payload? ==> 0 < |r.payload| <= MaxLen(kind)
  {
    match DecodeFramePrefix(buf, kind)
    case BadPrefix(e) => BadFrame(e)
    case Length(length, prefix) =>
      ReadFromIncomplete(buf, 0);
      Payload(buf[prefix..prefix + length], prefix + length)
  }

  function EncodeFrame(payload: Bytes, kind: FrameKind): Wire {
    if payload == [] then Refused(EmptyFrame)
    else if |payload| > MaxLen(kind) then Refused(LengthExceedsCeiling(|payload|, MaxLen(kind)))
    else Sent(Encoding(|payload|) + payload)
  }

  /** One frame comes back whole, and nothing after it is touched. */
  lemma {:induction false} SplitEncoded(payload: Bytes, kind: FrameKind, rest: Bytes)
    requires EncodeFrame(payload, kind).Sent?
    ensures var sent := EncodeFrame(payload, kind).bytes;
            SplitFrame(sent + rest, kind) == Payload(payload, |sent|)
  {
    RoundTrip(|payload|, payload + rest);
    var head := Encoding(|payload|);
    var buf := head + payload + rest;
    assert buf == head + (payload + rest);
    assert buf[|head|..|head| + |payload|] == payload;
  }

  /**
   * The ceiling is enforced from the prefix alone: whatever complete varint announces an over-long
   * frame, shortest or padded, the frame is refused with or without its payload.
   */
  lemma {:induction false} CeilingBeforePayload(prefix: Bytes, kind: FrameKind, rest: Bytes)
    requires |prefix| <= MAX_GROUPS && Complete(prefix) && Value64(prefix) > MaxLen(kind)
    ensures SplitFrame(prefix + rest, kind) == BadFrame(LengthExceedsCeiling(Value64(prefix), MaxLen(kind)))
  {
    hide Read, Value64, Complete;
    var buf := prefix + rest;
    assert buf[..|prefix|] == prefix;
    assert prefix != [] by {
      CompleteIsNotEmpty(prefix);
    }
    ReadExactly(buf);
  }

  lemma {:induction false} CompleteIsNotEmpty(s: Bytes)
    requires Complete(s)
    ensures s != []
  {
  }

  // ---- A stream of frames -------------------------------------------------

  datatype Stream = Split(payloads: seq<Bytes>) | Broken(error: FrameError)

  /** Splits frame after frame until the buffer is used up. */
  function SplitAll(buf: Bytes, kind: FrameKind): Stream
    decreases |buf|
  {
    if buf == [] then Split([]) else
      match SplitFrame(buf, kind)
      case BadFrame(e) => Broken(e)
      case Payload(payload, used) =>
        match SplitAll(buf[used..], kind)
        case Broken(e) => Broken(e)
        case Split(rest) => Split([payload] + rest)
  }

  ghost predicate Sendable(payloads: seq<Bytes>, kind: FrameKind) {
    forall i :: 0 <= i < |payloads| ==> EncodeFrame(payloads[i], kind).Sent?
  }

  function JoinAll(payloads: seq<Bytes>, kind: FrameKind): Bytes
    requires Sendable(payloads, kind)
  {
    if payloads == [] then []
    else EncodeFrame(payloads[0], kind).bytes + JoinAll(payloads[1..], kind)
  }

  /** Any concatenation of frames splits back into exactly the payloads it was made from. */
  lemma {:induction false} StreamRoundTrip(payloads: seq<Bytes>, kind: FrameKind)
    requires Sendable(payloads, kind)
    ensures SplitAll(JoinAll(payloads, kind), kind) == Split(payloads)
  {
    if payloads != [] {
      var first := EncodeFrame(payloads[0], kind).bytes;
      var rest := JoinAll(payloads[1..], kind);
      SplitEncoded(payloads[0], kind, rest);
      assert (first + rest)[|first|..] == rest;
      StreamRoundTrip(payloads[1..], kind);
      assert payloads == [payloads[0]] + payloads[1..];
    }
  }

  /** Hence two payload lists never share a wire form. */
  lemma {:induction false} StreamInjective(a: seq<Bytes>, b: seq<Bytes>, kind: FrameKind)
    requires Sendable(a, kind) && Sendable(b, kind)
    requires JoinAll(a, kind) == JoinAll(b, kind)
    ensures a == b
  {
    StreamRoundTrip(a, kind);
    StreamRoundTrip(b, kind);
  }
}
