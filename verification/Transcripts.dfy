/** Helpers for byte strings built by concatenation. */
module Concatenation {
  import opened Machine

  type Id16 = b: Bytes | |b| == 16 witness seq(16, _ => 0)
  type Digest32 = b: Bytes | |b| == 32 witness seq(32, _ => 0)

  function Ascii(s: string): (b: Bytes)
    ensures |b| == |s|
  {
    seq(|s|, i requires 0 <= i < |s| => (s[i] as int) % 256)
  }

  ghost predicate NulFree(s: Bytes) {
    forall i :: 0 <= i < |s| ==> s[i] != 0
  }

  lemma {:induction false} SplitAt<T>(a: seq<T>, b: seq<T>, c: seq<T>, d: seq<T>)
    requires a + b == c + d && |a| == |c|
    ensures a == c && b == d
  {
    assert (a + b)[..|a|] == a && (c + d)[..|c|] == c;
    assert (a + b)[|a|..] == b && (c + d)[|c|..] == d;
  }

  lemma {:induction false} FirstNul(a: Bytes, b: Bytes)
    requires NulFree(a)
    ensures (a + [0] + b)[|a|] == 0
    ensures forall i :: 0 <= i < |a| ==> (a + [0] + b)[i] != 0
  {
  }

  /** A NUL ends a NUL-free name unambiguously. */
  lemma {:induction false} SplitAtNul(a: Bytes, b: Bytes, c: Bytes, d: Bytes)
    requires a + [0] + b == c + [0] + d && NulFree(a) && NulFree(c)
    ensures a == c && b == d
  {
    FirstNul(a, b);
    FirstNul(c, d);
    SplitAt(a + [0], b, c + [0], d);
    SplitAt(a, [0], c, [0]);
  }
}

/** Signing transcript and associated data (crates/gump-crypto/src/transcript.rs). */
module Transcripts {
  import opened Machine
  import opened BigEndian
  import opened Concatenation

  const PROTECTED_AAD_PREFIX: Bytes := Ascii("gump.protected/1") + [0]
  const RELEASE_SIG_PREFIX: Bytes := Ascii("gump.release-signature/1") + [0]
  const HPKE_INFO_PREFIX: Bytes := Ascii("gump.dek/1") + [0]

  datatype SegmentDigestRef = SegmentDigestRef(segmentType: u16, storedLength: u64, digest: Digest32)

  datatype TranscriptError = Encoding(expected: nat, got: nat) | Length

  datatype Transcript = Built(bytes: Bytes) | Failed(error: TranscriptError)

  // ---- Wire forms ---------------------------------------------------------

  function SegmentBytes(segments: seq<SegmentDigestRef>): (b: Bytes)
    ensures |b| == 42 * |segments|
  {
    if segments == [] then [] else
      var seg := segments[|segments| - 1];
      SegmentBytes(segments[..|segments| - 1])
      + Be(seg.segmentType, 2) + Be(seg.storedLength, 8) + seg.digest
  }

  function ReleaseTranscript(header: Bytes, tableVersion: u16, segments: seq<SegmentDigestRef>): Bytes {
    RELEASE_SIG_PREFIX + Be(|header|, 4) + header + Be(tableVersion, 2) + SegmentBytes(segments)
  }

  predicate InTypeOrder(segments: seq<SegmentDigestRef>) {
    forall i :: 0 <= i < |segments| ==> segments[i].segmentType == i + 1
  }

  // ---- Builders -----------------------------------------------------------

  /** Refuses segments out of type order and headers too long for the length field; otherwise appends in order. */
  method BuildReleaseSigningTranscript(header: Bytes, tableVersion: u16, segments: seq<SegmentDigestRef>)
    returns (r: Transcript)
    requires |segments| == 4
    ensures r.Built? <==> InTypeOrder(segments) && |header| <= U32_MAX
    ensures r.Built? ==> r.bytes == ReleaseTranscript(header, tableVersion, segments)
    ensures r.Failed? && r.error.Encoding? ==>
              0 < r.error.expected <= 4
              && segments[r.error.expected - 1].segmentType == r.error.got != r.error.expected
              && InTypeOrder(segments[..r.error.expected - 1])
  {
    for i := 0 to |segments|
      invariant InTypeOrder(segments[..i])
    {
      if segments[i].segmentType != i + 1 {
        return Failed(Encoding(i + 1, segments[i].segmentType));
      }
    }
    assert segments[..|segments|] == segments;
    if |header| > U32_MAX {
      return Failed(Length);
    }
    var out := RELEASE_SIG_PREFIX;
    out := out + Be(|header|, 4);
    out := out + header;
    out := out + Be(tableVersion, 2);
    var fixed := out;
    for i := 0 to |segments|
      invariant out == fixed + SegmentBytes(segments[..i])
    {
      var seg := segments[i];
      out := out + Be(seg.segmentType, 2);
      out := out + Be(seg.storedLength, 8);
      out := out + seg.digest;
      assert segments[..i + 1][..i] == segments[..i] && segments[..i + 1][i] == seg;
      assert out == fixed + (SegmentBytes(segments[..i]) + Be(seg.segmentType, 2) + Be(seg.storedLength, 8) + seg.digest);
    }
    assert segments[..|segments|] == segments;
    return Built(out);
  }

  function ProtectedAad(capsule: Id16, cluster: Id16, metadata: Digest32, archive: Digest32): Bytes {
    PROTECTED_AAD_PREFIX + capsule + cluster + metadata + archive
  }

  function HpkeInfo(capsule: Id16, cluster: Id16): Bytes {
    HPKE_INFO_PREFIX + capsule + cluster
  }

  /** Where everything stands in the associated data and in the HPKE info. */
  lemma {:induction false} FixedOffsets(capsule: Id16, cluster: Id16, metadata: Digest32, archive: Digest32)
    ensures var aad := ProtectedAad(capsule, cluster, metadata, archive);
            && |aad| == 113 && aad[..16] == Ascii("gump.protected/1") && aad[16] == 0
            && aad[17..33] == capsule && aad[33..49] == cluster && aad[49..81] == metadata && aad[81..] == archive
    ensures var info := HpkeInfo(capsule, cluster);
            && |info| == 43 && info[..10] == Ascii("gump.dek/1") && info[10] == 0
            && info[11..27] == capsule && info[27..] == cluster
  {
  }

  lemma {:induction false} SegmentAt(segments: seq<SegmentDigestRef>, i: nat)
    requires i < |segments|
    ensures var b, seg := SegmentBytes(segments)[42 * i..42 * i + 42], segments[i];
            b[..2] == Be(seg.segmentType, 2) && b[2..10] == Be(seg.storedLength, 8) && b[10..] == seg.digest
  {
    Widths();
    var n := |segments| - 1;
    var front, last := segments[..n], segments[n];
    var tail := Be(last.segmentType, 2) + Be(last.storedLength, 8) + last.digest;
    assert SegmentBytes(segments) == SegmentBytes(front) + tail;
    if i < n {
      SegmentAt(front, i);
      assert SegmentBytes(segments)[42 * i..42 * i + 42] == SegmentBytes(front)[42 * i..42 * i + 42];
    } else {
      assert SegmentBytes(segments)[42 * i..42 * i + 42] == tail;
    }
  }

  /** Where everything stands in the signing transcript; segment `i` takes 42 bytes. */
  lemma {:induction false} TranscriptOffsets(header: Bytes, version: u16, segments: seq<SegmentDigestRef>)
    requires |header| <= U32_MAX
    ensures var t, n := ReleaseTranscript(header, version, segments), |header|;
            && |t| == 31 + n + 42 * |segments| && t[..24] == Ascii("gump.release-signature/1") && t[24] == 0
            && t[25..29] == Be(n, 4) && t[29..29 + n] == header && t[29 + n..31 + n] == Be(version, 2)
            && t[31 + n..] == SegmentBytes(segments)
  {
    Widths();
  }

  // ---- Unambiguity --------------------------------------------------------

  lemma {:induction false} SegmentBytesInjective(s: seq<SegmentDigestRef>, t: seq<SegmentDigestRef>)
    requires SegmentBytes(s) == SegmentBytes(t)
    ensures s == t
  {
    if s != [] {
      Widths();
      var a, b := s[|s| - 1], t[|t| - 1];
      var s', t' := s[..|s| - 1], t[..|t| - 1];
      SplitAt(SegmentBytes(s') + Be(a.segmentType, 2) + Be(a.storedLength, 8), a.digest,
              SegmentBytes(t') + Be(b.segmentType, 2) + Be(b.storedLength, 8), b.digest);
      SplitAt(SegmentBytes(s') + Be(a.segmentType, 2), Be(a.storedLength, 8),
              SegmentBytes(t') + Be(b.segmentType, 2), Be(b.storedLength, 8));
      SplitAt(SegmentBytes(s'), Be(a.segmentType, 2), SegmentBytes(t'), Be(b.segmentType, 2));
      BeInjective(a.segmentType, b.segmentType, 2);
      BeInjective(a.storedLength, b.storedLength, 8);
      SegmentBytesInjective(s', t');
      assert s == s' + [a] && t == t' + [b];
    }
  }

  /** A signature binds one header, one table version and one list of segment digests. */
  lemma {:induction false} ReleaseTranscriptInjective(header: Bytes, version: u16, segments: seq<SegmentDigestRef>,
                                   header': Bytes, version': u16, segments': seq<SegmentDigestRef>)
    requires |header| <= U32_MAX && |header'| <= U32_MAX
    requires ReleaseTranscript(header, version, segments) == ReleaseTranscript(header', version', segments')
    ensures header == header' && version == version' && segments == segments'
  {
    Widths();
    var p := RELEASE_SIG_PREFIX;
    var tail := header + Be(version, 2) + SegmentBytes(segments);
    var tail' := header' + Be(version', 2) + SegmentBytes(segments');
    assert ReleaseTranscript(header, version, segments) == p + Be(|header|, 4) + tail;
    assert ReleaseTranscript(header', version', segments') == p + Be(|header'|, 4) + tail';
    SplitAt(p + Be(|header|, 4), tail, p + Be(|header'|, 4), tail');
    SplitAt(p, Be(|header|, 4), p, Be(|header'|, 4));
    BeInjective(|header|, |header'|, 4);
    SplitAt(header + Be(version, 2), SegmentBytes(segments), header' + Be(version', 2), SegmentBytes(segments'));
    SplitAt(header, Be(version, 2), header', Be(version', 2));
    BeInjective(version, version', 2);
    SegmentBytesInjective(segments, segments');
  }

  lemma {:induction false} ProtectedAadInjective(capsule: Id16, cluster: Id16, metadata: Digest32, archive: Digest32,
                              capsule': Id16, cluster': Id16, metadata': Digest32, archive': Digest32)
    requires ProtectedAad(capsule, cluster, metadata, archive)
             == ProtectedAad(capsule', cluster', metadata', archive')
    ensures capsule == capsule' && cluster == cluster' && metadata == metadata' && archive == archive'
  {
    var p := PROTECTED_AAD_PREFIX;
    SplitAt(p + capsule + cluster + metadata, archive, p + capsule' + cluster' + metadata', archive');
    SplitAt(p + capsule + cluster, metadata, p + capsule' + cluster', metadata');
    SplitAt(p + capsule, cluster, p + capsule', cluster');
    SplitAt(p, capsule, p, capsule');
  }

  lemma {:induction false} HpkeInfoInjective(capsule: Id16, cluster: Id16, capsule': Id16, cluster': Id16)
    requires HpkeInfo(capsule, cluster) == HpkeInfo(capsule', cluster')
    ensures capsule == capsule' && cluster == cluster'
  {
    SplitAt(HPKE_INFO_PREFIX + capsule, cluster, HPKE_INFO_PREFIX + capsule', cluster');
    SplitAt(HPKE_INFO_PREFIX, capsule, HPKE_INFO_PREFIX, capsule');
  }

  /** The three uses never share an input to the primitive. */
  lemma {:induction false} DomainsSeparate(header: Bytes, version: u16, segments: seq<SegmentDigestRef>,
                        capsule: Id16, cluster: Id16, metadata: Digest32, archive: Digest32,
                        capsule': Id16, cluster': Id16)
    ensures ReleaseTranscript(header, version, segments) != ProtectedAad(capsule, cluster, metadata, archive)
    ensures ReleaseTranscript(header, version, segments) != HpkeInfo(capsule', cluster')
    ensures ProtectedAad(capsule, cluster, metadata, archive) != HpkeInfo(capsule', cluster')
  {
    assert ReleaseTranscript(header, version, segments)[5] == RELEASE_SIG_PREFIX[5] == 'r' as int;
    assert ProtectedAad(capsule, cluster, metadata, archive)[5] == PROTECTED_AAD_PREFIX[5] == 'p' as int;
    assert HpkeInfo(capsule', cluster')[5] == HPKE_INFO_PREFIX[5] == 'd' as int;
  }
}

/** Preimages of the request digests bound into replicated receipts. */
module RequestPreimages {
  import opened Machine
  import opened BigEndian
  import opened Concatenation

  /** crates/gump-server/src/deploy_txn.rs, `deploy_request_digest`. */
  function DeployPreimage(operation: Id16, content: Digest32, namespace: Bytes, app: Bytes, expected: u64): Bytes {
    operation + content + namespace + [0] + app + Be(expected, 8)
  }

  const REINTRODUCE: Bytes := Ascii("reintroduce")

  /** crates/gump-server/src/recovery_txn.rs, `reintroduce_request_digest`. */
  function ReintroducePreimage(operation: Id16, content: Digest32, namespace: Bytes, app: Bytes, mode: Bytes): Bytes {
    operation + content + namespace + [0] + app + [0] + REINTRODUCE + [0] + mode
  }

  /** Where everything stands in a deploy preimage. */
  lemma {:induction false} DeployOffsets(operation: Id16, content: Digest32, namespace: Bytes, app: Bytes, expected: u64)
    ensures var p, n := DeployPreimage(operation, content, namespace, app, expected), |namespace|;
            && |p| == 57 + n + |app| && p[..16] == operation && p[16..48] == content && p[48..48 + n] == namespace
            && p[48 + n] == 0 && p[49 + n..|p| - 8] == app && p[|p| - 8..] == Be(expected, 8)
  {
  }

  lemma {:induction false} SplitFixed(operation: Id16, content: Digest32, rest: Bytes,
                   operation': Id16, content': Digest32, rest': Bytes)
    requires operation + content + rest == operation' + content' + rest'
    ensures operation == operation' && content == content' && rest == rest'
  {
    SplitAt(operation + content, rest, operation' + content', rest');
    SplitAt(operation, content, operation', content');
  }

  /** The only request with this preimage is this request. */
  ghost predicate DeployUnambiguous(operation: Id16, content: Digest32, namespace: Bytes, app: Bytes, expected: u64) {
    forall operation': Id16, content': Digest32, namespace': Bytes, app': Bytes, expected': u64 ::
      DeployPreimage(operation', content', namespace', app', expected')
      == DeployPreimage(operation, content, namespace, app, expected)
      ==> operation' == operation && content' == content && namespace' == namespace
          && app' == app && expected' == expected
  }

  /**
   * Nothing in the preimage marks where the two names end but NULs, so it binds every
   * field exactly when neither name contains one.
   */
  lemma {:induction false} DeployUnambiguousIffNulFree(operation: Id16, content: Digest32, namespace: Bytes,
                                                       app: Bytes, expected: u64)
    ensures DeployUnambiguous(operation, content, namespace, app, expected)
            <==> NulFree(namespace) && NulFree(app)
  {
    if NulFree(namespace) && NulFree(app) {
      forall operation': Id16, content': Digest32, namespace': Bytes, app': Bytes, expected': u64
        | DeployPreimage(operation', content', namespace', app', expected')
          == DeployPreimage(operation, content, namespace, app, expected)
        ensures operation' == operation && content' == content && namespace' == namespace
                && app' == app && expected' == expected
      {
        DeployInjective(operation, content, namespace, app, expected,
                        operation', content', namespace', app', expected');
      }
    } else if !NulFree(namespace) {
      var i :| 0 <= i < |namespace| && namespace[i] == 0;
      MoveSplit(operation, content, namespace[..i], namespace[i + 1..], app, expected);
      assert namespace == namespace[..i] + [0] + namespace[i + 1..];
      assert |namespace[..i]| < |namespace|;
    } else {
      var i :| 0 <= i < |app| && app[i] == 0;
      MoveSplit(operation, content, namespace, app[..i], app[i + 1..], expected);
      assert app == app[..i] + [0] + app[i + 1..];
      assert |namespace + [0] + app[..i]| > |namespace|;
    }
  }

  lemma {:induction false} DeployInjective(operation: Id16, content: Digest32, namespace: Bytes, app: Bytes,
                                           expected: u64,
                        operation': Id16, content': Digest32, namespace': Bytes, app': Bytes, expected': u64)
    requires NulFree(namespace) && NulFree(app)
    requires DeployPreimage(operation', content', namespace', app', expected')
             == DeployPreimage(operation, content, namespace, app, expected)
    ensures operation == operation' && content == content' && namespace == namespace'
    ensures app == app' && expected == expected'
  {
    Widths();
    var gen, gen' := Be(expected, 8), Be(expected', 8);
    var names, names' := namespace + [0] + (app + gen), namespace' + [0] + (app' + gen');
    assert operation + content + namespace + [0] + app + gen == operation + content + names;
    assert operation' + content' + namespace' + [0] + app' + gen' == operation' + content' + names';
    SplitFixed(operation, content, names, operation', content', names');
    assert names'[|namespace'|] == 0;
    assert forall i :: 0 <= i < |namespace| ==> names[i] == namespace[i];
    assert forall i :: |namespace| < i <= |namespace| + |app| ==> names[i] == app[i - |namespace| - 1];
    assert |namespace'| == |namespace|;
    SplitAt(namespace + [0], app + gen, namespace' + [0], app' + gen');
    SplitAt(namespace, [0], namespace', [0]);
    SplitAt(app, gen, app', gen');
    BeInjective(expected, expected', 8);
  }

  /** With three NUL-separated parts the middle one can be read as either name. */
  lemma {:induction false} MoveSplit(operation: Id16, content: Digest32, a: Bytes, b: Bytes, c: Bytes, expected: u64)
    ensures DeployPreimage(operation, content, a + [0] + b, c, expected)
         == DeployPreimage(operation, content, a, b + [0] + c, expected)
  {
    assert operation + content + (a + [0] + b) + [0] + c + Be(expected, 8)
        == operation + content + a + [0] + (b + [0] + c) + Be(expected, 8);
  }

  lemma {:induction false} ReintroduceInjective(operation: Id16, content: Digest32, namespace: Bytes, app: Bytes,
                                                mode: Bytes,
                             operation': Id16, content': Digest32, namespace': Bytes, app': Bytes, mode': Bytes)
    requires NulFree(namespace) && NulFree(namespace') && NulFree(app) && NulFree(app')
    requires ReintroducePreimage(operation, content, namespace, app, mode)
             == ReintroducePreimage(operation', content', namespace', app', mode')
    ensures operation == operation' && content == content' && namespace == namespace'
    ensures app == app' && mode == mode'
  {
    var tail, tail' := REINTRODUCE + [0] + mode, REINTRODUCE + [0] + mode';
    var names, names' := app + [0] + tail, app' + [0] + tail';
    assert ReintroducePreimage(operation, content, namespace, app, mode)
        == operation + content + (namespace + [0] + names);
    assert ReintroducePreimage(operation', content', namespace', app', mode')
        == operation' + content' + (namespace' + [0] + names');
    SplitFixed(operation, content, namespace + [0] + names, operation', content', namespace' + [0] + names');
    SplitAtNul(namespace, names, namespace', names');
    SplitAtNul(app, tail, app', tail');
    SplitAt(REINTRODUCE + [0], mode, REINTRODUCE + [0], mode');
  }

  /** NUL-free names give one NUL before the last eight bytes; a reintroduce preimage has two. */
  lemma {:induction false} OneNulBeforeGeneration(namespace: Bytes, app: Bytes, gen: Bytes, namespace': Bytes,
                                                  app': Bytes, mode: Bytes)
    requires NulFree(namespace) && NulFree(app) && |gen| == 8
    ensures namespace + [0] + (app + gen) != namespace' + [0] + (app' + [0] + (REINTRODUCE + [0] + mode))
  {
    var s := namespace + [0] + (app + gen);
    var s' := namespace' + [0] + (app' + [0] + (REINTRODUCE + [0] + mode));
    var first, second := |namespace'|, |namespace'| + 1 + |app'|;
    assert |REINTRODUCE| == 11 && second + 8 < |s'|;
    assert s'[first] == 0 && s'[second] == 0;
    assert forall i :: 0 <= i < |namespace| ==> s[i] == namespace[i];
    assert forall i :: |namespace| < i < |s| - 8 ==> s[i] == app[i - |namespace| - 1];
  }

  /** A deploy request with well-formed names can be replayed as no reintroduce request, whatever that one's names. */
  lemma {:induction false} DeployIsNotReintroduce(operation: Id16, content: Digest32, namespace: Bytes, app: Bytes,
                                                  expected: u64,
                               operation': Id16, content': Digest32, namespace': Bytes, app': Bytes, mode: Bytes)
    requires NulFree(namespace) && NulFree(app)
    ensures DeployPreimage(operation, content, namespace, app, expected)
            != ReintroducePreimage(operation', content', namespace', app', mode)
  {
    var gen, tail := Be(expected, 8), REINTRODUCE + [0] + mode;
    var names, names' := app + gen, app' + [0] + tail;
    OneNulBeforeGeneration(namespace, app, gen, namespace', app', mode);
    if DeployPreimage(operation, content, namespace, app, expected)
       == ReintroducePreimage(operation', content', namespace', app', mode) {
      assert operation + content + namespace + [0] + app + gen
          == operation + content + (namespace + [0] + names);
      assert ReintroducePreimage(operation', content', namespace', app', mode)
          == operation' + content' + (namespace' + [0] + names');
      SplitFixed(operation, content, namespace + [0] + names, operation', content', namespace' + [0] + names');
    }
  }
}
