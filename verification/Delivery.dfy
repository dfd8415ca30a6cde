/** Rotating, paged delivery of introductions (crates/gump-hiccup/src/board.rs, deliver and below). */
module Delivery {
  import opened Machine
  import opened Ordered
  import opened Topics
  import opened BoardSpec
  import opened Board

  const MAX_DELIVERY_BYTES: nat := 262_144
  const MAX_INTRODUCTIONS: nat := 256

  datatype Introduction = Introduction(
    topic: string, unitId: nat, attempt: AttemptId, ip: Option<string>, capabilities: map<string, Json>,
    data: Option<Json>, secret: Option<string>)

  /** How an introduction is seen by a listener of this workload. */
  function ApplicationTopic(t: Topic, workload: WorkloadId): string {
    if t == SelfFor(workload) then SELF else t
  }

  /** `{}` */
  const EMPTY_OBJECT: Json := [0x7B, 0x7D]

  function IntroductionOf(p: Presence, workload: WorkloadId): Introduction {
    var topic := ApplicationTopic(p.topic, workload);
    Introduction(topic, p.stamp.unitId, p.stamp.attemptId, p.stamp.reachableIp,
                 if p.directoryVisible then map[topic := if p.data.Some? then p.data.value else EMPTY_OBJECT] else map[],
                 p.data, p.secret)
  }

  /** The introduction says of the presence all a listener is to know, and nothing else. */
  ghost predicate Introduces(m: Introduction, p: Presence, workload: WorkloadId) {
    && m.topic == (if p.topic == "@self/" + workload then "@self" else p.topic)
    && m.unitId == p.stamp.unitId && m.attempt == p.stamp.attemptId && m.ip == p.stamp.reachableIp
    && m.data == p.data && m.secret == p.secret
    && m.capabilities.Keys == (if p.directoryVisible then {m.topic} else {})
    && (p.directoryVisible && p.data.Some? ==> m.capabilities[m.topic] == p.data.value)
  }

  lemma {:induction false} IntroductionIntroduces(p: Presence, workload: WorkloadId)
    ensures Introduces(IntroductionOf(p, workload), p, workload)
  {
  }

  type Sizer = Introduction -> nat

  /** Length of the encoded delivery: 38 bytes around the messages and a comma between two. */
  function DeliverySize(messages: seq<Introduction>, size: Sizer): nat {
    if messages == [] then 38
    else
      DeliverySize(messages[..|messages| - 1], size) + (if |messages| > 1 then 1 else 0) + size(messages[|messages| - 1])
  }

  lemma {:induction false} SizeMonotone(messages: seq<Introduction>, n: nat, size: Sizer)
    requires n <= |messages|
    ensures DeliverySize(messages[..n], size) <= DeliverySize(messages, size)
  {
    if n < |messages| {
      var front := messages[..|messages| - 1];
      SizeMonotone(front, n, size);
      assert front[..n] == messages[..n];
    } else {
      assert messages[..n] == messages;
    }
  }

  // ---- The cyclic order ---------------------------------------------------

  lemma {:induction false} AtLeastOnce(m: nat, d: int)
    requires d >= 1
    ensures m * d >= m
  {
    if d > 1 {
      AtLeastOnce(m, d - 1);
      assert m * d == m * (d - 1) + m;
    }
  }

  lemma {:induction false} DivisionUnique(x: nat, m: nat, q: int, r: nat)
    requires m > 0 && r < m && x == m * q + r
    ensures x % m == r
  {
    var q1 := x / m;
    assert x == m * q1 + x % m;
    assert m * (q - q1) == m * q - m * q1;
    assert m * (q1 - q) == m * q1 - m * q;
    if q > q1 {
      AtLeastOnce(m, q - q1);
    } else if q < q1 {
      AtLeastOnce(m, q1 - q);
    }
  }

  lemma {:induction false} ModMinus(x: nat, m: nat)
    requires m > 0 && x >= m
    ensures x % m == (x - m) % m
  {
    DivisionUnique(x - m, m, x / m - 1, x % m);
  }

  lemma {:induction false} ModAdd(a: nat, b: nat, m: nat)
    requires m > 0
    ensures (a % m + b) % m == (a + b) % m
  {
    if a >= m {
      ModMinus(a, m);
      ModAdd(a - m, b, m);
      ModMinus(a + b, m);
    }
  }

  lemma {:induction false} ModSmall(x: nat, m: nat)
    requires m > 0 && x < 2 * m
    ensures x % m == if x < m then x else x - m
  {
    if x >= m {
      ModMinus(x, m);
    }
  }

  function Place(total: nat, start: nat, i: nat): (at: nat)
    requires total > 0
    ensures at < total
  {
    (start + i) % total
  }

  /** `n` introductions of the matches in cyclic order from a position. */
  ghost function Cyclic(matched: seq<Presence>, workload: WorkloadId, start: nat, n: nat): (r: seq<Introduction>)
    requires n > 0 ==> matched != []
    ensures |r| == n
  {
    seq(n, i requires 0 <= i < n => IntroductionOf(matched[Place(|matched|, start, i)], workload))
  }

  lemma {:induction false} CyclicNext(matched: seq<Presence>, workload: WorkloadId, start: nat, n: nat)
    requires matched != []
    ensures Cyclic(matched, workload, start, n + 1)
         == Cyclic(matched, workload, start, n) + [IntroductionOf(matched[Place(|matched|, start, n)], workload)]
  {
  }

  lemma {:induction false} CyclicPrefix(matched: seq<Presence>, workload: WorkloadId, start: nat, n: nat, m: nat)
    requires matched != [] && n <= m
    ensures Cyclic(matched, workload, start, m)[..n] == Cyclic(matched, workload, start, n)
  {
  }

  lemma {:induction false} CyclicAppend(matched: seq<Presence>, workload: WorkloadId, start: nat, n: nat, m: nat)
    requires matched != []
    ensures Cyclic(matched, workload, start, n + m)
         == Cyclic(matched, workload, start, n) + Cyclic(matched, workload, Place(|matched|, start, n), m)
  {
    hide Place, IntroductionOf;
    var total := |matched|;
    forall i: nat ensures Place(total, start, n + i) == Place(total, Place(total, start, n), i) {
      PlaceAdd(total, start, n, i);
    }
  }

  lemma {:induction false} PlaceAdd(total: nat, start: nat, n: nat, i: nat)
    requires total > 0
    ensures Place(total, start, n + i) == Place(total, Place(total, start, n), i)
  {
    ModAdd(start + n, i, total);
  }

  // ---- One page -----------------------------------------------------------

  function Start(total: nat, offset: nat): nat {
    if total == 0 then 0 else offset % total
  }

  /** A page: as many introductions from the offset on as fit, and where to continue. */
  ghost predicate IsPage(matched: seq<Presence>, workload: WorkloadId, size: Sizer, offset: nat,
                         messages: seq<Introduction>, next: nat)
  {
    var total, n := |matched|, |messages|;
    var start := Start(total, offset);
    && n <= Min(total, MAX_INTRODUCTIONS)
    && messages == Cyclic(matched, workload, start, n)
    && (n > 0 ==> DeliverySize(messages, size) <= MAX_DELIVERY_BYTES)
    && (n < Min(total, MAX_INTRODUCTIONS) ==>
          DeliverySize(Cyclic(matched, workload, start, n + 1), size) > MAX_DELIVERY_BYTES)
    && next == if total == 0 then 0 else (start + n) % total
  }

  method BuildPage(matched: seq<Presence>, workload: WorkloadId, offset: nat, size: Sizer)
    returns (messages: seq<Introduction>, more: bool, next: nat)
    ensures IsPage(matched, workload, size, offset, messages, next)
    ensures more <==> |matched| > |messages|
  {
    hide DeliverySize, IntroductionOf, Cyclic, Place;
    var total := |matched|;
    var start := if total == 0 then 0 else offset % total;
    messages := [];
    assert Cyclic(matched, workload, start, 0) == [];
    var limit: nat := if total < MAX_INTRODUCTIONS then total else MAX_INTRODUCTIONS;
    var cut := false;
    for i := 0 to limit
      invariant !cut && |messages| == i && messages == Cyclic(matched, workload, start, i)
      invariant i > 0 ==> DeliverySize(messages, size) <= MAX_DELIVERY_BYTES
    {
      CyclicNext(matched, workload, start, i);
      messages := messages + [IntroductionOf(matched[Place(total, start, i)], workload)];
      if DeliverySize(messages, size) > MAX_DELIVERY_BYTES {
        messages := messages[..|messages| - 1];
        cut := true;
        break;
      }
    }
    var delivered := |messages|;
    next := if total == 0 then 0 else (start + delivered) % total;
    more := total > delivered;
  }

  /** No longer run of introductions from the same place would have fitted. */
  lemma {:induction false} PageIsLongest(matched: seq<Presence>, workload: WorkloadId, size: Sizer, offset: nat,
                                         messages: seq<Introduction>, next: nat, m: nat)
    requires IsPage(matched, workload, size, offset, messages, next)
    requires m <= Min(|matched|, MAX_INTRODUCTIONS)
    requires m > 0 ==> DeliverySize(Cyclic(matched, workload, Start(|matched|, offset), m), size) <= MAX_DELIVERY_BYTES
    ensures m <= |messages|
  {
    hide DeliverySize, Cyclic;
    var start, n := Start(|matched|, offset), |messages|;
    if n < m {
      CyclicPrefix(matched, workload, start, n + 1, m);
      SizeMonotone(Cyclic(matched, workload, start, m), n + 1, size);
    }
  }

  lemma {:induction false} PlacesDiffer(total: nat, start: nat, n: nat, i: nat, j: nat)
    requires start < total && n <= total && i < j < n
    ensures Place(total, start, i) != Place(total, start, j)
  {
    ModSmall(start + i, total);
    ModSmall(start + j, total);
  }

  ghost predicate DistinctKeys(ps: seq<Presence>) {
    forall i, j :: 0 <= i < j < |ps| ==> KeyOf(ps[i]) != KeyOf(ps[j])
  }

  /** Different presences on topics are introduced differently; no stored topic is the bare `@self`. */
  lemma {:induction false} IntroductionsDiffer(p: Presence, q: Presence, workload: WorkloadId)
    requires KeyOf(p) != KeyOf(q) && p.topic != SELF && q.topic != SELF
    ensures IntroductionOf(p, workload) != IntroductionOf(q, workload)
  {
  }

  /** No introduction occurs twice in a page. */
  lemma {:induction false} NoRepeatInPage(matched: seq<Presence>, workload: WorkloadId, size: Sizer, offset: nat,
                                          messages: seq<Introduction>, next: nat)
    requires IsPage(matched, workload, size, offset, messages, next)
    requires DistinctKeys(matched) && forall p :: p in matched ==> p.topic != SELF
    ensures NoDuplicates(messages)
  {
    hide DeliverySize, Place, IntroductionOf;
    var total := |matched|;
    var start := Start(total, offset);
    forall i, j | 0 <= i < j < |messages| ensures messages[i] != messages[j] {
      PlacesDiffer(total, start, |messages|, i, j);
      var a, b := Place(total, start, i), Place(total, start, j);
      assert matched[a] in matched && matched[b] in matched;
      assert KeyOf(matched[a]) != KeyOf(matched[b]);
      IntroductionsDiffer(matched[a], matched[b], workload);
    }
  }

  // ---- Following the offset -----------------------------------------------

  /** Pages obtained by passing each returned offset to the next call. */
  ghost predicate IsRun(matched: seq<Presence>, workload: WorkloadId, size: Sizer, offsets: seq<nat>,
                        pages: seq<seq<Introduction>>)
  {
    |offsets| == |pages| + 1
    && forall i :: 0 <= i < |pages| ==> IsPage(matched, workload, size, offsets[i], pages[i], offsets[i + 1])
  }

  ghost function Joined(pages: seq<seq<Introduction>>): seq<Introduction> {
    if pages == [] then [] else Joined(pages[..|pages| - 1]) + pages[|pages| - 1]
  }

  lemma {:induction false} StartAgain(total: nat, start: nat, n: nat)
    requires total > 0
    ensures ((start + n) % total) % total == (start + n) % total
  {
    ModAdd(start + n, 0, total);
  }

  /** The pages tile the cyclic order: nothing is skipped and nothing is out of turn. */
  lemma {:induction false} PagesTile(matched: seq<Presence>, workload: WorkloadId, size: Sizer, offsets: seq<nat>,
                                     pages: seq<seq<Introduction>>)
    requires matched != [] && IsRun(matched, workload, size, offsets, pages)
    ensures Joined(pages) == Cyclic(matched, workload, Start(|matched|, offsets[0]), |Joined(pages)|)
    ensures Start(|matched|, offsets[|pages|]) == (Start(|matched|, offsets[0]) + |Joined(pages)|) % |matched|
  {
    hide Cyclic, DeliverySize;
    var total := |matched|;
    var start := Start(total, offsets[0]);
    if pages == [] {
      StartAgain(total, offsets[0], 0);
      NoneCyclic(matched, workload, start);
    } else {
      var k := |pages| - 1;
      var front, last := pages[..k], pages[k];
      PagesTile(matched, workload, size, offsets[..k + 1], front);
      var n := |Joined(front)|;
      assert IsPage(matched, workload, size, offsets[k], last, offsets[k + 1]);
      CyclicAppend(matched, workload, start, n, |last|);
      StartAgain(total, Start(total, offsets[k]), |last|);
      ModAdd(start + n, |last|, total);
    }
  }

  lemma {:induction false} NoneCyclic(matched: seq<Presence>, workload: WorkloadId, start: nat)
    ensures Cyclic(matched, workload, start, 0) == []
  {
  }

  /** Every introduction fits in a delivery by itself. */
  ghost predicate EachFitsAlone(matched: seq<Presence>, workload: WorkloadId, size: Sizer) {
    forall j :: 0 <= j < |matched| ==> DeliverySize([IntroductionOf(matched[j], workload)], size) <= MAX_DELIVERY_BYTES
  }

  lemma {:induction false} PageNotEmpty(matched: seq<Presence>, workload: WorkloadId, size: Sizer, offset: nat,
                                        messages: seq<Introduction>, next: nat)
    requires matched != [] && IsPage(matched, workload, size, offset, messages, next)
    requires EachFitsAlone(matched, workload, size)
    ensures messages != []
  {
    hide DeliverySize, IntroductionOf;
    var start := Start(|matched|, offset);
    assert Cyclic(matched, workload, start, 1) == [IntroductionOf(matched[Place(|matched|, start, 0)], workload)];
  }

  lemma {:induction false} RunGrows(matched: seq<Presence>, workload: WorkloadId, size: Sizer, offsets: seq<nat>,
                                    pages: seq<seq<Introduction>>)
    requires matched != [] && IsRun(matched, workload, size, offsets, pages) && EachFitsAlone(matched, workload, size)
    ensures |Joined(pages)| >= |pages|
  {
    hide IsPage, EachFitsAlone;
    if pages != [] {
      var k := |pages| - 1;
      RunGrows(matched, workload, size, offsets[..k + 1], pages[..k]);
      PageNotEmpty(matched, workload, size, offsets[k], pages[k], offsets[k + 1]);
    }
  }

  lemma {:induction false} InSomePage(pages: seq<seq<Introduction>>, x: Introduction) returns (i: nat)
    requires x in Joined(pages)
    ensures i < |pages| && x in pages[i]
  {
    var k := |pages| - 1;
    if x in pages[k] {
      i := k;
    } else {
      i := InSomePage(pages[..k], x);
    }
  }

  /** If each introduction fits alone, as many pages as there are matches reach every match. */
  lemma {:induction false} EveryMatchDelivered(matched: seq<Presence>, workload: WorkloadId, size: Sizer,
                                               offsets: seq<nat>,
                                               pages: seq<seq<Introduction>>, j: nat)
    returns (i: nat)
    requires IsRun(matched, workload, size, offsets, pages) && EachFitsAlone(matched, workload, size)
    requires |pages| >= |matched| && j < |matched|
    ensures i < |pages| && IntroductionOf(matched[j], workload) in pages[i]
  {
    hide IntroductionOf, DeliverySize, EachFitsAlone, IsPage;
    var total := |matched|;
    var start := offsets[0] % total;
    RunGrows(matched, workload, size, offsets, pages);
    PagesTile(matched, workload, size, offsets, pages);
    var at: nat := if j >= start then j - start else j - start + total;
    ModSmall(start + at, total);
    assert Joined(pages)[at] == IntroductionOf(matched[j], workload);
    i := InSomePage(pages, IntroductionOf(matched[j], workload));
  }

  lemma {:induction false} ElementFits(messages: seq<Introduction>, x: Introduction, size: Sizer)
    requires x in messages
    ensures DeliverySize([x], size) <= DeliverySize(messages, size)
  {
    var front, last := messages[..|messages| - 1], messages[|messages| - 1];
    if x in front {
      ElementFits(front, x, size);
    } else {
      assert messages == front + [last];
      SizeMonotone(front, 0, size);
      assert [x][..0] == [] && front[..0] == [];
    }
  }

  ghost predicate Reached(pages: seq<seq<Introduction>>, x: Introduction) {
    exists i :: 0 <= i < |pages| && x in pages[i]
  }

  /** An introduction that does not fit alone is in no page of any run. */
  lemma {:induction false} OversizedNeverReached(matched: seq<Presence>, workload: WorkloadId, size: Sizer,
                                                 offsets: seq<nat>, pages: seq<seq<Introduction>>, x: Introduction)
    requires IsRun(matched, workload, size, offsets, pages) && DeliverySize([x], size) > MAX_DELIVERY_BYTES
    ensures !Reached(pages, x)
  {
    hide DeliverySize, Cyclic;
    forall i | 0 <= i < |pages| ensures x !in pages[i] {
      assert IsPage(matched, workload, size, offsets[i], pages[i], offsets[i + 1]);
      if x in pages[i] {
        ElementFits(pages[i], x, size);
      }
    }
  }

  /** Whatever the offset, as many pages as there are matches reach all of them exactly when each fits alone. */
  lemma {:induction false} RotationReachesAllIff(matched: seq<Presence>, workload: WorkloadId, size: Sizer,
                                                 offsets: seq<nat>, pages: seq<seq<Introduction>>)
    requires IsRun(matched, workload, size, offsets, pages) && |pages| >= |matched|
    ensures (forall j :: 0 <= j < |matched| ==> Reached(pages, IntroductionOf(matched[j], workload)))
            <==> EachFitsAlone(matched, workload, size)
  {
    hide DeliverySize, IntroductionOf, IsRun;
    if EachFitsAlone(matched, workload, size) {
      forall j | 0 <= j < |matched| ensures Reached(pages, IntroductionOf(matched[j], workload)) {
        var i := EveryMatchDelivered(matched, workload, size, offsets, pages, j);
      }
    } else {
      var j :| 0 <= j < |matched| && DeliverySize([IntroductionOf(matched[j], workload)], size) > MAX_DELIVERY_BYTES;
      OversizedNeverReached(matched, workload, size, offsets, pages, IntroductionOf(matched[j], workload));
    }
  }

  /** Nor does the rotation get past it: at an introduction that does not fit alone it never moves again. */
  lemma {:induction false} StuckAtOversized(matched: seq<Presence>, workload: WorkloadId, size: Sizer,
                                            offsets: seq<nat>,
                                            pages: seq<seq<Introduction>>, j: nat)
    requires IsRun(matched, workload, size, offsets, pages) && j < |matched| && offsets[0] == j
    requires DeliverySize([IntroductionOf(matched[j], workload)], size) > MAX_DELIVERY_BYTES
    ensures forall i :: 0 <= i < |pages| ==> pages[i] == []
    ensures forall i :: 0 <= i < |offsets| ==> offsets[i] == j
  {
    hide IntroductionOf, DeliverySize, IsPage;
    if pages != [] {
      var k := |pages| - 1;
      StuckAtOversized(matched, workload, size, offsets[..k + 1], pages[..k], j);
      assert offsets[..k + 1][k] == j;
      StuckOnce(matched, workload, size, j, pages[k], offsets[k + 1]);
      forall i | 0 <= i < |pages| ensures pages[i] == [] {
        if i < k {
          assert pages[..k][i] == [];
        }
      }
      forall i | 0 <= i < |offsets| ensures offsets[i] == j {
        if i <= k {
          assert offsets[..k + 1][i] == j;
        }
      }
    }
  }

  lemma {:induction false} StuckOnce(matched: seq<Presence>, workload: WorkloadId, size: Sizer, j: nat,
                                     messages: seq<Introduction>, next: nat)
    requires j < |matched| && IsPage(matched, workload, size, j, messages, next)
    requires DeliverySize([IntroductionOf(matched[j], workload)], size) > MAX_DELIVERY_BYTES
    ensures messages == [] && next == j
  {
    hide IntroductionOf, DeliverySize;
    ModSmall(j, |matched|);
    if messages != [] {
      var first := Cyclic(matched, workload, j, 1);
      assert first == [IntroductionOf(matched[j], workload)];
      CyclicPrefix(matched, workload, j, 1, |messages|);
      SizeMonotone(messages, 1, size);
    }
  }

  // ---- An introduction too long to deliver --------------------------------

  /** The encoding of an introduction holds its capability values and its data. */
  ghost predicate CarriesData(size: Sizer) {
    forall m: Introduction, t: string :: t in m.capabilities ==> size(m) >= |m.capabilities[t]| + Length(m.data)
  }

  /**
   * A merged record is bounded by the snapshot alone, and a directory introduction carries its
   * data twice: data over half the delivery ceiling is accepted, held, and never delivered.
   */
  lemma {:induction false} OversizedRecordMerges(hash: Hash, s: Snapshot, r: Record, node: NodeId, now: u64,
                                                 workload: WorkloadId, size: Sizer)
    returns (p: Presence)
    requires s.size <= MAX_SNAPSHOT_BYTES && s.schema == SCHEMA && s.node == Some(node) && s.records == [r]
    requires r.stamp.Some? && r.stamp.value.nodeId == node && r.expiresAt > now && r.directoryVisible
    requires FromKeeper(r.topic, r.stamp.value.workloadId).Ok?
    requires r.data.Some? && 2 * |r.data.value| > MAX_DELIVERY_BYTES
    requires 256 + |r.data.value| + Length(r.secret) <= MAX_KEEPER_BYTES
    requires CarriesData(size)
    ensures Accepted(hash, Some(s), now) == Some([p]) && p.directoryVisible
    ensures Merged(map[], node, s.complete, [p]) == map[KeyOf(p) := p]
    ensures DeliverySize([IntroductionOf(p, workload)], size) > MAX_DELIVERY_BYTES
    ensures !EachFitsAlone([p], workload, size)
  {
    hide FromKeeper, DeliverySize;
    p := Rebuilt(hash, r, node).value;
    assert Accepted(hash, Some(s), now) == Some([p]) by {
      var none: seq<Presence> := [];
      assert [r][..|[r]| - 1] == [] && Incoming(hash, [], node, now) == Some(none);
      assert none + [p] == [p];
      assert Incoming(hash, [r], node, now) == Some(none + [p]);
    }
    AloneOnEmptyBoard(node, s.complete, p);
    DirectoryIntroductionSize(p, workload, size);
    assert [p][0] == p;
  }

  lemma {:induction false} DirectoryIntroductionSize(p: Presence, workload: WorkloadId, size: Sizer)
    requires p.directoryVisible && p.data.Some? && CarriesData(size)
    ensures DeliverySize([IntroductionOf(p, workload)], size) >= 2 * |p.data.value|
  {
    var m := IntroductionOf(p, workload);
    assert ApplicationTopic(p.topic, workload) in m.capabilities;
    assert [m][..0] == [];
  }

  lemma {:induction false} AloneOnEmptyBoard(node: NodeId, complete: bool, p: Presence)
    requires Size(p) <= MAX_KEEPER_BYTES
    ensures Merged(map[], node, complete, [p]) == map[KeyOf(p) := p]
  {
    hide Size;
    var none: View := map[];
    assert Cleared(none, node, complete, [p]) == none;
    assert [p][..0] == [];
    assert Absorbed(none, []) == none && Base(none, [], p) == none;
    TotalAfterPut(none, p);
    EmptyTotal();
    assert Publishers(none, p.topic) == {};
    assert none[KeyOf(p) := p] == map[KeyOf(p) := p];
  }

  lemma {:induction false} EmptyTotal()
    ensures Total(map[]) == 0
  {
  }

  /** The JSON string of `n` letters. */
  function JsonString(n: nat): (r: Json)
    ensures |r| == n + 2
  {
    [0x22] + seq(n, _ => 0x61) + [0x22]
  }

  /** Such a snapshot: one capability whose data is a JSON text of 140 000 bytes, well within the 192 KiB ceiling. */
  lemma {:induction false} OversizedRecord(hash: Hash, stamp: Stamp, now: u64, workload: WorkloadId, size: Sizer)
    returns (s: Snapshot, p: Presence)
    requires now < U64_MAX && CarriesData(size)
    ensures Accepted(hash, Some(s), now) == Some([p]) && s.size <= MAX_SNAPSHOT_BYTES && p.data == Some(JsonString(139_998))
    ensures Merged(map[], stamp.nodeId, true, [p]) == map[KeyOf(p) := p]
    ensures forall offsets, pages :: IsRun([p], workload, size, offsets, pages) ==>
              !Reached(pages, IntroductionOf(p, workload))
  {
    hide IsRun, Reached, IntroductionOf, Accepted, Merged, CarriesData, DeliverySize, EachFitsAlone, JsonString;
    ShortName(stamp.workloadId);
    var r := Record("a", Some(stamp), Some(JsonString(139_998)), None, now + 1, true);
    s := Snapshot(150_000, SCHEMA, Some(stamp.nodeId), true, [r]);
    p := OversizedRecordMerges(hash, s, r, stamp.nodeId, now, workload, size);
    DataIsKept(hash, r, stamp.nodeId, now, s, p);
    forall offsets, pages | IsRun([p], workload, size, offsets, pages)
      ensures !Reached(pages, IntroductionOf(p, workload))
    {
      OversizedNeverReached([p], workload, size, offsets, pages, IntroductionOf(p, workload));
    }
  }

  lemma {:induction false} DataIsKept(hash: Hash, r: Record, node: NodeId, now: u64, s: Snapshot, p: Presence)
    requires s.records == [r] && s.node == Some(node) && Accepted(hash, Some(s), now) == Some([p])
    ensures p.data == r.data
  {
    hide FromKeeper;
    assert s.records[..0] == [];
    assert Incoming(hash, [], node, now) == Some([]);
    assert [p][0] == p;
  }

  lemma {:induction false} ShortName(workload: WorkloadId)
    ensures FromKeeper("a", workload) == Ok("a")
  {
    SegmentsOfOne("a");
    assert Stripped("a") == "a" && SelfFor(workload)[0] == '@';
  }

  /** Every message introduces a match. */
  lemma {:induction false} PageIntroduces(matched: seq<Presence>, workload: WorkloadId, size: Sizer, offset: nat,
                                          messages: seq<Introduction>, next: nat)
    requires IsPage(matched, workload, size, offset, messages, next)
    ensures forall m :: m in messages ==> exists p :: p in matched && Introduces(m, p, workload)
  {
    hide DeliverySize, Place, Introduces, IntroductionOf;
    forall m | m in messages ensures exists p :: p in matched && Introduces(m, p, workload) {
      var i :| 0 <= i < |messages| && messages[i] == m;
      var p := matched[Place(|matched|, Start(|matched|, offset), i)];
      assert p in matched;
      IntroductionIntroduces(p, workload);
    }
  }

  /** Whatever is never matched is never introduced. */
  lemma {:induction false} NeverIntroduced(matched: seq<Presence>, workload: WorkloadId, size: Sizer, offset: nat,
                                           messages: seq<Introduction>, next: nat, listener: AttemptId)
    requires IsPage(matched, workload, size, offset, messages, next)
    requires forall p :: p in matched ==> p.stamp.attemptId != listener
    ensures forall m :: m in messages ==> m.attempt != listener
  {
    hide DeliverySize, Place;
    forall m | m in messages ensures m.attempt != listener {
      var i :| 0 <= i < |messages| && messages[i] == m;
      var p := matched[Place(|matched|, Start(|matched|, offset), i)];
      assert p in matched && m == IntroductionOf(p, workload);
    }
  }

  // ---- What is delivered --------------------------------------------------

  /** A current presence on an authorized topic the listener asked for, other than its own. */
  ghost predicate Wanted(view: View, listen: seq<Topic>, authorize: Topic -> bool, listener: AttemptId, p: Presence) {
    p.topic in listen && authorize(p.topic) && Current(view, listener, p)
  }

  ghost predicate Current(view: View, listener: AttemptId, p: Presence) {
    KeyOf(p) in view && view[KeyOf(p)] == p && p.stamp.attemptId != listener
  }

  ghost predicate SortedByKey(ps: seq<Presence>) {
    forall i, j :: 0 <= i < j < |ps| ==> !KeyLess(KeyOf(ps[j]), KeyOf(ps[i]))
  }

  lemma {:induction false} NotLessTransitive(a: Key, b: Key, c: Key)
    requires !KeyLess(b, a) && !KeyLess(c, b)
    ensures !KeyLess(c, a)
  {
    KeyOrder();
    assert a == b || KeyLess(a, b);
    assert b == c || KeyLess(b, c);
    assert a == c || KeyLess(a, c);
    assert !KeyLess(a, a);
  }

  method SortByKey(ps: seq<Presence>) returns (r: seq<Presence>)
    ensures multiset(r) == multiset(ps) && SortedByKey(r)
  {
    hide KeyLess;
    r := [];
    for i := 0 to |ps|
      invariant multiset(r) == multiset(ps[..i]) && SortedByKey(r)
    {
      var p := ps[i];
      var j := |r|;
      while j > 0 && KeyLess(KeyOf(p), KeyOf(r[j - 1]))
        invariant 0 <= j <= |r|
        invariant forall m :: j <= m < |r| ==> KeyLess(KeyOf(p), KeyOf(r[m]))
      {
        j := j - 1;
      }
      assert ps[..i + 1] == ps[..i] + [p];
      assert r == r[..j] + r[j..];
      InsertedIsSorted(r, j, p);
      r := r[..j] + [p] + r[j..];
    }
    assert ps[..|ps|] == ps;
  }

  lemma {:induction false} InsertedIsSorted(r: seq<Presence>, j: nat, p: Presence)
    requires SortedByKey(r) && j <= |r|
    requires forall m :: j <= m < |r| ==> KeyLess(KeyOf(p), KeyOf(r[m]))
    requires j > 0 ==> !KeyLess(KeyOf(p), KeyOf(r[j - 1]))
    ensures SortedByKey(r[..j] + [p] + r[j..])
  {
    hide KeyLess;
    forall m | 0 <= m < j ensures !KeyLess(KeyOf(p), KeyOf(r[m])) {
      if m < j - 1 {
        NotLessTransitive(KeyOf(r[m]), KeyOf(r[j - 1]), KeyOf(p));
      }
    }
    forall m | j <= m < |r| ensures !KeyLess(KeyOf(r[m]), KeyOf(p)) {
      Asymmetric(KeyOf(p), KeyOf(r[m]));
    }
  }

  lemma {:induction false} Asymmetric(a: Key, b: Key)
    requires KeyLess(a, b)
    ensures !KeyLess(b, a)
  {
    KeyOrder();
    assert !KeyLess(a, a);
  }

  /** How often a presence is matched: once for each time an authorized topic of its is listed. */
  ghost function Matches(view: View, listen: seq<Topic>, authorize: Topic -> bool, listener: AttemptId, p: Presence): nat {
    if authorize(p.topic) && Current(view, listener, p) then multiset(listen)[p.topic] else 0
  }

  /** The match list: sorted, and each presence as often as it is matched. */
  ghost predicate IsMatched(view: View, listen: seq<Topic>, authorize: Topic -> bool, listener: AttemptId,
                            matched: seq<Presence>)
  {
    SortedByKey(matched) && forall p :: multiset(matched)[p] == Matches(view, listen, authorize, listener, p)
  }

  /** Two sorted lists of current presences with the same contents are the same list. */
  lemma {:induction false} SortedUnique(view: View, a: seq<Presence>, b: seq<Presence>)
    requires SortedByKey(a) && SortedByKey(b) && multiset(a) == multiset(b)
    requires forall p :: p in a ==> KeyOf(p) in view && view[KeyOf(p)] == p
    ensures a == b
  {
    hide KeyLess, SortedByKey;
    assert |a| == |multiset(a)| == |multiset(b)| == |b|;
    if a != [] {
      SameHead(view, a, b);
      SortedTail(a);
      SortedTail(b);
      assert a == [a[0]] + a[1..] && b == [b[0]] + b[1..];
      SortedUnique(view, a[1..], b[1..]);
    }
  }

  lemma {:induction false} SameHead(view: View, a: seq<Presence>, b: seq<Presence>)
    requires SortedByKey(a) && SortedByKey(b) && multiset(a) == multiset(b) && a != [] && b != []
    requires forall p :: p in a ==> KeyOf(p) in view && view[KeyOf(p)] == p
    ensures a[0] == b[0]
  {
    hide KeyLess, SortedByKey;
    FirstIsLeast(a, b);
    FirstIsLeast(b, a);
    SameKey(KeyOf(a[0]), KeyOf(b[0]));
    assert b[0] in multiset(a);
  }

  lemma {:induction false} SortedTail(s: seq<Presence>)
    requires SortedByKey(s) && s != []
    ensures SortedByKey(s[1..]) && multiset(s[1..]) == multiset(s) - multiset{s[0]}
  {
    hide KeyLess;
    assert s == [s[0]] + s[1..];
  }

  lemma {:induction false} FirstIsLeast(a: seq<Presence>, b: seq<Presence>)
    requires SortedByKey(b) && multiset(a) == multiset(b) && a != [] && b != []
    ensures !KeyLess(KeyOf(a[0]), KeyOf(b[0]))
  {
    assert a[0] in multiset(b);
    var k :| 0 <= k < |b| && b[k] == a[0];
    if k == 0 {
      KeyOrder();
    }
  }

  lemma {:induction false} SameKey(a: Key, b: Key)
    requires !KeyLess(a, b) && !KeyLess(b, a)
    ensures a == b
  {
    KeyOrder();
  }

  /** On one board the match list of a listener is the same at every call. */
  lemma {:induction false} MatchedUnique(view: View, listen: seq<Topic>, authorize: Topic -> bool, listener: AttemptId,
                                         a: seq<Presence>, b: seq<Presence>)
    requires IsMatched(view, listen, authorize, listener, a) && IsMatched(view, listen, authorize, listener, b)
    ensures a == b
  {
    hide SortedByKey;
    forall p ensures multiset(a)[p] == multiset(b)[p] {
      assert multiset(a)[p] == Matches(view, listen, authorize, listener, p);
    }
    forall p | p in a ensures KeyOf(p) in view && view[KeyOf(p)] == p {
      assert p in multiset(a);
    }
    SortedUnique(view, a, b);
  }

  lemma {:induction false} MatchedMembers(view: View, listen: seq<Topic>, authorize: Topic -> bool, listener: AttemptId,
                                          matched: seq<Presence>)
    requires IsMatched(view, listen, authorize, listener, matched)
    ensures forall p :: p in matched <==> Wanted(view, listen, authorize, listener, p)
    ensures NoDuplicates(listen) ==> DistinctKeys(matched)
  {
    hide SortedByKey;
    forall p ensures p in matched <==> Wanted(view, listen, authorize, listener, p) {
      assert p in matched <==> p in multiset(matched);
      assert p.topic in listen <==> p.topic in multiset(listen);
    }
    if NoDuplicates(listen) {
      forall p ensures multiset(matched)[p] <= 1 {
        CountDistinct(listen, p.topic);
      }
      AtMostOnce(matched);
      CurrentDistinct(view, matched);
    }
  }

  /** On a board whose topics all come from declarations, distinct matches give a page without repeats. */
  lemma {:induction false} BoardPageDistinct(view: View, matched: seq<Presence>, workload: WorkloadId, size: Sizer,
                                             offset: nat, messages: seq<Introduction>, next: nat)
    requires AllStored(view) && DistinctKeys(matched)
    requires forall p :: p in matched ==> KeyOf(p) in view && view[KeyOf(p)] == p
    requires IsPage(matched, workload, size, offset, messages, next)
    ensures NoDuplicates(messages)
  {
    hide Stored, IsPage, DistinctKeys, NoDuplicates;
    forall p | p in matched ensures p.topic != SELF {
      StoredIsNotSelf(p.topic, p.stamp.workloadId);
    }
    NoRepeatInPage(matched, workload, size, offset, messages, next);
  }

  /** A listener's page of its match list, which never holds its own attempt. */
  method Deliver(board: PresenceBoard, listen: seq<Topic>, listener: AttemptId, workload: WorkloadId, offset: nat,
                 authorize: Topic -> bool, size: Sizer)
    returns (messages: seq<Introduction>, more: bool, next: nat, ghost matched: seq<Presence>)
    requires board.Valid()
    ensures IsMatched(board.view, listen, authorize, listener, matched)
    ensures forall p :: p in matched <==> Wanted(board.view, listen, authorize, listener, p)
    ensures NoDuplicates(listen) ==> DistinctKeys(matched)
    ensures IsPage(matched, workload, size, offset, messages, next) && (more <==> |matched| > |messages|)
    ensures forall m :: m in messages ==> exists p :: p in matched && Introduces(m, p, workload)
    ensures forall m :: m in messages ==> m.attempt != listener
    ensures AllStored(board.view) && NoDuplicates(listen) ==> NoDuplicates(messages)
  {
    hide Inv, Total, BucketsMatch, IndexMatches, SortedByKey, IsPage, Matches, AllStored, NoDuplicates, DistinctKeys,
      Introduces;
    var found := CollectListened(board, listen, listener, authorize);
    var sorted := SortByKey(found);
    matched := sorted;
    MatchedMembers(board.view, listen, authorize, listener, matched);
    messages, more, next := BuildPage(sorted, workload, offset, size);
    NeverIntroduced(matched, workload, size, offset, messages, next, listener);
    PageIntroduces(matched, workload, size, offset, messages, next);
    if AllStored(board.view) && NoDuplicates(listen) {
      BoardPageDistinct(board.view, matched, workload, size, offset, messages, next);
    }
  }

  /**
   * Calls that pass on the returned offset, on an unchanged board, are a run over one match list;
   * with as many calls as matches, all are reached exactly when each fits alone.
   */
  method DeliverRepeatedly(board: PresenceBoard, listen: seq<Topic>, listener: AttemptId, workload: WorkloadId, offset: nat,
                           authorize: Topic -> bool, size: Sizer, n: nat)
    returns (offsets: seq<nat>, pages: seq<seq<Introduction>>, ghost matched: seq<Presence>)
    requires board.Valid()
    ensures IsMatched(board.view, listen, authorize, listener, matched)
    ensures IsRun(matched, workload, size, offsets, pages) && |pages| == n && offsets[0] == offset
    ensures n >= |matched| ==>
              ((forall j :: 0 <= j < |matched| ==> Reached(pages, IntroductionOf(matched[j], workload)))
               <==> EachFitsAlone(matched, workload, size))
  {
    hide Inv, Total, BucketsMatch, IndexMatches, IsPage, IsMatched, Reached, EachFitsAlone;
    offsets, pages := [offset], [];
    var m0, more0, n0;
    m0, more0, n0, matched := Deliver(board, listen, listener, workload, offset, authorize, size);
    for i := 0 to n
      invariant |pages| == i && |offsets| == i + 1 && offsets[0] == offset
      invariant IsRun(matched, workload, size, offsets, pages)
    {
      var messages, more, next;
      ghost var again;
      messages, more, next, again := Deliver(board, listen, listener, workload, offsets[i], authorize, size);
      MatchedUnique(board.view, listen, authorize, listener, matched, again);
      offsets, pages := offsets + [next], pages + [messages];
    }
    if n >= |matched| {
      RotationReachesAllIff(matched, workload, size, offsets, pages);
    }
  }

  method CollectListened(board: PresenceBoard, listen: seq<Topic>, listener: AttemptId, authorize: Topic -> bool)
    returns (found: seq<Presence>)
    requires board.Valid()
    ensures forall p :: multiset(found)[p] == Matches(board.view, listen, authorize, listener, p)
  {
    hide Inv, Total, BucketsMatch, IndexMatches, Current;
    found := [];
    for i := 0 to |listen|
      invariant forall p :: multiset(found)[p] == Matches(board.view, listen[..i], authorize, listener, p)
    {
      assert listen[..i + 1] == listen[..i] + [listen[i]];
      if !authorize(listen[i]) {
        continue;
      }
      var bucket := CollectTopic(board, listen[i], listener);
      forall p ensures multiset(bucket)[p] == if p in bucket then 1 else 0 {
        CountDistinct(bucket, p);
        assert p in bucket <==> p in multiset(bucket);
      }
      found := found + bucket;
    }
    assert listen[..|listen|] == listen;
  }

  method CollectTopic(board: PresenceBoard, topic: Topic, listener: AttemptId) returns (found: seq<Presence>)
    requires board.Valid()
    ensures forall p :: p in found <==> p.topic == topic && Current(board.view, listener, p)
    ensures NoDuplicates(found)
  {
    hide Inv, Total, IndexMatches, BucketsMatch, Current;
    found := [];
    NotInBucket(board.byTopic, board.view, topic, listener);
    if topic !in board.byTopic {
      return;
    }
    var bucket := board.byTopic[topic];
    var attempts := SortedAttempts(bucket);
    for i := 0 to |attempts|
      invariant forall p :: p in found <==> p.topic == topic && Current(board.view, listener, p)
                                            && p.stamp.attemptId in attempts[..i]
      invariant NoDuplicates(found)
    {
      var a := attempts[i];
      assert a in attempts && a !in attempts[..i];
      assert attempts[..i + 1] == attempts[..i] + [a];
      var p := bucket[a];
      InBucket(board.hash, board.byTopic, board.view, topic, a, listener);
      if p.stamp.attemptId == listener {
        continue;
      }
      found := found + [p];
    }
    assert attempts[..|attempts|] == attempts;
  }

  method SortedAttempts(bucket: Bucket) returns (attempts: seq<AttemptId>)
    ensures NoDuplicates(attempts) && forall a :: a in attempts <==> a in bucket
  {
    NatOrder();
    attempts := Sort(bucket.Keys, NatLess);
  }

  lemma {:induction false} InBucket(hash: Hash, byTopic: Buckets, view: View, topic: Topic, a: AttemptId,
                                    listener: AttemptId)
    requires Inv(hash, view) && BucketsMatch(byTopic, view) && topic in byTopic && a in byTopic[topic]
    ensures KeyOf(byTopic[topic][a]) == (topic, a)
    ensures Current(view, listener, byTopic[topic][a]) <==> a != listener
    ensures forall p: Presence :: p.topic == topic && p.stamp.attemptId == a && Current(view, listener, p)
              ==> p == byTopic[topic][a]
  {
    hide WithinBudgets, OneNode;
    assert (topic, a) in view;
    assert SoundAt(hash, (topic, a), view[(topic, a)]);
  }

  lemma {:induction false} NotInBucket(byTopic: Buckets, view: View, topic: Topic, listener: AttemptId)
    requires BucketsMatch(byTopic, view)
    ensures forall p: Presence :: p.topic == topic && Current(view, listener, p)
              ==> topic in byTopic && p.stamp.attemptId in byTopic[topic]
  {
    forall p: Presence | p.topic == topic && Current(view, listener, p)
      ensures topic in byTopic && p.stamp.attemptId in byTopic[topic]
    {
      assert (topic, p.stamp.attemptId) in view;
    }
  }

  lemma {:induction false} SameElements(a: seq<Presence>, b: seq<Presence>)
    requires multiset(a) == multiset(b)
    ensures forall p :: p in a <==> p in b
    ensures NoDuplicates(a) ==> NoDuplicates(b)
  {
    forall p ensures p in a <==> p in b {
      assert p in a <==> p in multiset(a);
      assert p in b <==> p in multiset(b);
    }
    if NoDuplicates(a) {
      forall p ensures multiset(b)[p] <= 1 {
        CountDistinct(a, p);
      }
      AtMostOnce(b);
    }
  }

  lemma {:induction false} CountDistinct<T>(s: seq<T>, p: T)
    requires NoDuplicates(s)
    ensures multiset(s)[p] <= 1
  {
    if s != [] {
      var front, last := s[..|s| - 1], s[|s| - 1];
      assert s == front + [last];
      CountDistinct(front, p);
      assert last !in front;
      assert last !in multiset(front);
    }
  }

  lemma {:induction false} AtMostOnce(s: seq<Presence>)
    requires forall p :: multiset(s)[p] <= 1
    ensures NoDuplicates(s)
  {
    forall i, j | 0 <= i < j < |s| ensures s[i] != s[j] {
      assert s == s[..j] + s[j..];
      assert s[i] in s[..j] && s[j] in s[j..];
      assert multiset(s[..j])[s[i]] >= 1 && multiset(s[j..])[s[j]] >= 1;
      assert multiset(s) == multiset(s[..j]) + multiset(s[j..]);
      assert multiset(s)[s[j]] <= 1;
    }
  }

  /** The directory's match list: sorted, and every advertised capability but the listener's own once. */
  ghost predicate IsDirectory(view: View, listener: AttemptId, matched: seq<Presence>) {
    && SortedByKey(matched) && NoDuplicates(matched)
    && forall p :: p in matched <==> p.directoryVisible && Current(view, listener, p)
  }

  lemma {:induction false} DirectoryUnique(view: View, listener: AttemptId, a: seq<Presence>, b: seq<Presence>)
    requires IsDirectory(view, listener, a) && IsDirectory(view, listener, b)
    ensures a == b
  {
    hide SortedByKey;
    forall p ensures multiset(a)[p] == multiset(b)[p] {
      CountDistinct(a, p);
      CountDistinct(b, p);
      assert p in a <==> p in multiset(a);
      assert p in b <==> p in multiset(b);
    }
    SortedUnique(view, a, b);
  }

  /** Every advertised capability but the listener's own. */
  method DeliverDirectory(board: PresenceBoard, listener: AttemptId, workload: WorkloadId, offset: nat, size: Sizer)
    returns (messages: seq<Introduction>, more: bool, next: nat, ghost matched: seq<Presence>)
    requires board.Valid()
    ensures IsDirectory(board.view, listener, matched)
    ensures IsPage(matched, workload, size, offset, messages, next) && (more <==> |matched| > |messages|)
    ensures forall m :: m in messages ==> exists p :: p in matched && Introduces(m, p, workload)
    ensures forall m :: m in messages ==> m.attempt != listener
    ensures AllStored(board.view) ==> NoDuplicates(messages)
  {
    hide Inv, Total, BucketsMatch, IndexMatches, SortedByKey, IsPage, AllStored, Introduces;
    var found := CollectVisible(board, listener);
    var sorted := SortByKey(found);
    SameElements(found, sorted);
    matched := sorted;
    messages, more, next := BuildPage(sorted, workload, offset, size);
    NeverIntroduced(matched, workload, size, offset, messages, next, listener);
    PageIntroduces(matched, workload, size, offset, messages, next);
    if AllStored(board.view) {
      CurrentDistinct(board.view, matched);
      BoardPageDistinct(board.view, matched, workload, size, offset, messages, next);
    }
  }

  lemma {:induction false} CurrentDistinct(view: View, matched: seq<Presence>)
    requires NoDuplicates(matched) && forall p :: p in matched ==> KeyOf(p) in view && view[KeyOf(p)] == p
    ensures DistinctKeys(matched)
  {
    forall i, j | 0 <= i < j < |matched| ensures KeyOf(matched[i]) != KeyOf(matched[j]) {
      assert matched[i] in matched && matched[j] in matched && matched[i] != matched[j];
    }
  }

  /**
   * Declare, then let another attempt listen: with room the declaring attempt is matched, and
   * whatever introduces it carries its data and its secret.
   */
  method DeclareThenDeliver(board: PresenceBoard, topic: TopicField, declared: Option<seq<string>>, stamp: Stamp,
                            data: Option<Json>, secret: Option<string>, expiresAt: u64, listen: seq<Topic>,
                            listener: AttemptId, workload: WorkloadId, offset: nat, authorize: Topic -> bool, size: Sizer)
    returns (messages: seq<Introduction>, ghost matched: seq<Presence>)
    requires board.Valid() && stamp.healthEligible && listener != stamp.attemptId
    modifies board
    ensures board.Valid()
    ensures var resolved := Resolved(topic, declared, stamp.workloadId);
            resolved.Ok? && resolved.value.publish.Some? ==>
              var t := resolved.value.publish.value;
              && (RoomFor(Without(old(board.view), {stamp.attemptId}), t, data, secret) && t in listen && authorize(t) ==>
                    exists p :: p in matched && Published(board.hash, p, t, stamp, data, secret, expiresAt, false))
              && forall m :: m in messages && m.attempt == stamp.attemptId ==>
                   && m.data == data && m.secret == secret && m.unitId == stamp.unitId && m.ip == stamp.reachableIp
                   && m.topic == if t == "@self/" + workload then "@self" else t
  {
    hide Inv, Total, BucketsMatch, IndexMatches, Resolved, RoomFor, IsPage, IsMatched;
    var resolved := ResolveTopics(topic, declared, stamp.workloadId);
    if resolved.Err? {
      board.RemoveAttempt(stamp.attemptId);
    } else {
      board.Upsert(resolved.value, stamp, data, secret, expiresAt);
    }
    var more, next;
    messages, more, next, matched := Deliver(board, listen, listener, workload, offset, authorize, size);
    if resolved.Ok? && resolved.value.publish.Some? {
      var k := (resolved.value.publish.value, stamp.attemptId);
      if k in board.view && k.0 in listen && authorize(k.0) {
        assert Wanted(board.view, listen, authorize, listener, board.view[k]);
      }
    }
  }

  /** The same over the directory. */
  method DeliverDirectoryRepeatedly(board: PresenceBoard, listener: AttemptId, workload: WorkloadId, offset: nat, size: Sizer,
                                    n: nat)
    returns (offsets: seq<nat>, pages: seq<seq<Introduction>>, ghost matched: seq<Presence>)
    requires board.Valid()
    ensures IsDirectory(board.view, listener, matched)
    ensures IsRun(matched, workload, size, offsets, pages) && |pages| == n && offsets[0] == offset
    ensures n >= |matched| ==>
              ((forall j :: 0 <= j < |matched| ==> Reached(pages, IntroductionOf(matched[j], workload)))
               <==> EachFitsAlone(matched, workload, size))
  {
    hide Inv, Total, BucketsMatch, IndexMatches, IsPage, IsDirectory, Reached, EachFitsAlone;
    offsets, pages := [offset], [];
    var m0, more0, n0;
    m0, more0, n0, matched := DeliverDirectory(board, listener, workload, offset, size);
    for i := 0 to n
      invariant |pages| == i && |offsets| == i + 1 && offsets[0] == offset
      invariant IsRun(matched, workload, size, offsets, pages)
    {
      var messages, more, next;
      ghost var again;
      messages, more, next, again := DeliverDirectory(board, listener, workload, offsets[i], size);
      DirectoryUnique(board.view, listener, matched, again);
      offsets, pages := offsets + [next], pages + [messages];
    }
    if n >= |matched| {
      RotationReachesAllIff(matched, workload, size, offsets, pages);
    }
  }

  method CollectVisible(board: PresenceBoard, listener: AttemptId) returns (found: seq<Presence>)
    requires board.Valid()
    ensures NoDuplicates(found)
    ensures forall p :: p in found <==> p.directoryVisible && Current(board.view, listener, p)
  {
    hide Total, IndexMatches, WithinBudgets, OneNode, KeysInOrder, BucketsMatch;
    found := [];
    var keys := board.SortedKeys();
    OrderedDistinct(board.view);
    for i := 0 to |keys|
      invariant forall p :: p in found <==> p.directoryVisible && Current(board.view, listener, p) && KeyOf(p) in keys[..i]
      invariant NoDuplicates(found)
    {
      assert keys[i] in keys;
      assert keys[..i + 1] == keys[..i] + [keys[i]];
      PresenceBoard.Lookup(board.byTopic, board.view, keys[i]);
      var p := board.byTopic[keys[i].0][keys[i].1];
      assert KeyOf(p) == keys[i];
      assert keys[i] !in keys[..i];
      if p.directoryVisible && p.stamp.attemptId != listener {
        found := found + [p];
      }
    }
    assert keys[..|keys|] == keys;
  }

  lemma {:induction false} OrderedDistinct(view: View)
    ensures NoDuplicates(KeysInOrder(view))
  {
    KeyOrder();
  }
}
