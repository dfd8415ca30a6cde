/**
 * What the presence board holds and what each operation makes of it
 * (crates/gump-hiccup/src/board.rs), as functions on the map from (topic, attempt) to presence.
 */
module BoardSpec {
  import opened Machine
  import opened Ordered
  import opened Sums
  import opened Topics

  type AttemptId = nat
  type NodeId = nat

  /** A JSON value stands for its compact encoding. */
  type Json = Bytes

  /** The stamped fields the board only carries. */
  datatype Identity = Identity(
    clusterId: nat, namespace: string, appId: string, capsuleId: nat, executionId: nat,
    role: Option<string>, rank: Option<u32>, agentIncarnation: u64)

  datatype Stamp = Stamp(
    identity: Identity, workloadId: WorkloadId, unitId: nat, attemptId: AttemptId, nodeId: NodeId,
    fenceDigest: Bytes, healthEligible: bool, reachableIp: Option<string>)

  datatype Presence = Presence(
    topic: Topic, stamp: Stamp, data: Option<Json>, secret: Option<string>, expiresAt: u64,
    digest: Bytes, directoryVisible: bool)

  /** What the content digest covers. */
  datatype Content = Content(
    topic: Topic, unitId: nat, attemptId: AttemptId, fenceDigest: Bytes, data: Option<Json>, secret: Option<string>)

  type Hash = Content -> Bytes

  function ContentOf(topic: Topic, stamp: Stamp, data: Option<Json>, secret: Option<string>): Content {
    Content(topic, stamp.unitId, stamp.attemptId, stamp.fenceDigest, data, secret)
  }

  const MAX_KEEPER_BYTES: nat := 67_108_864
  const MAX_PUBLISHERS: nat := 10_000

  type Key = (Topic, AttemptId)
  type View = map<Key, Presence>

  function KeyOf(p: Presence): Key {
    (p.topic, p.stamp.attemptId)
  }

  function Length<T>(s: Option<seq<T>>): nat {
    if s.Some? then |s.value| else 0
  }

  function Size(p: Presence): nat {
    256 + Length(p.secret) + Length(p.data)
  }

  function SizeAt(k: Key, p: Presence): nat {
    Size(p)
  }

  ghost function Total(view: View): nat {
    Sum(view, SizeAt)
  }

  ghost function Publishers(view: View, t: Topic): set<AttemptId> {
    set k | k in view && k.0 == t :: k.1
  }

  // ---- Invariant ----------------------------------------------------------

  ghost predicate SoundAt(hash: Hash, k: Key, p: Presence) {
    KeyOf(p) == k && p.stamp.healthEligible && p.digest == hash(ContentOf(p.topic, p.stamp, p.data, p.secret))
  }

  ghost predicate Sound(hash: Hash, view: View) {
    forall k :: k in view ==> SoundAt(hash, k, view[k])
  }

  /** All presences of one attempt are on one node. */
  ghost predicate OneNode(view: View) {
    forall j, k :: j in view && k in view && j.1 == k.1 ==> view[j].stamp.nodeId == view[k].stamp.nodeId
  }

  ghost predicate WithinBudgets(view: View) {
    Total(view) <= MAX_KEEPER_BYTES && forall t :: |Publishers(view, t)| <= MAX_PUBLISHERS
  }

  ghost predicate Inv(hash: Hash, view: View) {
    Sound(hash, view) && OneNode(view) && WithinBudgets(view)
  }

  /** A topic some declaration for the workload resolves to. */
  ghost predicate Stored(t: Topic, workload: WorkloadId) {
    exists raw :: CanonicalizeTopic(raw, workload) == Ok(t)
  }

  /** Every topic on the board came from a declaration, here or at the keeper it was merged from. */
  ghost predicate AllStored(view: View) {
    forall k :: k in view ==> Stored(k.0, view[k].stamp.workloadId)
  }

  // ---- Operations ---------------------------------------------------------

  ghost function Without(view: View, gone: set<AttemptId>): View {
    map k | k in view && k.1 !in gone :: view[k]
  }

  /** The bucket and the keeper have room once the presence being replaced is discounted. */
  ghost predicate Admits(view: View, p: Presence) {
    && (KeyOf(p) in view || |Publishers(view, p.topic)| < MAX_PUBLISHERS)
    && Total(view - {KeyOf(p)}) + Size(p) <= MAX_KEEPER_BYTES
  }

  ghost function Inserted(view: View, p: Presence): View {
    if Admits(view, p) then view[KeyOf(p) := p] else view
  }

  /** Attempts holding at least one expired presence. */
  ghost function Expired(view: View, now: u64): set<AttemptId> {
    set k | k in view && view[k].expiresAt <= now :: k.1
  }

  /** A presence fit to insert: sound, and on the node the attempt is already on. */
  ghost predicate Insertable(hash: Hash, view: View, p: Presence) {
    && SoundAt(hash, KeyOf(p), p)
    && forall k :: k in view && k.1 == p.stamp.attemptId ==> view[k].stamp.nodeId == p.stamp.nodeId
  }

  lemma {:induction false} EmptyInv(hash: Hash)
    ensures Inv(hash, map[])
  {
    SumEmpty(SizeAt);
    assert forall t :: Publishers(map[], t) == {};
  }

  lemma {:induction false} SubviewTotal(small: View, view: View)
    requires small.Keys <= view.Keys && forall k :: k in small ==> small[k] == view[k]
    ensures Total(small) <= Total(view)
    decreases |view|
  {
    if k :| k in view && k !in small {
      SumRemove(view, k, SizeAt);
      SubviewTotal(small, view - {k});
    } else {
      assert small == view;
    }
  }

  lemma {:induction false} SubviewPublishers(small: View, view: View, t: Topic)
    requires small.Keys <= view.Keys
    ensures Publishers(small, t) <= Publishers(view, t) && |Publishers(small, t)| <= |Publishers(view, t)|
  {
    SubsetSize(Publishers(small, t), Publishers(view, t));
  }

  /** Whatever leaves, the invariant stays. */
  lemma {:induction false} WithoutKeepsInv(hash: Hash, view: View, gone: set<AttemptId>)
    requires Inv(hash, view)
    ensures Inv(hash, Without(view, gone)) && Total(Without(view, gone)) <= Total(view)
  {
    var left := Without(view, gone);
    SubviewTotal(left, view);
    forall t ensures |Publishers(left, t)| <= MAX_PUBLISHERS {
      SubviewPublishers(left, view, t);
    }
  }

  lemma {:induction false} TotalAfterPut(view: View, p: Presence)
    ensures Total(view[KeyOf(p) := p]) == Total(view - {KeyOf(p)}) + Size(p)
    ensures KeyOf(p) in view ==> Total(view) == Total(view - {KeyOf(p)}) + Size(view[KeyOf(p)])
    ensures KeyOf(p) !in view ==> view - {KeyOf(p)} == view
  {
    var k := KeyOf(p);
    var after := view[k := p];
    assert after - {k} == view - {k};
    SumRemove(after, k, SizeAt);
    if k in view {
      SumRemove(view, k, SizeAt);
    } else {
      assert view - {k} == view;
    }
  }

  lemma {:induction false} PublishersAfterPut(view: View, p: Presence, t: Topic)
    ensures Publishers(view[KeyOf(p) := p], t)
         == if t == p.topic then Publishers(view, t) + {p.stamp.attemptId} else Publishers(view, t)
    ensures KeyOf(p) in view ==> p.stamp.attemptId in Publishers(view, p.topic)
  {
    var after := view[KeyOf(p) := p];
    assert forall k :: k in view ==> k in after;
    assert KeyOf(p) in after;
  }

  lemma {:induction false} PutKeepsBudgets(view: View, p: Presence)
    requires WithinBudgets(view) && Admits(view, p)
    ensures WithinBudgets(view[KeyOf(p) := p])
  {
    hide Total, Publishers;
    var after := view[KeyOf(p) := p];
    TotalAfterPut(view, p);
    forall t ensures |Publishers(after, t)| <= MAX_PUBLISHERS {
      PublishersAfterPut(view, p, t);
      if t == p.topic && KeyOf(p) in view {
        assert Publishers(view, t) + {p.stamp.attemptId} == Publishers(view, t);
      }
    }
  }

  /** An admitted presence keeps both ceilings. */
  lemma {:induction false} InsertedKeepsInv(hash: Hash, view: View, p: Presence)
    requires Inv(hash, view) && Insertable(hash, view, p)
    ensures Inv(hash, Inserted(view, p))
  {
    hide SoundAt, WithinBudgets, Admits;
    if Admits(view, p) {
      PutKeepsBudgets(view, p);
    }
  }

  // ---- Declarations -------------------------------------------------------

  function Declared(hash: Hash, topic: Topic, stamp: Stamp, data: Option<Json>, secret: Option<string>, expiresAt: u64,
                    directoryVisible: bool): Presence
  {
    Presence(topic, stamp, data, secret, expiresAt, hash(ContentOf(topic, stamp, data, secret)), directoryVisible)
  }

  /** The presence holds just what was published, and its digest covers just that. */
  ghost predicate Published(hash: Hash, p: Presence, topic: Topic, stamp: Stamp, data: Option<Json>,
                            secret: Option<string>, expiresAt: u64, directoryVisible: bool)
  {
    && p.topic == topic && p.stamp == stamp && p.data == data && p.secret == secret && p.expiresAt == expiresAt
    && p.directoryVisible == directoryVisible
    && p.digest == hash(Content(topic, stamp.unitId, stamp.attemptId, stamp.fenceDigest, data, secret))
  }

  /** Room for one more publisher of the topic and for a presence with these contents. */
  ghost predicate RoomFor(view: View, topic: Topic, data: Option<Json>, secret: Option<string>) {
    && |Publishers(view, topic)| < 10_000
    && Total(view) + 256 + (if data.Some? then |data.value| else 0) + (if secret.Some? then |secret.value| else 0)
       <= 67_108_864
  }

  /**
   * Declaring for an attempt that is off the board: with room the presence is there, holding what
   * was published, and nothing else changed; without room nothing changed.
   */
  lemma {:induction false} DeclaredIsPublished(hash: Hash, view: View, topic: Topic, stamp: Stamp, data: Option<Json>,
                                               secret: Option<string>, expiresAt: u64, visible: bool)
    requires (topic, stamp.attemptId) !in view
    ensures var p := Declared(hash, topic, stamp, data, secret, expiresAt, visible);
            var after, k := Inserted(view, p), (topic, stamp.attemptId);
            && (Admits(view, p) <==> RoomFor(view, topic, data, secret))
            && if RoomFor(view, topic, data, secret)
               then k in after && after - {k} == view
                    && Published(hash, after[k], topic, stamp, data, secret, expiresAt, visible)
               else after == view
  {
    hide Total, Publishers;
    var p := Declared(hash, topic, stamp, data, secret, expiresAt, visible);
    assert view - {KeyOf(p)} == view;
  }

  /** A capability name must be a topic other than `@self`. */
  function CapabilityTopic(name: string, workload: WorkloadId): Result<Topic> {
    if name == SELF then Err(InvalidShape) else CanonicalizeTopic(name, workload)
  }

  /** Capabilities are advertised in turn up to the first bad name; the flag says there was none. */
  ghost function Advertised(hash: Hash, view: View, stamp: Stamp, capabilities: map<string, Json>, names: seq<string>,
                            expiresAt: u64): (View, bool)
    requires forall name :: name in names ==> name in capabilities
  {
    if names == [] then (view, true)
    else
      var (v, ok) := Advertised(hash, view, stamp, capabilities, names[..|names| - 1], expiresAt);
      var name := names[|names| - 1];
      var topic := CapabilityTopic(name, stamp.workloadId);
      if !ok || topic.Err? then (v, false)
      else (Inserted(v, Declared(hash, topic.value, stamp, Some(capabilities[name]), None, expiresAt, true)), true)
  }

  lemma {:induction false} AdvertisedNext(hash: Hash, view: View, stamp: Stamp, capabilities: map<string, Json>,
                                          names: seq<string>, i: nat, expiresAt: u64)
    requires i < |names| && forall name :: name in names ==> name in capabilities
    ensures var (v, ok) := Advertised(hash, view, stamp, capabilities, names[..i], expiresAt);
            var topic := CapabilityTopic(names[i], stamp.workloadId);
            Advertised(hash, view, stamp, capabilities, names[..i + 1], expiresAt)
            == if !ok || topic.Err? then (v, false)
               else
                 var p := Declared(hash, topic.value, stamp, Some(capabilities[names[i]]), None, expiresAt, true);
                 (Inserted(v, p), true)
  {
    hide CapabilityTopic, Inserted;
    assert names[..i + 1][..i] == names[..i];
  }

  lemma {:induction false} AdvertisedStops(hash: Hash, view: View, stamp: Stamp, capabilities: map<string, Json>,
                                           names: seq<string>, i: nat, expiresAt: u64)
    requires i <= |names| && forall name :: name in names ==> name in capabilities
    requires !Advertised(hash, view, stamp, capabilities, names[..i], expiresAt).1
    ensures Advertised(hash, view, stamp, capabilities, names, expiresAt)
         == Advertised(hash, view, stamp, capabilities, names[..i], expiresAt)
    decreases |names| - i
  {
    hide Advertised;
    if i == |names| {
      assert names[..i] == names;
    } else {
      AdvertisedNext(hash, view, stamp, capabilities, names, i, expiresAt);
      AdvertisedStops(hash, view, stamp, capabilities, names, i + 1, expiresAt);
    }
  }

  /** How many of the capabilities were not admitted when their turn came. */
  ghost function Unadvertised(hash: Hash, view: View, stamp: Stamp, capabilities: map<string, Json>, names: seq<string>,
                              expiresAt: u64): nat
    requires forall name :: name in names ==> name in capabilities
  {
    if names == [] then 0
    else
      var front, name := names[..|names| - 1], names[|names| - 1];
      var (v, ok) := Advertised(hash, view, stamp, capabilities, front, expiresAt);
      var topic := CapabilityTopic(name, stamp.workloadId);
      Unadvertised(hash, view, stamp, capabilities, front, expiresAt)
      + if ok && topic.Ok?
           && !Admits(v, Declared(hash, topic.value, stamp, Some(capabilities[name]), None, expiresAt, true))
        then 1 else 0
  }

  lemma {:induction false} UnadvertisedNext(hash: Hash, view: View, stamp: Stamp, capabilities: map<string, Json>,
                                            names: seq<string>, i: nat, expiresAt: u64)
    requires i < |names| && forall name :: name in names ==> name in capabilities
    ensures var (v, ok) := Advertised(hash, view, stamp, capabilities, names[..i], expiresAt);
            var topic := CapabilityTopic(names[i], stamp.workloadId);
            Unadvertised(hash, view, stamp, capabilities, names[..i + 1], expiresAt)
            == Unadvertised(hash, view, stamp, capabilities, names[..i], expiresAt)
               + if ok && topic.Ok?
                    && !Admits(v, Declared(hash, topic.value, stamp, Some(capabilities[names[i]]), None, expiresAt, true))
                 then 1 else 0
  {
    hide CapabilityTopic, Admits, Advertised;
    assert names[..i + 1][..i] == names[..i];
  }

  lemma {:induction false} UnadvertisedStops(hash: Hash, view: View, stamp: Stamp, capabilities: map<string, Json>,
                                             names: seq<string>, i: nat, expiresAt: u64)
    requires i <= |names| && forall name :: name in names ==> name in capabilities
    requires !Advertised(hash, view, stamp, capabilities, names[..i], expiresAt).1
    ensures Unadvertised(hash, view, stamp, capabilities, names, expiresAt)
         == Unadvertised(hash, view, stamp, capabilities, names[..i], expiresAt)
    decreases |names| - i
  {
    hide Advertised, Unadvertised, Admits, CapabilityTopic;
    if i == |names| {
      assert names[..i] == names;
    } else {
      AdvertisedNext(hash, view, stamp, capabilities, names, i, expiresAt);
      UnadvertisedNext(hash, view, stamp, capabilities, names, i, expiresAt);
      UnadvertisedStops(hash, view, stamp, capabilities, names, i + 1, expiresAt);
    }
  }

  /** The order capabilities are advertised in. */
  ghost function TextOrdered(names: set<string>): (r: seq<string>)
    ensures forall name :: name in r <==> name in names
  {
    TextOrder();
    InOrder(names, TextLess)
  }

  /** The attempt's presences all carry the given stamp's node. */
  ghost predicate AttemptOn(view: View, stamp: Stamp) {
    forall k :: k in view && k.1 == stamp.attemptId ==> view[k].stamp.nodeId == stamp.nodeId
  }

  lemma {:induction false} DeclaredIsInsertable(hash: Hash, view: View, topic: Topic, stamp: Stamp, data: Option<Json>,
                                                secret: Option<string>, expiresAt: u64, visible: bool)
    requires AttemptOn(view, stamp) && stamp.healthEligible
    ensures var p := Declared(hash, topic, stamp, data, secret, expiresAt, visible);
            Insertable(hash, view, p) && AttemptOn(Inserted(view, p), stamp)
  {
    hide Admits;
  }

  lemma {:induction false} NothingLeft(view: View, stamp: Stamp)
    ensures AttemptOn(Without(view, {stamp.attemptId}), stamp)
  {
  }

  /**
   * Advertising leaves other attempts alone, and what is new on the board is one of the
   * advertised capabilities under its own topic.
   */
  lemma {:induction false} AdvertisedFrame(hash: Hash, view: View, stamp: Stamp, capabilities: map<string, Json>,
                                           names: seq<string>, expiresAt: u64, k: Key)
    requires forall name :: name in names ==> name in capabilities
    ensures var after := Advertised(hash, view, stamp, capabilities, names, expiresAt).0;
            && (k in view ==> k in after)
            && (k.1 != stamp.attemptId ==> (k in after <==> k in view) && (k in view ==> after[k] == view[k]))
            && (k in after && (k in view ==> after[k] != view[k]) ==>
                  exists name :: name in names && CapabilityTopic(name, stamp.workloadId) == Ok(k.0)
                                 && Published(hash, after[k], k.0, stamp, Some(capabilities[name]), None, expiresAt, true))
  {
    hide Admits, CapabilityTopic;
    if names != [] {
      var front := names[..|names| - 1];
      AdvertisedFrame(hash, view, stamp, capabilities, front, expiresAt, k);
      assert names == front + [names[|names| - 1]];
    }
  }

  /** All the attempt has on the board are advertised capabilities, with their values. */
  ghost predicate OnlyAdvertised(hash: Hash, view: View, stamp: Stamp, capabilities: map<string, Json>, expiresAt: u64) {
    forall k :: k in view && k.1 == stamp.attemptId ==>
      exists name :: name in capabilities && CanonicalizeTopic(name, stamp.workloadId) == Ok(k.0)
                     && Published(hash, view[k], k.0, stamp, Some(capabilities[name]), None, expiresAt, true)
  }

  lemma {:induction false} AdvertisedOnly(hash: Hash, view: View, stamp: Stamp, capabilities: map<string, Json>,
                                          names: seq<string>, expiresAt: u64)
    requires forall name :: name in names ==> name in capabilities
    ensures var left := Without(view, {stamp.attemptId});
            && OnlyAdvertised(hash, left, stamp, capabilities, expiresAt)
            && OnlyAdvertised(hash, Advertised(hash, left, stamp, capabilities, names, expiresAt).0, stamp, capabilities,
                              expiresAt)
  {
    hide CanonicalizeTopic, Advertised, Published;
    var left := Without(view, {stamp.attemptId});
    var after := Advertised(hash, left, stamp, capabilities, names, expiresAt).0;
    forall k | k in after && k.1 == stamp.attemptId
      ensures exists name :: name in capabilities && CanonicalizeTopic(name, stamp.workloadId) == Ok(k.0)
                             && Published(hash, after[k], k.0, stamp, Some(capabilities[name]), None, expiresAt, true)
    {
      AdvertisedFrame(hash, left, stamp, capabilities, names, expiresAt, k);
    }
  }

  /** Every name is a topic other than `@self`. */
  ghost predicate AllTopics(names: seq<string>, workload: WorkloadId) {
    forall i :: 0 <= i < |names| ==> CapabilityTopic(names[i], workload).Ok?
  }

  /** The names are taken to the end exactly when all are topics. */
  lemma {:induction false} AdvertisedToTheEnd(hash: Hash, view: View, stamp: Stamp, capabilities: map<string, Json>,
                                              names: seq<string>, expiresAt: u64)
    requires forall name :: name in names ==> name in capabilities
    ensures Advertised(hash, view, stamp, capabilities, names, expiresAt).1 <==> AllTopics(names, stamp.workloadId)
  {
    hide CapabilityTopic, Inserted;
    if names != [] {
      var front := names[..|names| - 1];
      AdvertisedToTheEnd(hash, view, stamp, capabilities, front, expiresAt);
      assert forall i :: 0 <= i < |front| ==> front[i] == names[i];
    }
  }

  /** If none was left out for want of room, each name is on the board under its topic. */
  lemma {:induction false} AdvertisedEach(hash: Hash, view: View, stamp: Stamp, capabilities: map<string, Json>,
                                          names: seq<string>, expiresAt: u64, i: nat)
    requires i < |names| && forall name :: name in names ==> name in capabilities
    requires Advertised(hash, view, stamp, capabilities, names, expiresAt).1
    requires Unadvertised(hash, view, stamp, capabilities, names, expiresAt) == 0
    ensures var topic := CapabilityTopic(names[i], stamp.workloadId);
            topic.Ok? && (topic.value, stamp.attemptId) in Advertised(hash, view, stamp, capabilities, names, expiresAt).0
  {
    hide CapabilityTopic, Admits;
    if i < |names| - 1 {
      AdvertisedEach(hash, view, stamp, capabilities, names[..|names| - 1], expiresAt, i);
    }
  }

  /** Both, for a whole map. */
  lemma {:induction false} AdvertisedComplete(hash: Hash, view: View, stamp: Stamp, capabilities: map<string, Json>,
                                              expiresAt: u64)
    ensures var names := TextOrdered(capabilities.Keys);
            var (after, ok) := Advertised(hash, view, stamp, capabilities, names, expiresAt);
            && (ok <==> forall name :: name in capabilities ==>
                          name != SELF && CanonicalizeTopic(name, stamp.workloadId).Ok?)
            && (ok && Unadvertised(hash, view, stamp, capabilities, names, expiresAt) == 0 ==>
                  forall name :: name in capabilities ==>
                    (CanonicalizeTopic(name, stamp.workloadId).value, stamp.attemptId) in after)
  {
    hide CanonicalizeTopic, Advertised, Unadvertised, TextOrdered;
    var names := TextOrdered(capabilities.Keys);
    var (after, ok) := Advertised(hash, view, stamp, capabilities, names, expiresAt);
    AdvertisedToTheEnd(hash, view, stamp, capabilities, names, expiresAt);
    forall name | name in capabilities
      ensures ok ==> name != SELF && CanonicalizeTopic(name, stamp.workloadId).Ok?
      ensures ok && Unadvertised(hash, view, stamp, capabilities, names, expiresAt) == 0 ==>
                (CanonicalizeTopic(name, stamp.workloadId).value, stamp.attemptId) in after
    {
      var i :| 0 <= i < |names| && names[i] == name;
      if ok && Unadvertised(hash, view, stamp, capabilities, names, expiresAt) == 0 {
        AdvertisedEach(hash, view, stamp, capabilities, names, expiresAt, i);
      }
    }
    if !ok {
      var i :| 0 <= i < |names| && CapabilityTopic(names[i], stamp.workloadId).Err?;
      assert names[i] in names && names[i] in capabilities;
    }
  }

  // ---- Snapshots ----------------------------------------------------------

  const MAX_SNAPSHOT_BYTES: nat := 196_608
  const SCHEMA: string := "gump.hiccup-keeper-snapshot/1"

  /** One record as read back; `stamp` is `None` where some identifier does not parse. */
  datatype Record = Record(
    topic: string, stamp: Option<Stamp>, data: Option<Json>, secret: Option<string>, expiresAt: u64, directoryVisible: bool)

  /** A decoded snapshot; `size` is the length of its encoding. */
  datatype Snapshot = Snapshot(size: nat, schema: string, node: Option<NodeId>, complete: bool, records: seq<Record>)

  /** The presence a record stands for, if its topic re-validates and it comes from its own node. */
  function Rebuilt(hash: Hash, r: Record, source: NodeId): Option<Presence> {
    if r.stamp.None? then None
    else
      var stamp := r.stamp.value.(healthEligible := true);
      var topic := FromKeeper(r.topic, stamp.workloadId);
      if topic.Err? || stamp.nodeId != source then None
      else Some(Presence(topic.value, stamp, r.data, r.secret, r.expiresAt,
                         hash(ContentOf(topic.value, stamp, r.data, r.secret)), r.directoryVisible))
  }

  /** The presences of the unexpired records, or `None` if one of them is malformed. */
  ghost function Incoming(hash: Hash, records: seq<Record>, source: NodeId, now: u64): Option<seq<Presence>> {
    if records == [] then Some([])
    else
      var front := Incoming(hash, records[..|records| - 1], source, now);
      var r := records[|records| - 1];
      if front.None? || r.expiresAt <= now then front
      else
        var p := Rebuilt(hash, r, source);
        if p.None? then None else Some(front.value + [p.value])
  }

  ghost function Accepted(hash: Hash, snapshot: Option<Snapshot>, now: u64): Option<seq<Presence>> {
    if snapshot.None? || snapshot.value.size > MAX_SNAPSHOT_BYTES || snapshot.value.schema != SCHEMA
       || snapshot.value.node.None? then None
    else Incoming(hash, snapshot.value.records, snapshot.value.node.value, now)
  }

  lemma {:induction false} IncomingNext(hash: Hash, records: seq<Record>, i: nat, source: NodeId, now: u64)
    requires i < |records|
    ensures Incoming(hash, records[..i + 1], source, now)
         == var front := Incoming(hash, records[..i], source, now);
            if front.None? || records[i].expiresAt <= now then front
            else
              var p := Rebuilt(hash, records[i], source);
              if p.None? then None else Some(front.value + [p.value])
  {
    assert records[..i + 1][..i] == records[..i];
  }

  /** One malformed record spoils the whole snapshot. */
  lemma {:induction false} IncomingNone(hash: Hash, records: seq<Record>, i: nat, source: NodeId, now: u64)
    requires i <= |records| && Incoming(hash, records[..i], source, now).None?
    ensures Incoming(hash, records, source, now).None?
    decreases |records| - i
  {
    hide Incoming;
    if i == |records| {
      assert records[..i] == records;
    } else {
      IncomingNext(hash, records, i, source, now);
      IncomingNone(hash, records, i + 1, source, now);
    }
  }

  /** What a record needs to be taken: identifiers that parse, a topic that re-validates, its own node. */
  ghost predicate WellFormed(r: Record, source: NodeId) {
    r.stamp.Some? && FromKeeper(r.topic, r.stamp.value.workloadId).Ok? && r.stamp.value.nodeId == source
  }

  /**
   * Records are taken together or not at all: all of them exactly when every unexpired one is
   * well formed, and then what comes in is the unexpired ones and nothing else.
   */
  lemma {:induction false} IncomingExactly(hash: Hash, records: seq<Record>, source: NodeId, now: u64)
    ensures Incoming(hash, records, source, now).Some?
            <==> forall r :: r in records && r.expiresAt > now ==> WellFormed(r, source)
    ensures Incoming(hash, records, source, now).Some? ==>
              forall p :: p in Incoming(hash, records, source, now).value
                <==> exists r :: r in records && r.expiresAt > now && Rebuilt(hash, r, source) == Some(p)
  {
    hide FromKeeper, Rebuilt, WellFormed;
    if records != [] {
      var front, last := records[..|records| - 1], records[|records| - 1];
      IncomingExactly(hash, front, source, now);
      RebuiltIff(hash, last, source);
      assert records == front + [last];
    }
  }

  lemma {:induction false} RebuiltIff(hash: Hash, r: Record, source: NodeId)
    ensures Rebuilt(hash, r, source).Some? <==> WellFormed(r, source)
  {
    hide FromKeeper;
  }

  ghost predicate AllFrom(hash: Hash, ps: seq<Presence>, source: NodeId) {
    forall p :: p in ps ==> SoundAt(hash, KeyOf(p), p) && p.stamp.nodeId == source
  }

  lemma {:induction false} IncomingIsSound(hash: Hash, records: seq<Record>, source: NodeId, now: u64)
    requires Incoming(hash, records, source, now).Some?
    ensures AllFrom(hash, Incoming(hash, records, source, now).value, source)
    ensures forall p :: p in Incoming(hash, records, source, now).value ==> p.expiresAt > now
  {
    hide FromKeeper;
    if records != [] {
      IncomingIsSound(hash, records[..|records| - 1], source, now);
    }
  }

  // ---- Merging ------------------------------------------------------------

  ghost function Attempts(ps: seq<Presence>): set<AttemptId> {
    set p | p in ps :: p.stamp.attemptId
  }

  ghost function Departed(view: View, source: NodeId, arriving: set<AttemptId>): set<AttemptId> {
    set k | k in view && view[k].stamp.nodeId == source && k.1 !in arriving :: k.1
  }

  /** The view the last record is inserted into: an attempt's first record clears what it had. */
  ghost function Base(view: View, front: seq<Presence>, p: Presence): View {
    if p.stamp.attemptId in Attempts(front) then view else Without(view, {p.stamp.attemptId})
  }

  ghost function Absorbed(view: View, ps: seq<Presence>): View {
    if ps == [] then view
    else
      var front, p := ps[..|ps| - 1], ps[|ps| - 1];
      Inserted(Base(Absorbed(view, front), front, p), p)
  }

  ghost function Cleared(view: View, source: NodeId, complete: bool, ps: seq<Presence>): View {
    if complete then Without(view, Departed(view, source, Attempts(ps))) else view
  }

  ghost function Merged(view: View, source: NodeId, complete: bool, ps: seq<Presence>): View {
    Absorbed(Cleared(view, source, complete, ps), ps)
  }

  /** Every record was admitted when its turn came. */
  ghost predicate NoneOmitted(view: View, ps: seq<Presence>) {
    ps == []
    || var front, p := ps[..|ps| - 1], ps[|ps| - 1];
       NoneOmitted(view, front) && Admits(Base(Absorbed(view, front), front, p), p)
  }

  /** How many records were not admitted. */
  ghost function Omissions(view: View, ps: seq<Presence>): nat {
    if ps == [] then 0
    else
      var front, p := ps[..|ps| - 1], ps[|ps| - 1];
      Omissions(view, front) + if Admits(Base(Absorbed(view, front), front, p), p) then 0 else 1
  }

  lemma {:induction false} NoOmissions(view: View, ps: seq<Presence>)
    ensures Omissions(view, ps) == 0 <==> NoneOmitted(view, ps)
  {
    hide Admits, Base, Absorbed;
    if ps != [] {
      NoOmissions(view, ps[..|ps| - 1]);
    }
  }

  /** The last record for every key. */
  ghost function Latest(ps: seq<Presence>): View {
    if ps == [] then map[] else Latest(ps[..|ps| - 1])[KeyOf(ps[|ps| - 1]) := ps[|ps| - 1]]
  }

  lemma {:induction false} AttemptsNext(ps: seq<Presence>)
    requires ps != []
    ensures Attempts(ps) == Attempts(ps[..|ps| - 1]) + {ps[|ps| - 1].stamp.attemptId}
  {
    assert ps == ps[..|ps| - 1] + [ps[|ps| - 1]];
  }

  lemma {:induction false} LatestKeys(ps: seq<Presence>)
    ensures forall k :: k in Latest(ps) ==> k.1 in Attempts(ps) && Latest(ps)[k] in ps && KeyOf(Latest(ps)[k]) == k
    ensures forall p :: p in ps ==> KeyOf(p) in Latest(ps)
  {
    if ps != [] {
      var front, p := ps[..|ps| - 1], ps[|ps| - 1];
      LatestKeys(front);
      AttemptsNext(ps);
      assert ps == front + [p];
    }
  }

  /** Without omissions a merge replaces exactly the attempts it mentions. */
  lemma {:induction false} AbsorbedExact(view: View, ps: seq<Presence>)
    requires NoneOmitted(view, ps)
    ensures Absorbed(view, ps) == Without(view, Attempts(ps)) + Latest(ps)
  {
    hide Admits, Without, Attempts, Base;
    if ps == [] {
      NoneGone(view);
    } else {
      var front, p := ps[..|ps| - 1], ps[|ps| - 1];
      AbsorbedExact(view, front);
      BaseExact(view, ps);
    }
  }

  lemma {:induction false} NoneGone(view: View)
    ensures Without(view, Attempts([])) == view
  {
  }

  lemma {:induction false} BaseExact(view: View, ps: seq<Presence>)
    requires ps != []
    ensures var front, p := ps[..|ps| - 1], ps[|ps| - 1];
            Base(Without(view, Attempts(front)) + Latest(front), front, p) == Without(view, Attempts(ps)) + Latest(front)
  {
    hide Attempts, Latest;
    var front, p := ps[..|ps| - 1], ps[|ps| - 1];
    AttemptsNext(ps);
    LatestKeys(front);
    if p.stamp.attemptId in Attempts(front) {
      assert Attempts(ps) == Attempts(front);
    }
  }

  ghost function OnNode(view: View, n: NodeId): View {
    map k | k in view && view[k].stamp.nodeId == n :: view[k]
  }

  ghost function OffNode(view: View, n: NodeId): View {
    map k | k in view && view[k].stamp.nodeId != n :: view[k]
  }

  /** No arriving attempt is known under another node. */
  ghost predicate NodeUnique(view: View, source: NodeId, ps: seq<Presence>) {
    forall k :: k in view && k.1 in Attempts(ps) ==> view[k].stamp.nodeId == source
  }

  lemma {:induction false} KeptIsOffNode(view: View, source: NodeId, ps: seq<Presence>)
    requires OneNode(view) && NodeUnique(view, source, ps)
    ensures Without(Cleared(view, source, true, ps), Attempts(ps)) == OffNode(view, source)
  {
    hide Attempts;
    var kept := Without(Cleared(view, source, true, ps), Attempts(ps));
    forall k ensures k in kept <==> k in OffNode(view, source) {
      if k in OffNode(view, source) {
        assert k.1 !in Departed(view, source, Attempts(ps));
      }
    }
  }

  /**
   * A complete snapshot replaces the source node's presences by exactly its unexpired records
   * and leaves every other node's alone.
   */
  lemma {:induction false} CompleteMergeExact(hash: Hash, view: View, source: NodeId, ps: seq<Presence>)
    requires AllFrom(hash, ps, source) && OneNode(view)
    requires NoneOmitted(Cleared(view, source, true, ps), ps) && NodeUnique(view, source, ps)
    ensures OnNode(Merged(view, source, true, ps), source) == Latest(ps)
    ensures OffNode(Merged(view, source, true, ps), source) == OffNode(view, source)
  {
    hide NoneOmitted, Absorbed, Latest, SoundAt, Without, Attempts, Cleared;
    AbsorbedExact(Cleared(view, source, true, ps), ps);
    KeptIsOffNode(view, source, ps);
    LatestKeys(ps);
  }

  /** A partial snapshot only replaces the attempts it mentions. */
  lemma {:induction false} PartialMergeExact(view: View, source: NodeId, ps: seq<Presence>)
    requires NoneOmitted(view, ps)
    ensures Merged(view, source, false, ps) == Without(view, Attempts(ps)) + Latest(ps)
  {
    AbsorbedExact(view, ps);
  }

  // ---- When nothing is omitted --------------------------------------------

  ghost function Sizes(ps: seq<Presence>): nat {
    if ps == [] then 0 else Sizes(ps[..|ps| - 1]) + Size(ps[|ps| - 1])
  }

  ghost function Publishing(ps: seq<Presence>, t: Topic): set<AttemptId> {
    set p | p in ps && p.topic == t :: p.stamp.attemptId
  }

  /** Room for every record beside everything already held. */
  ghost predicate Fits(view: View, ps: seq<Presence>) {
    Total(view) + Sizes(ps) <= MAX_KEEPER_BYTES
    && forall t :: |Publishers(view, t) + Publishing(ps, t)| <= MAX_PUBLISHERS
  }

  lemma {:induction false} AbsorbedBounds(view: View, ps: seq<Presence>, t: Topic)
    ensures Total(Absorbed(view, ps)) <= Total(view) + Sizes(ps)
    ensures Publishers(Absorbed(view, ps), t) <= Publishers(view, t) + Publishing(ps, t)
  {
    hide Admits, Total;
    if ps != [] {
      var front, p := ps[..|ps| - 1], ps[|ps| - 1];
      AbsorbedBounds(view, front, t);
      var v := Absorbed(view, front);
      var base := Base(v, front, p);
      BaseBounds(v, front, p, t);
      InsertedBounds(base, p, t);
      assert ps == front + [p];
      assert Publishing(front, t) <= Publishing(ps, t);
      if p.topic == t {
        assert p.stamp.attemptId in Publishing(ps, t);
      }
    }
  }

  lemma {:induction false} BaseBounds(view: View, front: seq<Presence>, p: Presence, t: Topic)
    ensures Total(Base(view, front, p)) <= Total(view)
    ensures Publishers(Base(view, front, p), t) <= Publishers(view, t)
  {
    SubviewTotal(Base(view, front, p), view);
    SubviewPublishers(Base(view, front, p), view, t);
  }

  lemma {:induction false} InsertedBounds(view: View, p: Presence, t: Topic)
    ensures Total(Inserted(view, p)) <= Total(view) + Size(p)
    ensures Publishers(Inserted(view, p), t) <= Publishers(view, t) + if p.topic == t then {p.stamp.attemptId} else {}
  {
    hide Total;
    TotalAfterPut(view, p);
    PublishersAfterPut(view, p, t);
  }

  /** The condition can be checked before the merge. */
  lemma {:induction false} FittingIsNotOmitted(view: View, ps: seq<Presence>)
    requires Fits(view, ps)
    ensures NoneOmitted(view, ps)
  {
    hide Total, Absorbed, Base;
    if ps != [] {
      var front, p := ps[..|ps| - 1], ps[|ps| - 1];
      assert ps == front + [p];
      forall t ensures |Publishers(view, t) + Publishing(front, t)| <= MAX_PUBLISHERS {
        SubsetSize(Publishers(view, t) + Publishing(front, t), Publishers(view, t) + Publishing(ps, t));
      }
      FittingIsNotOmitted(view, front);
      RoomForLast(view, front, p, ps);
    }
  }

  lemma {:induction false} RoomForLast(view: View, front: seq<Presence>, p: Presence, ps: seq<Presence>)
    requires ps == front + [p] && Fits(view, ps)
    ensures Admits(Base(Absorbed(view, front), front, p), p)
  {
    hide Total, Absorbed, Base;
    var v := Absorbed(view, front);
    var base := Base(v, front, p);
    AbsorbedBounds(view, front, p.topic);
    BaseBounds(v, front, p, p.topic);
    TotalAfterPut(base, p);
    assert ps[..|ps| - 1] == front;
    assert Sizes(ps) == Sizes(front) + Size(p);
    if KeyOf(p) !in base {
      NotPublishing(base, p);
      assert p.stamp.attemptId in Publishing(ps, p.topic);
      SubsetSize(Publishers(base, p.topic) + {p.stamp.attemptId}, Publishers(view, p.topic) + Publishing(ps, p.topic));
    }
  }

  lemma {:induction false} NotPublishing(view: View, p: Presence)
    requires KeyOf(p) !in view
    ensures p.stamp.attemptId !in Publishers(view, p.topic)
  {
  }

  // ---- Merging keeps the invariant ----------------------------------------

  lemma {:induction false} AbsorbedKeepsInv(hash: Hash, view: View, ps: seq<Presence>, source: NodeId)
    requires Inv(hash, view) && AllFrom(hash, ps, source)
    ensures Inv(hash, Absorbed(view, ps))
    ensures forall k :: k in Absorbed(view, ps) && k.1 in Attempts(ps) ==> Absorbed(view, ps)[k].stamp.nodeId == source
  {
    hide Admits, Inv, SoundAt;
    if ps != [] {
      var front, p := ps[..|ps| - 1], ps[|ps| - 1];
      AbsorbedKeepsInv(hash, view, front, source);
      StepKeepsInv(hash, Absorbed(view, front), front, p, source);
      AttemptsNext(ps);
      assert p in ps;
    }
  }

  lemma {:induction false} StepKeepsInv(hash: Hash, view: View, front: seq<Presence>, p: Presence, source: NodeId)
    requires Inv(hash, view) && SoundAt(hash, KeyOf(p), p) && p.stamp.nodeId == source
    requires forall k :: k in view && k.1 in Attempts(front) ==> view[k].stamp.nodeId == source
    ensures Insertable(hash, Base(view, front, p), p)
    ensures Inv(hash, Base(view, front, p))
    ensures Inv(hash, Inserted(Base(view, front, p), p))
  {
    hide Inv, SoundAt, Inserted;
    WithoutKeepsInv(hash, view, {p.stamp.attemptId});
    InsertedKeepsInv(hash, Base(view, front, p), p);
  }

  // ---- Exporting ----------------------------------------------------------

  /** Order of iteration over topics and, inside a topic, attempts. */
  predicate KeyLess(a: Key, b: Key) {
    TextLess(a.0, b.0) || (a.0 == b.0 && a.1 < b.1)
  }

  /** Presences are ordered by the bytes of their topic, and on one topic by attempt. */
  lemma {:induction false} KeyLessIff(a: Key, b: Key)
    ensures KeyLess(a, b)
            <==> || (a.0 == b.0 && a.1 < b.1)
                 || a.0 < b.0
                 || exists i: nat :: SmallerAt(a.0, b.0, i)
  {
    hide TextLess;
    TextLessIff(a.0, b.0);
  }

  lemma {:induction false} KeyOrder()
    ensures StrictTotal(KeyLess)
  {
    TextOrder();
    forall x: Key, y: Key, z: Key | KeyLess(x, y) && KeyLess(y, z) ensures KeyLess(x, z) {
    }
  }

  ghost function KeysInOrder(view: View): (keys: seq<Key>)
    ensures forall k :: k in keys <==> k in view
  {
    KeyOrder();
    InOrder(view.Keys, KeyLess)
  }

  function RecordOf(p: Presence): Record {
    Record(p.topic, Some(p.stamp), p.data, p.secret, p.expiresAt, p.directoryVisible)
  }

  ghost function Records(ps: seq<Presence>): seq<Record> {
    seq(|ps|, i requires 0 <= i < |ps| => RecordOf(ps[i]))
  }

  predicate Shown(p: Presence, node: NodeId, now: u64) {
    p.expiresAt > now && p.stamp.nodeId == node
  }

  /** The node's unexpired presences, in key order. */
  ghost function Selected(view: View, keys: seq<Key>, node: NodeId, now: u64): seq<Presence>
    requires forall k :: k in keys ==> k in view
  {
    if keys == [] then []
    else
      var front, p := Selected(view, keys[..|keys| - 1], node, now), view[keys[|keys| - 1]];
      if Shown(p, node, now) then front + [p] else front
  }

  lemma {:induction false} SelectedNext(view: View, keys: seq<Key>, i: nat, node: NodeId, now: u64)
    requires i < |keys| && forall k :: k in keys ==> k in view
    ensures Selected(view, keys[..i + 1], node, now)
         == var front, p := Selected(view, keys[..i], node, now), view[keys[i]];
            if Shown(p, node, now) then front + [p] else front
  {
    assert keys[..i + 1][..i] == keys[..i];
  }

  lemma {:induction false} SelectedMembers(view: View, keys: seq<Key>, node: NodeId, now: u64, p: Presence)
    requires forall k :: k in keys ==> k in view
    ensures p in Selected(view, keys, node, now) <==> Shown(p, node, now) && exists k :: k in keys && view[k] == p
  {
    hide Shown;
    if keys != [] {
      var front, last := keys[..|keys| - 1], keys[|keys| - 1];
      SelectedMembers(view, front, node, now, p);
      assert forall k :: k in keys <==> k in front || k == last by {
        assert keys == front + [last];
      }
      var before := Selected(view, front, node, now);
      assert p in before + [view[last]] <==> p in before || p == view[last];
    }
  }

  /** Envelope allowance, records and separators. */
  function BodySize(records: seq<Record>, recordSize: Record -> nat): nat {
    if records == [] then 128
    else
      BodySize(records[..|records| - 1], recordSize) + (if |records| > 1 then 1 else 0) + recordSize(records[|records| - 1])
  }

  type SnapshotSize = (NodeId, bool, seq<Record>) -> nat

  /**
   * The snapshot holds the first records in key order, as many as the ceiling allows, and says
   * it is complete exactly when that is all of them.
   */
  ghost predicate IsExport(view: View, node: NodeId, now: u64, recordSize: Record -> nat, snapshotSize: SnapshotSize,
                           s: Snapshot) {
    var all, n := Selected(view, KeysInOrder(view), node, now), |s.records|;
    && s.schema == SCHEMA && s.node == Some(node) && s.size == snapshotSize(node, s.complete, s.records)
    && n <= |all| && s.records == Records(all[..n])
    && BodySize(s.records, recordSize) <= MAX_SNAPSHOT_BYTES
    && (s.complete <==> n == |all|)
    && (!s.complete ==> BodySize(Records(all[..n + 1]), recordSize) > MAX_SNAPSHOT_BYTES)
  }

  // ---- Export, then merge -------------------------------------------------

  ghost function Unexpired(ps: seq<Presence>, now: u64): seq<Presence> {
    if ps == [] then []
    else
      var front := Unexpired(ps[..|ps| - 1], now);
      if ps[|ps| - 1].expiresAt > now then front + [ps[|ps| - 1]] else front
  }

  lemma {:induction false} UnexpiredMembers(ps: seq<Presence>, now: u64, p: Presence)
    ensures p in Unexpired(ps, now) <==> p in ps && p.expiresAt > now
  {
    if ps != [] {
      UnexpiredMembers(ps[..|ps| - 1], now, p);
      assert ps == ps[..|ps| - 1] + [ps[|ps| - 1]];
    }
  }

  predicate Revalidates(p: Presence) {
    FromKeeper(p.topic, p.stamp.workloadId) == Ok(p.topic)
  }

  lemma {:induction false} RebuiltIsSame(hash: Hash, p: Presence, source: NodeId)
    requires SoundAt(hash, KeyOf(p), p) && p.stamp.nodeId == source
    ensures Revalidates(p) ==> Rebuilt(hash, RecordOf(p), source) == Some(p)
    ensures FromKeeper(p.topic, p.stamp.workloadId).Err? ==> Rebuilt(hash, RecordOf(p), source).None?
  {
    hide FromKeeper;
    assert p.stamp.(healthEligible := true) == p.stamp;
  }

  lemma {:induction false} IncomingOfRecords(hash: Hash, ps: seq<Presence>, source: NodeId, now: u64)
    requires AllFrom(hash, ps, source) && forall p :: p in ps && p.expiresAt > now ==> Revalidates(p)
    ensures Incoming(hash, Records(ps), source, now) == Some(Unexpired(ps, now))
  {
    hide Rebuilt, Revalidates, SoundAt;
    if ps != [] {
      var front, p := ps[..|ps| - 1], ps[|ps| - 1];
      assert ps == front + [p];
      IncomingOfRecords(hash, front, source, now);
      RebuiltIsSame(hash, p, source);
      assert Records(ps)[..|ps| - 1] == Records(front);
    }
  }

  lemma {:induction false} LatestOfView(hash: Hash, view: View, ps: seq<Presence>)
    requires Sound(hash, view) && forall p :: p in ps ==> KeyOf(p) in view && view[KeyOf(p)] == p
    ensures Latest(ps) == map k | k in view && view[k] in ps :: view[k]
  {
    hide Latest;
    LatestKeys(ps);
  }

  ghost function ShownView(view: View, node: NodeId, now: u64): View {
    map k | k in view && Shown(view[k], node, now) :: view[k]
  }

  lemma {:induction false} SelectionIsSound(hash: Hash, view: View, node: NodeId, now: u64)
    requires Sound(hash, view)
    ensures AllFrom(hash, Selected(view, KeysInOrder(view), node, now), node)
    ensures forall p :: p in Selected(view, KeysInOrder(view), node, now) ==> KeyOf(p) in view && view[KeyOf(p)] == p
    ensures forall k :: k in view ==>
              (view[k] in Selected(view, KeysInOrder(view), node, now) <==> Shown(view[k], node, now))
  {
    hide Selected, KeysInOrder;
    var keys := KeysInOrder(view);
    var all := Selected(view, keys, node, now);
    forall p | p in all
      ensures SoundAt(hash, KeyOf(p), p) && p.stamp.nodeId == node && KeyOf(p) in view && view[KeyOf(p)] == p
    {
      SelectedMembers(view, keys, node, now, p);
    }
    forall k | k in view ensures view[k] in all <==> Shown(view[k], node, now) {
      SelectedMembers(view, keys, node, now, view[k]);
      assert k in keys;
    }
  }

  /** A complete export decodes, anywhere and later, to what the exporter still shows. */
  lemma {:induction false} ExportDecodes(hash: Hash, view: View, node: NodeId, now: u64, recordSize: Record -> nat,
                                         snapshotSize: SnapshotSize, s: Snapshot, later: u64)
    returns (ps: seq<Presence>)
    requires Sound(hash, view) && IsExport(view, node, now, recordSize, snapshotSize, s) && now <= later
    requires s.complete && s.size <= MAX_SNAPSHOT_BYTES
    requires forall k :: k in view && Shown(view[k], node, later) ==> Revalidates(view[k])
    ensures Accepted(hash, Some(s), later) == Some(ps)
    ensures AllFrom(hash, ps, node) && Latest(ps) == ShownView(view, node, later)
  {
    hide Selected, KeysInOrder, Revalidates, SoundAt, Latest, Incoming, Unexpired, Records, BodySize;
    var all := Selected(view, KeysInOrder(view), node, now);
    SelectionIsSound(hash, view, node, now);
    assert all[..|s.records|] == all;
    forall p | p in all && p.expiresAt > later ensures Revalidates(p) {
      assert Shown(view[KeyOf(p)], node, later);
    }
    IncomingOfRecords(hash, all, node, later);
    ps := Unexpired(all, later);
    forall p ensures p in ps <==> p in all && p.expiresAt > later {
      UnexpiredMembers(all, later, p);
    }
    LatestOfView(hash, view, ps);
  }

  /** Whatever the snapshot decodes to is node-unique here and fits. */
  ghost predicate Receivable(hash: Hash, s: Snapshot, node: NodeId, now: u64, there: View) {
    var incoming := Accepted(hash, Some(s), now);
    incoming.Some? ==>
      NodeUnique(there, node, incoming.value) && Fits(Cleared(there, node, true, incoming.value), incoming.value)
  }

  /**
   * Export followed by merge reproduces the exporter's own view of its node at the destination
   * and touches nothing else there.
   */
  lemma {:induction false} ExportThenMerge(hash: Hash, view: View, node: NodeId, now: u64, recordSize: Record -> nat,
                                           snapshotSize: SnapshotSize, s: Snapshot, later: u64, there: View)
    returns (ps: seq<Presence>)
    requires Sound(hash, view) && IsExport(view, node, now, recordSize, snapshotSize, s) && now <= later
    requires s.complete && s.size <= MAX_SNAPSHOT_BYTES
    requires forall k :: k in view && Shown(view[k], node, later) ==> Revalidates(view[k])
    requires OneNode(there) && Receivable(hash, s, node, later, there)
    ensures Accepted(hash, Some(s), later) == Some(ps)
    ensures OnNode(Merged(there, node, true, ps), node) == ShownView(view, node, later)
    ensures OffNode(Merged(there, node, true, ps), node) == OffNode(there, node)
  {
    hide Accepted, IsExport, Fits, Cleared, NodeUnique, Merged, OnNode, OffNode, ShownView, AllFrom, Latest, Sound, OneNode,
      NoneOmitted, Revalidates;
    ps := ExportDecodes(hash, view, node, now, recordSize, snapshotSize, s, later);
    FittingIsNotOmitted(Cleared(there, node, true, ps), ps);
    CompleteMergeExact(hash, there, node, ps);
  }

  /** One shown topic that does not re-validate, and the whole snapshot is refused. */
  lemma {:induction false} ExportRefused(hash: Hash, view: View, node: NodeId, now: u64, recordSize: Record -> nat,
                                         snapshotSize: SnapshotSize, s: Snapshot, later: u64, k: Key)
    requires Sound(hash, view) && IsExport(view, node, now, recordSize, snapshotSize, s) && now <= later
    requires s.complete
    requires k in view && Shown(view[k], node, later) && FromKeeper(k.0, view[k].stamp.workloadId).Err?
    ensures Accepted(hash, Some(s), later).None?
  {
    hide Selected, KeysInOrder, SoundAt, Incoming, BodySize, FromKeeper, Rebuilt;
    var all := Selected(view, KeysInOrder(view), node, now);
    SelectionIsSound(hash, view, node, now);
    assert all[..|s.records|] == all;
    var i :| 0 <= i < |all| && all[i] == view[k];
    assert KeyOf(view[k]) == k by {
      SoundKey(hash, view, k);
    }
    RebuiltIsSame(hash, view[k], node);
    IncomingNext(hash, s.records, i, node, later);
    IncomingNone(hash, s.records, i + 1, node, later);
  }

  lemma {:induction false} SoundKey(hash: Hash, view: View, k: Key)
    requires Sound(hash, view) && k in view
    ensures KeyOf(view[k]) == k
  {
  }

  /** As every topic on a board comes from a declaration, a complete export is accepted unless it shows a reserved one. */
  lemma {:induction false} ExportAcceptedIff(hash: Hash, view: View, node: NodeId, now: u64, recordSize: Record -> nat,
                                             snapshotSize: SnapshotSize, s: Snapshot, later: u64)
    requires Sound(hash, view) && IsExport(view, node, now, recordSize, snapshotSize, s) && now <= later
    requires s.complete && s.size <= MAX_SNAPSHOT_BYTES
    requires AllStored(view)
    ensures Accepted(hash, Some(s), later).Some?
            <==> forall k :: k in view && Shown(view[k], node, later) ==> !(RESERVED <= k.0)
  {
    hide IsExport, Accepted, SoundAt, CanonicalizeTopic, FromKeeper;
    forall k | k in view
      ensures KeyOf(view[k]) == k
      ensures Revalidates(view[k]) <==> !(RESERVED <= k.0)
      ensures FromKeeper(k.0, view[k].stamp.workloadId).Err? <==> RESERVED <= k.0
    {
      SoundKey(hash, view, k);
      var raw :| CanonicalizeTopic(raw, view[k].stamp.workloadId) == Ok(k.0);
      StoredTopicRevalidates(raw, view[k].stamp.workloadId);
    }
    if k :| k in view && Shown(view[k], node, later) && RESERVED <= k.0 {
      ExportRefused(hash, view, node, now, recordSize, snapshotSize, s, later, k);
    } else {
      var ps := ExportDecodes(hash, view, node, now, recordSize, snapshotSize, s, later);
    }
  }

  // ---- Every board --------------------------------------------------------

  lemma {:induction false} ResolvedIsStored(topic: TopicField, listen: Option<seq<string>>, workload: WorkloadId)
    requires Resolved(topic, listen, workload).Ok? && Resolved(topic, listen, workload).value.publish.Some?
    ensures Stored(Resolved(topic, listen, workload).value.publish.value, workload)
  {
    hide Listened, ValidateTopicToken;
    if topic.Omitted? {
      SelfIsStored(workload);
    }
  }

  lemma {:induction false} SelfIsStored(workload: WorkloadId)
    ensures Stored(SelfFor(workload), workload)
  {
    assert CanonicalizeTopic(SELF, workload) == Ok(SelfFor(workload));
  }

  /** A keeper takes only topics a declaration could have made. */
  lemma {:induction false} RebuiltIsStored(hash: Hash, r: Record, source: NodeId)
    requires Rebuilt(hash, r, source).Some?
    ensures var p := Rebuilt(hash, r, source).value; Stored(p.topic, p.stamp.workloadId)
  {
    hide CanonicalizeTopic;
    SelfIsStored(r.stamp.value.workloadId);
  }

  /** No board holds a topic that is the bare `@self`. */
  lemma {:induction false} StoredIsNotSelf(t: Topic, workload: WorkloadId)
    requires Stored(t, workload)
    ensures t != SELF
  {
    var raw :| CanonicalizeTopic(raw, workload) == Ok(t);
    if raw != SELF {
      NameStart(t);
    }
  }

  lemma {:induction false} InsertedKeepsStored(view: View, p: Presence)
    requires AllStored(view) && Stored(p.topic, p.stamp.workloadId)
    ensures AllStored(Inserted(view, p))
  {
    hide Stored, Admits;
  }

  lemma {:induction false} WithoutKeepsStored(view: View, gone: set<AttemptId>)
    requires AllStored(view)
    ensures AllStored(Without(view, gone))
  {
    hide Stored;
  }

  lemma {:induction false} AdvertisedKeepsStored(hash: Hash, view: View, stamp: Stamp, capabilities: map<string, Json>,
                                                 names: seq<string>, expiresAt: u64)
    requires AllStored(view) && forall name :: name in names ==> name in capabilities
    ensures AllStored(Advertised(hash, view, stamp, capabilities, names, expiresAt).0)
  {
    hide AllStored, Inserted, CanonicalizeTopic;
    if names != [] {
      var front, name := names[..|names| - 1], names[|names| - 1];
      AdvertisedKeepsStored(hash, view, stamp, capabilities, front, expiresAt);
      var (v, ok) := Advertised(hash, view, stamp, capabilities, front, expiresAt);
      var topic := CapabilityTopic(name, stamp.workloadId);
      if ok && topic.Ok? {
        InsertedKeepsStored(v, Declared(hash, topic.value, stamp, Some(capabilities[name]), None, expiresAt, true));
      }
    }
  }

  lemma {:induction false} AbsorbedKeepsStored(view: View, ps: seq<Presence>)
    requires AllStored(view) && forall p :: p in ps ==> Stored(p.topic, p.stamp.workloadId)
    ensures AllStored(Absorbed(view, ps))
  {
    hide AllStored, Stored, Inserted, Without, Attempts;
    if ps != [] {
      var front, p := ps[..|ps| - 1], ps[|ps| - 1];
      assert p in ps;
      AbsorbedKeepsStored(view, front);
      WithoutKeepsStored(Absorbed(view, front), {p.stamp.attemptId});
      InsertedKeepsStored(Base(Absorbed(view, front), front, p), p);
    }
  }

  lemma {:induction false} MergedKeepsStored(hash: Hash, view: View, snapshot: Option<Snapshot>, now: u64)
    requires AllStored(view) && Accepted(hash, snapshot, now).Some?
    ensures AllStored(Merged(view, snapshot.value.node.value, snapshot.value.complete, Accepted(hash, snapshot, now).value))
  {
    hide AllStored, Stored, Rebuilt, Incoming, Absorbed, Without, WellFormed;
    var s := snapshot.value;
    var source, ps := s.node.value, Accepted(hash, snapshot, now).value;
    IncomingExactly(hash, s.records, source, now);
    forall p | p in ps ensures Stored(p.topic, p.stamp.workloadId) {
      var r :| r in s.records && r.expiresAt > now && Rebuilt(hash, r, source) == Some(p);
      RebuiltIsStored(hash, r, source);
    }
    WithoutKeepsStored(view, Departed(view, source, Attempts(ps)));
    AbsorbedKeepsStored(Cleared(view, source, s.complete, ps), ps);
  }

  /** What can happen to a board: an inbound declaration or capability map, a peer's snapshot, time, a removal. */
  datatype Change =
    | Declare(topic: TopicField, listen: Option<seq<string>>, stamp: Stamp, data: Option<Json>, secret: Option<string>,
              expiresAt: u64)
    | Advertise(stamp: Stamp, capabilities: map<string, Json>, expiresAt: u64)
    | Receive(snapshot: Option<Snapshot>, now: u64)
    | Lapse(now: u64)
    | Remove(gone: set<AttemptId>)

  ghost function Changed(hash: Hash, view: View, c: Change): View {
    match c
    case Declare(topic, listen, stamp, data, secret, expiresAt) =>
      var resolved := Resolved(topic, listen, stamp.workloadId);
      var left := Without(view, {stamp.attemptId});
      if resolved.Err? || resolved.value.publish.None? || !stamp.healthEligible then left
      else Inserted(left, Declared(hash, resolved.value.publish.value, stamp, data, secret, expiresAt, false))
    case Advertise(stamp, capabilities, expiresAt) =>
      var left := Without(view, {stamp.attemptId});
      if !stamp.healthEligible then left
      else
        var (v, ok) := Advertised(hash, left, stamp, capabilities, TextOrdered(capabilities.Keys), expiresAt);
        if ok then v else Without(v, {stamp.attemptId})
    case Receive(snapshot, now) =>
      var ps := Accepted(hash, snapshot, now);
      if ps.None? then view else Merged(view, snapshot.value.node.value, snapshot.value.complete, ps.value)
    case Lapse(now) => Without(view, Expired(view, now))
    case Remove(gone) => Without(view, gone)
  }

  ghost function After(hash: Hash, changes: seq<Change>): View {
    if changes == [] then map[] else Changed(hash, After(hash, changes[..|changes| - 1]), changes[|changes| - 1])
  }

  lemma {:induction false} ChangedKeepsStored(hash: Hash, view: View, c: Change)
    requires AllStored(view)
    ensures AllStored(Changed(hash, view, c))
  {
    hide AllStored, Stored, Inserted, Without, Resolved, Advertised, TextOrdered, Accepted, Merged;
    match c
    case Declare(topic, listen, stamp, data, secret, expiresAt) =>
      var left := Without(view, {stamp.attemptId});
      WithoutKeepsStored(view, {stamp.attemptId});
      var resolved := Resolved(topic, listen, stamp.workloadId);
      if resolved.Ok? && resolved.value.publish.Some? {
        ResolvedIsStored(topic, listen, stamp.workloadId);
        InsertedKeepsStored(left, Declared(hash, resolved.value.publish.value, stamp, data, secret, expiresAt, false));
      }
    case Advertise(stamp, capabilities, expiresAt) =>
      WithoutKeepsStored(view, {stamp.attemptId});
      AdvertisedKeepsStored(hash, Without(view, {stamp.attemptId}), stamp, capabilities,
                            TextOrdered(capabilities.Keys), expiresAt);
      WithoutKeepsStored(Advertised(hash, Without(view, {stamp.attemptId}), stamp, capabilities,
                                    TextOrdered(capabilities.Keys), expiresAt).0, {stamp.attemptId});
    case Receive(snapshot, now) =>
      if Accepted(hash, snapshot, now).Some? {
        MergedKeepsStored(hash, view, snapshot, now);
      }
    case Lapse(now) =>
      WithoutKeepsStored(view, Expired(view, now));
    case Remove(gone) =>
      WithoutKeepsStored(view, gone);
  }

  /** Whatever happened to a board, every topic on it came from a declaration. */
  lemma {:induction false} EveryTopicStored(hash: Hash, changes: seq<Change>)
    ensures AllStored(After(hash, changes))
  {
    hide Changed;
    if changes != [] {
      EveryTopicStored(hash, changes[..|changes| - 1]);
      ChangedKeepsStored(hash, After(hash, changes[..|changes| - 1]), changes[|changes| - 1]);
    }
  }
}
