/** The presence board: two indexes over the same presences (crates/gump-hiccup/src/board.rs). */
module Board {
  import opened Machine
  import opened Ordered
  import opened Sums
  import opened Topics
  import opened BoardSpec

  type Bucket = map<AttemptId, Presence>
  type Buckets = map<Topic, Bucket>
  type Index = map<AttemptId, seq<Topic>>

  /** topic → attempt → presence. A bucket may be empty. */
  ghost predicate BucketsMatch(byTopic: Buckets, view: View) {
    && (forall t, a :: (t, a) in view <==> t in byTopic && a in byTopic[t])
    && forall t, a :: (t, a) in view ==> byTopic[t][a] == view[(t, a)]
  }

  /** attempt → topics, each once, none missing, no attempt without a topic. */
  ghost predicate IndexMatches(byAttempt: Index, view: View) {
    && (forall a :: a in byAttempt ==> byAttempt[a] != [] && NoDuplicates(byAttempt[a]))
    && forall t, a :: (t, a) in view <==> a in byAttempt && t in byAttempt[a]
  }

  lemma {:induction false} BucketSize(byTopic: Buckets, view: View, t: Topic)
    requires BucketsMatch(byTopic, view)
    ensures t in byTopic ==> |byTopic[t]| == |Publishers(view, t)|
    ensures t !in byTopic ==> Publishers(view, t) == {}
  {
    if t in byTopic {
      forall a ensures a in byTopic[t].Keys <==> a in Publishers(view, t) {
        if a in byTopic[t] {
          assert (t, a) in view;
        }
      }
      assert byTopic[t].Keys == Publishers(view, t);
    }
  }

  lemma {:induction false} BucketsAfterPut(byTopic: Buckets, view: View, p: Presence)
    requires BucketsMatch(byTopic, view) && p.topic in byTopic
    ensures var bucket: Bucket := byTopic[p.topic][p.stamp.attemptId := p];
            BucketsMatch(byTopic[p.topic := bucket], view[KeyOf(p) := p])
  {
  }

  lemma {:induction false} IndexAfterPut(byAttempt: Index, view: View, p: Presence)
    requires IndexMatches(byAttempt, view)
    ensures var a := p.stamp.attemptId;
            var topics := if a in byAttempt then byAttempt[a] else [];
            IndexMatches(byAttempt[a := if p.topic in topics then topics else topics + [p.topic]], view[KeyOf(p) := p])
  {
  }

  lemma {:induction false} IndexAfterRemove(byAttempt: Index, view: View, a: AttemptId)
    requires IndexMatches(byAttempt, view)
    ensures IndexMatches(byAttempt - {a}, Without(view, {a}))
    ensures a !in byAttempt ==> Without(view, {a}) == view
  {
    if a !in byAttempt {
      forall k | k in view ensures k.1 != a {
        assert (k.0, k.1) in view;
      }
    }
  }

  ghost function KeysFor(topics: seq<Topic>, a: AttemptId): set<Key> {
    set t | t in topics :: (t, a)
  }

  lemma {:induction false} KeysForNext(topics: seq<Topic>, i: nat, a: AttemptId)
    requires i < |topics|
    ensures KeysFor(topics[..i + 1], a) == KeysFor(topics[..i], a) + {(topics[i], a)}
  {
    assert topics[..i + 1] == topics[..i] + [topics[i]];
  }

  lemma {:induction false} AllKeysFor(byAttempt: Index, view: View, a: AttemptId)
    requires IndexMatches(byAttempt, view) && a in byAttempt
    ensures view - KeysFor(byAttempt[a], a) == Without(view, {a})
  {
    forall k | k in view ensures k in KeysFor(byAttempt[a], a) <==> k.1 == a {
      assert (k.0, k.1) in view;
    }
  }

  class PresenceBoard {
    var byTopic: Buckets
    var byAttempt: Index
    var approxBytes: nat
    var omitCount: u64
    const hash: Hash
    /** What is on the board. */
    ghost var view: View

    ghost predicate Valid()
      reads this
    {
      && Inv(hash, view)
      && BucketsMatch(byTopic, view)
      && IndexMatches(byAttempt, view)
      && approxBytes == Total(view)
    }

    constructor (hash: Hash)
      ensures Valid() && view == map[] && omitCount == 0 && this.hash == hash
    {
      byTopic, byAttempt, approxBytes, omitCount := map[], map[], 0, 0;
      this.hash := hash;
      view := map[];
      new;
      EmptyInv(hash);
      SumEmpty(SizeAt);
    }

    /** Replaces the attempt's presence on the topic, or counts an omission at a ceiling. */
    method InsertPresence(p: Presence)
      requires Valid() && Insertable(hash, view, p)
      modifies this
      ensures Valid() && view == Inserted(old(view), p)
      ensures omitCount == if Admits(old(view), p) then old(omitCount) else SatAdd(old(omitCount), 1, U64_MAX)
    {
      hide Inv, Insertable, Total, Publishers, BucketsMatch, IndexMatches, Size;
      var topic, attempt := p.topic, p.stamp.attemptId;
      InsertedKeepsInv(hash, view, p);
      BucketSize(byTopic, view, topic);
      BucketLookup(byTopic, view, p);
      TotalAfterPut(view, p);
      var bucket: Bucket := if topic in byTopic then byTopic[topic] else map[];
      byTopic := byTopic[topic := bucket];
      if |bucket| >= MAX_PUBLISHERS && attempt !in bucket {
        omitCount := SatAdd(omitCount, 1, U64_MAX);
        return;
      }
      var oldSize := if attempt in bucket then Size(bucket[attempt]) else 0;
      var projected := SatSub(approxBytes, oldSize) + Size(p);
      if projected > MAX_KEEPER_BYTES {
        omitCount := SatAdd(omitCount, 1, U64_MAX);
        return;
      }
      BucketsAfterPut(byTopic, view, p);
      IndexAfterPut(byAttempt, view, p);
      byTopic := byTopic[topic := bucket[attempt := p]];
      var topics := if attempt in byAttempt then byAttempt[attempt] else [];
      if topic !in topics {
        topics := topics + [topic];
      }
      byAttempt := byAttempt[attempt := topics];
      approxBytes := projected;
      view := view[KeyOf(p) := p];
    }

    static lemma {:induction false} BucketLookup(byTopic: Buckets, view: View, p: Presence)
      requires BucketsMatch(byTopic, view)
      ensures KeyOf(p) in view <==> p.topic in byTopic && p.stamp.attemptId in byTopic[p.topic]
      ensures KeyOf(p) in view ==> byTopic[p.topic][p.stamp.attemptId] == view[KeyOf(p)]
      ensures p.topic !in byTopic ==> BucketsMatch(byTopic[p.topic := map[]], view)
      ensures p.topic in byTopic ==> byTopic[p.topic := byTopic[p.topic]] == byTopic
    {
    }

    /** Takes one attempt off one topic; a bucket goes with its last presence. */
    method RemoveOne(t: Topic, a: AttemptId)
      requires BucketsMatch(byTopic, view) && approxBytes == Total(view)
      modifies this`byTopic, this`approxBytes, this`view
      ensures view == old(view) - {(t, a)}
      ensures BucketsMatch(byTopic, view) && approxBytes == Total(view)
    {
      hide Total, Size, BucketsMatch;
      BucketsAfterRemove(byTopic, view, t, a);
      if t in byTopic {
        var bucket: Bucket := byTopic[t];
        if a in bucket {
          approxBytes := SatSub(approxBytes, Size(bucket[a]));
          bucket := bucket - {a};
        }
        if bucket == map[] {
          byTopic := byTopic - {t};
        } else {
          byTopic := byTopic[t := bucket];
        }
      }
      view := view - {(t, a)};
    }

    static lemma {:induction false} BucketsAfterRemove(byTopic: Buckets, view: View, t: Topic, a: AttemptId)
      requires BucketsMatch(byTopic, view)
      ensures (t, a) !in view ==> view - {(t, a)} == view
      ensures (t, a) in view ==> Total(view) == Total(view - {(t, a)}) + Size(view[(t, a)])
      ensures (t, a) in view <==> t in byTopic && a in byTopic[t]
      ensures (t, a) in view ==> byTopic[t][a] == view[(t, a)]
      ensures t !in byTopic ==> BucketsMatch(byTopic, view - {(t, a)})
      ensures t in byTopic ==>
                var bucket: Bucket := byTopic[t] - {a};
                && (a !in byTopic[t] ==> bucket == byTopic[t])
                && BucketsMatch(byTopic[t := bucket], view - {(t, a)})
                && (bucket == map[] ==> BucketsMatch(byTopic - {t}, view - {(t, a)}))
    {
      if (t, a) in view {
        SumRemove(view, (t, a), SizeAt);
      } else {
        assert view - {(t, a)} == view;
      }
      if t in byTopic {
        var bucket: Bucket := byTopic[t] - {a};
        assert a !in byTopic[t] ==> bucket == byTopic[t];
        if bucket == map[] {
          assert forall b :: b in byTopic[t] && b != a ==> b in bucket;
        }
      }
    }

    /** Takes an attempt off every topic. */
    method RemoveAttempt(attempt: AttemptId)
      requires Valid()
      modifies this
      ensures Valid() && view == Without(old(view), {attempt}) && omitCount == old(omitCount)
    {
      hide Inv, Total, BucketsMatch, IndexMatches, KeysFor, Without;
      ghost var v0 := view;
      IndexAfterRemove(byAttempt, view, attempt);
      WithoutKeepsInv(hash, view, {attempt});
      if attempt !in byAttempt {
        return;
      }
      AllKeysFor(byAttempt, view, attempt);
      var topics := byAttempt[attempt];
      byAttempt := byAttempt - {attempt};
      NoKeys(v0, topics, attempt);
      for i := 0 to |topics|
        invariant BucketsMatch(byTopic, view) && approxBytes == Total(view)
        invariant view == v0 - KeysFor(topics[..i], attempt)
        invariant byAttempt == old(byAttempt) - {attempt} && omitCount == old(omitCount)
      {
        KeysForNext(topics, i, attempt);
        RemoveOne(topics[i], attempt);
      }
      assert topics[..|topics|] == topics;
    }

    static lemma {:induction false} NoKeys(view: View, topics: seq<Topic>, a: AttemptId)
      ensures view - KeysFor(topics[..0], a) == view
    {
    }

    /** Removes exactly the attempts that hold an expired presence. */
    method Expire(now: u64)
      requires Valid()
      modifies this
      ensures Valid() && view == Without(old(view), Expired(old(view), now)) && omitCount == old(omitCount)
    {
      hide Inv, Total, BucketsMatch, IndexMatches, Without, Expired;
      var dead := CollectExpired(now);
      RemoveAll(dead);
    }

    method CollectExpired(now: u64) returns (dead: seq<AttemptId>)
      requires Valid()
      ensures Elements(dead) == Expired(view, now)
    {
      hide Inv, Total, BucketsMatch, IndexMatches, KeysInOrder, ExpiredAmong, Elements;
      var keys := SortedKeys();
      dead := [];
      NoneExpired(view, keys, now);
      for i := 0 to |keys|
        invariant Elements(dead) == ExpiredAmong(view, keys[..i], now)
      {
        assert keys[i] in keys;
        Lookup(byTopic, view, keys[i]);
        ExpiredNext(view, keys, i, now, dead);
        var p := byTopic[keys[i].0][keys[i].1];
        if p.expiresAt <= now {
          dead := dead + [keys[i].1];
        }
      }
      assert keys[..|keys|] == keys;
      AllExamined(view, keys, now);
    }

    static ghost function ExpiredAmong(view: View, keys: seq<Key>, now: u64): set<AttemptId> {
      set k | k in keys && k in view && view[k].expiresAt <= now :: k.1
    }

    static lemma {:induction false} NoneExpired(view: View, keys: seq<Key>, now: u64)
      ensures Elements<AttemptId>([]) == ExpiredAmong(view, keys[..0], now)
    {
    }

    static lemma {:induction false} ExpiredNext(view: View, keys: seq<Key>, i: nat, now: u64, dead: seq<AttemptId>)
      requires i < |keys| && keys[i] in view
      ensures ExpiredAmong(view, keys[..i + 1], now)
           == ExpiredAmong(view, keys[..i], now) + if view[keys[i]].expiresAt <= now then {keys[i].1} else {}
      ensures Elements(dead + [keys[i].1]) == Elements(dead) + {keys[i].1}
    {
      assert keys[..i + 1] == keys[..i] + [keys[i]];
    }

    static lemma {:induction false} AllExamined(view: View, keys: seq<Key>, now: u64)
      requires forall k :: k in keys <==> k in view
      ensures ExpiredAmong(view, keys, now) == Expired(view, now)
    {
    }

    static lemma {:induction false} Lookup(byTopic: Buckets, view: View, k: Key)
      requires BucketsMatch(byTopic, view) && k in view
      ensures k.0 in byTopic && k.1 in byTopic[k.0] && byTopic[k.0][k.1] == view[k]
    {
      assert (k.0, k.1) in view;
    }

    method RemoveAll(gone: seq<AttemptId>)
      requires Valid()
      modifies this
      ensures Valid() && view == Without(old(view), Elements(gone)) && omitCount == old(omitCount)
    {
      hide Inv, Total, BucketsMatch, IndexMatches, Without, Elements;
      NothingGone(view, gone);
      for i := 0 to |gone|
        invariant Valid() && view == Without(old(view), Elements(gone[..i])) && omitCount == old(omitCount)
      {
        OneMoreGone(old(view), gone, i);
        RemoveAttempt(gone[i]);
      }
      assert gone[..|gone|] == gone;
    }

    static lemma {:induction false} NothingGone(view: View, gone: seq<AttemptId>)
      ensures Without(view, Elements(gone[..0])) == view
    {
    }

    static lemma {:induction false} OneMoreGone(view: View, gone: seq<AttemptId>, i: nat)
      requires i < |gone|
      ensures Without(Without(view, Elements(gone[..i])), {gone[i]}) == Without(view, Elements(gone[..i + 1]))
    {
      assert gone[..i + 1] == gone[..i] + [gone[i]];
    }

    /** All keys, topics in order and attempts in order inside a topic. */
    method SortedKeys() returns (keys: seq<Key>)
      requires Valid()
      ensures keys == KeysInOrder(view)
    {
      hide Inv, Total, IndexMatches;
      KeyOrder();
      var all := set t, a | t in byTopic && a in byTopic[t] :: (t, a);
      assert all == view.Keys by {
        forall k ensures k in all <==> k in view.Keys {
          if k in view {
            assert (k.0, k.1) in view;
          }
        }
      }
      keys := Sort(all, KeyLess);
    }

    /** The attempt's presence on the first topic it published. */
    method PresenceForAttempt(attempt: AttemptId) returns (r: Option<Presence>)
      requires Valid()
      ensures r.None? <==> forall k :: k in view ==> k.1 != attempt
      ensures r.Some? ==> attempt in byAttempt && r == Some(view[(byAttempt[attempt][0], attempt)])
      ensures r.Some? ==> (byAttempt[attempt][0], attempt) in view
    {
      hide Inv, Total;
      if attempt !in byAttempt {
        forall k | k in view ensures k.1 != attempt {
          assert (k.0, k.1) in view;
        }
        return None;
      }
      var topic := byAttempt[attempt][0];
      assert (topic, attempt) in view;
      return Some(byTopic[topic][attempt]);
    }

    /** Removes the attempt unless its first presence carries another fence. */
    method FenceAttempt(attempt: AttemptId, fence: Bytes)
      requires Valid()
      modifies this
      ensures Valid() && omitCount == old(omitCount)
      ensures view == if attempt in old(byAttempt)
                         && (old(byAttempt)[attempt][0], attempt) in old(view)
                         && old(view)[(old(byAttempt)[attempt][0], attempt)].stamp.fenceDigest != fence
                      then old(view) else Without(old(view), {attempt})
    {
      hide Inv, Total, BucketsMatch, Without;
      var p := PresenceForAttempt(attempt);
      if p.None? || p.value.stamp.fenceDigest == fence {
        RemoveAttempt(attempt);
      }
    }

    /** The attempt's new declaration replaces all it had. */
    method Upsert(resolved: ResolvedTopics, stamp: Stamp, data: Option<Json>, secret: Option<string>, expiresAt: u64)
      requires Valid()
      modifies this
      ensures Valid()
      ensures var left := Without(old(view), {stamp.attemptId});
              view == if resolved.publish.None? || !stamp.healthEligible then left
                      else Inserted(left, Declared(hash, resolved.publish.value, stamp, data, secret, expiresAt, false))
      ensures var left := Without(old(view), {stamp.attemptId});
              omitCount
              == if resolved.publish.None? || !stamp.healthEligible
                    || Admits(left, Declared(hash, resolved.publish.value, stamp, data, secret, expiresAt, false))
                 then old(omitCount) else SatAdd(old(omitCount), 1, U64_MAX)
      ensures resolved.publish.Some? && stamp.healthEligible ==>
                var left, topic := Without(old(view), {stamp.attemptId}), resolved.publish.value;
                var k := (topic, stamp.attemptId);
                if RoomFor(left, topic, data, secret)
                then k in view && view - {k} == left && omitCount == old(omitCount)
                     && Published(hash, view[k], topic, stamp, data, secret, expiresAt, false)
                else view == left && omitCount == SatAdd(old(omitCount), 1, U64_MAX)
    {
      hide Inv, Total, BucketsMatch, IndexMatches, Without, Inserted, Declared, Insertable, Published, RoomFor, Admits;
      RemoveAttempt(stamp.attemptId);
      if resolved.publish.None? {
        return;
      }
      if !stamp.healthEligible {
        return;
      }
      NothingLeft(old(view), stamp);
      DeclaredIsInsertable(hash, view, resolved.publish.value, stamp, data, secret, expiresAt, false);
      OffTheBoard(old(view), stamp.attemptId, resolved.publish.value);
      DeclaredIsPublished(hash, view, resolved.publish.value, stamp, data, secret, expiresAt, false);
      InsertPresence(Declared(hash, resolved.publish.value, stamp, data, secret, expiresAt, false));
    }

    static lemma {:induction false} OffTheBoard(view: View, attempt: AttemptId, topic: Topic)
      ensures (topic, attempt) !in Without(view, {attempt})
    {
    }

    /** The attempt's capability map replaces all it had, up to the first bad name. */
    method UpsertCapabilities(stamp: Stamp, capabilities: map<string, Json>, expiresAt: u64) returns (ok: bool)
      requires Valid()
      modifies this
      ensures Valid()
      ensures !stamp.healthEligible ==> ok && view == Without(old(view), {stamp.attemptId})
      ensures stamp.healthEligible ==>
                (view, ok) == Advertised(hash, Without(old(view), {stamp.attemptId}), stamp, capabilities,
                                         TextOrdered(capabilities.Keys), expiresAt)
      ensures omitCount
           == if !stamp.healthEligible then old(omitCount)
              else SatAdd(old(omitCount), Unadvertised(hash, Without(old(view), {stamp.attemptId}), stamp, capabilities,
                                                       TextOrdered(capabilities.Keys), expiresAt), U64_MAX)
      ensures stamp.healthEligible ==>
                (ok <==> forall name :: name in capabilities ==>
                           name != SELF && CanonicalizeTopic(name, stamp.workloadId).Ok?)
      ensures stamp.healthEligible && ok && omitCount == old(omitCount) < U64_MAX ==>
                forall name :: name in capabilities ==>
                  (CanonicalizeTopic(name, stamp.workloadId).value, stamp.attemptId) in view
      ensures OnlyAdvertised(hash, view, stamp, capabilities, expiresAt)
    {
      hide Inv, Total, BucketsMatch, IndexMatches, Without, Inserted, Declared, Insertable, Advertised, Unadvertised,
        CapabilityTopic, TextOrdered, AttemptOn, Admits, CanonicalizeTopic, OnlyAdvertised;
      AdvertisedComplete(hash, Without(view, {stamp.attemptId}), stamp, capabilities, expiresAt);
      AdvertisedOnly(hash, view, stamp, capabilities, TextOrdered(capabilities.Keys), expiresAt);
      RemoveAttempt(stamp.attemptId);
      if !stamp.healthEligible {
        return true;
      }
      ghost var left := view;
      NothingLeft(old(view), stamp);
      var names := SortedNames(capabilities.Keys);
      NothingAdvertised(hash, left, stamp, capabilities, names, expiresAt);
      for i := 0 to |names|
        invariant Valid() && AttemptOn(view, stamp)
        invariant (view, true) == Advertised(hash, left, stamp, capabilities, names[..i], expiresAt)
        invariant omitCount
               == SatAdd(old(omitCount), Unadvertised(hash, left, stamp, capabilities, names[..i], expiresAt), U64_MAX)
      {
        assert names[i] in names;
        AdvertisedNext(hash, left, stamp, capabilities, names, i, expiresAt);
        UnadvertisedNext(hash, left, stamp, capabilities, names, i, expiresAt);
        var topic := CapabilityTopic(names[i], stamp.workloadId);
        if topic.Err? {
          AdvertisedStops(hash, left, stamp, capabilities, names, i + 1, expiresAt);
          UnadvertisedStops(hash, left, stamp, capabilities, names, i + 1, expiresAt);
          return false;
        }
        var data := capabilities[names[i]];
        DeclaredIsInsertable(hash, view, topic.value, stamp, Some(data), None, expiresAt, true);
        InsertPresence(Declared(hash, topic.value, stamp, Some(data), None, expiresAt, true));
      }
      assert names[..|names|] == names;
      return true;
    }

    static method SortedNames(names: set<string>) returns (r: seq<string>)
      ensures r == TextOrdered(names)
    {
      TextOrder();
      r := Sort(names, TextLess);
    }

    static lemma {:induction false} NothingAdvertised(hash: Hash, view: View, stamp: Stamp,
                                                      capabilities: map<string, Json>, names: seq<string>,
                                                      expiresAt: u64)
      requires forall name :: name in names ==> name in capabilities
      ensures Advertised(hash, view, stamp, capabilities, names[..0], expiresAt) == (view, true)
      ensures Unadvertised(hash, view, stamp, capabilities, names[..0], expiresAt) == 0
    {
    }

    /** A bounded snapshot of one node's presences; refused if its encoding is still too long. */
    method Export(node: NodeId, now: u64, recordSize: Record -> nat,
                  snapshotSize: SnapshotSize) returns (r: Option<Snapshot>)
      requires Valid()
      ensures r.Some? ==> IsExport(view, node, now, recordSize, snapshotSize, r.value) && r.value.size <= MAX_SNAPSHOT_BYTES
      ensures r.None? ==> exists s :: IsExport(view, node, now, recordSize, snapshotSize, s) && s.size > MAX_SNAPSHOT_BYTES
    {
      hide Inv, Total, BucketsMatch, IndexMatches, BodySize, Selected, KeysInOrder, Records;
      var keys := SortedKeys();
      var records: seq<Record>, complete := SelectRecords(keys, node, now, recordSize);
      var snapshot := Snapshot(snapshotSize(node, complete, records), SCHEMA, Some(node), complete, records);
      assert IsExport(view, node, now, recordSize, snapshotSize, snapshot);
      if snapshot.size > MAX_SNAPSHOT_BYTES {
        return None;
      }
      return Some(snapshot);
    }

    method SelectRecords(keys: seq<Key>, node: NodeId, now: u64, recordSize: Record -> nat)
      returns (records: seq<Record>, complete: bool)
      requires Valid() && keys == KeysInOrder(view)
      ensures var all := Selected(view, keys, node, now);
              && |records| <= |all| && records == Records(all[..|records|])
              && BodySize(records, recordSize) <= MAX_SNAPSHOT_BYTES
              && (complete <==> |records| == |all|)
              && (!complete ==> BodySize(Records(all[..|records| + 1]), recordSize) > MAX_SNAPSHOT_BYTES)
    {
      hide Inv, Total, BucketsMatch, IndexMatches, BodySize, Selected, KeysInOrder, Records;
      records := [];
      complete := true;
      var encoded: nat := 128;
      ghost var done: seq<Presence> := [];
      NothingSelected(view, keys, node, now, recordSize);
      for i := 0 to |keys|
        invariant done == Selected(view, keys[..i], node, now)
        invariant records == Records(done) && |records| == |done|
        invariant encoded == BodySize(records, recordSize) <= MAX_SNAPSHOT_BYTES
      {
        assert keys[i] in keys;
        Lookup(byTopic, view, keys[i]);
        SelectedNext(view, keys, i, node, now);
        var p := byTopic[keys[i].0][keys[i].1];
        if p.expiresAt <= now {
          continue;
        }
        if p.stamp.nodeId != node {
          continue;
        }
        var record := RecordOf(p);
        var separator: nat := if records != [] then 1 else 0;
        BodyNext(records, record, recordSize);
        RecordsNext(done, p);
        if encoded + separator + recordSize(record) > MAX_SNAPSHOT_BYTES {
          complete := false;
          SelectedPrefix(view, keys, i + 1, node, now);
          CutShort(Selected(view, keys, node, now), done, p);
          return;
        }
        encoded := encoded + separator + recordSize(record);
        records := records + [record];
        done := done + [p];
      }
      assert keys[..|keys|] == keys;
      assert done[..|records|] == done;
    }

    static lemma {:induction false} CutShort(all: seq<Presence>, done: seq<Presence>, p: Presence)
      requires done + [p] <= all
      ensures |done| < |all| && all[..|done|] == done && all[..|done| + 1] == done + [p]
    {
    }

    static lemma {:induction false} NothingSelected(view: View, keys: seq<Key>, node: NodeId, now: u64,
                                                    recordSize: Record -> nat)
      requires forall k :: k in keys ==> k in view
      ensures Selected(view, keys[..0], node, now) == [] && Records([]) == [] && BodySize([], recordSize) == 128
    {
    }

    static lemma {:induction false} BodyNext(records: seq<Record>, record: Record, recordSize: Record -> nat)
      ensures BodySize(records + [record], recordSize)
           == BodySize(records, recordSize) + (if records != [] then 1 else 0) + recordSize(record)
    {
      assert (records + [record])[..|records|] == records;
    }

    static lemma {:induction false} RecordsNext(ps: seq<Presence>, p: Presence)
      ensures Records(ps + [p]) == Records(ps) + [RecordOf(p)]
      ensures |Records(ps)| == |ps|
    {
    }

    static lemma {:induction false} SelectedPrefix(view: View, keys: seq<Key>, i: nat, node: NodeId, now: u64)
      requires i <= |keys| && forall k :: k in keys ==> k in view
      ensures Selected(view, keys[..i], node, now) <= Selected(view, keys, node, now)
      decreases |keys| - i
    {
      hide Selected;
      if i == |keys| {
        assert keys[..i] == keys;
      } else {
        SelectedNext(view, keys, i, node, now);
        SelectedPrefix(view, keys, i + 1, node, now);
      }
    }

    /**
     * Merges a peer's snapshot. A malformed one changes nothing; otherwise the result says how
     * many unexpired records it had.
     */
    method Merge(snapshot: Option<Snapshot>, now: u64) returns (r: Option<nat>)
      requires Valid()
      modifies this
      ensures Valid()
      ensures r.Some? <==> Accepted(hash, snapshot, now).Some?
      ensures r.None? ==> unchanged(this)
      ensures r.Some? ==>
                var source, complete := snapshot.value.node.value, snapshot.value.complete;
                var ps := Accepted(hash, snapshot, now).value;
                && r.value == |ps|
                && view == Merged(old(view), source, complete, ps)
                && omitCount == SatAdd(old(omitCount), Omissions(Cleared(old(view), source, complete, ps), ps), U64_MAX)
    {
      hide Inv, Total, BucketsMatch, IndexMatches, Incoming, Absorbed, Omissions, Without, Departed, Attempts, AllFrom;
      if snapshot.None? || snapshot.value.size > MAX_SNAPSHOT_BYTES {
        return None;
      }
      var s := snapshot.value;
      if s.schema != SCHEMA || s.node.None? {
        return None;
      }
      var source := s.node.value;
      var incoming := DecodeRecords(s.records, source, now);
      if incoming.None? {
        return None;
      }
      IncomingIsSound(hash, s.records, source, now);
      if s.complete {
        RemoveDeparted(source, incoming.value);
      }
      Absorb(incoming.value, source);
      return Some(|incoming.value|);
    }

    method DecodeRecords(records: seq<Record>, source: NodeId, now: u64) returns (r: Option<seq<Presence>>)
      ensures r == Incoming(hash, records, source, now)
    {
      hide Incoming, Rebuilt;
      var incoming: seq<Presence> := [];
      NothingIncoming(hash, records, source, now);
      for i := 0 to |records|
        invariant Incoming(hash, records[..i], source, now) == Some(incoming)
      {
        IncomingNext(hash, records, i, source, now);
        if records[i].expiresAt <= now {
          continue;
        }
        var p := Rebuilt(hash, records[i], source);
        if p.None? {
          IncomingNone(hash, records, i + 1, source, now);
          return None;
        }
        incoming := incoming + [p.value];
      }
      assert records[..|records|] == records;
      return Some(incoming);
    }

    static lemma {:induction false} NothingIncoming(hash: Hash, records: seq<Record>, source: NodeId, now: u64)
      ensures Incoming(hash, records[..0], source, now) == Some([])
    {
    }

    /** Attempts of the source node that the complete snapshot no longer mentions. */
    method RemoveDeparted(source: NodeId, incoming: seq<Presence>)
      requires Valid()
      modifies this
      ensures Valid() && view == Without(old(view), Departed(old(view), source, Attempts(incoming)))
      ensures omitCount == old(omitCount)
    {
      hide Inv, Total, BucketsMatch, IndexMatches, Without, Departed, Attempts;
      var arriving := set p | p in incoming :: p.stamp.attemptId;
      NatOrder();
      var attempts: seq<AttemptId> := Sort(byAttempt.Keys, NatLess);
      var departed := CollectDeparted(source, arriving, attempts);
      ArrivingAre(incoming);
      RemoveAll(departed);
    }

    static lemma {:induction false} ArrivingAre(incoming: seq<Presence>)
      ensures Attempts(incoming) == set p | p in incoming :: p.stamp.attemptId
    {
    }

    method CollectDeparted(source: NodeId, arriving: set<AttemptId>,
                           attempts: seq<AttemptId>) returns (departed: seq<AttemptId>)
      requires Valid() && forall a :: a in attempts <==> a in byAttempt
      ensures Elements(departed) == Departed(view, source, arriving)
    {
      hide Inv, Total, BucketsMatch, IndexMatches, Departed;
      departed := [];
      for i := 0 to |attempts|
        invariant forall a :: a in departed <==> a in attempts[..i] && a in Departed(view, source, arriving)
      {
        var a := attempts[i];
        assert a in attempts;
        assert attempts[..i + 1] == attempts[..i] + [a];
        var p := PresenceForAttempt(a);
        DepartedIff(hash, byAttempt, view, source, arriving, a);
        if p.Some? && p.value.stamp.nodeId == source && a !in arriving {
          departed := departed + [a];
        }
      }
      assert attempts[..|attempts|] == attempts;
      forall a | a in Departed(view, source, arriving) ensures a in byAttempt {
        DepartedIsIndexed(byAttempt, view, source, arriving, a);
      }
    }

    static lemma {:induction false} DepartedIsIndexed(byAttempt: Index, view: View, source: NodeId,
                                                      arriving: set<AttemptId>,
                                                      a: AttemptId)
      requires IndexMatches(byAttempt, view) && a in Departed(view, source, arriving)
      ensures a in byAttempt
    {
      var k :| k in view && k.1 == a;
      assert (k.0, k.1) in view;
    }

    static lemma {:induction false} DepartedIff(hash: Hash, byAttempt: Index, view: View, source: NodeId,
                                                arriving: set<AttemptId>, a: AttemptId)
      requires Inv(hash, view) && IndexMatches(byAttempt, view) && a in byAttempt
      ensures (byAttempt[a][0], a) in view
      ensures a in Departed(view, source, arriving)
              <==> view[(byAttempt[a][0], a)].stamp.nodeId == source && a !in arriving
    {
      hide WithinBudgets, SoundAt;
      assert byAttempt[a][0] in byAttempt[a];
      var k := (byAttempt[a][0], a);
      assert k in view;
    }

    /** Inserts the records in turn; an attempt's first record clears what it had. */
    method Absorb(incoming: seq<Presence>, source: NodeId)
      requires Valid() && AllFrom(hash, incoming, source)
      modifies this
      ensures Valid() && view == Absorbed(old(view), incoming)
      ensures omitCount == SatAdd(old(omitCount), Omissions(old(view), incoming), U64_MAX)
    {
      hide Inv, Total, BucketsMatch, IndexMatches, Absorbed, Without, Attempts, Omissions, Admits, AllFrom, Insertable;
      ghost var v0 := view;
      var refreshed: set<AttemptId> := {};
      NothingAbsorbed(v0, incoming);
      for i := 0 to |incoming|
        invariant Valid() && view == Absorbed(v0, incoming[..i])
        invariant refreshed == Attempts(incoming[..i])
        invariant omitCount == SatAdd(old(omitCount), Omissions(v0, incoming[..i]), U64_MAX)
      {
        var p := incoming[i];
        AbsorbNext(hash, v0, incoming, i, source);
        if p.stamp.attemptId !in refreshed {
          refreshed := refreshed + {p.stamp.attemptId};
          RemoveAttempt(p.stamp.attemptId);
        }
        InsertPresence(p);
      }
      assert incoming[..|incoming|] == incoming;
    }

    static lemma {:induction false} NothingAbsorbed(view: View, incoming: seq<Presence>)
      ensures Absorbed(view, incoming[..0]) == view && Attempts(incoming[..0]) == {} && Omissions(view, incoming[..0]) == 0
    {
    }

    /** What one more record does, and that it may be inserted. */
    static lemma {:induction false} AbsorbNext(hash: Hash, v0: View, incoming: seq<Presence>, i: nat, source: NodeId)
      requires Inv(hash, v0) && AllFrom(hash, incoming, source) && i < |incoming|
      ensures var front, p := incoming[..i], incoming[i];
              var base := Base(Absorbed(v0, front), front, p);
              && Insertable(hash, base, p)
              && Absorbed(v0, incoming[..i + 1]) == Inserted(base, p)
              && Attempts(incoming[..i + 1]) == Attempts(front) + {p.stamp.attemptId}
              && Omissions(v0, incoming[..i + 1]) == Omissions(v0, front) + if Admits(base, p) then 0 else 1
    {
      hide Inv, Admits, Inserted, SoundAt, Insertable, Base;
      var next := incoming[..i + 1];
      assert next[..i] == incoming[..i] && next[i] == incoming[i];
      assert incoming[i] in incoming;
      AttemptsNext(next);
      AbsorbedKeepsInv(hash, v0, incoming[..i], source);
      StepKeepsInv(hash, Absorbed(v0, incoming[..i]), incoming[..i], incoming[i], source);
    }

    // ---- Every board ------------------------------------------------------

    /** An inbound declaration; one that does not resolve takes the attempt off the board. */
    method Declare(topic: TopicField, listen: Option<seq<string>>, stamp: Stamp, data: Option<Json>,
                   secret: Option<string>, expiresAt: u64)
      requires Valid()
      modifies this
      ensures Valid()
      ensures view == Changed(hash, old(view), Change.Declare(topic, listen, stamp, data, secret, expiresAt))
      ensures forall k :: k in view && k.1 == stamp.attemptId ==>
                stamp.healthEligible && Published(hash, view[k], k.0, stamp, data, secret, expiresAt, false)
      ensures AllStored(old(view)) ==> AllStored(view)
    {
      hide Inv, Total, BucketsMatch, IndexMatches, Inserted, Declared, Resolved, AllStored, Published, RoomFor;
      if AllStored(view) {
        ChangedKeepsStored(hash, view, Change.Declare(topic, listen, stamp, data, secret, expiresAt));
      }
      var resolved := ResolveTopics(topic, listen, stamp.workloadId);
      if resolved.Err? {
        RemoveAttempt(stamp.attemptId);
        return;
      }
      Upsert(resolved.value, stamp, data, secret, expiresAt);
      if resolved.value.publish.Some? {
        Alone(old(view), view, (resolved.value.publish.value, stamp.attemptId));
      }
    }

    static lemma {:induction false} Alone(before: View, view: View, k: Key)
      requires view == Without(before, {k.1}) || view - {k} == Without(before, {k.1})
      ensures forall other :: other in view && other.1 == k.1 ==> other == k
    {
      forall other | other in view && other != k ensures other.1 != k.1 {
        assert other in view - {k};
      }
    }

    /** An inbound capability map; one with a bad name takes the attempt off the board. */
    method Advertise(stamp: Stamp, capabilities: map<string, Json>, expiresAt: u64)
      requires Valid()
      modifies this
      ensures Valid() && view == Changed(hash, old(view), Change.Advertise(stamp, capabilities, expiresAt))
      ensures OnlyAdvertised(hash, view, stamp, capabilities, expiresAt)
      ensures AllStored(old(view)) ==> AllStored(view)
    {
      hide Inv, Total, BucketsMatch, IndexMatches, Advertised, TextOrdered, AllStored, Published;
      if AllStored(view) {
        ChangedKeepsStored(hash, view, Change.Advertise(stamp, capabilities, expiresAt));
      }
      var ok := UpsertCapabilities(stamp, capabilities, expiresAt);
      if !ok {
        RemoveAttempt(stamp.attemptId);
      }
    }

    /** A peer's snapshot. */
    method Receive(snapshot: Option<Snapshot>, now: u64) returns (r: Option<nat>)
      requires Valid()
      modifies this
      ensures Valid() && view == Changed(hash, old(view), Change.Receive(snapshot, now))
      ensures AllStored(old(view)) ==> AllStored(view)
    {
      hide Inv, Total, BucketsMatch, IndexMatches, Accepted, Merged, AllStored;
      if AllStored(view) {
        ChangedKeepsStored(hash, view, Change.Receive(snapshot, now));
      }
      r := Merge(snapshot, now);
    }

    /** One change of any kind. */
    method Undergo(c: Change)
      requires Valid()
      modifies this
      ensures Valid() && view == Changed(hash, old(view), c)
      ensures AllStored(old(view)) ==> AllStored(view)
    {
      hide Inv, Total, BucketsMatch, IndexMatches, Without, Expired, AllStored, Changed;
      if AllStored(view) {
        ChangedKeepsStored(hash, view, c);
      }
      match c
      case Declare(topic, listen, stamp, data, secret, expiresAt) =>
        Declare(topic, listen, stamp, data, secret, expiresAt);
      case Advertise(stamp, capabilities, expiresAt) =>
        Advertise(stamp, capabilities, expiresAt);
      case Receive(snapshot, now) =>
        var r := Receive(snapshot, now);
      case Lapse(now) =>
        LapseIs(hash, view, now);
        Expire(now);
      case Remove(gone) =>
        NatOrder();
        var ids: seq<AttemptId> := Sort(gone, NatLess);
        RemoveIs(hash, view, gone, ids);
        RemoveAll(ids);
    }

    static lemma {:induction false} LapseIs(hash: Hash, view: View, now: u64)
      ensures Changed(hash, view, Lapse(now)) == Without(view, Expired(view, now))
    {
    }

    static lemma {:induction false} RemoveIs(hash: Hash, view: View, gone: set<AttemptId>, ids: seq<AttemptId>)
      requires forall a :: a in ids <==> a in gone
      ensures Changed(hash, view, Remove(gone)) == Without(view, Elements(ids))
    {
      assert Elements(ids) == gone;
    }

    /** Whatever happens to a fresh board, every topic on it comes from a declaration. */
    method Drive(changes: seq<Change>)
      requires Valid() && view == map[]
      modifies this
      ensures Valid() && view == After(hash, changes) && AllStored(view)
    {
      hide Inv, Total, BucketsMatch, IndexMatches, Changed, AllStored;
      NoChange(hash, changes);
      for i := 0 to |changes|
        invariant Valid() && view == After(hash, changes[..i])
      {
        AfterNext(hash, changes, i);
        Undergo(changes[i]);
      }
      assert changes[..|changes|] == changes;
      EveryTopicStored(hash, changes);
    }

    static lemma {:induction false} NoChange(hash: Hash, changes: seq<Change>)
      ensures After(hash, changes[..0]) == map[]
    {
    }

    static lemma {:induction false} AfterNext(hash: Hash, changes: seq<Change>, i: nat)
      requires i < |changes|
      ensures After(hash, changes[..i + 1]) == Changed(hash, After(hash, changes[..i]), changes[i])
    {
      hide Changed;
      assert changes[..i + 1][..i] == changes[..i];
    }
  }
}
