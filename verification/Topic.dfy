/**
 * Topic tokens and their canonical form (crates/gump-hiccup/src/topic.rs).
 * Text is modelled with one `char` per UTF-8 byte.
 */
module Topics {
  import opened Machine

  /** A workload id stands for its hyphenated text. */
  type WorkloadId = string

  /** A canonical topic: a name without leading `#`, or `@self/` and a workload id. */
  type Topic = string

  const SELF: string := "@self"
  const SELF_PREFIX: string := "@self/"
  const RESERVED: string := "gump/"
  const MAX_TOPIC: nat := 128
  const MAX_SEGMENT: nat := 64
  const MAX_LISTEN_TOPICS: nat := 32

  datatype TopicError =
    | Empty
    | TooLong
    | InvalidShape
    | ReservedGumpPrefix
    | ListenWithoutPublishRequiresListen
    | TooManyListen
    | DuplicateListen
    | CrossWorkloadSelf

  datatype Result<T> = Ok(value: T) | Err(error: TopicError)

  function SelfFor(workload: WorkloadId): Topic {
    SELF_PREFIX + workload
  }

  predicate Alphanumeric(c: char) {
    'a' <= c <= 'z' || '0' <= c <= '9'
  }

  predicate Allowed(c: char) {
    Alphanumeric(c) || c == '.' || c == '_' || c == '-'
  }

  predicate ValidSegment(seg: string) {
    && 0 < |seg| <= MAX_SEGMENT
    && Alphanumeric(seg[0])
    && Alphanumeric(seg[|seg| - 1])
    && forall i :: 0 <= i < |seg| ==> Allowed(seg[i])
  }

  /** The slash-separated segments; always at least one. */
  function Segments(t: string): (r: seq<string>)
    ensures |r| > 0
  {
    if t == [] then [[]]
    else
      var rest := Segments(t[1..]);
      if t[0] == '/' then [[]] + rest else [[t[0]] + rest[0]] + rest[1..]
  }

  lemma {:induction false} SegmentsOfOne(a: string)
    requires '/' !in a
    ensures Segments(a) == [a]
  {
    if a != [] {
      SegmentsOfOne(a[1..]);
      assert [a[0]] + a[1..] == a;
    }
  }

  lemma {:induction false} SegmentsOfJoined(a: string, b: string)
    requires '/' !in a
    ensures Segments(a + "/" + b) == [a] + Segments(b)
  {
    var t := a + "/" + b;
    if a == [] {
      assert t[1..] == b;
    } else {
      assert t[1..] == a[1..] + "/" + b;
      SegmentsOfJoined(a[1..], b);
      assert [a[0]] + a[1..] == a;
    }
  }

  predicate ContainsPair(t: string) {
    exists i | 0 <= i < |t| - 1 :: t[i] == '/' && t[i + 1] == '/'
  }

  predicate ValidName(t: string) {
    && t != [] && t[0] != '/' && t[|t| - 1] != '/' && !ContainsPair(t)
    && forall seg :: seg in Segments(t) ==> ValidSegment(seg)
  }

  function Stripped(raw: string): string {
    if raw != [] && raw[0] == '#' then raw[1..] else raw
  }

  function ValidateTopicToken(raw: string): Result<()> {
    if raw == SELF then Ok(())
    else if raw == [] then Err(Empty)
    else if |raw| > MAX_TOPIC then Err(TooLong)
    else if RESERVED <= raw then Err(ReservedGumpPrefix)
    else if !ValidName(Stripped(raw)) then Err(InvalidShape)
    else Ok(())
  }

  function CanonicalizeTopic(raw: string, workload: WorkloadId): Result<Topic> {
    var checked := ValidateTopicToken(raw);
    if checked.Err? then Err(checked.error)
    else if raw == SELF then Ok(SelfFor(workload))
    else Ok(Stripped(raw))
  }

  /** Re-validation of a topic another keeper stored. */
  function FromKeeper(raw: string, workload: WorkloadId): Result<Topic> {
    if raw == SelfFor(workload) then Ok(SelfFor(workload))
    else if SELF_PREFIX <= raw then Err(CrossWorkloadSelf)
    else CanonicalizeTopic(raw, workload)
  }

  /**
   * A canonical topic is the workload's own for `@self`, and otherwise the token without a leading
   * `#`, which is then a name of valid segments, never starting with `#` or `@`.
   */
  lemma {:induction false} CanonicalTopic(raw: string, workload: WorkloadId)
    requires CanonicalizeTopic(raw, workload).Ok?
    ensures var t := CanonicalizeTopic(raw, workload).value;
            if raw == "@self" then t == "@self/" + workload
            else
              && (raw == t || raw == "#" + t) && 0 < |t| <= 128 && t[0] != '#' && t[0] != '@'
              && !("gump/" <= raw)
              && forall seg :: seg in Segments(t) ==>
                   0 < |seg| <= 64 && seg[0] !in "._-" && seg[|seg| - 1] !in "._-"
                   && forall i :: 0 <= i < |seg| ==> 'a' <= seg[i] <= 'z' || '0' <= seg[i] <= '9' || seg[i] in "._-"
  {
    if raw != SELF {
      NameStart(Stripped(raw));
      if raw[0] == '#' {
        assert raw == "#" + raw[1..];
      }
    }
  }

  /** A valid name starts with a lowercase letter or digit. */
  lemma {:induction false} NameStart(t: string)
    requires ValidName(t)
    ensures Alphanumeric(t[0])
  {
    var rest := Segments(t[1..]);
    assert Segments(t)[0] == [t[0]] + rest[0];
    assert Segments(t)[0] in Segments(t);
  }

  /**
   * Stored topics re-validate, to themselves, exactly when they are not under the reserved
   * prefix. The prefix is looked for before `#` is stripped, so a reserved topic can be stored.
   */
  lemma {:induction false} StoredTopicRevalidates(raw: string, workload: WorkloadId)
    requires CanonicalizeTopic(raw, workload).Ok?
    ensures var t := CanonicalizeTopic(raw, workload).value;
            && (FromKeeper(t, workload) == Ok(t) <==> !(RESERVED <= t))
            && (FromKeeper(t, workload).Err? <==> RESERVED <= t)
            && (RESERVED <= t <==> "#" + RESERVED <= raw)
  {
    var t := CanonicalizeTopic(raw, workload).value;
    if raw == SELF {
      assert t[0] == '@';
    } else {
      NameStart(t);
      assert t[0] != '@' && t[0] != '#';
      assert SelfFor(workload)[0] == '@' && SELF[0] == '@' && SELF_PREFIX[0] == '@';
      assert Stripped(t) == t;
      if raw[0] == '#' {
        assert raw == "#" + t;
      }
    }
  }

  /** A reserved topic is accepted behind a `#` and then refused by every keeper it reaches. */
  lemma {:induction false} ReservedTopicSlipsThrough(workload: WorkloadId)
    ensures CanonicalizeTopic("#gump/a", workload) == Ok("gump/a")
    ensures FromKeeper("gump/a", workload) == Err(ReservedGumpPrefix)
  {
    hide Segments;
    var t := "gump/a";
    assert t == "gump" + "/" + "a";
    SegmentsOfJoined("gump", "a");
    SegmentsOfOne("a");
    assert Segments(t) == ["gump", "a"];
    assert Stripped("#gump/a") == t;
    assert SelfFor(workload)[0] == '@';
  }

  // ---- Declarations -------------------------------------------------------

  datatype ResolvedTopics = ResolvedTopics(publish: Option<Topic>, listen: seq<Topic>)

  /** `topic` in a declaration: omitted, JSON null, or given. */
  datatype TopicField = Omitted | Null | Given(raw: string)

  function Publish(topic: TopicField, workload: WorkloadId): Result<Option<Topic>> {
    match topic
    case Omitted => Ok(Some(SelfFor(workload)))
    case Null => Ok(None)
    case Given(raw) =>
      var c := CanonicalizeTopic(raw, workload);
      if c.Ok? then Ok(Some(c.value)) else Err(c.error)
  }

  ghost predicate NoDuplicates<T>(s: seq<T>) {
    forall i, j :: 0 <= i < j < |s| ==> s[i] != s[j]
  }

  /** Items in turn, up to the first that is no topic or names one already listed. */
  function Listened(items: seq<string>, workload: WorkloadId): Result<seq<Topic>> {
    if items == [] then Ok([])
    else
      var front := Listened(items[..|items| - 1], workload);
      if front.Err? then front
      else
        var c := CanonicalizeTopic(items[|items| - 1], workload);
        if c.Err? then Err(c.error)
        else if c.value in front.value then Err(DuplicateListen)
        else Ok(front.value + [c.value])
  }

  /** What a declaration resolves to. */
  function Resolved(topic: TopicField, listen: Option<seq<string>>, workload: WorkloadId): Result<ResolvedTopics> {
    var publish := Publish(topic, workload);
    if publish.Err? then Err(publish.error)
    else if listen.None? then
      if publish.value.None? then Err(ListenWithoutPublishRequiresListen)
      else Ok(ResolvedTopics(publish.value, [publish.value.value]))
    else if listen.value == [] && publish.value.None? then Err(ListenWithoutPublishRequiresListen)
    else if |listen.value| > MAX_LISTEN_TOPICS then Err(TooManyListen)
    else
      var out := Listened(listen.value, workload);
      if out.Err? then Err(out.error) else Ok(ResolvedTopics(publish.value, out.value))
  }

  lemma {:induction false} ListenedNext(items: seq<string>, i: nat, workload: WorkloadId)
    requires i < |items|
    ensures Listened(items[..i + 1], workload)
         == var front := Listened(items[..i], workload);
            if front.Err? then front
            else
              var c := CanonicalizeTopic(items[i], workload);
              if c.Err? then Err(c.error)
              else if c.value in front.value then Err(DuplicateListen)
              else Ok(front.value + [c.value])
  {
    hide CanonicalizeTopic;
    assert items[..i + 1][..i] == items[..i];
  }

  lemma {:induction false} ListenedStops(items: seq<string>, i: nat, workload: WorkloadId)
    requires i <= |items| && Listened(items[..i], workload).Err?
    ensures Listened(items, workload) == Listened(items[..i], workload)
    decreases |items| - i
  {
    hide Listened;
    if i == |items| {
      assert items[..i] == items;
    } else {
      ListenedNext(items, i, workload);
      ListenedStops(items, i + 1, workload);
    }
  }

  method ResolveTopics(topic: TopicField, listen: Option<seq<string>>,
                       workload: WorkloadId) returns (r: Result<ResolvedTopics>)
    ensures r == Resolved(topic, listen, workload)
  {
    hide CanonicalizeTopic, Listened;
    var publish := Publish(topic, workload);
    if publish.Err? {
      return Err(publish.error);
    }
    if listen.None? {
      if publish.value.None? {
        return Err(ListenWithoutPublishRequiresListen);
      }
      return Ok(ResolvedTopics(publish.value, [publish.value.value]));
    }
    var items := listen.value;
    if items == [] && publish.value.None? {
      return Err(ListenWithoutPublishRequiresListen);
    }
    if |items| > MAX_LISTEN_TOPICS {
      return Err(TooManyListen);
    }
    var out: seq<Topic> := [];
    NothingListened(items, workload);
    for i := 0 to |items|
      invariant Listened(items[..i], workload) == Ok(out)
    {
      ListenedNext(items, i, workload);
      var c := CanonicalizeTopic(items[i], workload);
      if c.Err? {
        ListenedStops(items, i + 1, workload);
        return Err(c.error);
      }
      if c.value in out {
        ListenedStops(items, i + 1, workload);
        return Err(DuplicateListen);
      }
      out := out + [c.value];
    }
    assert items[..|items|] == items;
    return Ok(ResolvedTopics(publish.value, out));
  }

  lemma {:induction false} NothingListened(items: seq<string>, workload: WorkloadId)
    ensures Listened(items[..0], workload) == Ok([])
  {
  }

  /** Every item is canonical and no two of them name the same topic. */
  ghost predicate ListenAccepted(items: seq<string>, workload: WorkloadId) {
    && (forall i :: 0 <= i < |items| ==> CanonicalizeTopic(items[i], workload).Ok?)
    && forall i, j :: 0 <= i < j < |items| ==> CanonicalizeTopic(items[i], workload) != CanonicalizeTopic(items[j], workload)
  }

  lemma {:induction false} ListenedExactly(items: seq<string>, workload: WorkloadId)
    ensures Listened(items, workload).Ok? <==> ListenAccepted(items, workload)
    ensures Listened(items, workload).Ok? ==>
              var out := Listened(items, workload).value;
              && |out| == |items| && NoDuplicates(out)
              && forall i :: 0 <= i < |items| ==> CanonicalizeTopic(items[i], workload) == Ok(out[i])
  {
    hide CanonicalizeTopic;
    if items != [] {
      var n := |items| - 1;
      var front := items[..n];
      ListenedExactly(front, workload);
      var c := CanonicalizeTopic(items[n], workload);
      assert forall i :: 0 <= i < n ==> front[i] == items[i];
      if Listened(front, workload).Ok? && c.Ok? && c.value in Listened(front, workload).value {
        var out := Listened(front, workload).value;
        var j :| 0 <= j < n && out[j] == c.value;
        assert CanonicalizeTopic(items[j], workload) == CanonicalizeTopic(items[n], workload);
      }
    }
  }

  /**
   * A declaration resolves exactly when its topic is well formed, it publishes or listens, and
   * its at most 32 listened topics are well formed and distinct; then each is listed once, in order.
   */
  lemma {:induction false} ResolvedExactly(topic: TopicField, listen: Option<seq<string>>, workload: WorkloadId)
    ensures Resolved(topic, listen, workload).Ok? <==>
              && Publish(topic, workload).Ok?
              && (topic.Null? ==> listen.Some? && listen.value != [])
              && (listen.Some? ==> |listen.value| <= MAX_LISTEN_TOPICS && ListenAccepted(listen.value, workload))
    ensures Resolved(topic, listen, workload).Ok? ==>
              var r := Resolved(topic, listen, workload).value;
              && (topic.Omitted? ==> r.publish == Some("@self/" + workload))
              && (topic.Null? ==> r.publish == None)
              && (topic.Given? ==> r.publish.Some? && CanonicalizeTopic(topic.raw, workload) == Ok(r.publish.value))
              && (listen.None? ==> r.publish.Some? && r.listen == [r.publish.value])
              && NoDuplicates(r.listen) && |r.listen| <= MAX_LISTEN_TOPICS
              && (listen.Some? ==> |r.listen| == |listen.value|)
              && (listen.Some? ==> forall i :: 0 <= i < |listen.value| ==>
                    CanonicalizeTopic(listen.value[i], workload) == Ok(r.listen[i]))
  {
    hide CanonicalizeTopic, Listened;
    if listen.Some? {
      ListenedExactly(listen.value, workload);
    }
  }
}
