/**
 * The two derivations on a changeset's events that the campaigns package
 * performs: `ChangesetEvents.UpdateLabelsSince` (the current label set of a tracked
 * pull request) and `ChangesetEvents.FindMergeCommitID` (the commit a
 * pull request was merged as).
 *
 * Timestamps are integers (nanoseconds); the zero `time.Time` is 0.
 */
module ChangesetEvents {

  import opened Wrappers

  /** The closed set of event kinds the two derivations distinguish. */
  datatype ChangesetEventKind =
    | GitHubCommented
    | GitHubLabeled
    | GitHubUnlabeled
    | GitHubMerged
    | BitbucketServerApproved
    | BitbucketServerCommented
    | BitbucketServerMerged

  datatype Label = Label(name: string)

  datatype GitHubCommit = GitHubCommit(oid: string)

  datatype BitbucketServerCommit = BitbucketServerCommit(id: string)

  /**
   * The host-specific payload of an event, as a tagged variant. Only the
   * fields the derivations read are kept: the label name and `Removed` flag
   * of a GitHub label event, the commit of a GitHub merged event, and the
   * (possibly nil) commit of a Bitbucket Server activity.
   */
  datatype EventMetadata =
    | GitHubLabelEvent(eventLabel: Label, removed: bool)
    | GitHubMergedEvent(commit: GitHubCommit)
    | GitHubPullRequestReviewComment
    | BitbucketServerActivity(activityCommit: Option<BitbucketServerCommit>)

  datatype ChangesetEvent = ChangesetEvent(
    kind: ChangesetEventKind,
    updatedAt: int,
    metadata: EventMetadata)

  /** The GitHub pull request stored as a changeset's metadata: its label nodes. */
  datatype PullRequest = PullRequest(labels: seq<Label>)

  /** The snapshot of a tracked pull request as last synced from its code host. */
  datatype Changeset = Changeset(updatedAt: int, metadata: PullRequest)

  const ZeroTime: int := 0

  /** The zero value of a changeset: zero time and no labels. */
  const ZeroChangeset: Changeset := Changeset(ZeroTime, PullRequest([]))

  /** A nil changeset is read as the zero-value changeset. */
  function Snapshot(cs: Option<Changeset>): Changeset {
    if cs.Some? then cs.value else ZeroChangeset
  }

  /** The cutoff: events at or before it are already reflected in the snapshot. */
  function Since(cs: Option<Changeset>): int {
    Snapshot(cs).updatedAt
  }

  /** The names of the labels stored in the changeset's pull-request metadata. */
  function InitialLabels(cs: Option<Changeset>): set<string> {
    set l | l in Snapshot(cs).metadata.labels :: l.name
  }

  // ---------------------------------------------------------------------
  // Label derivation
  // ---------------------------------------------------------------------

  /** Whether `e` is a label or unlabel event about label `name`. */
  predicate Touches(e: ChangesetEvent, name: string) {
    e.metadata.GitHubLabelEvent? && e.metadata.eventLabel.name == name
  }

  /** Whether `e` is a label or unlabel event strictly newer than `since`. */
  predicate Qualifies(e: ChangesetEvent, since: int) {
    e.metadata.GitHubLabelEvent? && e.updatedAt > since
  }

  /** The label and unlabel events of `events` newer than `since`, in input order. */
  function LabelEventsSince(events: seq<ChangesetEvent>, since: int): (r: seq<ChangesetEvent>)
    ensures forall e :: e in r <==> e in events && Qualifies(e, since)
  {
    if events == [] then []
    else (if Qualifies(events[0], since) then [events[0]] else []) + LabelEventsSince(events[1..], since)
  }

  /** Events ordered by `updatedAt`, ascending: each is no newer than the next. */
  predicate SortedByUpdatedAt(t: seq<ChangesetEvent>) {
    |t| <= 1 || (t[0].updatedAt <= t[1].updatedAt && SortedByUpdatedAt(t[1..]))
  }

  /** In a sorted sequence, an earlier event is never newer than a later one. */
  lemma {:induction false} SortedPairwise(t: seq<ChangesetEvent>, i: nat, j: nat)
    requires SortedByUpdatedAt(t) && i <= j < |t|
    ensures t[i].updatedAt <= t[j].updatedAt
  {
    if i < j {
      if i == 0 {
        SortedPairwise(t[1..], 0, j - 1);
      } else {
        SortedPairwise(t[1..], i - 1, j - 1);
      }
    }
  }

  /** The first event of a sorted sequence is no newer than any of its events. */
  lemma SortedHeadIsOldest(t: seq<ChangesetEvent>)
    requires SortedByUpdatedAt(t) && t != []
    ensures forall x :: x in t ==> t[0].updatedAt <= x.updatedAt
  {
    forall x | x in t ensures t[0].updatedAt <= x.updatedAt {
      var j :| 0 <= j < |t| && t[j] == x;
      SortedPairwise(t, 0, j);
    }
  }

  /**
   * Inserts `e` into sorted `t` before the first event not older than it,
   * so that `e` goes ahead of events with the same `updatedAt`.
   */
  function InsertByUpdatedAt(e: ChangesetEvent, t: seq<ChangesetEvent>): (r: seq<ChangesetEvent>)
    requires SortedByUpdatedAt(t)
    ensures SortedByUpdatedAt(r)
    ensures multiset(r) == multiset(t) + multiset{e}
  {
    if t == [] || e.updatedAt <= t[0].updatedAt then
      assert ([e] + t)[1..] == t;
      [e] + t
    else
      var rest := InsertByUpdatedAt(e, t[1..]);
      assert t == [t[0]] + t[1..];
      SortedHeadIsOldest(t);
      PermutationKeepsLowerBound(t[0].updatedAt, rest, t[1..] + [e]);
      assert rest[0] in rest;
      assert ([t[0]] + rest)[1..] == rest;
      [t[0]] + rest
  }

  /** A permutation of events no older than `bound` holds only events no older than `bound`. */
  lemma PermutationKeepsLowerBound(bound: int, r: seq<ChangesetEvent>, t: seq<ChangesetEvent>)
    requires multiset(r) == multiset(t)
    requires forall x :: x in t ==> bound <= x.updatedAt
    ensures forall x :: x in r ==> bound <= x.updatedAt
  {
    forall x | x in r ensures bound <= x.updatedAt {
      assert x in multiset(t);
    }
  }

  /** The working order of the label fold: the events sorted by `updatedAt`. */
  function SortByUpdatedAt(s: seq<ChangesetEvent>): (r: seq<ChangesetEvent>)
    ensures SortedByUpdatedAt(r)
    ensures multiset(r) == multiset(s)
  {
    if s == [] then []
    else
      assert s == [s[0]] + s[1..];
      InsertByUpdatedAt(s[0], SortByUpdatedAt(s[1..]))
  }

  /** The events of `s` dated exactly `time`, in the order of `s`. */
  function AtTime(s: seq<ChangesetEvent>, time: int): seq<ChangesetEvent> {
    if s == [] then []
    else (if s[0].updatedAt == time then [s[0]] else []) + AtTime(s[1..], time)
  }

  /** The events dated `time` are exactly the events of `s` with that date. */
  lemma {:induction false} AtTimeMembers(s: seq<ChangesetEvent>, time: int)
    ensures forall x :: x in AtTime(s, time) <==> x in s && x.updatedAt == time
  {
    if s != [] {
      AtTimeMembers(s[1..], time);
      assert s == [s[0]] + s[1..];
    }
  }

  /** Filtering by time takes the first event or not, then filters the rest. */
  lemma AtTimeCons(x: ChangesetEvent, s: seq<ChangesetEvent>, time: int)
    ensures AtTime([x] + s, time) == (if x.updatedAt == time then [x] else []) + AtTime(s, time)
  {
    assert ([x] + s)[1..] == s;
  }

  /** Inserting behind an older head keeps the head in front. */
  lemma InsertBehindHead(e: ChangesetEvent, t: seq<ChangesetEvent>)
    requires SortedByUpdatedAt(t) && t != [] && t[0].updatedAt < e.updatedAt
    ensures SortedByUpdatedAt(t[1..])
    ensures InsertByUpdatedAt(e, t) == [t[0]] + InsertByUpdatedAt(e, t[1..])
  {
  }

  lemma AtTimeKeep(x: ChangesetEvent, s: seq<ChangesetEvent>)
    ensures AtTime([x] + s, x.updatedAt) == [x] + AtTime(s, x.updatedAt)
  {
    assert ([x] + s)[1..] == s;
  }

  lemma AtTimeSkip(x: ChangesetEvent, s: seq<ChangesetEvent>, time: int)
    requires x.updatedAt != time
    ensures AtTime([x] + s, time) == AtTime(s, time)
  {
    assert ([x] + s)[1..] == s;
    assert [] + AtTime(s, time) == AtTime(s, time);
  }

  lemma {:induction false} InsertByUpdatedAtStable(e: ChangesetEvent, t: seq<ChangesetEvent>, time: int)
    requires SortedByUpdatedAt(t)
    ensures AtTime(InsertByUpdatedAt(e, t), time) == (if e.updatedAt == time then [e] else []) + AtTime(t, time)
  {
    if t == [] || e.updatedAt <= t[0].updatedAt {
      AtTimeCons(e, t, time);
    } else {
      InsertBehindHead(e, t);
      var h, rest := t[0], InsertByUpdatedAt(e, t[1..]);
      assert t == [h] + t[1..];
      InsertByUpdatedAtStable(e, t[1..], time);
      if e.updatedAt == time {
        AtTimeSkip(h, rest, time);
        AtTimeSkip(h, t[1..], time);
      } else {
        assert [] + AtTime(t, time) == AtTime(t, time);
        assert AtTime(rest, time) == AtTime(t[1..], time) by {
          assert [] + AtTime(t[1..], time) == AtTime(t[1..], time);
        }
        if h.updatedAt == time {
          AtTimeKeep(h, rest);
          AtTimeKeep(h, t[1..]);
        } else {
          AtTimeSkip(h, rest, time);
          AtTimeSkip(h, t[1..], time);
        }
      }
    }
  }

  /**
   * The sort is stable: for every timestamp, the events dated at it keep
   * their input order.
   */
  lemma {:induction false} SortByUpdatedAtStable(s: seq<ChangesetEvent>, time: int)
    ensures AtTime(SortByUpdatedAt(s), time) == AtTime(s, time)
  {
    if s != [] {
      SortByUpdatedAtStable(s[1..], time);
      InsertByUpdatedAtStable(s[0], SortByUpdatedAt(s[1..]), time);
    }
  }

  /** One fold step: a label event adds its name, an unlabel event removes it. */
  function ApplyLabelEvent(labels: set<string>, e: ChangesetEvent): (r: set<string>)
    ensures e.metadata.GitHubLabelEvent? ==> (e.metadata.eventLabel.name in r <==> !e.metadata.removed)
    ensures forall n :: !Touches(e, n) ==> (n in r <==> n in labels)
  {
    match e.metadata
    case GitHubLabelEvent(l, removed) =>
      if removed then labels - {l.name} else labels + {l.name}
    case _ => labels
  }

  /** Folds `t` over `labels`, first event first. */
  function FoldLabels(labels: set<string>, t: seq<ChangesetEvent>): (r: set<string>)
    ensures forall n :: n in r ==> n in labels || exists j :: 0 <= j < |t| && Touches(t[j], n) && !t[j].metadata.removed
  {
    if t == [] then labels
    else
      var p := t[..|t| - 1];
      assert forall j :: 0 <= j < |p| ==> p[j] == t[j];
      ApplyLabelEvent(FoldLabels(labels, p), t[|t| - 1])
  }

  /** A fold draws its added labels only from label events of `events` newer than `since`. */
  lemma FoldOrigin(labels: set<string>, t: seq<ChangesetEvent>, events: seq<ChangesetEvent>, since: int)
    requires forall x :: x in t ==> x in events && Qualifies(x, since)
    ensures forall n :: n in FoldLabels(labels, t) ==>
              n in labels || exists e :: e in events && Qualifies(e, since) && Touches(e, n) && !e.metadata.removed
  {
    forall n | n in FoldLabels(labels, t) && n !in labels
      ensures exists e :: e in events && Qualifies(e, since) && Touches(e, n) && !e.metadata.removed
    {
      var j :| 0 <= j < |t| && Touches(t[j], n) && !t[j].metadata.removed;
      assert t[j] in t;
    }
  }

  /** A permutation has the same members. */
  lemma PermutationMembers(r: seq<ChangesetEvent>, t: seq<ChangesetEvent>)
    requires multiset(r) == multiset(t)
    ensures forall x :: x in r <==> x in t
  {
    forall x ensures x in r <==> x in t {
      assert x in r <==> x in multiset(r);
    }
  }

  /**
   * `ChangesetEvents.UpdateLabelsSince`: the labels of the changeset's
   * pull-request metadata, updated by the label and unlabel events newer
   * than the changeset, applied in `updatedAt` order.
   */
  function UpdateLabelsSince(cs: Option<Changeset>, events: seq<ChangesetEvent>): (r: set<string>)
    ensures forall n :: n in r ==>
              n in InitialLabels(cs) || exists e :: e in events && Qualifies(e, Since(cs)) && Touches(e, n) && !e.metadata.removed
    ensures (forall e :: e in events ==> !Qualifies(e, Since(cs))) ==> r == InitialLabels(cs)
  {
    var f := LabelEventsSince(events, Since(cs));
    var t := SortByUpdatedAt(f);
    assert f != [] ==> f[0] in f;
    PermutationMembers(t, f);
    FoldOrigin(InitialLabels(cs), t, events, Since(cs));
    FoldLabels(InitialLabels(cs), t)
  }

  /** Within a fold, the last event touching `name` decides its membership. */
  lemma {:induction false} FoldLastTouchDecides(labels: set<string>, t: seq<ChangesetEvent>, k: nat, name: string)
    requires k < |t| && Touches(t[k], name)
    requires forall j :: k < j < |t| && Touches(t[j], name) ==> t[j].metadata.removed == t[k].metadata.removed
    ensures name in FoldLabels(labels, t) <==> !t[k].metadata.removed
  {
    var m := |t| - 1;
    if m != k && !Touches(t[m], name) {
      var p := t[..m];
      assert forall j :: k < j < |p| ==> p[j] == t[j];
      FoldLastTouchDecides(labels, p, k, name);
    }
  }

  /** A fold in which no event touches `name` leaves its membership alone. */
  lemma {:induction false} FoldUntouched(labels: set<string>, t: seq<ChangesetEvent>, name: string)
    requires forall j :: 0 <= j < |t| ==> !Touches(t[j], name)
    ensures name in FoldLabels(labels, t) <==> name in labels
  {
    if t != [] {
      var p := t[..|t| - 1];
      assert forall j :: 0 <= j < |p| ==> p[j] == t[j];
      FoldUntouched(labels, p, name);
    }
  }

  /**
   * The newest qualifying event about a label decides it, whatever the order
   * of the input collection: if every qualifying event about `name` that is
   * at least as new as `e` agrees with `e`, then `name` is in the result
   * exactly when `e` is a label (not an unlabel) event.
   */
  lemma LatestLabelEventWins(cs: Option<Changeset>, events: seq<ChangesetEvent>, e: ChangesetEvent, name: string)
    requires e in events && Qualifies(e, Since(cs)) && Touches(e, name)
    requires forall e' :: e' in events && Qualifies(e', Since(cs)) && Touches(e', name) && e'.updatedAt >= e.updatedAt
                 ==> e'.metadata.removed == e.metadata.removed
    ensures name in UpdateLabelsSince(cs, events) <==> !e.metadata.removed
  {
    var f := LabelEventsSince(events, Since(cs));
    var t := SortByUpdatedAt(f);
    assert e in multiset(t);
    var k :| 0 <= k < |t| && t[k] == e;
    forall j | k < j < |t| && Touches(t[j], name)
      ensures t[j].metadata.removed == t[k].metadata.removed
    {
      assert t[j] in multiset(f);
      SortedPairwise(t, k, j);
    }
    FoldLastTouchDecides(InitialLabels(cs), t, k, name);
  }

  /** The last event of `s` about label `name`, if any. */
  function LastTouch(s: seq<ChangesetEvent>, name: string): (r: Option<ChangesetEvent>)
    ensures r.None? <==> forall j :: 0 <= j < |s| ==> !Touches(s[j], name)
    ensures r.Some? ==> Touches(r.value, name)
    ensures r.Some? ==> exists k :: 0 <= k < |s| && s[k] == r.value && forall j :: k < j < |s| ==> !Touches(s[j], name)
  {
    if s == [] then None
    else
      var rest := LastTouch(s[1..], name);
      assert forall j :: 1 <= j < |s| ==> s[j] == s[1..][j - 1];
      if rest.Some? then rest
      else if Touches(s[0], name) then Some(s[0])
      else None
  }

  lemma LastTouchCons(h: ChangesetEvent, s: seq<ChangesetEvent>, name: string)
    ensures LastTouch([h] + s, name) ==
              if LastTouch(s, name).Some? then LastTouch(s, name)
              else if Touches(h, name) then Some(h) else None
  {
    assert ([h] + s)[1..] == s;
  }

  /** The last event about `name` in a fold decides its membership. */
  lemma {:induction false} FoldByLastTouch(labels: set<string>, t: seq<ChangesetEvent>, name: string)
    ensures name in FoldLabels(labels, t) <==>
              if LastTouch(t, name).Some? then !LastTouch(t, name).value.metadata.removed else name in labels
  {
    var r := LastTouch(t, name);
    if r.Some? {
      var k :| 0 <= k < |t| && t[k] == r.value && forall j :: k < j < |t| ==> !Touches(t[j], name);
      FoldLastTouchDecides(labels, t, k, name);
    } else {
      FoldUntouched(labels, t, name);
    }
  }

  /** The last event about `name` is also the last one among the events dated at its time. */
  lemma {:induction false} LastTouchAtItsTime(t: seq<ChangesetEvent>, name: string)
    requires LastTouch(t, name).Some?
    ensures LastTouch(AtTime(t, LastTouch(t, name).value.updatedAt), name) == LastTouch(t, name)
  {
    var x := LastTouch(t, name);
    var time := x.value.updatedAt;
    var h, rest := t[0], t[1..];
    assert t == [h] + rest;
    LastTouchCons(h, rest, name);
    var head := if h.updatedAt == time then [h] else [];
    var tail := AtTime(rest, time);
    assert AtTime(t, time) == head + tail;
    if LastTouch(rest, name).Some? {
      assert LastTouch(rest, name) == x;
      LastTouchAtItsTime(rest, name);
      assert LastTouch(tail, name) == x;
      if head != [] {
        LastTouchCons(h, tail, name);
      } else {
        assert head + tail == tail;
      }
    } else {
      assert x == Some(h);
      assert forall j :: 0 <= j < |tail| ==> !Touches(tail[j], name) by {
        AtTimeMembers(rest, time);
        forall j | 0 <= j < |tail| ensures !Touches(tail[j], name) {
          assert tail[j] in rest;
        }
      }
      LastTouchCons(h, tail, name);
    }
  }

  /** Filtering by time and keeping the qualifying label events commute. */
  lemma {:induction false} AtTimeOfLabelEventsSince(s: seq<ChangesetEvent>, since: int, time: int)
    ensures AtTime(LabelEventsSince(s, since), time) == LabelEventsSince(AtTime(s, time), since)
  {
    if s != [] {
      var h, rest := s[0], s[1..];
      var p := if h.updatedAt == time then [h] else [];
      var both := if Qualifies(h, since) && h.updatedAt == time then [h] else [];
      assert LabelEventsSince(p, since) == both by {
        if p != [] { assert p[1..] == []; }
      }
      var q := if Qualifies(h, since) then [h] else [];
      calc {
        AtTime(LabelEventsSince(s, since), time);
        AtTime(q + LabelEventsSince(rest, since), time);
        { if Qualifies(h, since) { AtTimeCons(h, LabelEventsSince(rest, since), time); }
          else { assert q + LabelEventsSince(rest, since) == LabelEventsSince(rest, since); } }
        both + AtTime(LabelEventsSince(rest, since), time);
        { AtTimeOfLabelEventsSince(rest, since, time); }
        both + LabelEventsSince(AtTime(rest, time), since);
        { LabelEventsSinceAppend(p, AtTime(rest, time), since); }
        LabelEventsSince(p + AtTime(rest, time), since);
      }
    }
  }

  /** With no qualifying event about `name` dated `time`, the events kept at `time` do not touch it. */
  lemma NoTouchAtTime(s: seq<ChangesetEvent>, since: int, time: int, name: string)
    requires forall j :: 0 <= j < |s| && Qualifies(s[j], since) && Touches(s[j], name) ==> s[j].updatedAt < time
    ensures LastTouch(LabelEventsSince(AtTime(s, time), since), name) == None
  {
    var tail := LabelEventsSince(AtTime(s, time), since);
    AtTimeMembers(s, time);
    forall j | 0 <= j < |tail| ensures !Touches(tail[j], name) {
      assert tail[j] in AtTime(s, time);
      var k :| 0 <= k < |s| && s[k] == tail[j];
    }
  }

  /** The events kept at `time` from `[x] + s`: `x` if it qualifies and is dated `time`, then those of `s`. */
  lemma KeptAtTimeCons(x: ChangesetEvent, s: seq<ChangesetEvent>, since: int, time: int)
    ensures LabelEventsSince(AtTime([x] + s, time), since) ==
              (if Qualifies(x, since) && x.updatedAt == time then [x] else []) + LabelEventsSince(AtTime(s, time), since)
  {
    var p := if x.updatedAt == time then [x] else [];
    AtTimeCons(x, s, time);
    LabelEventsSinceAppend(p, AtTime(s, time), since);
    if p != [] { assert p[1..] == []; }
  }

  /**
   * With `events[i]` among the newest qualifying events about `name` and
   * no later qualifying event about `name` at its time, `events[i]` is the
   * last such event at that time.
   */
  lemma {:induction false} LastTouchOfNewest(events: seq<ChangesetEvent>, since: int, i: nat, name: string)
    requires i < |events| && Qualifies(events[i], since) && Touches(events[i], name)
    requires forall j :: i < j < |events| && Qualifies(events[j], since) && Touches(events[j], name)
               ==> events[j].updatedAt < events[i].updatedAt
    ensures LastTouch(LabelEventsSince(AtTime(events, events[i].updatedAt), since), name) == Some(events[i])
  {
    var time := events[i].updatedAt;
    var h, rest := events[0], events[1..];
    assert events == [h] + rest;
    var tail := LabelEventsSince(AtTime(rest, time), since);
    KeptAtTimeCons(h, rest, since, time);
    if i == 0 {
      forall j | 0 <= j < |rest| && Qualifies(rest[j], since) && Touches(rest[j], name)
        ensures rest[j].updatedAt < time
      {
        assert rest[j] == events[j + 1];
      }
      NoTouchAtTime(rest, since, time, name);
      LastTouchCons(h, tail, name);
    } else {
      forall j | i - 1 < j < |rest| && Qualifies(rest[j], since) && Touches(rest[j], name)
        ensures rest[j].updatedAt < rest[i - 1].updatedAt
      {
        assert rest[j] == events[j + 1];
      }
      LastTouchOfNewest(rest, since, i - 1, name);
      if Qualifies(h, since) && h.updatedAt == time {
        LastTouchCons(h, tail, name);
      } else {
        assert [] + tail == tail;
      }
    }
  }

  /**
   * Ties at the newest time are decided by input order: if `events[i]` is a
   * qualifying event about `name`, no qualifying event about `name` is newer,
   * and every later one in the input is strictly older, then `events[i]`
   * decides whether `name` is in the result.
   */
  lemma NewestTouchDecides(cs: Option<Changeset>, events: seq<ChangesetEvent>, i: nat, name: string)
    requires i < |events| && Qualifies(events[i], Since(cs)) && Touches(events[i], name)
    requires forall e :: e in events && Qualifies(e, Since(cs)) && Touches(e, name) ==> e.updatedAt <= events[i].updatedAt
    requires forall j :: i < j < |events| && Qualifies(events[j], Since(cs)) && Touches(events[j], name)
               ==> events[j].updatedAt < events[i].updatedAt
    ensures name in UpdateLabelsSince(cs, events) <==> !events[i].metadata.removed
  {
    var since, time := Since(cs), events[i].updatedAt;
    var f := LabelEventsSince(events, since);
    var t := SortByUpdatedAt(f);
    PermutationMembers(t, f);
    assert events[i] in t;
    var m :| 0 <= m < |t| && t[m] == events[i];
    var x := LastTouch(t, name).value;
    var k :| 0 <= k < |t| && t[k] == x && forall j :: k < j < |t| ==> !Touches(t[j], name);
    SortedPairwise(t, m, k);
    assert x.updatedAt == time;
    LastTouchAtItsTime(t, name);
    SortByUpdatedAtStable(f, time);
    AtTimeOfLabelEventsSince(events, since, time);
    LastTouchOfNewest(events, since, i, name);
    FoldByLastTouch(InitialLabels(cs), t, name);
  }

  /**
   * A label that no qualifying event touches is in the result exactly when
   * it is among the changeset's own labels.
   */
  lemma UntouchedLabelKept(cs: Option<Changeset>, events: seq<ChangesetEvent>, name: string)
    requires forall e :: e in events && Qualifies(e, Since(cs)) ==> !Touches(e, name)
    ensures name in UpdateLabelsSince(cs, events) <==> name in InitialLabels(cs)
  {
    var f := LabelEventsSince(events, Since(cs));
    var t := SortByUpdatedAt(f);
    forall j | 0 <= j < |t| ensures !Touches(t[j], name) {
      assert t[j] in multiset(f);
    }
    FoldUntouched(InitialLabels(cs), t, name);
  }

  lemma {:induction false} LabelEventsSinceAppend(a: seq<ChangesetEvent>, b: seq<ChangesetEvent>, since: int)
    ensures LabelEventsSince(a + b, since) == LabelEventsSince(a, since) + LabelEventsSince(b, since)
  {
    if a != [] {
      assert (a + b)[0] == a[0];
      assert (a + b)[1..] == a[1..] + b;
      LabelEventsSinceAppend(a[1..], b, since);
    } else {
      assert a + b == b;
    }
  }

  /**
   * Cutoff invariant: removing an event that does not qualify (it is at or
   * before the changeset's `updatedAt`, or not a label event) does not
   * change the derived labels.
   */
  lemma {:induction false} NonQualifyingEventIgnored(cs: Option<Changeset>, a: seq<ChangesetEvent>, e: ChangesetEvent, b: seq<ChangesetEvent>)
    requires !Qualifies(e, Since(cs))
    ensures UpdateLabelsSince(cs, a + [e] + b) == UpdateLabelsSince(cs, a + b)
  {
    var since := Since(cs);
    assert [e][1..] == [];
    assert LabelEventsSince([e], since) == [];
    LabelEventsSinceAppend(a, [e], since);
    assert LabelEventsSince(a + [e], since) == LabelEventsSince(a, since);
    LabelEventsSinceAppend(a + [e], b, since);
    LabelEventsSinceAppend(a, b, since);
    assert LabelEventsSince(a + [e] + b, since) == LabelEventsSince(a + b, since);
  }

  /**
   * Idempotence across repeated runs: once the derived labels are
   * stored in a snapshot whose `updatedAt` is not older than any event,
   * deriving again from the same events gives the same labels.
   */
  lemma ReconcileIdempotent(cs: Option<Changeset>, events: seq<ChangesetEvent>, next: Changeset)
    requires forall e :: e in events ==> e.updatedAt <= next.updatedAt
    requires (set l | l in next.metadata.labels :: l.name) == UpdateLabelsSince(cs, events)
    ensures UpdateLabelsSince(Some(next), events) == UpdateLabelsSince(cs, events)
  {
  }

  // ---------------------------------------------------------------------
  // Merge commit derivation
  // ---------------------------------------------------------------------

  predicate IsMergedKind(k: ChangesetEventKind) {
    k == GitHubMerged || k == BitbucketServerMerged
  }

  /**
   * The commit a payload carries, by payload variant: the OID of a GitHub
   * merged event's commit, or the ID of a Bitbucket Server activity's
   * commit when that pointer is not nil.
   */
  function PayloadCommit(m: EventMetadata): (r: Option<string>)
    ensures r.Some? <==> m.GitHubMergedEvent? || (m.BitbucketServerActivity? && m.activityCommit.Some?)
    ensures m.GitHubMergedEvent? ==> r == Some(m.commit.oid)
    ensures m.BitbucketServerActivity? && m.activityCommit.Some? ==> r == Some(m.activityCommit.value.id)
  {
    match m
    case GitHubMergedEvent(c) => Some(c.oid)
    case BitbucketServerActivity(Some(c)) => Some(c.id)
    case _ => None
  }

  /** A merged-kind event whose payload carries a commit. */
  predicate IsMergeEvent(e: ChangesetEvent)
    ensures IsMergeEvent(e) ==> e.kind == GitHubMerged || e.kind == BitbucketServerMerged
    ensures e.metadata.GitHubLabelEvent? || e.metadata.GitHubPullRequestReviewComment? ==> !IsMergeEvent(e)
    ensures IsMergedKind(e.kind) && e.metadata.GitHubMergedEvent? ==> IsMergeEvent(e)
  {
    IsMergedKind(e.kind) && PayloadCommit(e.metadata).Some?
  }

  /**
   * `ChangesetEvents.FindMergeCommitID`: the commit of the first merge event
   * in iteration order, or "" when there is none.
   */
  function FindMergeCommitID(events: seq<ChangesetEvent>): (r: string)
    ensures (forall i :: 0 <= i < |events| ==> !IsMergeEvent(events[i])) ==> r == ""
    ensures forall i :: 0 <= i < |events| && IsMergeEvent(events[i]) && (forall j :: 0 <= j < i ==> !IsMergeEvent(events[j]))
                ==> r == PayloadCommit(events[i].metadata).value
  {
    if events == [] then ""
    else if IsMergeEvent(events[0]) then PayloadCommit(events[0].metadata).value
    else
      var r := FindMergeCommitID(events[1..]);
      assert forall i :: 1 <= i < |events| ==> events[i] == events[1..][i - 1];
      r
  }

  /**
   * Events after the first merge event do not matter; with no merge event
   * in front, the result is that of the rest.
   */
  lemma {:induction false} FindMergeCommitIDAppend(a: seq<ChangesetEvent>, b: seq<ChangesetEvent>)
    ensures (exists e :: e in a && IsMergeEvent(e)) ==> FindMergeCommitID(a + b) == FindMergeCommitID(a)
    ensures (forall e :: e in a ==> !IsMergeEvent(e)) ==> FindMergeCommitID(a + b) == FindMergeCommitID(b)
  {
    if a != [] {
      assert (a + b)[1..] == a[1..] + b;
      assert forall e :: e in a[1..] ==> e in a;
      FindMergeCommitIDAppend(a[1..], b);
    } else {
      assert a + b == b;
    }
  }

}
