/**
 * The table-driven cases that fix the behaviour of the two derivations,
 * with the fixture builders that produce their inputs.
 */
module ChangesetEventsScenarios {

  import opened Wrappers
  import opened ChangesetEvents

  const Minute: int := 60_000_000_000

  /** The `labelEvent` builder: `Removed` is set exactly for an unlabel kind. */
  function LabelEventAt(name: string, kind: ChangesetEventKind, when: int): (e: ChangesetEvent)
    ensures Touches(e, name) && e.updatedAt == when
    ensures e.metadata.removed <==> kind == GitHubUnlabeled
  {
    ChangesetEvent(kind, when, GitHubLabelEvent(Label(name), kind == GitHubUnlabeled))
  }

  /** The label nodes the `changeset` builder appends, one per name, in order. */
  function LabelNodes(names: seq<string>): (nodes: seq<Label>)
    ensures |nodes| == |names|
    ensures forall i :: 0 <= i < |names| ==> nodes[i].name == names[i]
  {
    if names == [] then [] else [Label(names[0])] + LabelNodes(names[1..])
  }

  /** The `changeset` builder: a changeset whose pull request carries `names`. */
  function ChangesetWithLabels(names: seq<string>, updated: int): (cs: Changeset)
    ensures InitialLabels(Some(cs)) == set n | n in names
    ensures Since(Some(cs)) == updated
  {
    var nodes := LabelNodes(names);
    assert forall n :: n in names ==> exists i :: 0 <= i < |names| && nodes[i].name == n;
    Changeset(updated, PullRequest(nodes))
  }

  /** The `makeBitbucketEvent` builder: an activity carrying `commit`, a merge only for the merged kind. */
  function MakeBitbucketEvent(kind: ChangesetEventKind, commit: string, now: int): (e: ChangesetEvent)
    ensures e.kind == kind && e.updatedAt == now
    ensures PayloadCommit(e.metadata) == Some(commit)
    ensures IsMergeEvent(e) <==> IsMergedKind(kind)
  {
    ChangesetEvent(kind, now, BitbucketServerActivity(Some(BitbucketServerCommit(commit))))
  }

  /** The `makeGitHubMergeEvent` builder: a GitHub merged payload, tagged with the Bitbucket Server merged kind. */
  function MakeGitHubMergeEvent(commit: string, now: int): (e: ChangesetEvent)
    ensures e.kind == BitbucketServerMerged && e.updatedAt == now
    ensures IsMergeEvent(e) && PayloadCommit(e.metadata) == Some(commit)
  {
    ChangesetEvent(BitbucketServerMerged, now, GitHubMergedEvent(GitHubCommit(commit)))
  }

  /** The `makeOtherGitHubEvent` builder: a GitHub comment, never a merge. */
  function MakeOtherGitHubEvent(now: int): (e: ChangesetEvent)
    ensures e.kind == GitHubCommented && e.updatedAt == now
    ensures !IsMergeEvent(e) && PayloadCommit(e.metadata) == None
  {
    ChangesetEvent(GitHubCommented, now, GitHubPullRequestReviewComment)
  }

  /** The label derivation cases; `now` is any time after the zero time. */
  lemma LabelsZeroValues()
    ensures UpdateLabelsSince(None, []) == {}
  {
  }

  lemma LabelsNoEvents()
    ensures UpdateLabelsSince(Some(ChangesetWithLabels(["label1"], ZeroTime)), []) == {"label1"}
  {
    assert InitialLabels(Some(ChangesetWithLabels(["label1"], ZeroTime))) == {"label1"};
  }

  lemma LabelsRemoveEvent(now: int)
    requires now > ZeroTime
    ensures UpdateLabelsSince(Some(ChangesetWithLabels(["label1"], ZeroTime)),
                              [LabelEventAt("label1", GitHubUnlabeled, now)]) == {}
  {
    assert InitialLabels(Some(ChangesetWithLabels(["label1"], ZeroTime))) == {"label1"};
    var remove := LabelEventAt("label1", GitHubUnlabeled, now);
    assert [remove][1..] == [] && [remove][..0] == [];
    assert SortByUpdatedAt(LabelEventsSince([remove], ZeroTime)) == [remove];
    assert FoldLabels({"label1"}, [remove]) == {};
  }

  lemma LabelsAddEvent(now: int)
    requires now > ZeroTime
    ensures UpdateLabelsSince(Some(ChangesetWithLabels(["label1"], ZeroTime)),
                              [LabelEventAt("label2", GitHubLabeled, now)]) == {"label1", "label2"}
  {
    assert InitialLabels(Some(ChangesetWithLabels(["label1"], ZeroTime))) == {"label1"};
    var add := LabelEventAt("label2", GitHubLabeled, now);
    assert [add][1..] == [] && [add][..0] == [];
    assert SortByUpdatedAt(LabelEventsSince([add], ZeroTime)) == [add];
    assert FoldLabels({"label1"}, [add]) == {"label1", "label2"};
  }

  lemma LabelsOldAddEvent(now: int)
    ensures UpdateLabelsSince(Some(ChangesetWithLabels(["label1"], now + 5 * Minute)),
                              [LabelEventAt("label2", GitHubLabeled, now)]) == {"label1"}
  {
    assert InitialLabels(Some(ChangesetWithLabels(["label1"], now + 5 * Minute))) == {"label1"};
    var add := LabelEventAt("label2", GitHubLabeled, now);
    assert [add][1..] == [];
    assert LabelEventsSince([add], now + 5 * Minute) == [];
  }

  /** The merge commit cases; `nil` and empty event lists are both `[]`. */
  lemma FindMergeCommitIDTable(now: int)
    // nil events, no events
    ensures FindMergeCommitID([]) == ""
    // one bitbucket merge event
    ensures FindMergeCommitID([MakeBitbucketEvent(BitbucketServerMerged, "deadbeef", now)]) == "deadbeef"
    // multiple bitbucket events with merge
    ensures FindMergeCommitID([MakeBitbucketEvent(BitbucketServerApproved, "", now),
                               MakeBitbucketEvent(BitbucketServerMerged, "deadbeef", now)]) == "deadbeef"
    // multiple bitbucket events no merge
    ensures FindMergeCommitID([MakeBitbucketEvent(BitbucketServerApproved, "", now),
                               MakeBitbucketEvent(BitbucketServerCommented, "", now)]) == ""
    // one github merge event
    ensures FindMergeCommitID([MakeGitHubMergeEvent("deadbeef", now)]) == "deadbeef"
    // multiple github events with merge
    ensures FindMergeCommitID([MakeOtherGitHubEvent(now), MakeGitHubMergeEvent("deadbeef", now)]) == "deadbeef"
    // multiple github events no merge
    ensures FindMergeCommitID([MakeOtherGitHubEvent(now), MakeOtherGitHubEvent(now)]) == ""
  {
  }

}
