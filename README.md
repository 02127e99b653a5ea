# Changeset event derivations and CSRF token extraction

A Dafny model of two small pieces of Sourcegraph.

The first piece is the campaigns package's derivations on changeset events.
A changeset is a tracked pull request. Its snapshot holds the labels last seen
on the code host and the time it was last updated. Two derivations run over the
events collected for it:

- `ChangesetEvents.UpdateLabelsSince` starts
  from the labels in the changeset's pull-request metadata. It keeps the label
  and unlabel events strictly newer than the changeset's `UpdatedAt`. It orders
  them by `updatedAt` and folds them: a label event adds the name, an unlabel
  event (`Removed` set) removes it.
- `ChangesetEvents.FindMergeCommitID` returns
  the commit of the first merge event, or `""`. A merge event is an event of a
  merged kind (GitHub or Bitbucket Server) whose payload carries a commit. The
  commit field is chosen by payload variant: `Commit.OID` of a GitHub merged
  event, or `Commit.ID` of a Bitbucket Server activity. This matters because the
  GitHub merge fixture is tagged with the Bitbucket Server merged kind.

The implementation file `enterprise/internal/campaigns/changeset_events.go` is
not part of this model. The behaviour is fixed by the test tables in
`changeset_events_test.go`, restated in `changeset_events_scenarios.dfy`: each
row of the label table is its own lemma, and the eight rows of the merge table
are the seven ensures clauses of `FindMergeCommitIDTable` (a nil and an empty
event slice are both `[]`). Two points are modelling choices that the
tests do not distinguish: the qualifying events are folded in `updatedAt` order
(a stable sort), and the cutoff is strict.

The second piece is `extractCSRFToken` of the end-to-end test client
(`E2eUtil.ExtractCSRFToken`). It returns the text between the first
`X-Csrf-Token":"` of an HTML body and the first `","` after it, or `""`.
`strings.Index` is modelled as `E2eUtil.Index`.

Files:

- `wrappers.dfy`: `Option`, used for nil pointers.
- `changeset_events.dfy`: the event model, both derivations and their lemmas.
- `changeset_events_scenarios.dfy`: the fixture builders and the test tables.
- `csrf_token.dfy`: the token scan and its lemmas.

Timestamps are integers (nanoseconds); the zero `time.Time` is 0. A nil
changeset is `None` and reads as the zero-value changeset. A nil event slice and
an empty one are both `[]`. The derived labels are a set of names. The tests
sort both label lists by name and compare them element by element, treating nil
as empty; on inputs without repeated names that is the same as comparing sets.

## Model

| member | source | states |
|---|---|---|
| `ChangesetEvents.LabelEventsSince` | enterprise/internal/campaigns/changeset_events_test.go:83-95 | an event is kept exactly when it is in the input, carries a label payload and is strictly newer than the cutoff |
| `ChangesetEvents.UpdateLabelsSince` | enterprise/internal/campaigns/changeset_events_test.go:95 | every derived label is one of the changeset's own or is added by a qualifying label event; with no qualifying event the result is the changeset's own labels; its full behaviour is stated by `LatestLabelEventWins`, `NewestTouchDecides`, `UntouchedLabelKept` and `NonQualifyingEventIgnored` |
| `ChangesetEvents.SortByUpdatedAt` | enterprise/internal/campaigns/changeset_events_test.go:95 | the fold's working order is sorted by `updatedAt` and is a permutation of the input |
| `ChangesetEvents.SortByUpdatedAtStable` | enterprise/internal/campaigns/changeset_events_test.go:95 | the sort is stable: for every timestamp, the events dated at it keep their input order |
| `ChangesetEvents.ApplyLabelEvent` | enterprise/internal/campaigns/changeset_events_test.go:67-82 | after a label event its name is present exactly when `Removed` is unset; every other name keeps its membership; other payloads change nothing |
| `ChangesetEvents.FoldLabels` | enterprise/internal/campaigns/changeset_events_test.go:67-82 | every label after the fold was in the starting set or is added by some label (not unlabel) event of the fold |
| `ChangesetEvents.FoldLastTouchDecides` | enterprise/internal/campaigns/changeset_events_test.go:67-82 | within a fold, the last event about a label decides whether the label is present: an unlabel removes it, a label adds it |
| `ChangesetEvents.FoldUntouched` | enterprise/internal/campaigns/changeset_events_test.go:61-66 | a fold in which no event names a label leaves that label's membership as it was |
| `ChangesetEvents.LatestLabelEventWins` | enterprise/internal/campaigns/changeset_events_test.go:67-82 | whatever the input order, if the newest qualifying events about a label agree, the label is in the result exactly when they are label (not unlabel) events |
| `ChangesetEvents.NewestTouchDecides` | enterprise/internal/campaigns/changeset_events_test.go:67-82 | when the newest qualifying events about a label disagree, the one latest in input order decides: the label is in the result exactly when that event is a label (not unlabel) event |
| `ChangesetEvents.LastTouch` | enterprise/internal/campaigns/changeset_events_test.go:67-82 | the last event about a label: none exactly when no event names it, otherwise an event of the sequence that names it with no later one naming it |
| `ChangesetEvents.FoldByLastTouch` | enterprise/internal/campaigns/changeset_events_test.go:67-82 | a fold's result for a label is decided by the last event about it, or is its initial membership when no event names it |
| `ChangesetEvents.AtTimeOfLabelEventsSince` | enterprise/internal/campaigns/changeset_events_test.go:83-90 | keeping the qualifying label events and keeping the events dated at one time commute, so the cutoff keeps input order among events of one time |
| `ChangesetEvents.UntouchedLabelKept` | enterprise/internal/campaigns/changeset_events_test.go:32-43 | a label no qualifying event names is in the result exactly when the changeset's pull-request metadata carries it |
| `ChangesetEvents.NonQualifyingEventIgnored` | enterprise/internal/campaigns/changeset_events_test.go:83-90 | removing an event at or before the changeset's `UpdatedAt` (or one without a label payload) does not change the derived labels |
| `ChangesetEvents.ReconcileIdempotent` | enterprise/internal/campaigns/changeset_events_test.go:83-95 | storing the derived labels in a snapshot no older than every event and deriving again gives the same labels |
| `ChangesetEvents.PayloadCommit` | enterprise/internal/campaigns/changeset_events_test.go:116-136 | a payload carries a commit exactly when it is a GitHub merged event or a Bitbucket Server activity with a non-nil commit; the commit is `Commit.OID` or `Commit.ID` respectively |
| `ChangesetEvents.IsMergeEvent` | enterprise/internal/campaigns/changeset_events_test.go:116-136 | a merge event has a merged kind; label and review-comment payloads are never merges; a merged-kind event with a GitHub merged payload is a merge whichever host the kind names |
| `ChangesetEvents.FindMergeCommitID` | enterprise/internal/campaigns/changeset_events_test.go:106-138 | with no merge event the result is `""`; otherwise it is the commit of the first merge event, read from the payload variant |
| `ChangesetEvents.FindMergeCommitIDAppend` | enterprise/internal/campaigns/changeset_events_test.go:172-202 | events after the first merge event do not matter; events before it without a merge do not matter either |
| `ChangesetEventsScenarios.LabelEventAt` | enterprise/internal/campaigns/changeset_events_test.go:17-31 | the built event names the label, is dated `when`, and has `Removed` set exactly for the unlabeled kind |
| `ChangesetEventsScenarios.LabelNodes` | enterprise/internal/campaigns/changeset_events_test.go:34-37 | one label node per name, in the order given |
| `ChangesetEventsScenarios.ChangesetWithLabels` | enterprise/internal/campaigns/changeset_events_test.go:32-43 | the built changeset's labels are exactly the given names and its cutoff is `updated` |
| `ChangesetEventsScenarios.MakeBitbucketEvent` | enterprise/internal/campaigns/changeset_events_test.go:108-123 | the built event has the given kind and time, carries `commit`, and is a merge exactly for a merged kind |
| `ChangesetEventsScenarios.MakeGitHubMergeEvent` | enterprise/internal/campaigns/changeset_events_test.go:124-138 | the built event has the Bitbucket Server merged kind, is a merge, and carries `commit` |
| `ChangesetEventsScenarios.MakeOtherGitHubEvent` | enterprise/internal/campaigns/changeset_events_test.go:139-149 | the built event is a GitHub comment that carries no commit and is not a merge |
| `ChangesetEventsScenarios.LabelsZeroValues` | enterprise/internal/campaigns/changeset_events_test.go:58-60 | a nil changeset with no events yields the empty label set |
| `ChangesetEventsScenarios.LabelsNoEvents` | enterprise/internal/campaigns/changeset_events_test.go:61-66 | with no events the result is the changeset's own `{label1}` |
| `ChangesetEventsScenarios.LabelsRemoveEvent` | enterprise/internal/campaigns/changeset_events_test.go:67-74 | a newer unlabel of `label1` turns `{label1}` into the empty set |
| `ChangesetEventsScenarios.LabelsAddEvent` | enterprise/internal/campaigns/changeset_events_test.go:75-82 | a newer label event for `label2` turns `{label1}` into `{label1, label2}` |
| `ChangesetEventsScenarios.LabelsOldAddEvent` | enterprise/internal/campaigns/changeset_events_test.go:83-90 | a label event five minutes older than the changeset is ignored, leaving `{label1}` |
| `ChangesetEventsScenarios.FindMergeCommitIDTable` | enterprise/internal/campaigns/changeset_events_test.go:150-210 | the eight merge cases: `""` for no events or no merge, `deadbeef` for a Bitbucket Server or GitHub merge alone or after a non-merge event |
| `E2eUtil.IndexFrom` | internal/e2eutil/client.go:65-70 | the result is -1 exactly when the pattern does not occur from `from` on; otherwise it is the first occurrence from `from` |
| `E2eUtil.Index` | internal/e2eutil/client.go:65-70 | `strings.Index`: -1 exactly when the pattern does not occur; otherwise the first occurrence |
| `E2eUtil.OccursInSuffix` | internal/e2eutil/client.go:70 | searching `body[i+len(anchor):]` finds the occurrences of the whole body, shifted by the offset |
| `E2eUtil.ExtractCSRFToken` | internal/e2eutil/client.go:63-76 | `""` when the anchor is absent or no separator follows it; otherwise the text from just after the first anchor up to the first separator after it; no precondition, so it is total |
| `E2eUtil.NoSeparatorAfterAnchor` | internal/e2eutil/client.go:70-73 | when no `","` occurs after the first anchor, the result is `""` |
| `E2eUtil.TokenLayout` | internal/e2eutil/client.go:65-75 | on success the body is prefix + anchor + token + `","` + rest, the token holds no `","`, and its length is at most the body's minus 18 |
| `E2eUtil.ExtractFromLayout` | internal/e2eutil/client.go:63-76 | the converse: a body built as prefix + anchor + token + `","` + rest, with no anchor starting in the prefix and no separator starting in the token, yields that token |
| `E2eUtil.ExtractFromPageContext` | internal/e2eutil/client.go:63-76 | the page context `{"X-Csrf-Token":"abc","user":1}` yields `abc` |

## Left out

- `enterprise/internal/campaigns/changeset_events.go` is not part of this model. The derivations are modelled from the tests, and the points the tests leave open are modelling choices listed here.
- `ChangesetEvents.UpdateLabelsSince`: an event exactly at the changeset's `UpdatedAt` is ignored (strictly-newer cutoff), and the cutoff reads the event's own `UpdatedAt`, not the label payload's `CreatedAt`. Both are modelling choices. The tests fix neither: no fixture has an event at the changeset's time, and the fixture builder sets `UpdatedAt` and `CreatedAt` to the same instant (enterprise/internal/campaigns/changeset_events_test.go:20-27).
- `ChangesetEvents.UpdateLabelsSince`: the result is a set of names, so a repeated label cannot be seen. For example, a newer label event for a label the changeset already has leaves it once, whereas a list that appends would hold it twice. Label fields other than the name are not compared either.
- `ChangesetEvents.SortByUpdatedAt`: events with equal `updatedAt` keep their input order (a stable sort, proved by `SortByUpdatedAtStable`), so among disagreeing events at the newest time the one latest in the input wins (`NewestTouchDecides`). This is a modelling choice; the tests do not fix the tie order.
- `ChangesetEvents.FindMergeCommitID`: an event of a merged kind whose payload carries no commit (another payload, or a nil Bitbucket Server commit) is skipped. The tests do not fix this case.
- Label events are selected by their payload (a GitHub label event); the event kind is not consulted for them. In every fixture the kind and the `Removed` flag agree.
- `time.Now()` becomes a parameter `now`; `time.Duration` arithmetic becomes integer nanoseconds.
- Event `ID`, `ChangesetID`, `Key` and `CreatedAt`, the label event's actor, and label colour and description play no role in either derivation and are left out.
- The `github` and `bitbucketserver` payload structs keep only the fields read: label name, `Removed`, and commit `OID`/`ID`.
- The test harness's `sort.Slice` and `go-cmp` comparison are replaced by comparing label sets, and the expected lists that the `labels` builder makes (changeset_events_test.go:44-50) are written as set literals.
- A nil pointer inside an event slice is not modelled.
- Converting code-host API payloads into events is outside this core.
- `E2eUtil.ExtractCSRFToken`: the body is a sequence of characters, while Go indexes bytes. Both anchors are ASCII, so the extracted text is the same.
- The rest of `internal/e2eutil/client.go` (`SiteAdminInit`, `SignIn`, `newClient`, `authenticate`, `currentUserID`, `GraphQL`) is HTTP, cookie and JSON work against a live server, and is left out.
