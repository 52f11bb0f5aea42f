# Verified models of AgEval's concurrent and text-handling core

AgEval runs agents against task packages, stores the results in a registry and shows them in a web
application. This project models the parts of it whose guarantees hold over every schedule or every input, in
Dafny 4.11, and proves those guarantees. Each file is one module.

- **SDK combinators** (`Asyncio`, `BoundedGather`, `FirstSuccess`). Child tasks, the semaphore and
  cancellation are step systems. A schedule says in which order children begin, are admitted, finish and in
  what batches, and when the caller is resumed, times out or is cancelled. The callers are imperative methods
  proved for every schedule, also for a schedule that ends while the caller is still suspended.
- **Hosted job queue** (`HostedJobs`, `HostedRuns`). The table is a map from job id to row, each conditional
  UPDATE a function on it and one atomic step. Workers, cancel requests and stale reclaims, any number of each,
  interleave between statements.
- **Uploads** (`Multipart`). The renderer follows section 5.1.1 of RFC 2046 and section 4 of RFC 7578; the
  splitter over `bytes.split` and the splitter over marker positions in a mapped file both invert it.
- **Package contents** (`Paths`, `PackageIndex`, `TaskListing`, `IndexCache`, `Utf8`, `Preview`). The archive
  index, the task listing read off it, the least-recently-used cache of indexes, and the preview cut at a
  character of UTF-8 (section 4 of RFC 3629).
- **Stored secrets** (`Scrub`, `Cipher`). Dropping secrets from messages, and the counter-mode cipher.
- **Organizations** (`Orgs`, `Invites`). Memberships and owners under atomic calls; invite redemption
  interleaved with everything else.
- **Agent client** (`JsonRpc`). Requester threads and one reader thread matching responses to requests
  (section 5 of the JSON-RPC 2.0 specification).
- **Web application** (`FileTree`, `LabelGeometry`, `ScatterLabels`, `Pareto`, `Tokens`, `JsonTokens`,
  `SourceTokens`). The nested file tree, greedy label placement, the Pareto sweep and the highlighters.
- `Bytes`, `Seqs`, `Sorting` and `Wrappers` hold what several modules share: octets, searching, splitting and
  joining, the stable sort, and the optional value.

`dafny verify dfyconfig.toml` checks the whole project.

## What turned out different from what is written about the code

- `docs/design/03-task-sdk-and-evaluation.md` (line 78) calls the default acceptance of `first_success`
  "truthy"; the code accepts every returned value. The model follows the code.
- `bounded_gather` closes an awaitable that is cancelled while it queues on the semaphore, but not one whose
  wrapper was cancelled before its first step (`CancelledUnbegunIsNotClosed`; `LeftOpenIff` says that these are
  the only ones left open).
- `scrub` keeps a secret out of every message exactly when the secret does not fit over the replacement
  `[redacted]` or over one of its edges (`ScrubRemovesIff`); without brackets this means that it is no piece of
  `redacted` (`BracketlessCollidesIff`), and `a[` is one that comes back (`BracketSecretSurvives`).
- The comment on `paretoFront` says a point is on the front iff no other point dominates it. That holds of the
  pairs of values (`FrontIffUndominated`), and of the points of exactly those inputs in which no two share an
  undominated pair (`CommentHoldsIff`): of several points with one pair the first is kept (`OnFrontIff`,
  `TiesKeepOne`).
- A stale reclaim between the two statements of `cancel_job` loses the cancellation (`ReclaimLosesCancel`),
  and one between the two statements of `claim_next` loses the claim (`ReclaimLosesClaim`). `MarkHoldsIff`
  and `SelectFindsIff` give the exact conditions; both are impossible with reclaim off (`ClaimsAndCancels`).
- The owner checks of an organization run on other connections than their updates: two demotions whose halves
  interleave leave no owner (`InterleavedDemotionsLoseOwners`), nor does a transfer whose target leaves behind the
  check (`LateTransferLosesOwner`); exactly the statements that hit the last owner do (`OwnedThroughoutIff`). Revocation of an invite key is looked at once, before the claim
  (`RevocationCanComeTooLate`); `ClaimAdmitsIff` and `ReadTooLateNeverJoins` say who still joins and who never.
- A line that is not UTF-8, or an id that `int` overflows on, ends the JSON-RPC reader thread for good
  (`NothingAfterReaderDies`, `OverflowStarvesAll`).
- JSON `null` as metadata is reported as missing parts, not as a wrong type. A call that fails on metadata that
  does not parse leaves the archive file of an archive part before it on disk (`BadMetadataLeavesArchive`), and no
  other failing call leaves one (`LeavesFileIff`).
- For a path that occurs twice in an archive the index describes the first member and the preview reads the
  last (`TwiceNamedDisagrees`); `IndexMatchesPreviewIff` says when the two agree.

## Model

| member | source | states |
|---|---|---|
| `BoundedGather.BoundedGather` | src/ageval_sdk/workflow.py:16-69 | for every schedule: refused iff the limit is below 1; the run is the schedule's events in order plus requests to cancel; at most `limit` children run at every instant; the `try` body ends at one instant, and every child unfinished at that instant is asked to cancel before anything else happens; none is unfinished after a return or raise; every slot of the result holds its child's own value or exception, a timeout only who had neither; with a deadline these are the children at the instant at which `asyncio.wait` ended; without one the outcome is the first child that failed to give a value or exception, or all slots, at the first resumption that finds this settled; it never stays suspended once resumed twice with all children done |
| `BoundedGather.AwaitDeadline` | src/ageval_sdk/workflow.py:52-64 | the slots show the children at the first deadline, or the first resumption that found all done, before anybody was asked to cancel: a timeout for exactly those not completed, or cancelled, at that instant; all that were unfinished then are asked to cancel before anything else happens |
| `BoundedGather.AdvanceKeeps` | src/ageval_sdk/workflow.py:30-46 | every step of a child keeps permits plus running children equal to the limit, closes an awaitable exactly when it was cancelled while queued, and never changes a finished child |
| `BoundedGather.AtEveryInstant` | src/ageval_sdk/workflow.py:30-46 | the same at every instant of any run, whatever the caller does: at most `limit` children run, and nothing that happened is undone |
| `BoundedGather.OnlyAskedAreCancelled` | src/ageval_sdk/workflow.py:52-69 | in any run a child counts as asked to cancel only if the caller asked it |
| `BoundedGather.EveryScheduleDrains` | src/ageval_sdk/workflow.py:65-69 | every event that changes something lowers the work left, at most three steps per child, so every schedule with that many finishes every child; until then some child can move |
| `BoundedGather.LeftOpenIff` | src/ageval_sdk/workflow.py:32-46 | in any run, an awaitable that never ran is closed if its wrapper was cancelled while queued, and left open if and only if the wrapper was cancelled before its first step |
| `BoundedGather.CancelledUnbegunIsNotClosed` | src/ageval_sdk/workflow.py:32-37 | a child cancelled before its wrapper's first step ends with its awaitable open |
| `FirstSuccess.FirstSuccess` | src/ageval_sdk/workflow.py:72-126 | for every schedule: at most `limit` children run at every instant, they start in input order, and whenever the caller suspends itself `limit` children run or none is left to start; every way out but exhaustion was decided at the first wake-up that found a stopping child, or the first cancellation, so nothing that had ended at an earlier wake-up was acceptable; from that instant the running losers were asked to cancel and ended, the unstarted were closed, the ended left alone; the winner's child gave the value returned, accepted by `accept` if there is one; exhaustion only after every child ended with no value or one that `accept` turned down, so never without `accept` if any gave a value; every exit leaves no running child and no open coroutine |
| `FirstSuccess.Race` | src/ageval_sdk/workflow.py:94-118 | the `try` body ends decided at that instant, exhausted, or suspended; it terminates because waiting plus active shrinks with every batch |
| `FirstSuccess.CleanUp` | src/ageval_sdk/workflow.py:110-126 | cancel, close, drain: running children end and were asked to cancel, unstarted ones are closed, ended ones untouched |
| `HostedRuns.Lifecycle` | services/registry/hosted/queries.py:30-74 | at any two instants of any interleaving: queued rows have no worker, start or flag; terminal rows never change; the flag is never cleared and a flagged job never returns to the queue; exactly one statement settled each terminal job |
| `HostedRuns.ClaimsAndCancels` | services/registry/hosted/store.py:105-142 | reclaim off, fresh worker ids, any interleaving: each job is claimed at most once, the row returned is the one claimed, and after `cancel_job` the job is canceled, flagged or over |
| `HostedRuns.ClaimsInOrder` | services/registry/hosted/queries.py:30-39 | reclaim off and jobs inserted in order of creation, from the empty table: of two claims the earlier is of the older job, and no job older than a claimed one is still queued |
| `HostedRuns.AllDrained` | services/registry/hosted/worker.py:229-249 | reclaim off, at any point of any run, nothing inserted since: when as many drains that had claimed nothing before returned true as jobs were queued then, all of these jobs are terminal |
| `HostedRuns.MarkHoldsIff` | services/registry/hosted/service.py:228-238 | the last statement of `cancel_job`, on both its paths, leaves the job cancelled, flagged or over if and only if it is not back in the queue at that instant |
| `HostedRuns.ReclaimLosesCancel` | services/registry/hosted/worker.py:252-257 | a run in which a reclaim between the two statements of `cancel_job` leaves the job queued without a flag |
| `HostedRuns.SelectFindsIff` | services/registry/hosted/store.py:105-118 | in every run, reclaim on or off, the SELECT of `claim_next` finds a row if and only if the row its UPDATE claimed still runs under it, and then that row |
| `HostedRuns.ReclaimLosesClaim` | services/registry/hosted/store.py:105-118 | a run in which a reclaim between the UPDATE and the SELECT of `claim_next` hides the claim from its drain |
| `HostedRuns.NobodyIsStuck` | services/registry/hosted/worker.py:229-249 | in every run, reclaim on or off, each call that is not over has a statement that moves it |
| `HostedRuns.ReportEndsDrain` | services/registry/hosted/worker.py:295-339 | a crash ends a running drain and a finished suite one that has read the flag; a row still running becomes terminal, canceled iff the flag was read set, with the report's run id |
| `HostedJobs.SettleHidesSecrets` | services/registry/hosted/worker.py:295-367 | however a run ends, the message written holds no clean secret it has seen and is capped; canceled iff it ran and the flag was read; succeeded iff it ran unflagged with exit code 0 or 1, a suite id, and no upload error left |
| `HostedJobs.HostedStore.DrainOnce` | services/registry/hosted/worker.py:229-367 | alone at work: exactly one job moves, an oldest queued one; none iff none is queued; its row says of the report when it succeeded, failed or was canceled, with which title, which suite id, and which scrubbed text |
| `HostedJobs.HostedStore.ClaimNextJob` | services/registry/hosted/store.py:105-118 | the job claimed is an oldest queued one and the SELECT by worker id returns that one |
| `HostedJobs.HostedStore.CancelJob` | services/registry/hosted/service.py:228-238 | alone at work: a queued job is canceled, a running one flagged, one that is over unchanged; no other row changes |
| `HostedJobs.HostedStore.ReclaimStale` | services/registry/hosted/worker.py:252-257 | a stale running job is canceled if it is flagged and queued again without worker if not; every other row stays |
| `Multipart.ParseMultipart` | services/registry/http/dispatch.py:88-119 | the loop computes the map that the split pieces mean; no boundary is an error |
| `Multipart.ExtractMultipart` | services/registry/spool.py:55-107 | the result, the error and the archive file left on disk are those of collecting the parts between marker positions |
| `Multipart.MarkerPositions` | services/registry/spool.py:110-118 | the positions of the non-overlapping markers, in order |
| `Multipart.CopySpan` | services/registry/spool.py:121-127 | the blocks written are exactly the span |
| `Multipart.ParseRoundTrip` | services/registry/http/dispatch.py:88-119 | splitting a rendered form gives back each name's exact bytes, for every boundary without line breaks and every part without the marker, empty data and data ending in CR or LF included |
| `Multipart.ExtractRoundTrip` | services/registry/spool.py:55-107 | the mapped splitter collects from a rendered form exactly its metadata and archive parts |
| `Multipart.SplittersAgree` | services/registry/spool.py:55-107 | on every rendered form whose metadata parses, both splitters give the same metadata and archive bytes, and the mapped one fails exactly when a part is missing or the metadata is no object |
| `Multipart.LeavesFileIff` | services/registry/spool.py:93-107 | on every rendered form, a failing call leaves an archive file if and only if an archive part stands before the first metadata part that does not decode; the decoding error is raised iff there is such a part |
| `Multipart.BadMetadataLeavesArchive` | services/registry/spool.py:93-100 | a form on which the call fails and the archive file stays |
| `Multipart.SpoolBody` | services/registry/spool.py:15-52 | the spool holds exactly the announced bytes, or the call fails and leaves no file: when there is nothing, or more than the cap |
| `PackageIndex.BuildIndex` | services/registry/content/files.py:164-224 | list and lookup map agree, hold each path once, hold all directories above each entry, and hold exactly the entries that the archive implies |
| `PackageIndex.FirstMentionDecides` | services/registry/content/files.py:205-217 | an entry exists iff some member mentions the path, and the first member to mention it decides the entry: its own kind and size, or an implied directory |
| `PackageIndex.IndexMatchesPreviewIff` | services/registry/content/files.py:173-285 | for every path that `read_member` accepts, the index lists the file and size that the preview finds if and only if the first member that mentions the path and the last one of that name are files of one size, or both no file of that path |
| `PackageIndex.TwiceNamedDisagrees` | services/registry/content/files.py:173-285 | an archive with one name twice: the index lists the size of the first file, the preview finds the second |
| `TaskListing.ListTasks` | services/registry/content/files.py:137-161 | exactly the ids that some entry lies under, once each, sorted, each with a flag that tells whether its README is listed; and whether anything is shared |
| `TaskListing.TaskIdsFromFilePaths` | services/registry/dataset.py:29-39 | the set of ids that some path has |
| `TaskListing.TaskIdOfIff` | services/registry/dataset.py:29-39 | a path carries an id iff what is left without edge whitespace and then leading slashes is `tasks/<id>` or lies below it |
| `TaskListing.LexLeIff` | services/registry/content/files.py:160 | the order of the ids: a piece of the front first, else the smaller at the first difference |
| `TaskListing.ListingsAgree` | services/registry/dataset.py:29-39 | for index paths without edge whitespace, the listing names exactly the ids of `task_ids_from_file_paths` |
| `IndexCache.Interleave` | services/registry/content/files.py:227-238 | any schedule of any callers: a call is over after its second turn at the latest; one that returns gives what building its archive gives, from the cache or not; at most 64 entries are held after every locked region |
| `IndexCache.Cache.Lookup` | services/registry/content/files.py:228-231 | a hit returns the entry and makes it the most recent; the cache is always the 64 most recently used digests of the whole history |
| `IndexCache.Cache.Store` | services/registry/content/files.py:233-237 | storing makes the digest the most recent and keeps the 64 most recent ones |
| `IndexCache.UseThenForget` | services/registry/content/files.py:234-237 | using a digest and forgetting all but the n most recent commute, so evicting early loses nothing |
| `Preview.ReadMember` | services/registry/content/files.py:247-304 | which error comes when; the content is the last member of that name, whole or cut, with its real size and a truncation flag |
| `Preview.CutAtCharacter` | services/registry/content/files.py:294-303 | the cut is the longest of the block and its three shorter prefixes that decodes, or the block |
| `Preview.PreviewIsLongestPrefix` | services/registry/content/files.py:283-304 | for valid UTF-8 longer than the cap, the preview is valid iff the cap holds the first character; then it is the longest valid prefix under the cap and at most 3 bytes short; a cap of 4 suffices |
| `Utf8.ValidIff` | services/registry/content/files.py:294-303 | a text decodes iff it is the concatenation of encoded characters, none a surrogate |
| `Preview.NormalizedIff` | services/registry/content/files.py:91-109 | a path is accepted if and only if its stripped text has no backslash, no colon as second character, and no empty, `.` or `..` segment; it becomes that text |
| `Scrub.Scrub` | services/registry/hosted/crypto.py:106-114 | the loop gives the repeated replacement, cut to the limit |
| `Scrub.ReplacedKeepsTheRest` | services/registry/hosted/crypto.py:106-114 | for any number of occurrences: the text is pieces joined by the secret, none of which has it, and the result the same pieces joined by the mark |
| `Scrub.ScrubRemovesIff` | services/registry/hosted/crypto.py:106-114 | any nonempty secret is absent from every result, for any text, list, order and limit, if and only if it does not collide with `[redacted]`: at no offset do the two agree wherever they overlap |
| `Scrub.BracketlessCollidesIff` | services/registry/hosted/crypto.py:106-114 | without brackets, colliding is being a piece of `redacted` |
| `Scrub.CollidingSecretSurvives` | services/registry/hosted/crypto.py:106-114 | for every colliding secret, a text and a second secret after which it is there |
| `Scrub.BracketSecretSurvives` | services/registry/hosted/crypto.py:106-114 | a concrete secret with a bracket that comes back |
| `Cipher.Keystream` | services/registry/hosted/crypto.py:53-60 | byte i of the stream is byte i mod 32 of block i div 32, exactly n bytes; it fails iff n exceeds the four-byte counter's range |
| `Cipher.StreamPrefix` | services/registry/hosted/crypto.py:53-60 | a shorter stream begins a longer one |
| `Cipher.CountersDiffer` | services/registry/hosted/crypto.py:57 | no two blocks of a stream are made from the same message |
| `Cipher.BigEndianReads` | services/registry/hosted/crypto.py:53-60 | the four bytes of a counter, read in base 256 with the first the most significant, are the counter |
| `Cipher.Decrypt` | services/registry/hosted/crypto.py:74-103 | a text comes out iff the token is the sealing of that text's bytes under some nonce; short or unreadable tokens are corrupt |
| `Cipher.Encrypt` | services/registry/hosted/crypto.py:63-71 | the token is the sealing of the encoded text under the given nonce |
| `Cipher.RoundTrip` | services/registry/hosted/crypto.py:63-103 | decrypting an encrypted text gives the text, for every text in the counter range, every key and nonce |
| `Orgs.RunsStayValid` | services/registry/orgs/store.py:32-299 | after any calls from an empty database every organization has an owner, no membership or key dangles, and `claim_org` is refused |
| `Orgs.ApplyKeeps` | services/registry/orgs/store.py:128-299 | each call keeps that invariant from any state that has it |
| `Orgs.OwnersAfter` | services/registry/orgs/store.py:32-299 | exactly which owners every organization has after each call |
| `Orgs.DoneIff` | services/registry/orgs/store.py:32-424 | on a valid state, exactly which calls are done |
| `Orgs.RolesAfter` | services/registry/orgs/store.py:32-299 | the role of every seat after each call |
| `Orgs.KeysAfter` | services/registry/orgs/store.py:283-424 | every invite key after each call |
| `Orgs.OrgsAfter` | services/registry/orgs/store.py:32-299 | every organization and its flag after each call |
| `Orgs.LosingOwnerIff` | services/registry/orgs/store.py:177-251 | demoting or removing leaves every organization owned if and only if the seat is not the sole owner's at the instant of the statement |
| `Orgs.OwnedThroughoutIff` | services/registry/orgs/store.py:177-251 | in every interleaving of the halves of demotions, removals and transfers with whole calls, every organization keeps an owner throughout if and only if no statement hits the last owner, for a transfer: with its target gone |
| `Orgs.InterleavedDemotionsLoseOwners` | services/registry/orgs/store.py:177-200 | the run check, check, update, update of two demotions leaves no owner |
| `Orgs.LateTransferLosesOwner` | services/registry/orgs/store.py:202-234 | the run in which the target of a transfer leaves behind the check ends without an owner |
| `Orgs.OrgStore.CreateOrganization` | services/registry/orgs/store.py:32-72 | the insertion of the organization and its owner, or the refusal with both rolled back |
| `Orgs.OrgStore.Claim` | services/registry/orgs/store.py:128-157 | never done on a valid state, which it leaves as it was |
| `Orgs.OrgStore.Add` | services/registry/orgs/store.py:159-175 | the outcome and the new tables of the reference call, for every role text |
| `Orgs.OrgStore.SetMemberRole` | services/registry/orgs/store.py:177-200 | the outcome and the new tables; the sole owner is not demoted |
| `Orgs.OrgStore.TransferOwner` | services/registry/orgs/store.py:202-234 | the outcome and the new tables; the organization has an owner whatever the caller's role was |
| `Orgs.OrgStore.RemoveMember` | services/registry/orgs/store.py:236-251 | the outcome and the new tables; the sole owner is not removed |
| `Orgs.OrgStore.LeaveOrg` | services/registry/orgs/store.py:273-281 | the outcome and the new tables of leaving |
| `Orgs.OrgStore.DeleteOrg` | services/registry/orgs/store.py:283-299 | nothing of the organization is left; packages block it |
| `Orgs.OrgStore.CreateInviteKey` | services/registry/orgs/store.py:331-381 | the outcome and the new tables; a key starts unused, in an organization that exists |
| `Orgs.OrgStore.RevokeInviteKey` | services/registry/orgs/store.py:402-424 | the outcome and the new tables; revoking twice changes nothing |
| `Invites.UsesNeverExceed` | services/registry/orgs/queries.py:99-103 | in every interleaving, `use_count` equals the memberships the key created and never exceeds `max_uses` |
| `Invites.StepJoinsOrReads` | services/registry/orgs/store.py:450-474 | a redeemer's step changes no table, or creates one membership of a non-member, in an organization that exists, for one use of that organization's key; an existing member or a failed insertion uses nothing |
| `Invites.ClaimAdmitsIff` | services/registry/orgs/store.py:455-474 | at the claim a redeemer joins if and only if the key is there with room and it is no member yet, revoked or not |
| `Invites.ReadTooLateNeverJoins` | services/registry/orgs/store.py:432-447 | a redeemer that reads the key after its revocation never joins through it, whatever else goes on |
| `Invites.RevocationCanComeTooLate` | services/registry/orgs/store.py:441-459 | a run in which a key revoked between the read and the claim still admits |
| `Invites.RedeemInviteKey` | services/registry/orgs/store.py:426-474 | the whole call, alone, is the four steps of one redeemer on the key of that hash; success means membership in its organization |
| `JsonRpc.AnswersAreFirstReplies` | plugins/acp-oneshot/worker/ageval_acp_oneshot.py:284-301 | in every interleaving an inbox gets at most one message: the first response, without a method, whose `int(id)` is the request's id, received after registration; a requester returns that one |
| `JsonRpc.ReplyFindsItsInbox` | plugins/acp-oneshot/worker/ageval_acp_oneshot.py:354-371 | while nothing was delivered, a response finds the request's inbox and fills it, timed out or not |
| `JsonRpc.StrayMessagesChangeNothing` | plugins/acp-oneshot/worker/ageval_acp_oneshot.py:354-371 | a message with a method, or a response to an id that is not waiting, changes no table, and stops the reader only if the id overflows |
| `JsonRpc.AgentIsAnswered` | plugins/acp-oneshot/worker/ageval_acp_oneshot.py:354-359 | in every interleaving each request of the agent received so far was answered once, with its id, in order |
| `JsonRpc.WaitersWereSent` | plugins/acp-oneshot/worker/ageval_acp_oneshot.py:284-301 | whoever waits for an answer, got one or gave up on it had its request written |
| `JsonRpc.NothingAfterReaderDies` | plugins/acp-oneshot/worker/ageval_acp_oneshot.py:326-343 | once the reader thread has ended on an exception, no request registered before gets another message |
| `JsonRpc.OverflowStarvesAll` | plugins/acp-oneshot/worker/ageval_acp_oneshot.py:363-367 | after one response on whose id `int` overflows, no request that waits by then is ever answered, whatever else happens |
| `JsonRpc.IdsAreFresh` | plugins/acp-oneshot/worker/ageval_acp_oneshot.py:287-291 | registering uses an id never used before |
| `JsonRpc.NdjsonClient.RegisterRequest` | plugins/acp-oneshot/worker/ageval_acp_oneshot.py:287-291 | the first locked region: a fresh id becomes pending, all else stays |
| `JsonRpc.NdjsonClient.DispatchMessage` | plugins/acp-oneshot/worker/ageval_acp_oneshot.py:354-371 | the reader's step up to the pop, on the object's fields |
| `JsonRpc.NdjsonClient.TakeReply` | plugins/acp-oneshot/worker/ageval_acp_oneshot.py:293-296 | the message taken answers this request; otherwise the request timed out with an empty inbox |
| `JsonRpc.NdjsonClient.PutReply` | plugins/acp-oneshot/worker/ageval_acp_oneshot.py:368-371 | the reader's second step fills the inbox it holds |
| `FileTree.BuildNestedTree` | apps/shared/lib/file-tree.ts:16-77 | the leaves are the routes of the accepted items, each once, holding the first such item's path, below exactly the directories of the route; siblings unique, no empty directory, each directory with its own path; every level directories first, then by name |
| `FileTree.InsertLeaf` | apps/shared/lib/file-tree.ts:44-63 | walking one path adds exactly its leaf, only if the route is new, and changes nothing else |
| `FileTree.PartsOfJoin` | apps/shared/lib/file-tree.ts:42 | names without slashes, joined by slashes, are the segments of the path, in order |
| `FileTree.PartsConcat` | apps/shared/lib/file-tree.ts:42 | a slash separates: the segments before it, then those behind it |
| `FileTree.MoreSlashesSameParts` | apps/shared/lib/file-tree.ts:42 | leading, trailing and doubled slashes change nothing |
| `FileTree.RouteBelowPrefix` | apps/shared/lib/file-tree.ts:20-44 | below a prefix, with or without a slash at its end, a path has the route of its rest; any other path has none |
| `FileTree.FileLandsAtItsPath` | apps/shared/lib/file-tree.ts:16-77 | the first file at names joined by slashes is a leaf of the last name below directories of the others |
| `FileTree.AncestorDirPaths` | apps/shared/lib/file-tree.ts:159-169 | the list is the chain of directories of the path's segments |
| `FileTree.ChainIsJoins` | apps/shared/lib/file-tree.ts:159-169 | the i-th directory of the chain is the first i + 1 segments joined |
| `FileTree.DirsAreAncestors` | apps/shared/lib/file-tree.ts:159-169 | without a prefix, the directories above a leaf are `ancestorDirPaths` of its path |
| `FileTree.CountTreeFiles` | apps/shared/lib/file-tree.ts:172-179 | in a valid tree the count is the number of distinct routes |
| `FileTree.TreeHoldsAccepted` | apps/shared/lib/file-tree.ts:16-77 | the routes of the tree are the routes of the accepted items, so the count counts them |
| `FileTree.SortThenDescend` | apps/shared/lib/file-tree.ts:66-75 | sorting inside before sorting a level gives what sorting the level first gives |
| `LabelGeometry.CircleHitsBoxIff` | apps/shared/lib/scatter-label-layout.ts:199-213 | a circle hits a box iff some point of the box is nearer than the radius |
| `LabelGeometry.BoxesOverlapIff` | apps/shared/lib/scatter-label-layout.ts:190-197 | boxes overlap iff points of the two are less than the gap apart on both axes |
| `LabelGeometry.ClampBoxWithin` | apps/shared/lib/scatter-label-layout.ts:166-175 | far edges always stay within the bounds, near edges iff the bounds are 8 wide (high) or hold the box |
| `LabelGeometry.ClampBoxMovesLeast` | apps/shared/lib/scatter-label-layout.ts:166-175 | no box of that size within the bounds is nearer; a box within stays |
| `LabelGeometry.BoxForDistance` | apps/shared/lib/scatter-label-layout.ts:144-164 | a candidate lies at the ring's distance from its point on the axes, at 1.2168 times its square on the diagonals |
| `LabelGeometry.SharedAreaIff` | apps/shared/lib/scatter-label-layout.ts:177-197 | boxes share area iff they overlap without a gap; labels that keep the gap share none |
| `LabelGeometry.OverlapIsArea` | apps/shared/lib/scatter-label-layout.ts:177-183 | the shared area is the area of the rectangle of the points that both boxes have |
| `LabelGeometry.SegmentsCrossIff` | apps/shared/lib/scatter-label-layout.ts:231-244 | segments cross iff they are not all but parallel and meet at a point away from the ends of both |
| `LabelGeometry.NearSegmentIff` | apps/shared/lib/scatter-label-layout.ts:215-229 | a point is near a segment iff some point of the segment is nearer than the radius |
| `ScatterLabels.TruncateToWidth` | apps/shared/lib/scatter-label-layout.ts:123-134 | the result fits or is the bare ellipsis, a fitting text is kept, and with a width that grows with the text no longer cut fits |
| `ScatterLabels.Prepare` | apps/shared/lib/scatter-label-layout.ts:478-484 | the prepared item keeps its point, reserves room for the whole measured text and less than three units more, and is cut only at the cap |
| `ScatterLabels.OrderVisitsAll` | apps/shared/lib/scatter-label-layout.ts:491-500 | the placement order visits every index once |
| `ScatterLabels.CrowdedFirst` | apps/shared/lib/scatter-label-layout.ts:485-500 | items with more others within 56 come first; of equals the wider, then the one farther left, then the higher, then the earlier |
| `ScatterLabels.CandidateScore` | apps/shared/lib/scatter-label-layout.ts:334-400 | the loops add up place, leader, placed labels, points and obstacles |
| `ScatterLabels.FirstPass` | apps/shared/lib/scatter-label-layout.ts:512-562 | the least-scored clear candidate, earliest of equals, of the rings up to the first with a score below 50; none iff no candidate is clear |
| `ScatterLabels.Fallback` | apps/shared/lib/scatter-label-layout.ts:563-603 | always some candidate: the least-scored of all 56, earliest of equals |
| `ScatterLabels.PlaceScatterLabels` | apps/shared/lib/scatter-label-layout.ts:502-633 | one label per item at its index, each selected given the earlier ones; the default branches are never taken |
| `ScatterLabels.LabelsStayInBounds` | apps/shared/lib/scatter-label-layout.ts:467-633 | every label keeps its item's text and lies within bounds that are at least 8 wide and high |
| `ScatterLabels.TextStandsInItsBox` | apps/shared/lib/scatter-label-layout.ts:302-332 | the text of every label, seen from its anchor, fills the width of its box and stands within its height; anchored at the start iff the candidate lay right of the point, at the end iff left |
| `ScatterLabels.AllDirections` | apps/shared/lib/scatter-label-layout.ts:75-84 | every one of the eight directions is tried, with the anchor of its side |
| `ScatterLabels.ScoreCounts` | apps/shared/lib/scatter-label-layout.ts:334-400 | the score is the number of labels, leaders, texts, points and obstacles met, each times its charge, plus the areas shared and the charges for place and leader |
| `ScatterLabels.FirstPassKeepsClear` | apps/shared/lib/scatter-label-layout.ts:512-562 | a first-pass label keeps the gap from every earlier label, covers no point, and has a leader if it lies far |
| `ScatterLabels.NoFallbackNoOverlap` | apps/shared/lib/scatter-label-layout.ts:467-633 | a run without fallback has pairwise separate labels and covers no point |
| `ScatterLabels.OverlapsOnlyWhenForced` | apps/shared/lib/scatter-label-layout.ts:563-603 | a label shares area with an earlier one only if it fell back and all its 56 candidates score at least 3996 |
| `ScatterLabels.LayoutIsUnique` | apps/shared/lib/scatter-label-layout.ts:467-633 | items, bounds, obstacles and leaders fix the layout |
| `Pareto.ParetoFront` | apps/shared/lib/leaderboard-charts.ts:228-249 | input points, each the first of the input with its pair, whose pairs rise strictly on both axes, are undominated, and match or beat every usable point, by cost, tokens or time as asked |
| `Pareto.FrontIffUndominated` | apps/shared/lib/leaderboard-charts.ts:224-249 | a pair is on the front iff it is plotted and no plotted pair dominates it |
| `Pareto.FrontIsUnique` | apps/shared/lib/leaderboard-charts.ts:228-249 | the set of plotted pairs fixes the front: input order and duplicates do not matter |
| `Pareto.OnFrontIff` | apps/shared/lib/leaderboard-charts.ts:224-249 | a point is on the front iff no plotted point dominates it and it is the first of the input with its pair |
| `Pareto.CommentHoldsIff` | apps/shared/lib/leaderboard-charts.ts:224-227 | on every input: "on the front iff no other plotted point dominates it" holds of all points if and only if no two points share an undominated pair |
| `Pareto.OneForEachPair` | apps/shared/lib/leaderboard-charts.ts:228-249 | each undominated pair has exactly one point on the front, the first of the input with that pair |
| `Pareto.TiesKeepOne` | apps/shared/lib/leaderboard-charts.ts:224-227 | of two points with the same pair the second is left out though nothing dominates it |
| `Tokens.StringEndIff` | apps/shared/lib/code-highlight.tsx:84-96 | a quoted string ends behind its first quote with an even number of backslashes before it, else at the end of the text |
| `JsonTokens.TokenizeJson` | apps/shared/lib/code-highlight.tsx:42-132 | lossless on every text, no empty token, and equal to the reference tokenization |
| `JsonTokens.DocumentsReadAsMeant` | apps/shared/lib/code-highlight.tsx:42-132 | every JSON document, with any blanks between its parts, is split into exactly its parts, each name a key and each text value a string |
| `JsonTokens.NumeralIsOneToken` | apps/shared/lib/code-highlight.tsx:42-132 | every number of section 6 of RFC 8259 is one number token |
| `SourceTokens.TokenizeSource` | apps/shared/lib/code-highlight.tsx:135-264 | lossless for any keywords and comment options; every token is a line break or lies within a line and is shaped as its kind says; a comment ends its line; equal to the reference tokens of the lines |
| `SourceTokens.TokenShape` | apps/shared/lib/code-highlight.tsx:161-259 | each token is made as its kind says: a keyword is a word in the set, a number of digits and its signs, a string begins with a quote, a comment takes the rest of the line |
| `SourceTokens.CommentIff` | apps/shared/lib/code-highlight.tsx:164-175 | a comment starts exactly at the marker, or at a hash where hashes do, and takes the rest of the line |
| `SourceTokens.TripleStringEnds` | apps/shared/lib/code-highlight.tsx:185-213 | a triple-quoted string ends behind the next three quotes, or with the line |
| `SourceTokens.QuoteStartsString` | apps/shared/lib/code-highlight.tsx:185-229 | outside a comment a string starts at every quote and nowhere else |
| `SourceTokens.StartsWithHashIff` | apps/shared/lib/code-highlight.tsx:152-160 | a line is a comment as a whole iff only blanks stand before its first hash |
| `SourceTokens.NumberIsOneToken` | apps/shared/lib/code-highlight.tsx:231-238 | a text that starts with a digit is one number iff it is of digits, hexadecimal digits, `x`, points and underscores |
| `SourceTokens.WordIsOneToken` | apps/shared/lib/code-highlight.tsx:240-254 | a text that starts with a letter or underscore is one word iff it is of letters, digits and underscores; a keyword iff it or its lower case is in the set |
| `Tokens.Span` | apps/shared/lib/code-highlight.tsx:178-179 | the run ends at the first character not of its kind |
| `Tokens.ScanString` | apps/shared/lib/code-highlight.tsx:215-224 | the scan ends right behind the first quote with an even number of backslashes before it, else takes the rest |
| `SourceTokens.TokenizeShell` | apps/shared/lib/shell-highlight.tsx:20-78 | lossless; every token is a blank, a quoted string, or a word of the kind its look gives; only an unquoted first word is the command; equal to the reference tokens |
| `SourceTokens.ScanShellString` | apps/shared/lib/shell-highlight.tsx:38-45 | a double-quoted word ends at its first unescaped quote, a single-quoted one at its first quote, each else at the end |

## Left out

- Interpreter and event loop: cancellation reaches a task at its next step, a semaphore is a count of permits, `KeyboardInterrupt` and `SystemExit` are not treated apart from other exceptions that are not `Exception`.
- The SQL engines, connections and row mapping: a statement is one atomic step with an exact row count, a transaction is atomic; Postgres and SQLite are not told apart.
- `HostedJobs`: claiming job content, uploading and the polling loop are one given report; secret rows are not modelled.
- `HostedRuns.ClaimsAndCancels`: holds with stale reclaim off, because the code loses claims and cancels otherwise; `MarkHoldsIff` and `SelectFindsIff` say exactly when.
- `Orgs.RunsStayValid`: calls are atomic, because interleaved ones break the property; `OwnedThroughoutIff` says exactly when.
- `Invites.UsesNeverExceed`: key ids are never issued twice, since they are fresh random tokens.
- HTTP routes, authentication, object storage, subprocesses and sockets.
- JSON, YAML, tar, gzip and regular expressions: an archive is a sequence of members, a part's name and a decoded document are given functions of its bytes, Python's whitespace is a given predicate.
- Package descriptions and overlay paths, which the index collects beside its entries.
- `IndexCache.Interleave`: one archive per digest; two archives under one digest would be a collision.
- `Cipher.Decrypt`: says nothing about forging; HMAC is any function with 32-byte results, UTF-8 and base64url are inverse pairs.
- `FileTree.BuildNestedTree`: nodes are values and the cursor a recursion, so sharing of child arrays between a node and the cursor is not modelled; `localeCompare` is a given total preorder.
- `ScatterLabels.PlaceScatterLabels`: arithmetic is exact; text measurement and the leader line, which needs a square root, are given functions, and rescaling by the chart's unit is not modelled.
- `JsonRpc.AnswersAreFirstReplies`: sessions, permissions and notifications beyond their effect on the tables are not modelled; `int()` of an id is a given function.
- UTF-16: JavaScript strings are sequences of characters, so surrogate pairs cut by a slice are not modelled.
- `Pareto.ParetoFront`: values are exact, never NaN.
- Access rules, paging, upload slots, the release of attempt images and the Core's activity log, which would add only single-counter or single-branch facts.
