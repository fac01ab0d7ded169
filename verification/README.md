# A verified model of the forum service

The service keeps a soft-deleted topic tree with posts, and most of its logic sits on a few indexes and graph walks that
have to agree with simpler definitions: an ancestor table that stands for the parent pointers, a nearest-value policy that
stands for "every restriction on the way up", a staged query that stands for a direct count, importers that have to account
for every row of a possibly broken source. This project models that logic in Dafny and proves the agreements, for all
inputs, all reachable states and all schedules.

`dafny verify dfyconfig.toml` checks the whole project.

| file | what it models |
|---|---|
| `Basics`, `Sorting`, `ParentLinks` | optional values, a stable sort, and walks over parent links with cycles and missing parents |
| `ForumState`, `ClosureTable` | topics, posts and member state; the ancestor index |
| `CommandSpec`, `CommandEffects`, `ForumStore` | every transaction as a function of the forum, what it leaves in the rows, and as a method on rows and index |
| `AccessTypes`, `TopicContext`, `PublicAccess`, `AccessPolicy` | inherited restrictions, category rules, the central policy, single and batched |
| `Authorization`, `CommandRuns`, `RestrictionRuns`, `RoleConsistency`, `RoleRace` | the authorization reads, all interleavings of reads and transactions, what every run keeps, and exactly when a run keeps roles consistent |
| `PostTree`, `ReachableThreads` | the embedded thread of a topic, for arbitrary rows and for reachable states |
| `ListReads`, `ListScopes` | visibility filtering with its decision cache, pagination, and the restrictions rows are judged by |
| `Rollups` | category rollups, staged and direct |
| `Watches`, `WorkerPool` | who watches, and the bounded pool that checks recipients |
| `ReplyImport`, `KeysetReader`, `StateImport` | legacy replies, the keyset reader, watches and read states |
| `PublicImportPlan`, `PublicImportWrite`, `PublicImportEntries`, `CanonicalJson` | category selection and planning, the provenance-guarded writer, planned index rows as entries of it, the canonical text its digests are taken of |

How the parts meet: `ForumStore` shows that the index is exact in every state the transactions reach, and the context loader,
the policy, the rollups and the notifier are proved on any exact index. Replies are only accepted under stored posts of
their topic, so `ReachableThreads` gets a complete thread out of `PostTree`. Topics with a challenge are roots in every
interleaving, so `Watches` gets agreement between the flag shown and the list notified.

## Assumptions

- A `$transaction` body is atomic. A command is an authorization read of one state followed by its transaction in a possibly
  later one; any number of other steps may come between. The moderation lock and unlock writes do not check liveness again,
  and are modelled that way.
- The primary and unique keys of both schemas hold, the legacy one included. All other constraints of the import tables are
  one arbitrary condition on the tables, met before an import; the order of its inserts respects references. Storage is faithful, and `ORDER BY` and `localeCompare` are fixed orders,
  given as rank functions on ids.
- Challenge and resource lookups, bans and the category table are arbitrary functions of their arguments, the same for all
  reads of one request.
- Texts are stored normalised (trimmed roles and challenge ids, lower-case roles, no empty strings).
- The member mapper and the import report do not throw; a write of the importer may fail, and an arbitrary oracle says which.
- SHA-256 digests do not collide, so provenance records hold what they are digests of, and `publicImportId` is injective.
- Numbers in JSON are finite and represented by their shortest decimal text, which determines them.
- Joined keys such as `topicId:memberId` are pairs; generated ids hold neither `:` nor the separator of list signatures.
  `ListReads` shows why the second matters: the decision cache of the topic lists is faithful exactly if no two rows share a
  signature, unique ids without the separator guarantee that, and ids with it can mislead a filter run.

## What does not hold

- Role restrictions do not survive every interleaving: the descendant check of a topic update runs before its transaction
  (`src/forums/forums-command.service.ts:406` against `:413`). `RoleRace` gives the interleaving. `RoleConsistency` proves the
  exact condition: roles stay consistent in every state of a run if and only if every transaction fits the state it meets. A
  role update fits if it clears the role, or every ancestor and every live topic below that stores a role stores the new one;
  a creation fits if the new topic has no role or parent, or every topic on its parent's walk that stores a role stores the
  same one; everything else fits. Commands served one at a time always fit.
- The keyset reader reads nothing with a page size of zero, and everything with any other.
- On general topics the flag shown and the list notified differ by design: a member who watches an ancestor is notified and
  not shown as watching. `Watches` states the exact difference.

## Model

| member | source | states |
|---|---|---|
| `ClosureTable.ClosureInsert` | src/forums/forums-command.service.ts:1427-1453 | Adding a topic together with the rows `createClosureRows` writes keeps the index exactly {(a, d, k) : d reaches a in k parent hops} |
| `ClosureTable.OneRowPerPair` | src/forums/forums-command.service.ts:1427-1453 | An exact index over acyclic parents holds at most one row per (ancestor, descendant) pair |
| `ClosureTable.InsertNeverCollides` | src/forums/forums-command.service.ts:1427-1453 | The inserted rows never clash with stored rows, or with each other, on the (ancestor, descendant) key |
| `ClosureTable.IndexedLiveIsLive` | src/forums/forums-command.service.ts:1390-1416 | The index-based liveness test of `ensureActiveTopic` holds exactly when no topic on the parent walk is deleted |
| `ClosureTable.GroupIsChain` | src/forums/forums-topic-context.service.ts:57-99 | Grouping a globally depth-ordered answer gives each topic exactly its own ancestor chain, nearest first |
| `ForumStore.Store.EnsureActiveTopic` | src/forums/forums-command.service.ts:1390-1416 | Finds a topic exactly when it is stored and nothing on its parent walk is deleted; changes nothing |
| `ForumStore.Store.EnsurePostInActiveTopic` | src/forums/forums-command.service.ts:1529-1541 | Finds a post exactly when it is stored in a live topic |
| `ForumStore.Store.EnsureMutablePost` | src/forums/forums-command.service.ts:1551-1562 | Finds a post exactly when it is undeleted and in a live topic |
| `ForumStore.Store.CreateClosureRows` | src/forums/forums-command.service.ts:1427-1453 | Adds the parent rows one step further away and the self row, and nothing else |
| `ForumStore.Store.CreateTopicTx` | src/forums/forums-command.service.ts:243-311 | Refines the create-topic transaction on the forum without an index, and keeps the index exact |
| `ForumStore.Store.UpdateTopicTx` | src/forums/forums-command.service.ts:413-422 | Refines the update transaction: live topics only, patched columns only |
| `ForumStore.Store.SoftDeleteTopicTx` | src/forums/forums-command.service.ts:466-478 | Refines the delete transaction: live topics only; a committed deletion leaves the row with its time and actor |
| `ForumStore.Store.CreatePostTx` | src/forums/forums-command.service.ts:526-561 | Refines the create-post transaction, including parent resolution and seeding of the author |
| `ForumStore.Store.UpdatePostTx` | src/forums/forums-command.service.ts:622-629 | Refines the post update: undeleted posts of live topics only |
| `ForumStore.Store.DeletePostTx` | src/forums/forums-command.service.ts:673-688 | Refines the post deletion: undeleted posts of live topics only |
| `ForumStore.Store.SetPostReactionTx` | src/forums/forums-command.service.ts:706-771 | Refines setting and removing a reaction |
| `ForumStore.Store.SetTopicWatchTx` | src/forums/forums-command.service.ts:786-902 | Refines watching, muting and unwatching a topic |
| `ForumStore.Store.MarkTopicReadTx` | src/forums/forums-command.service.ts:917-969 | Refines marking a topic read |
| `ForumStore.Store.SetLock` | src/forums/forums-moderation.service.ts:73-150 | Refines locking and unlocking: any stored topic, without a liveness check |
| `ForumStore.Store.Execute` | src/forums/forums-command.service.ts:175-969 | Every transaction, run on rows and index, equals its specification on the forum alone and leaves the index exact |
| `CommandSpec.CommitKeepsWellFormed` | src/forums/forums-command.service.ts:175-969 | Every transaction keeps parents stored and acyclic, replies inside their topic, and state rows attached to stored topics and posts |
| `CommandSpec.CreatePostKeepsWellFormed` | src/forums/forums-command.service.ts:1465-1519 | Accepting only stored posts of the same topic as parents keeps the reply links acyclic and inside the topic |
| `CommandEffects.CreateTopicEffect` | src/forums/forums-command.service.ts:243-311 | Exactly when a topic is created; the columns of its row and of its starter post, the seeded read state and watch, and that it and only it becomes live |
| `CommandEffects.UpdateTopicEffect` | src/forums/forums-command.service.ts:413-422 | Exactly when a topic is updated; the named columns take the new values, nothing else changes, the same topics stay live |
| `CommandEffects.DeleteTopicEffect` | src/forums/forums-command.service.ts:466-478 | Exactly when a topic is deleted; its row takes the time and the actor, no other row changes, and the topics that stay live are those not below it |
| `CommandEffects.CreatePostEffect` | src/forums/forums-command.service.ts:526-561 | Exactly when a post is created, and each refusal; the columns of its row, its parent, and the seeded read state |
| `CommandEffects.UpdatePostEffect` | src/forums/forums-command.service.ts:622-629 | Exactly when a post is edited, and to what |
| `CommandEffects.DeletePostEffect` | src/forums/forums-command.service.ts:673-688 | Exactly when a post is deleted: its content goes, its row takes the time and the actor; a deleted post stays as it is |
| `CommandEffects.ReactionEffect` | src/forums/forums-command.service.ts:706-771 | Setting stores the reaction in place of an earlier one, removing leaves none; undeleted posts of live topics only |
| `CommandEffects.WatchEffect` | src/forums/forums-command.service.ts:786-902 | Watching stores the choice; unwatching removes it, or in a challenge topic stores its opposite |
| `CommandEffects.MarkReadEffect` | src/forums/forums-command.service.ts:917-969 | Marking read stores the time given, on live topics only |
| `CommandEffects.SetLockEffect` | src/forums/forums-moderation.service.ts:73-150 | Locking stores time and actor, unlocking clears both, on any stored topic; nothing else changes |
| `CommandEffects.DeletionIsFinal` | src/forums/forums-command.service.ts:466-478 | After a committed deletion, over every interleaving, no topic that was below the deleted one is ever live again, and nothing of it changes |
| `CommandEffects.PostDeletionIsFinal` | src/forums/forums-command.service.ts:673-688 | A deleted post stays deleted and empty in every later state |
| `CommandRuns.RunKeepsWellFormed` | src/forums/forums-command.service.ts:175-969 | Well-formedness over every interleaving of authorization reads and transactions |
| `CommandRuns.CommitSparesHidden` | src/forums/forums-command.service.ts:1390-1416 | No single transaction changes a hidden topic, its posts, reactions, watches or read states (lock columns and `updatedAt` aside) |
| `CommandRuns.NewTopicNotBelowHidden` | src/forums/forums-command.service.ts:243-311 | No transaction adds a topic below a hidden one |
| `CommandRuns.HiddenSubtreeIsFrozen` | src/forums/forums-command.service.ts:1390-1416 | Over every interleaving, with stale authorizations: once hidden, a topic stays hidden, its subtree gains no topic or post, and nothing of it changes |
| `CommandRuns.DeletedPostIsFrozen` | src/forums/forums-command.service.ts:1529-1562 | Over every interleaving, a soft-deleted post and its reactions never change again |
| `ForumState.HiddenStays` | src/forums/forums-command.service.ts:1390-1416 | Hiding survives any evolution that keeps rows, parents and deletions |
| `ForumState.SubtreeHidden` | src/forums/forums-command.service.ts:1390-1416 | Everything below a hidden topic is hidden |
| `TopicContext.LoadTopicContexts` | src/forums/forums-topic-context.service.ts:57-99 | The batched loader returns, for exactly the stored ids asked for, the context computed from each topic's own parent walk |
| `TopicContext.LoadTopicContext` | src/forums/forums-topic-context.service.ts:38-49 | The single loader returns the same context, or not-found |
| `TopicContext.GroupAncestors` | src/forums/forums-topic-context.service.ts:74-81 | The grouping loop keeps the answer order inside each group |
| `TopicContext.BatchGroupIsChain` | src/forums/forums-topic-context.service.ts:57-99 | Each group of the batched answer, joined with the topic rows, is the target-first chain of its topic |
| `TopicContext.ContextMeans` | src/forums/forums-topic-context.service.ts:164-245 | Effective challenge and role are the first ones met on the parent walk; the flags say whether anything above is deleted, whether two topics of the walk disagree, and whether the caller is the author |
| `TopicContext.ConflictingMeans` | src/forums/forums-topic-context.service.ts:238-245 | The conflict flag is set exactly when two different values occur |
| `TopicContext.NearestSpeaksForAll` | src/forums/forums-topic-context.service.ts:207-230 | Without a conflict the nearest value is the only one on the chain |
| `PublicAccess.MatchesMeans` | src/forums/public-forum-access.service.ts:119-130 | Whom a list of roles admits: administrators, machines, everyone for `$public`, members for `$authenticated`, and holders of a named role by identity or imported membership |
| `PublicAccess.UncategorisedIsOpen` | src/forums/public-forum-access.service.ts:106-118 | A topic without a category on its chain is open to everyone |
| `PublicAccess.ViewMeans` | src/forums/public-forum-access.service.ts:106-145 | Reading needs the read roles of every category on the chain |
| `PublicAccess.OneGovernor` | src/forums/public-forum-access.service.ts:106-145 | A topic with a category on its chain is governed by exactly one: the nearest |
| `PublicAccess.CreateAndReplyMean` | src/forums/public-forum-access.service.ts:106-145 | Creating and replying need reading rights, an authenticated caller and the rights of the governing category: creation in a discussion category itself, replies below it |
| `PublicAccess.ViewIsMonotone` | src/forums/public-forum-access.service.ts:106-145 | Who may read a topic may read every ancestor |
| `PublicAccess.HitsAreCategoryChain` | src/forums/public-forum-access.service.ts:56-84 | The hits of one topic in the batched answer are the categories of its own chain, nearest first |
| `PublicAccess.DecideMany` | src/forums/public-forum-access.service.ts:56-84 | The batched decision equals the pointwise one for every id |
| `AccessPolicy.MeetsChallengeMeans` | src/forums/forums-access-policy.service.ts:540-613 | Which facts let a member into a challenge |
| `AccessPolicy.RefusalsMean` | src/forums/forums-access-policy.service.ts:455-613 | The exact situation behind each reason for a refusal |
| `AccessPolicy.VisibleIffEveryRestrictionMet` | src/forums/forums-access-policy.service.ts:455-613 | For a human who is not an administrator: the nearest-value-plus-conflict-flag policy allows viewing if and only if the chain is conflict-free and every restriction of every topic on it is met |
| `AccessPolicy.ElevatedVisibility` | src/forums/forums-access-policy.service.ts:455-530 | Exactly when machines and administrators pass the restrictions |
| `AccessPolicy.RestrictionsAreMonotone` | src/forums/forums-access-policy.service.ts:455-613 | Who passes the restrictions of a chain passes those of each ancestor's chain |
| `AccessPolicy.ViewMeans` | src/forums/forums-access-policy.service.ts:69-194 | Viewing takes a chain without deleted topics, readable categories, and met restrictions |
| `AccessPolicy.VisibilityIsMonotone` | src/forums/forums-access-policy.service.ts:69-194 | For every principal, on-behalf targets included: a topic that may be viewed has only ancestors that may be viewed |
| `AccessPolicy.OnBehalf` | src/forums/forums-access-policy.service.ts:700-708 | Only machines act for someone else, and they then see exactly the topics that member sees |
| `AccessPolicy.TopicRights` | src/forums/forums-access-policy.service.ts:125-194 | Exactly who may reply, create below, change, delete, announce, watch and mark read, given who may view |
| `AccessPolicy.RefusedRights` | src/forums/forums-access-policy.service.ts:125-194 | How a refusal reads: who may not view a topic is told one reason for every action, not found before anything else; who may view it is told what the single action lacks |
| `AccessPolicy.CreateRights` | src/forums/forums-access-policy.service.ts:276-382 | Exactly who may create a child topic and a root topic, with and without a challenge |
| `AccessPolicy.RefusedChild` | src/forums/forums-access-policy.service.ts:276-382 | How a refused child reads, in order: deleted parent, no member, category, parent restrictions, a challenge asked for, the role asked for |
| `AccessPolicy.DecideForTopics` | src/forums/forums-access-policy.service.ts:94-118 | Batched contexts and decisions equal the pointwise ones for every stored id |
| `Authorization.IndexedConflictIsConflict` | src/forums/forums-command.service.ts:1278-1313 | The index query for a conflicting descendant finds one exactly when some active topic strictly below stores a different role |
| `Authorization.GrantedChildHasNoChallenge` | src/forums/forums-access-policy.service.ts:312-333 | A granted child creation carries no challenge, nor does anything on its parent's chain |
| `Authorization.DeleteGranted` | src/forums/forums-command.service.ts:436-464 | A deletion is granted exactly to administrators and machines that are not banned, may view the topic, and pass its lock |
| `Authorization.UpdateGranted` | src/forums/forums-command.service.ts:346-411 | Exactly when an update is granted: who may change the topic, its lock, its announcement flag and its role; the waiting command is the request |
| `Authorization.ChildGranted` | src/forums/forums-command.service.ts:175-241 | Exactly when a child topic is granted under a parent, and with which role |
| `Authorization.RootGranted` | src/forums/forums-command.service.ts:175-241 | Exactly when a root topic is granted, with and without a challenge |
| `Authorization.LockedTopicsRefuse` | src/forums/forums-moderation.service.ts:396-425 | On a locked topic, updates, deletions and new children are refused to everyone but administrators and human copilots of its challenge |
| `Authorization.HiddenTopicsRefuse` | src/forums/forums-access-policy.service.ts:736-738 | Nothing is granted on, or directly below, a topic that is hidden when authorization reads it |
| `Authorization.HiddenReadsAsNotFound` | src/forums/forums-command.service.ts:1128-1145 | To callers who are not banned, a hidden or missing topic reads as not found |
| `Authorization.ErrorsMean` | src/forums/forums-command.service.ts:1132-1145 | Which refusals read as not found |
| `Authorization.BannedReadsAsBan` | src/forums/forums-command.service.ts:346-360 | Banned callers are refused for the ban, whatever they ask of a topic |
| `Authorization.LockReadsAsLocked` | src/forums/forums-moderation.service.ts:396-425 | Who could change or delete a topic but for its lock is told that it is locked |
| `Authorization.GrantedCreateRole` | src/forums/forums-access.types.ts:240-261 | A granted creation stores the role its chain imposes |
| `Authorization.GrantedUpdateRole` | src/forums/forums-access.types.ts:272-297 | A granted role update repeats an inherited or own role, and meets no different active role below |
| `RestrictionRuns.ChallengeTopicsStandAloneAlways` | src/forums/forums-command.service.ts:175-331 | Over every interleaving, topics with a challenge are roots and have no children |
| `RestrictionRuns.AuthorizedFits` | src/forums/forums-command.service.ts:1278-1313 | A command whose authorization holds in the very state its transaction meets fits that state |
| `RestrictionRuns.SerialIsARun` | src/forums/forums-command.service.ts:175-479 | Serving commands one at a time is one of the interleavings |
| `RestrictionRuns.ServeKeepsRoles` | src/forums/forums-command.service.ts:1278-1313 | One served command keeps role consistency: no live topic has two different roles on its chain |
| `RestrictionRuns.SerialRunsNeverConflict` | src/forums/forums-access.types.ts:240-328 | From an empty forum, served one at a time, no live topic ever has a conflicting chain |
| `RoleConsistency.FittingUpdateKeepsRoles` | src/forums/forums-command.service.ts:413-420 | A role update that fits the state it meets keeps every live chain consistent |
| `RoleConsistency.ConsistentUpdateFits` | src/forums/forums-command.service.ts:413-420 | A role update that leaves every live chain consistent fitted the state it met |
| `RoleConsistency.FittingCreateKeepsRoles` | src/forums/forums-command.service.ts:243-261 | The same for creations: a role that agrees with the parent's walk keeps consistency |
| `RoleConsistency.ConsistentCreateFits` | src/forums/forums-command.service.ts:243-261 | And only such a role does |
| `RoleConsistency.ConsistentIffFits` | src/forums/forums-command.service.ts:243-420 | From a consistent state, any transaction leaves roles consistent if and only if it fits the state it meets |
| `RoleConsistency.RunConsistentIffFits` | src/forums/forums-command.service.ts:175-479 | Over any interleaving, from a consistent state: every state of the run is consistent if and only if every transaction fits the state it meets |
| `RoleRace.RolesCanConflictWhenInterleaved` | src/forums/forums-command.service.ts:1278-1313 | The serial condition is needed: an interleaving that creates a child between the descendant check and the update ends in conflicting roles |
| `PostTree.ThreadBuilder.MapNodes` | src/forums/forums-read.service.ts:669-674 | Registers one node per row |
| `PostTree.ThreadBuilder.LinkNodes` | src/forums/forums-read.service.ts:676-698 | Pushes every node to its parent's replies or to the roots, in row order |
| `PostTree.ThreadBuilder.SortRepliesChronologically` | src/forums/forums-read.service.ts:750-756 | The recursive in-place sort terminates on any links reached from a root and sorts every list below |
| `PostTree.ThreadBuilder.ToPostTree` | src/forums/forums-read.service.ts:785-806 | Renders the node and all its replies as laid out |
| `PostTree.BuildPostTree` | src/forums/forums-read.service.ts:661-806 | For every row set with distinct ids: the forest reads, list by list, as exactly the rows that name that parent (or no stored post), older `createdAt` first and then in id order, deleted rows without content |
| `PostTree.LinksAreHangs` | src/forums/forums-read.service.ts:676-698 | A row is linked under the stored post its columns name as a `POST` parent, and otherwise stands on top |
| `PostTree.ForestHoldsExactlyTheRooted` | src/forums/forums-read.service.ts:661-707 | The flattened forest holds a row once if its parent walk reaches a root, and otherwise not at all |
| `PostTree.ThreadIsLossless` | src/forums/forums-read.service.ts:661-806 | Each row is shown exactly once, except exactly those on or below a parent cycle; every list reads oldest first, `createdAt` then id, and deleted rows show no content |
| `ReachableThreads.ThreadShowsEveryPost` | src/forums/forums-command.service.ts:1465-1519 | In every well-formed forum the thread of a topic shows each of its posts exactly once and nothing else |
| `ReachableThreads.EveryReachableThreadIsComplete` | src/forums/forums-command.service.ts:1465-1519 | The same in every state any interleaving of commands reaches |
| `ReachableThreads.ThreadReads` | src/forums/forums-read.service.ts:661-806 | In a well-formed forum every list of a thread is exactly the stored posts of the topic that answer that post (or none), oldest first, each with its author and its content, or none when deleted |
| `ReachableThreads.EveryReachableThreadReads` | src/forums/forums-read.service.ts:661-806 | The same in every state any interleaving of commands reaches |
| `ReplyImport.FateStep` | src/forums/import/vanilla-import.service.ts:254-344 | A reply's fate follows from its parent's fate and its own author and write |
| `ReplyImport.TopmostBadDecides` | src/forums/import/vanilla-import.service.ts:254-344 | The topmost reply of a chain that is unmatched or whose write throws decides: unmatched, it and all below are skipped as unmatched; otherwise it fails, and all below are skipped for the failure |
| `ReplyImport.GoodChainIsImported` | src/forums/import/vanilla-import.service.ts:274-292 | A reply whose whole chain is matched and written is imported as the post its own write created |
| `ReplyImport.FateCases` | src/forums/import/vanilla-import.service.ts:254-344 | There is no other case: a chain that never reaches the topic makes a reply unavailable, and any other chain is good or has a topmost bad reply |
| `ReplyImport.ImportedIffChainGood` | src/forums/import/vanilla-import.service.ts:254-344 | A reply is imported exactly when its parent chain reaches the topic through replies with matched authors and successful writes, itself included |
| `ReplyImport.ReplyImporter.ImportBranch` | src/forums/import/vanilla-import.service.ts:254-312 | Handles one branch depth first; everything reached is reported with its fate |
| `ReplyImport.ReplyImporter.SkipReplyBranch` | src/forums/import/vanilla-import.service.ts:649-664 | Reports a branch root and everything unvisited below it as skipped |
| `ReplyImport.ReplyImporter.SkipReplyChildren` | src/forums/import/vanilla-import.service.ts:676-702 | Reports everything unvisited below a failed reply as skipped |
| `ReplyImport.ReplyImporter.SweepLeftovers` | src/forums/import/vanilla-import.service.ts:323-344 | After the branches, reports every reply with a missing or circular chain; the branch for an available parent is never taken |
| `ReplyImport.ReplyImporter.ImportReplyGraph` | src/forums/import/vanilla-import.service.ts:239-345 | Terminates on every reply graph, reports every reply exactly once with its fate, writes exactly the imported ones, and reports for each the post that was written |
| `ReplyImport.UnvisitedIsUnavailable` | src/forums/import/vanilla-import.service.ts:323-344 | A reply no branch reached has a missing or circular chain |
| `ReplyImport.ReportMeans` | src/forums/import/vanilla-import.service.ts:239-345 | A report holds one line for each recorded reply and no others |
| `ReplyImport.WritesMean` | src/forums/import/vanilla-import.service.ts:274-292 | Every write is for a different imported reply |
| `ReplyImport.WritesAreLinked` | src/forums/import/vanilla-import.service.ts:254-327 | Direct replies are written under the topic, every other reply under the post its parent's earlier write created |
| `PublicImportPlan.VerdictStep` | src/forums/import/public-vanilla-import.ts:68-89 | Verdicts from the rows: the root category is eligible; a category with a group, or named `challenges-forums` or `groups`, is excluded; any other has the verdict of its stored parent, or none |
| `PublicImportPlan.PublishedMeans` | src/forums/import/public-vanilla-import.ts:65-91 | Published are the eligible categories but the root; an inventory is unusable when one but the root has no verdict |
| `PublicImportPlan.CheckAncestry` | src/forums/import/public-vanilla-import.ts:68-89 | The walk over one category's ancestors terminates and decides: eligible, excluded, or an error that names the reason: a repeated category, one without a parent, or a parent that is not stored |
| `PublicImportPlan.PublicCategories` | src/forums/import/public-vanilla-import.ts:65-91 | Fails exactly if some category's walk meets a missing or repeated ancestor before a verdict; the error names what that walk met; otherwise returns exactly the published categories, in ascending `Sort` order |
| `PublicImportPlan.SelectionIsClosed` | src/forums/import/public-vanilla-import.ts:65-91 | What is returned is closed under parents and acyclic |
| `PublicImportPlan.PlanTopics` | src/forums/import/public-vanilla-import.ts:320-428 | Plans each category and then each discussion, in order, under its parent, or fails exactly on parents outside the selection |
| `PublicImportPlan.PlannedMeans` | src/forums/import/public-vanilla-import.ts:320-428 | The planned parents, row by row: a category under the root becomes a root topic, any other goes under the topic of its parent column, a discussion under the topic of its category; nothing else is planned |
| `PublicImportPlan.ExcludedParentUnreachable` | src/forums/import/public-vanilla-import.ts:320-335 | On a returned selection the excluded-parent error cannot occur |
| `PublicImportPlan.PlanIsSound` | src/forums/import/public-vanilla-import.ts:320-428 | The planned topics have stored, acyclic parents |
| `PublicImportPlan.PlanClosure` | src/forums/import/public-vanilla-import.ts:466-482 | The unguarded closure loop terminates and emits exactly the ancestor rows, each once |
| `PublicImportPlan.BatchIsIncremental` | src/forums/forums-command.service.ts:1427-1453 | The emitted rows equal those of inserting the same topics one by one, parents first, with `createClosureRows` |
| `PublicImportPlan.ParentFirstOrder` | src/forums/import/public-vanilla-import.ts:466-482 | Every sound plan has a parents-first order |
| `PublicImportPlan.PlanPublicTopics` | src/forums/import/public-vanilla-import.ts:65-482 | Selection, topics and index together: fails exactly on a broken inventory or a discussion outside the selection, and otherwise yields a sound plan with the index rows of parents-first insertion |
| `PublicImportPlan.GuardAgainstCycle` | src/forums/import/public-vanilla-import.ts:445-451 | The reply walk terminates and rejects exactly the chains that run into a cycle |
| `PublicImportPlan.PlanComments` | src/forums/import/public-vanilla-import.ts:432-465 | Accepts a snapshot exactly if every comment is fine; otherwise the error is a true complaint about the first one that is not |
| `PublicImportPlan.OkWithoutComplaint` | src/forums/import/public-vanilla-import.ts:436-451 | A comment is fine exactly if its discussion is planned and, when its parent column is positive, it answers a comment of its own discussion and its parent columns do not run in a circle |
| `PublicImportPlan.AcceptedRepliesAreSound` | src/forums/import/public-vanilla-import.ts:436-465 | Accepted replies form acyclic links inside their discussion |
| `PublicImportWrite.Validate` | src/forums/import/public-vanilla-import.ts:591-631 | Succeeds exactly if no two entries of a table agree in all its key columns and every entry is either recorded and untouched or new in a free place; returns exactly the new entries, and an error names a true reason |
| `PublicImportWrite.PlaceMeans` | src/forums/import/public-vanilla-import.ts:597-606 | Two entries claim one place exactly if they are for the same table and agree in every key column of it |
| `PublicImportWrite.CleanMeans` | src/forums/import/public-vanilla-import.ts:608-631 | What is asked of one entry, column by column: a recorded one has the recorded source and, in the planned columns, a stored row as recorded; a new one finds its place free |
| `PublicImportWrite.AppliedWrites` | src/forums/import/public-vanilla-import.ts:632-657 | An accepted plan writes for each new entry its row, with defaults in the columns it leaves out, and a record of the row as source and target |
| `PublicImportWrite.AppliedKeepsPlaces` | src/forums/import/public-vanilla-import.ts:597-640 | Where plans supply their key columns, every stored row stays in the place its key columns name |
| `PublicImportWrite.InsertRows` | src/forums/import/public-vanilla-import.ts:632-657 | Inserts rows and provenance; fails exactly when the resulting tables violate a constraint or two new entries share a legacy origin |
| `PublicImportWrite.ImportTarget.WritePublicImport` | src/forums/import/public-vanilla-import.ts:566-682 | All or nothing: exactly when it succeeds, in terms of key columns, recorded rows, constraints and fingerprints; what each error means, what it counts, and the whole new state; a dry run changes nothing |
| `PublicImportWrite.AppliedKeepsRows` | src/forums/import/public-vanilla-import.ts:566-682 | Insert-only: no existing row or provenance record is changed or removed |
| `PublicImportWrite.AppliedHolds` | src/forums/import/public-vanilla-import.ts:591-657 | After an accepted plan each entry is recorded and in place as planned |
| `PublicImportWrite.SecondApplicationIsNoop` | src/forums/import/public-vanilla-import.ts:566-682 | Applying a plan again is accepted and inserts nothing |
| `PublicImportWrite.LargerPlanAccepted` | src/forums/import/public-vanilla-import.ts:566-682 | A larger plan passes validation and provenance keys after a smaller one exactly when it does without it |
| `PublicImportWrite.LargerPlanConverges` | src/forums/import/public-vanilla-import.ts:566-682 | A plan and then a larger plan end in the same tables as the larger plan alone |
| `PublicImportWrite.WritingTwiceIsWritingOnce` | src/forums/import/public-vanilla-import.ts:566-682 | For the writer as a whole, fingerprint gate and constraints included: a written plan is accepted again and writes nothing |
| `PublicImportWrite.WritingInStepsConverges` | src/forums/import/public-vanilla-import.ts:566-682 | For the writer as a whole: after a smaller plan a larger one is accepted exactly if it would have been alone, and both ways end in the same database |
| `PublicImportWrite.InsertOrderFree` | src/forums/import/public-vanilla-import.ts:632-657 | The order of the inserts does not matter |
| `PublicImportEntries.KeyIsThePair` | src/forums/import/public-vanilla-import.ts:470-477 | Planned index rows share a key exactly if both their topics agree |
| `PublicImportEntries.ClosureEntriesAreApart` | src/forums/import/public-vanilla-import.ts:466-482 | The index rows of any sound plan never share a key, nor, ids without a colon, an origin: the writer never refuses them as duplicates |
| `CanonicalJson.StringReadsBack` | src/forums/import/public-vanilla-import.ts:29-39 | Every string is recovered from its escaped form (RFC 8259, section 7; lone surrogates as escapes) |
| `CanonicalJson.EscapesMean` | src/forums/import/public-vanilla-import.ts:29-39 | Which unit is escaped how inside quotes (RFC 8259, section 7) |
| `CanonicalJson.HexEscapesMean` | src/forums/import/public-vanilla-import.ts:29-39 | Control units without a letter and single surrogates take four lower-case hex digits |
| `CanonicalJson.PairsStay` | src/forums/import/public-vanilla-import.ts:29-39 | A surrogate pair is kept as it is |
| `CanonicalJson.ShapesMean` | src/forums/import/public-vanilla-import.ts:29-39 | The words, brackets, braces, commas, colons and quotes of each kind of value |
| `CanonicalJson.KeyLessMeans` | src/forums/import/public-vanilla-import.ts:33-37 | Keys are ordered by the first code unit in which they differ, smaller first, and a key before its continuations |
| `CanonicalJson.CanonicalPrintsNorm` | src/forums/import/public-vanilla-import.ts:29-39 | The text built by sorting keys and joining is the key-sorted value, printed |
| `CanonicalJson.ReadsBack` | src/forums/import/public-vanilla-import.ts:29-39 | A printed value is read back whatever follows it |
| `CanonicalJson.CanonicalReadsBack` | src/forums/import/public-vanilla-import.ts:29-39 | A parser recovers the value from its canonical text, with the keys of every object in strictly ascending order |
| `CanonicalJson.CanonicalIsInjective` | src/forums/import/public-vanilla-import.ts:29-39 | Two values have the same canonical text exactly if they are the same value up to the order of object keys |
| `KeysetReader.RowsBehindElements` | src/forums/import/vanilla-source-reader.service.ts:217-310 | A query answers exactly the qualifying rows after the cursor |
| `KeysetReader.RemainingRows` | src/forums/import/vanilla-source-reader.service.ts:268-310 | Asking again from the last key read answers exactly what was not read yet |
| `KeysetReader.ReadAll` | src/forums/import/vanilla-source-reader.service.ts:217-310 | For every page size above zero and unique keys: every bookmarked (or viewed) row with a key above (0, 0), once, by ascending discussion and then user |
| `StateImport.StateImporter.ImportReadStates` | src/forums/import/vanilla-import.service.ts:438-526 | Every row reported once with its outcome; one write for each winning row |
| `StateImport.StateImporter.ImportWatches` | src/forums/import/vanilla-import.service.ts:353-430 | The same for watches, where the first row for a topic and member wins |
| `StateImport.WinnerFor` | src/forums/import/vanilla-import.service.ts:481-507 | Every target some row maps to has a winning row, with the latest read time |
| `StateImport.WinnersAgree` | src/forums/import/vanilla-import.service.ts:481-507 | No target has two winning rows |
| `StateImport.OutcomeMeans` | src/forums/import/vanilla-import.service.ts:353-526 | The outcome of each row, read off the rows: not imported, unmatched, superseded by a later or an equal earlier read, duplicate of an earlier watch, failed, or imported |
| `StateImport.CountsMean` | src/forums/import/vanilla-import.service.ts:353-526 | Each counter is the number of report lines of its kind |
| `StateImport.WritesAreReported` | src/forums/import/vanilla-import.service.ts:353-526 | Imported and failed lines together are as many as the writes |
| `StateImport.FirstWatchIsWritten` | src/forums/import/vanilla-import.service.ts:353-430 | Of the watches for one topic and member the one with the smallest key is written |
| `StateImport.SourcesMean` | src/forums/import/vanilla-source-reader.service.ts:217-310 | The rows a stage is about, read off the source table |
| `StateImport.CompletedWrites` | src/forums/import/vanilla-import.service.ts:438-526 | One write for each mapped topic and member, from a row that maps to it, with the maximum read time |
| `StateImport.CompletedReport` | src/forums/import/vanilla-import.service.ts:438-526 | Rows read = imported + skipped + failed, and every row has its line |
| `StateImport.ImportStage` | src/forums/import/vanilla-import.service.ts:353-526 | From the source table, for any page size, to the writes: reader and importer together, with balanced counters |
| `Watches.IsWatchingMeans` | src/forums/resource-access.service.ts:132-156 | A member watches by explicit choice, or else exactly if some assignment of theirs to the challenge is as a submitter or a copilot |
| `Watches.GetWatcherMemberIds` | src/forums/challenge-forum-watch.service.ts:119-132 | The list built from defaults and choices holds exactly the members `isWatching` calls watching |
| `Watches.AdjustedIsWatching` | src/forums/challenge-forum-watch.service.ts:97-132 | After all choices are applied, membership equals the single-member test |
| `Watches.ApplyChallengeWatch` | src/forums/forums-read.service.ts:333-346 | Rows without an explicit choice get the inherited flag; the others keep theirs; guests and machines inherit nothing |
| `Watches.NotifiedMeans` | src/forums/forums-watch-notification.service.ts:222-263 | Who is told of a post, read off the watch rows: not its author, no one who muted the topic, and otherwise who watches the topic, the forum of its challenge, or something above |
| `Watches.NotifiedIsShown` | src/forums/forums-watch-notification.service.ts:222-263 | A member other than the author is told of a post exactly when the topic shows them as watching, or they made no choice for it and watch something above it |
| `Watches.NoChallengeToInherit` | src/forums/forums-topic-context.service.ts:207-214 | Where challenge topics stand alone, a topic without a challenge inherits none |
| `Watches.ChallengeWatchersAgree` | src/forums/forums-watch-notification.service.ts:222-263 | On every challenge topic of every reachable state: shown as watching, and not the author, exactly if told |
| `ListReads.FilterVisibleRows` | src/forums/forums-read.service.ts:414-451 | Judges each row by the target of the first row with the same signature, in order |
| `ListReads.FaithfulIffNoCollision` | src/forums/forums-read.service.ts:414-451 | The filter equals the per-row filter under every policy exactly if no two rows share a signature but not a target |
| `ListReads.SeparableIdsDoNotCollide` | src/forums/forums-read.service.ts:528-537 | Unique topic ids without a separator never collide |
| `ListReads.SeparatorsMislead` | src/forums/forums-read.service.ts:414-451 | With a separator inside ids, a filter run shows a row its policy denies |
| `ListReads.ListsAreExact` | src/forums/forums-read.service.ts:460-502 | The root and child lists show exactly the allowed rows |
| `ListReads.VisibleSplits` | src/forums/forums-read.service.ts:414-451 | The per-row filter reads a list part by part, in order |
| `ListReads.PageMeans` | src/forums/forums-read.service.ts:547-571 | Which rows a page holds; a missing or non-positive number or size reads as page 1 and size 10 |
| `ListReads.PagesCoverTheList` | src/forums/forums-read.service.ts:547-571 | Pages 1..totalPages give back the list in order, each but the last full; later pages are empty |
| `ListReads.ReadWholeList` | src/forums/forums-read.service.ts:414-571 | Turning all pages shows each visible row once, in order |
| `ListScopes.ChildTargetIsContext` | src/forums/forums-read.service.ts:479-502 | A child in a list is judged by exactly the effective restrictions and conflict flag of its own context |
| `ListScopes.RootTargetIsContext` | src/forums/forums-read.service.ts:460-469 | So is a listed root |
| `Rollups.IndexedThreadsAreVisible` | src/forums/public-forums-query.service.ts:37-56 | The thread query through the index selects exactly the visible threads |
| `Rollups.RoleVisibleIsPolicy` | src/forums/public-forums-query.service.ts:41-47 | The role filter of the query agrees with the central policy asked about the role alone |
| `Rollups.VisibleThreadsCount` | src/forums/public-forums-query.service.ts:37-56 | A thread is selected exactly if it is live, no category, without a challenge, directly in an authorised category, and its role passes the central policy |
| `Rollups.SumCountsMembers` | src/forums/public-forums-query.service.ts:64-131 | Counts summed over groups are the size of the union of the groups |
| `Rollups.LatestIs` | src/forums/public-forums-query.service.ts:64-131 | There is exactly one latest post |
| `Rollups.LatestInStages` | src/forums/public-forums-query.service.ts:64-131 | The latest of the picked posts is the latest of all, if every post has a no-earlier stand-in |
| `Rollups.PicksRepresent` | src/forums/public-forums-query.service.ts:64-131 | Each post is represented by the latest one of its author in its direct category |
| `Rollups.StagedIsDirect` | src/forums/public-forums-query.service.ts:64-131 | The staged rollup equals direct aggregation over the visible threads of the category and its authorised descendants, column by column |
| `Rollups.RollupMeans` | src/forums/public-forums-query.service.ts:64-131 | The columns of the staged query, told from threads, posts and read states alone: counts, newest post by (createdAt, id), and unread |
| `Rollups.PreviewMeans` | src/forums/public-forums-query.service.ts:64-131 | The preview of the staged query: at most five authors, each once and with their newest post, latest first, nobody left out having posted later |
| `Rollups.RankedIsTop` | src/forums/public-forums-query.service.ts:64-131 | The participant preview is the five latest, latest first |
| `Rollups.ParticipantsAreAuthors` | src/forums/public-forums-query.service.ts:64-131 | The participant count is the number of distinct authors |
| `WorkerPool.TurnInv` | src/forums/forums-watch-notification.service.ts:393-416 | Every turn of every worker keeps the protocol invariant |
| `WorkerPool.BoundedAndClaimedOnce` | src/forums/forums-watch-notification.service.ts:393-416 | In every scheduling each index is claimed exactly once, in order, and at most max(concurrency, 1) calls are in flight |
| `WorkerPool.PoolIsFilled` | src/forums/forums-watch-notification.service.ts:393-416 | The bound is used: after one turn each, min(max(concurrency, 1), items) calls are in flight |
| `WorkerPool.StoppedOutcome` | src/forums/forums-watch-notification.service.ts:393-416 | When all workers have stopped, the pool fails exactly if some call failed, and otherwise every result is in place |
| `WorkerPool.EveryScheduleDelivers` | src/forums/forums-watch-notification.service.ts:393-416 | The same for every complete schedule |
| `WorkerPool.TurnProgress` | src/forums/forums-watch-notification.service.ts:393-416 | Every turn of a worker that has not stopped brings the end nearer |
| `WorkerPool.RunsAreBounded` | src/forums/forums-watch-notification.service.ts:393-416 | At most two turns per item and one per worker |
| `WorkerPool.Pool.TakeTurn` | src/forums/forums-watch-notification.service.ts:400-412 | The shared counter and buffer change exactly as the protocol says |
| `WorkerPool.MapWithBoundedConcurrency` | src/forums/forums-watch-notification.service.ts:393-416 | However the scheduler interleaves: the results in item order if every call succeeds, otherwise the error of a call that failed |

## Left out

- Controllers, data transfer objects, modules, configuration, health checks and the generated database client: wiring.
- Token verification, scopes, machine-to-machine clients, the event bus, email payloads and URL normalisation: library and network code.
- Postgres isolation levels, collation and time zones; foreign keys and column checks other than the keys named above.
- The bodies of external lookups: challenge, resource, identity and member services are functions of their arguments.
- Text normalisation (`normalizeForumRoleName`, handle snapshots, `publicMarkdown`): stored values are taken as normalised.
- Ban creation and removal, member and IP ban import: shallow next to the rest; ban decisions are inputs.
- Authorization of posts, reactions, watches, read states and locks: these commands are admitted in any form, so the run theorems hold for every rule about them; their transactions are modelled in full.
- Lock rules under interleaving: their checks run before the transaction, so nothing is claimed about them beyond authorization.
- Notifications after a commit do not change stored state and are not part of a command's step; recipients' email and ban lookups are the mapper of the pool.
- Copilot badges, reaction counts and titles of threads and summaries: projections without a rule of their own.
- Search, sorting options and paging of the public topic page: declarative queries over the visible threads already modelled.
- Permission translation, starter posts, members and subscriptions of the public import plan, and planned column values: field copies; the topics, their parents, closure rows and replies are modelled.
- Objects with undefined fields and dates in the canonical text: undefined fields are dropped and dates are their ISO strings before the value is a JSON value.
- `ForumStore`: rows are kept in maps by primary key, so row order and physical layout are not captured.
- PublicImportWrite.InsertRows: constraints are checked once on the final tables, not statement by statement; which constraint fails is not told.
- StateImport.StateImporter.ImportReadStates: holds the position of a row instead of a copy of it; rows are not changed after they are read.
- CommandRuns.HiddenSubtreeIsFrozen: leaves lock columns and `updatedAt` of hidden topics out, because lock commands do not check liveness in their transaction.
- RestrictionRuns.SerialRunsNeverConflict: speaks of live topics, because the descendant check ignores deleted ones.
