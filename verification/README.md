# Kalypso Scheduler: a verified model

Kalypso Scheduler turns workloads, cluster types, scheduling policies and configuration into the files of a GitOps
repository. Its work is done by a chain of reconcilers: a workload yields deployment targets, a policy assigns targets
to cluster types, an assignment yields a package of manifests, and the packages of a namespace become a Git tree that is
offered in a pull request. This project models that chain with the Kubernetes API server and GitHub replaced by plain
stores, and proves what the chain keeps, where it converges, and what the published tree finally holds.

## Structure

Code that changes things step by step is a class or a method with loops, proved against a specification function; what
the operator promises is then proved about that function.

| part | imperative model | specification and laws |
|---|---|---|
| configuration | `ConfigLayout` and `ConfigHeap` (in-place merge on an object graph), `ConfigStore`, `ConfigCollection`, `ConfigLabels` | `ConfigValues` (pure merge), `MergeLaws`; `ConfigSharing` (what happens outside the merge's precondition) |
| scheduling | `Scheduling`, `PolicyReconciler` | `PolicyPlan` (one policy), `PolicyRounds` (all policies of a namespace) |
| workloads | `WorkloadReconciler` | `WorkloadPlan` (one workload), `WorkloadRounds` (all workloads of a namespace) |
| assignments | `AssignmentReconciler` | `PackagePlan` (packages and readiness), `IssueProtocol` (issues against recorded status) |
| pull requests | `PullRequestReconciler`, `RepoContents` | `PullRequestProtocol` (a timed state machine) |
| Git tree | `TreePublisher`, `Manifests` | `TreeChanges` (which changes), `PublishedTree` (what they make of a tree) |
| the whole chain | | `EndToEnd` |

`Api`, `ApiServer`, `Basics` and `Text` hold the shared objects, the failing server, result types, and string splitting, joining and ordering.

A call to the API server or to GitHub is a parameter: each reconcile takes the outcome of every call it makes, so every
theorem about "any failure" ranges over all of them. Lists come in any order, and loops over Go maps pick their next key
arbitrarily. YAML decoding is an arbitrary function, hashes are injective functions where a theorem needs it, and label
selectors are arbitrary predicates on labels.

## Results that are not as one might expect

Where the code does not do what its comments or names suggest, the code was followed, and the exact condition is proved.

- Configuration layers cannot be regrouped freely: a scalar between two maps is resurrected or lost. `AssociativeIff` gives
  the exact condition, on keys and names alone. Applying a layer twice changes nothing only if its arrays hold maps
  (`IdempotentIff`).
- `getTree` says that it deletes the files that are not in the content, but it deletes by folder. A file of an earlier
  configuration type stays under its target (`OldConfigurationStays`); `OnlyGeneratedIff` says when nothing is left over.
- Condition times are stored in whole seconds, so two pull requests can be less than the timeout apart in real time
  (`CloserThanTheTimeout`, `AlwaysApartIff`). A lost status write, or a label that cannot be set on a new pull request,
  repeats the pull request (`LostWriteRepeatsPullRequest`, `FailedLabelRepeatsPullRequest`). An attempt that closes the
  earlier pull request and then creates none leaves no pull request open once the content reverts
  (`RevertedAttemptLeavesNone`). `StepInStepIff` and `RunInStepIff` give the exact condition under which the status names
  the latest pull request and that one stands.
- A lost status write duplicates an issue and a failed read orphans one. With every call going through, deleting a failing
  assignment forgets its issue, and selecting its pair again opens a second one (`DeletionDuplicatesIssue`).
  `StepConsistentIff`, `DeletionConsistentIff` and `RunConsistentIff` give the exact condition, for reconciles and deletions.
- A new map merged into two existing maps of its name leaves its nested values in both (`MergeIntoTwo`), so the next layer
  adds to a shared list twice (`NamesakesDouble`), where by value it adds once (`LayersByValue`).
- The policies of a namespace need not settle. Assignment names do not contain the policy, so two policies that select the
  same pair never settle together (`OverlapNeverSettles`), and dashes in names can make different pairs collide
  (`NamesCollide`). `PolicyRounds.SettlesIff`: a quiescent state exists if and only if all selectors are valid, no two policies
  select the same pair and no two selected specs share a name; for the last it is enough that the names of workloads and
  cluster types have no dashes (`DashFreeInjective`).
- Nor need the workloads of a namespace. A target is named after workload and detail with a dash between them, so targets of
  two workloads can have one name if and only if one workload's name, with its dash, begins the other's
  (`TargetNamesMeetIff`), and then neither gives way (`MeetingNeverSettles`). `WorkloadRounds.SettlesTogetherIff`: all can be
  settled at once if and only if workspaces are known, details of one name agree, and no two workloads have details for one
  target name.
- A detail that moves to another environment keeps its old target (`MovedDetailLeavesTarget`); `LabelledTargetsExact` says
  exactly which targets are left. Details of one name that disagree never settle (`WorkloadPlan.SettlesIff`).

## Model

| member | source | states |
|---|---|---|
| ConfigHeap.MergeObjects | controllers/assignment_controller.go:391-446 | The in-place merge terminates and leaves an unshared graph that denotes the deep merge of the two values, whatever order the new map's keys are visited in; slices and maps that take in another one stay where they are; it writes only objects of the existing graph, unless arrays of the new value repeat names |
| ConfigHeap.MergeArrays | controllers/assignment_controller.go:393-422 | The array branch: the existing slice ends up as the element-by-element merge |
| ConfigHeap.MergeElement | controllers/assignment_controller.go:398-416 | One new element is merged into every map of its name, or appended; the scan sees elements appended before |
| ConfigHeap.MergeMaps | controllers/assignment_controller.go:425-441 | The map branch: keys of both maps, common ones merged recursively, in any visiting order; values that only the new map has are linked, not copied |
| ConfigValues.WellFormedMergeable | controllers/assignment_controller.go:391-446 | Values whose arrays hold at most one map per scalar name always meet the precondition of the in-place merge |
| ConfigSharing.MergeIntoTwo | controllers/assignment_controller.go:404-413 | A well-formed new map merged into two existing ones, as the scan does with namesakes: both get the right value, and entries that only the new map has are one node in both |
| ConfigSharing.NamesakesDouble | controllers/assignment_controller.go:391-446 | Two layers over two maps of one name: the list of the second layer ends up twice in the shared list |
| ConfigSharing.LayersByValue | controllers/assignment_controller.go:391-446 | By value it would be there once |
| ConfigValues.MergeItemAt | controllers/assignment_controller.go:404-413 | With unique names the scan replaces exactly one element and keeps the order |
| ConfigValues.NameDecides | controllers/assignment_controller.go:404-416 | Two maps with the same scalar under `name`, or both without one, become one array element; with different ones they stay two, in order |
| ConfigValues.FieldsDecide | controllers/assignment_controller.go:425-446 | A merged map has the keys of both; a key of one side keeps its value, values of one kind are merged, and otherwise the newer one wins |
| ConfigValues.MergeWellFormed | controllers/assignment_controller.go:391-446 | Merging keeps array names scalar and unique, at every depth |
| ConfigValues.AtMergeItems | controllers/assignment_controller.go:393-422 | After an array merge, looking a name up gives the merge of what the two arrays had under it |
| MergeLaws.AssociativeIff | controllers/assignment_controller.go:391-446 | Three layers may be regrouped if and only if, wherever a middle layer of another kind stands between two layers of one kind, the last overrides all keys and leading elements of the first |
| MergeLaws.CoversIff | controllers/assignment_controller.go:391-446 | A layer hides the one below entirely if and only if it has all its keys and its leading array elements, name by name |
| MergeLaws.CompatibleLayersAssociate | controllers/assignment_controller.go:391-446 | Layers that agree on kinds wherever they overlap may be regrouped, element order included |
| MergeLaws.MergeKindCompatible | controllers/assignment_controller.go:391-446 | What agrees in kind with two layers agrees with their merge |
| MergeLaws.LayersRegroup | controllers/assignment_controller.go:493-503 | A stack of compatible layers may be cut anywhere and its halves merged separately |
| MergeLaws.SandwichedScalarBreaksRegrouping | controllers/assignment_controller.go:425-446 | Layers of different kinds for which regrouping changes the result |
| MergeLaws.IdempotentIff | controllers/assignment_controller.go:397-444 | Applying a layer again changes nothing if and only if its arrays hold maps only, at every depth and for any base |
| ConfigStore.ConfigData.Add | controllers/assignment_controller.go:495-502 | A parsed value is stored under a new key or merged in place into what the key holds; other keys are untouched |
| ConfigStore.Materialize | controllers/assignment_controller.go:455-469 | Any decoded value is a fresh unshared graph, as the merge needs it |
| ConfigLabels.IsConfigForClusterTypeAndTarget | controllers/assignment_controller.go:574-616 | The loop with its early breaks accepts exactly if every label holds on its own, in any visiting order |
| ConfigLabels.OperatorLabelsIrrelevant | controllers/assignment_controller.go:578 | The two Flux owner labels and `platform-config` make no difference to whether a config map applies |
| ConfigLabels.NoLabelsApply | controllers/assignment_controller.go:575-615 | A config map without labels applies to every cluster type and target |
| ConfigLabels.OneMoreLabel | controllers/assignment_controller.go:579-609 | Any further label narrows the config map to one cluster type, one target, one workload, or to pairs of which either object carries the value, a missing label reading as empty |
| ConfigLabels.GetLabelsFromKey | controllers/assignment_controller.go:557-572 | The labels and the bare key are the pairs of the dotted parts and the last part |
| ConfigLabels.ParsePrintedKey | controllers/assignment_controller.go:557-572 | Parsing `l1.v1. … .key` gives back exactly its conditions and its key |
| ConfigLabels.StrayPartIgnored | controllers/assignment_controller.go:564-569 | A part left over before the key is neither a condition nor part of the key |
| ConfigLabels.LastConditionCounts | controllers/assignment_controller.go:564-568 | Of several conditions on one label the last counts |
| ConfigLabels.ConditionOrderIrrelevant | controllers/assignment_controller.go:557-572 | Two orders of the same conditions parse to the same labels |
| ConfigLabels.KeyAppliesIff | controllers/assignment_controller.go:557-616 | A key with several conditions applies if and only if each condition applies as a key of its own |
| ConfigCollection.CollectPlatformConfig | controllers/assignment_controller.go:482-505 | After the platform phase each key holds the left-to-right merge of the parsed values that the applicable maps supply for it, in name order, and no other key exists |
| ConfigCollection.QuotedText | controllers/assignment_controller.go:449-453 | A text in single quotes stands for what is inside, without the quotes and the blanks around them, whatever it would decode to |
| ConfigCollection.LoneQuote | controllers/assignment_controller.go:450-453 | A single quote alone stands for the empty text |
| ConfigCollection.UnquotedText | controllers/assignment_controller.go:455-470 | Any other text is the array or map that it decodes to, or else stays itself, blanks included |
| ConfigCollection.BlankText | controllers/assignment_controller.go:455-470 | A blank text is treated like any unquoted one |
| ConfigCollection.NameOrderUnique | controllers/assignment_controller.go:484-487 | With unique names, sorting yields the same sequence for every order in which the API lists the maps |
| ConfigCollection.CollectAzureConfig | controllers/assignment_controller.go:517-536 | The applicable keys of one map are merged under their bare names, shorter keys first, onto what was there |
| ConfigCollection.LongestKeyLast | controllers/assignment_controller.go:522-536 | Of the applicable keys for a name, one of the longest is merged last, however the sort breaks ties |
| ConfigCollection.LongestScalarWins | controllers/assignment_controller.go:514-538 | If the longest applicable keys hold scalars, one of these is the final value and overrides everything before it |
| ConfigCollection.GetConfigData | controllers/assignment_controller.go:474-555 | The whole collection: every name holds exactly the merge of what the platform maps (labelled `platform-config=true`, in name order) and then the Azure maps (named `azure-app-config…`, shorter keys first) supply; a failed listing yields nothing |
| ConfigCollection.PlainMapSupplies | controllers/assignment_controller.go:476-505 | A platform map without further labels supplies its keys for every cluster type and target |
| ConfigCollection.GreatestNameWins | controllers/assignment_controller.go:484-505 | Without Azure keys for a name, the applicable platform map that comes last by name has the final say if its value is a scalar |
| ConfigCollection.AzureWins | controllers/assignment_controller.go:514-538 | The last Azure map with applicable keys for a name comes after everything else, and one of its longest keys has the final say if they hold scalars |
| Text.LessAtDifference | controllers/assignment_controller.go:485-487 | In the name order the first difference decides, and a proper prefix comes first |
| ConfigCollection.CollectionDetermined | controllers/assignment_controller.go:482-505 | The result does not depend on the listing order of the platform maps or on the order in which keys are visited |
| ConfigCollection.WellFormedCanCollect | controllers/assignment_controller.go:482-538 | The collection can be merged in place whenever the texts of the config maps parse to well-formed values |
| Scheduling.Scheduler.SelectClusterTypes | scheduler/scheduler.go:69-79 | The selected cluster types are the compliant ones in order |
| Scheduling.Scheduler.SelectDeploymentTargets | scheduler/scheduler.go:82-92 | The selected targets are the compliant ones in order |
| Scheduling.Scheduler.Schedule | scheduler/scheduler.go:112-136 | The assignments are the matrix of the selected types and targets |
| Scheduling.Scheduler.RowsSplit | scheduler/scheduler.go:127-133 | The matrix goes row by row, one cluster type after the other |
| Scheduling.Scheduler.RowAt | scheduler/scheduler.go:128-131 | And a row lists the targets in their order |
| Scheduling.Scheduler.ScheduleExact | scheduler/scheduler.go:95-161 | A spec is scheduled if and only if the policy selects its cluster type and its target, workspace included |
| Scheduling.Scheduler.ScheduleLabels | scheduler/scheduler.go:139-161 | Every assignment carries the policy's label and the name `workload-target-clustertype` of its spec |
| Scheduling.Scheduler.ScheduleDistinct | scheduler/scheduler.go:127-133 | With unique object names no spec is scheduled twice |
| PolicyPlan.ScheduledExact | scheduler/scheduler.go:50-136 | A policy schedules a spec if and only if both selectors are valid and match the cluster type and a target of this environment and workspace |
| Scheduling.NamesCollide | scheduler/scheduler.go:140 | Two different specs that are given the same name |
| Scheduling.DashFreeNamesInjective | scheduler/scheduler.go:140 | If the names of workload and cluster type have no dashes, the name determines the spec, whatever the target is called |
| PolicyReconciler.Reconciler.Reconcile | controllers/schedulingpolicy_controller.go:63-193 | With any call failing: only stale assignments go and only missing ones come; Ready is reported only for the finished store. Without failures it succeeds, and is Ready, exactly if the selectors convert and no needed name is taken, and otherwise stops at the first taken name with everything stale gone; without valid selectors the store stays as it is |
| PolicyReconciler.Reconciler.Apply | controllers/schedulingpolicy_controller.go:127-177 | List, delete and create: it ends with the target store exactly if no needed name is taken, or on the way to it |
| PolicyReconciler.Reconciler.DeleteStale | controllers/schedulingpolicy_controller.go:134-151 | The nested search deletes exactly the listed assignments whose spec is not scheduled, or stops after some of them |
| PolicyReconciler.Reconciler.CreateMissing | controllers/schedulingpolicy_controller.go:153-177 | With lookups in the snapshot taken before the deletes, exactly the unheld specs are created, or a prefix of them |
| PolicyPlan.Recovery | controllers/schedulingpolicy_controller.go:134-177 | From a store left after any part of the deletes or creates, the next reconcile can finish and reaches the store of an uninterrupted one |
| PolicyPlan.Converged | controllers/schedulingpolicy_controller.go:134-186 | The finished store holds under the policy's label exactly the scheduled specs |
| PolicyPlan.CreatableByNames | controllers/schedulingpolicy_controller.go:153-177 | Whatever is stale, nothing stands in the way of the creates if the policy's own assignments are named by the scheduler, scheduled names are distinct, and no other policy holds one of them |
| PolicyPlan.Idempotent | controllers/schedulingpolicy_controller.go:134-177 | A second reconcile deletes nothing and creates nothing |
| PolicyPlan.OthersUntouched | controllers/schedulingpolicy_controller.go:128-177 | Wherever a reconcile stops, assignments of other policies are as they were, and none has been added |
| PolicyPlan.RetriesConverge | controllers/schedulingpolicy_controller.go:63-193 | After any number of interrupted reconciles the next full one ends with exactly the selected pairs and nothing to do |
| PolicyRounds.RoundSettles | controllers/schedulingpolicy_controller.go:128-186 | One failure-free round over all policies settles every one: no reconcile undoes another's work |
| PolicyRounds.OverlapNeverSettles | controllers/schedulingpolicy_controller.go:128-177 | Two policies that select the same pair are never both settled, because assignment names leave out the policy |
| PolicyRounds.CleanRound | controllers/schedulingpolicy_controller.go:128-186 | If nothing is stale, policies are disjoint and names injective, a round goes through and ends quiescent |
| PolicyRounds.TwoRoundsSuffice | controllers/schedulingpolicy_controller.go:128-186 | With disjoint policies and injective names, from any store whose assignments are named by the scheduler and belong to existing policies, two rounds suffice, even if every reconcile of the first, after its deletes, stops at some create because a name is still taken |
| PolicyRounds.SettlesIff | controllers/schedulingpolicy_controller.go:128-186 | The policies of a namespace can settle if and only if selectors are valid, no two policies select the same pair, and no two selected specs share a name |
| PolicyRounds.DashFreeInjective | scheduler/scheduler.go:140 | Then no two selected specs of a namespace share a name |
| PolicyRounds.StoreExact | controllers/schedulingpolicy_controller.go:97-177 | A quiescent store holds an assignment for a spec if and only if some policy selects it |
| WorkloadReconciler.Reconciler.Reconcile | controllers/workload_controller.go:48-189 | With any call failing: only unmatched labelled targets go and only details of this environment are written; Ready is reported only for the finished store; without failures it succeeds exactly if the workspace is known, no needed name is held by others, and earlier details of a repeated name change nothing, and otherwise stops at the first detail that cannot be written; a Flux owner name without a dash stops it before the first write |
| WorkloadReconciler.Reconciler.DeleteStale | controllers/workload_controller.go:79-97 | Exactly the labelled targets that match no detail name, or carry another environment, are deleted, or some of them |
| WorkloadReconciler.Reconciler.Compose | controllers/workload_controller.go:137-156 | The target of a detail: schemas appended once, detail labels overridden by workload labels and by the operator's own |
| WorkloadReconciler.Reconciler.WriteDetails | controllers/workload_controller.go:101-172 | Found targets are updated, others created, with lookups in the snapshot taken before the deletes; the update of a target that was deleted or changed since is refused |
| WorkloadReconciler.Reconciler.GetWorkspaceLabel | controllers/workload_controller.go:195-212 | The workspace of the registration that the Flux owner label names, if it can be read; it panics exactly if that name has no dash |
| WorkloadPlan.WorkspaceOfOwner | controllers/workload_controller.go:199-207 | A Flux owner `p-r`, with no dash in p, names the registration r, whatever dashes that has; its workspace becomes the label of every target, and an unknown registration yields none |
| WorkloadPlan.WorkspaceWithoutOwner | controllers/workload_controller.go:196-201 | Without an owner the workspace is empty, and an owner without a dash has none |
| WorkloadPlan.EveryDetailHasItsTarget | controllers/workload_controller.go:101-170 | Each detail of this environment, the last of its name, has its target, with the detail's spec, the detail's schemas followed by the workload's (however often it is reconciled), and the label that keeps it discoverable |
| WorkloadPlan.LabelsComposed | controllers/workload_controller.go:143-156 | Which of the label sources wins for every key, and that there are no other keys |
| WorkloadPlan.LabelledTargetsExact | controllers/workload_controller.go:79-172 | Exactly which labelled targets remain |
| WorkloadPlan.MovedDetailLeavesTarget | controllers/workload_controller.go:84 | A detail moved to another environment keeps its old target here |
| WorkloadPlan.TargetNamesMeetIff | controllers/workload_controller.go:191-193 | Targets of two workloads can be given one name if and only if one workload's name, with its dash, begins the other's |
| WorkloadPlan.Recovery | controllers/workload_controller.go:79-172 | From a store left half-way, the next reconcile can finish and reaches the same store |
| WorkloadPlan.SecondRunHeals | controllers/workload_controller.go:79-172 | A target stored under the wrong environment fails one reconcile, after its deletion; the next one succeeds with the intended result |
| WorkloadPlan.AchievableIff | controllers/workload_controller.go:79-172 | With distinct details a reconcile can succeed if and only if the workspace is known and each target name is free or held by a target with this workload's label and this environment |
| WorkloadPlan.Idempotent | controllers/workload_controller.go:79-172 | If details of one name agree, a second reconcile changes nothing |
| WorkloadPlan.SettlesIff | controllers/workload_controller.go:101-172 | After a success the next reconcile can succeed if and only if details of one name agree |
| WorkloadPlan.OthersUntouched | controllers/workload_controller.go:68-172 | Wherever a reconcile stops, targets without this workload's label are as they were |
| WorkloadRounds.MeetingNeverSettles | controllers/workload_controller.go:68-172 | Two workloads with details for one target name are never both settled |
| WorkloadRounds.SettlesTogetherIff | controllers/workload_controller.go:68-212 | The workloads of a namespace can all be settled if and only if their workspaces are known, details of one name agree, and no two workloads have details for one target name |
| WorkloadRounds.TwoRoundsSuffice | controllers/workload_controller.go:68-189 | If workspaces are known and details have distinct target names, then from any store whose targets belong to the workloads, and whatever writes are refused in a first round, a second round goes through and settles every workload |
| WorkloadRounds.StoreExact | controllers/workload_controller.go:101-172 | A settled store without leftovers holds exactly the targets of the details of this environment, each composed of detail, workload and workspace |
| AssignmentReconciler.Reconciler.Reconcile | controllers/assignment_controller.go:67-223 | All packages and all Ready conditions afterwards: the package is written exactly when there is nothing to report, only this assignment's condition changes, and it is Ready exactly if the package is written, an open issue can be closed and the status goes through; the issues take one step of the protocol |
| AssignmentReconciler.Reconciler.BuildPackage | controllers/assignment_controller.go:156-188 | The stored or a new package, filled field by field |
| PackagePlan.PackageExact | controllers/assignment_controller.go:156-199 | A reconcile whose build and calls succeed puts each list of manifests, the configuration's content type and the three labels in their places and keeps the other two content types; any other leaves all packages alone |
| AssignmentReconciler.Reconciler.UpdateGitHubIssue | controllers/assignment_controller.go:619-663 | GitHub is called only if the message hash differs from the recorded one |
| AssignmentReconciler.Reconciler.DeleteGitHubIssue | controllers/assignment_controller.go:666-672 | Reports the absence of a message and yields an empty status |
| AssignmentReconciler.Reconciler.UpdateIssue | scheduler/githubrepo.go:440-484 | Closing, creating and editing an issue; an issue that cannot be read counts as gone |
| PackagePlan.LivePackaged | controllers/assignment_controller.go:156-199 | Over every life of a namespace, with assignments created, deleted and reconciled in any order and any call failing, only existing assignments have packages, and one that is Ready has a package with the labels of its spec and the manifests that its latest successful reconcile built |
| IssueProtocol.StepConsistentIff | controllers/assignment_controller.go:619-672 | A reconcile keeps "at most one open issue, the recorded one" if and only if a write of an issue (news, with something to create, edit or close) is followed by a successful status write and a failed read of an open issue is not |
| IssueProtocol.WritesIssueIff | controllers/assignment_controller.go:635-652 | The issues change exactly if the hash differs from the recorded one, the calls go through, and there is something to create, edit or close |
| IssueProtocol.ReportWrites | scheduler/githubrepo.go:462-484 | From any state, a report that goes through puts title and message into the recorded issue, or opens a new one, and changes no other |
| IssueProtocol.CloseWrites | scheduler/githubrepo.go:442-459 | A success that goes through closes the recorded issue, keeps its text and empties the status |
| IssueProtocol.CallsMade | scheduler/githubrepo.go:440-484 | Without news GitHub is not called; a report takes one call, a closing a read and an edit |
| IssueProtocol.DeletionConsistentIff | controllers/assignment_controller.go:73-84 | Deleting an assignment keeps it if and only if no issue is recorded |
| IssueProtocol.RunConsistentIff | controllers/assignment_controller.go:67-256 | A run of reconciles and deletions over any number of assignments keeps it throughout if and only if each of its steps does |
| IssueProtocol.RunShowsLatest | controllers/assignment_controller.go:209-256 | With successful calls and no deletion of a failing assignment, after a failure the one open issue has the latest message, after a success or a deletion none is open |
| IssueProtocol.RepeatedFailureIsSilent | controllers/assignment_controller.go:619-663 | Reporting the same failure again makes no GitHub call and changes nothing |
| IssueProtocol.LostStatusDuplicatesIssue | controllers/assignment_controller.go:248-254 | A lost status write leads to a second issue for the same failure |
| IssueProtocol.FailedReadOrphansIssue | scheduler/githubrepo.go:444-449 | A failed read when closing leaves an issue open and forgotten |
| IssueProtocol.DeletionDuplicatesIssue | controllers/assignment_controller.go:73-84 | A failing assignment that is deleted and created again has its failure reported in two open issues, with every call going through |
| RepoContents.GetRepoContent | controllers/gitopsrepo_controller.go:245-298 | The nested content map and the main base repository; two main repositories are an error |
| RepoContents.PlacedExact | controllers/gitopsrepo_controller.go:255-276 | The content has an entry exactly for the labels that some package carries, and a folder exactly for the existing or named cluster types |
| RepoContents.PlacedValue | controllers/gitopsrepo_controller.go:269-276 | Where only one package spec claims an entry, the list order is irrelevant |
| RepoContents.PlacedLast | controllers/gitopsrepo_controller.go:269-276 | Where several packages claim an entry, the last one listed has it |
| RepoContents.BaseRepoExact | controllers/gitopsrepo_controller.go:278-295 | The content takes over the one base repository named `main`, and none if there is none; two are an error |
| PullRequestReconciler.Reconciler.Reconcile | controllers/gitopsrepo_controller.go:59-228 | The reconciler takes exactly the step of the protocol, whichever calls fail and however stale its copy is |
| PullRequestReconciler.Reconciler.CreatePullRequest | controllers/gitopsrepo_controller.go:143-190 | Announce, create, record, in that order, with a status write before the pull request |
| PullRequestReconciler.Reconciler.CreatePR | scheduler/githubrepo.go:98-124 | The earlier pull requests are closed before the new one is created and labelled; where the call fails decides which of these have happened |
| PullRequestReconciler.Reconciler.AllTrue | controllers/gitopsrepo_controller.go:86-112 | The readiness loops with their breaks decide whether all are ready |
| PullRequestProtocol.CreatesOnlyWhenSettled | controllers/gitopsrepo_controller.go:134-162 | A pull request is attempted only on the current version of the status, with everything ready, an unpublished hash and a mark older than the timeout |
| PullRequestProtocol.AttemptsIff | controllers/gitopsrepo_controller.go:86-162 | And it is attempted exactly then: everything seen ready, an unpublished hash, a mark more than three seconds old, and the calls before it going through |
| PullRequestProtocol.AttemptsAreAnnounced | controllers/gitopsrepo_controller.go:145-155 | Ready is persisted as false before GitHub is called, and stays so unless the pull request is recorded |
| PullRequestProtocol.HashChangesIff | controllers/gitopsrepo_controller.go:175-185 | The published hash changes, and Ready becomes true, exactly when a pull request is recorded |
| PullRequestProtocol.MarkComesIff | controllers/gitopsrepo_controller.go:192-210 | A mark is set exactly when everything is seen ready and the content is unpublished, to the whole second |
| PullRequestProtocol.MarkGoesIff | controllers/gitopsrepo_controller.go:180-223 | A mark goes away exactly when everything is seen ready and the content is the published one, or when a pull request is recorded, and it never moves |
| PullRequestProtocol.WritesMade | controllers/gitopsrepo_controller.go:134-223 | With everything ready the status is written once to set or remove a mark, twice around an attempt, and otherwise not |
| PullRequestProtocol.UnreadyIsSilent | controllers/gitopsrepo_controller.go:86-114 | Over any number of reconciles while a policy or an assignment is not ready, nothing is written and GitHub is not called |
| PullRequestProtocol.UnlistedIsReported | controllers/gitopsrepo_controller.go:82-123 | A listing that fails makes Ready false, and hash, mark and pull requests stay |
| PullRequestProtocol.StaleCopyIsHarmless | controllers/gitopsrepo_controller.go:145-155 | A reconcile on an outdated copy changes neither status nor pull requests |
| PullRequestProtocol.OnlyPublishedHashes | controllers/gitopsrepo_controller.go:151-189 | With any call failing at any step of any run, a persisted hash is the initial one or that of content whose pull request was created or reported to exist |
| PullRequestProtocol.PullRequestsAreSpaced | controllers/gitopsrepo_controller.go:134-210 | In every run whose created pull requests are recorded, neighbours carry different hashes and lie more than the timeout apart on the condition clock, even with stale copies |
| PullRequestProtocol.LatestRecordedIff | controllers/gitopsrepo_controller.go:160-189 | After a step the status names the latest created pull request if and only if one that the step creates is reported as created or existing and the last status write goes through |
| PullRequestProtocol.CreatesIff | controllers/gitopsrepo_controller.go:86-170 | A pull request is created exactly under the guards: all ready, a new hash, an old mark on the current version, and the calls before it going through; and when the earlier one is closed without a new one |
| PullRequestProtocol.StepInStepIff | scheduler/githubrepo.go:98-124 | A step keeps "the status names the latest pull request, and that one stands" if and only if a pull request that it creates is recorded and it closes none without creating another |
| PullRequestProtocol.RunInStepIff | controllers/gitopsrepo_controller.go:134-210 | A run keeps it throughout if and only if each of its steps does |
| PullRequestProtocol.RankFalls | controllers/gitopsrepo_controller.go:134-223 | With frozen content each reconcile outside the wait window gets one step closer; inside it and at the end nothing is written |
| PullRequestProtocol.BurstsSettle | controllers/gitopsrepo_controller.go:134-223 | Any burst of changes ends in at most one pull request with the latest content, and in none if that content was already published |
| PullRequestProtocol.TwoReconcilesSuffice | controllers/gitopsrepo_controller.go:134-223 | Two reconciles outside the wait window finish the job; then a pull request stands unless it had been closed and the content has reverted to what was published before |
| PullRequestProtocol.LatestCarries | controllers/gitopsrepo_controller.go:134-223 | After any run whose pull requests are recorded, they also make the latest pull request the one with the current content |
| PullRequestProtocol.QuietAfterwards | controllers/gitopsrepo_controller.go:134-223 | From then on reconciles write nothing |
| PullRequestProtocol.AlwaysApartIff | controllers/gitopsrepo_controller.go:137-143 | In real time, the next pull request is always more than the timeout away if and only if this one was created on a whole second |
| PullRequestProtocol.CloserThanTheTimeout | controllers/gitopsrepo_controller.go:137-143 | A run with two pull requests less than the timeout apart |
| PullRequestProtocol.LostWriteRepeatsPullRequest | controllers/gitopsrepo_controller.go:184-189 | If the last status write is lost, the next reconcile repeats the pull request |
| PullRequestProtocol.FailedLabelRepeatsPullRequest | scheduler/githubrepo.go:423-432 | If a pull request is created but its label cannot be set, the next reconcile repeats it |
| PullRequestProtocol.RevertedAttemptLeavesNone | scheduler/githubrepo.go:112-121 | A run after which nothing is left to do and no pull request is open |
| Manifests.GetManifestsYamlString | scheduler/githubrepo.go:200-209 | The accumulating loop computes the combined text |
| Manifests.YamlIsJoin | scheduler/githubrepo.go:200-209 | From the first non-empty manifest on, the text is their join with `---`, and it is empty exactly if there are none |
| Manifests.LeadingEmptyDropped | scheduler/githubrepo.go:203-207 | Empty manifests at the beginning leave no trace |
| Manifests.SplitYaml | scheduler/githubrepo.go:200-209 | Splitting the text on the separator returns the manifests, if none contains it |
| TreePublisher.GetTree | scheduler/githubrepo.go:211-306 | The changes touch each path once and are exactly the obsolete files, the generated files and, on a promotion, the tracking file; it fails exactly if an existing tracking file is needed and cannot be read |
| TreePublisher.DeleteFiles | scheduler/githubrepo.go:219-255 | The delete loop over the old tree |
| TreePublisher.AddPromotedCommitId | scheduler/githubrepo.go:319-355 | A commit is promoted exactly if there is one and the tracking file is absent or names another |
| TreePublisher.WriteFiles | scheduler/githubrepo.go:268-302 | Every cluster type and target is visited once, in any order |
| TreeChanges.AllChangesExact | scheduler/githubrepo.go:219-302 | Deletes, tracking entry and writes have pairwise distinct paths, whatever the visiting order |
| PublishedTree.ApplyExact | scheduler/githubrepo.go:304 | Overlaying changes to distinct paths acts on each path alone |
| PublishedTree.ChangesPublish | scheduler/githubrepo.go:211-306 | Path by path, what the overlaid tree holds |
| PublishedTree.OrderIrrelevant | scheduler/githubrepo.go:268-302 | Any two runs over the same tree and content give the same tree |
| PublishedTree.TopFoldersExact | scheduler/githubrepo.go:219-302 | The non-hidden top folders of the published tree are exactly the cluster types |
| PublishedTree.TargetFoldersExact | scheduler/githubrepo.go:219-302 | The entries of such a folder other than its README are exactly the targets of the type |
| PublishedTree.TargetPublished | scheduler/githubrepo.go:268-317 | The folder of a target holds `reconciler`, `namespace` and, unless empty, `platform-config`, each with its own manifests, as `.sh` for environment variables and `.yaml` for everything else |
| PublishedTree.ReadmePublished | scheduler/githubrepo.go:299-300 | The folder of each cluster type has its README.md |
| PublishedTree.NothingElsePublished | scheduler/githubrepo.go:219-302 | Whatever the published tree holds beyond its base is one of these files or the tracking file |
| PublishedTree.HiddenFilesKeptIff | scheduler/githubrepo.go:219-302 | Root files and hidden folders other than the tracking file are left alone for every tree if and only if no cluster type has a hidden name |
| PublishedTree.TrackingPublished | scheduler/githubrepo.go:319-355 | Afterwards `.github/tracking/Promoted_Commit_Id` names the promoted commit, if there is one |
| PublishedTree.PublishAgain | scheduler/githubrepo.go:211-306 | Publishing is a fixed point: a second run with the same content deletes nothing, rewrites what is there, promotes nothing and leaves the tree as it is |
| PublishedTree.OnlyGeneratedIff | scheduler/githubrepo.go:219-255 | The open folders hold generated files only if and only if the old tree had no file under a kept target that is no longer generated |
| PublishedTree.OldConfigurationStays | scheduler/githubrepo.go:219-255 | When a target's configuration changes from environment variables to YAML, the old file stays |
| EndToEnd.SelectedIsIntended | controllers/workload_controller.go:143-156 | With settled workloads, a cluster type and target are selected if and only if some policy matches the cluster type and the labels composed for a detail of that target name |
| EndToEnd.PackagesMatch | controllers/assignment_controller.go:156-199 | Once all assignments are Ready, which a pull request waits for, the packages are exactly theirs and carry the labels of their specs and what was built last, whatever has happened before |
| EndToEnd.ContentExact | controllers/gitopsrepo_controller.go:245-276 | In a quiescent namespace the content has an entry exactly for the pairs that some policy selects |
| EndToEnd.ContentValue | controllers/gitopsrepo_controller.go:265-276 | The entry of a selected pair is the package of its one assignment, in whatever order the packages are listed |
| EndToEnd.TreeMatchesPolicies | scheduler/githubrepo.go:211-306 | Published over any tree, there is a folder for exactly the cluster types and in it one for exactly the selected targets |
| EndToEnd.FilesMatchPackages | scheduler/githubrepo.go:268-297 | And that folder holds all manifests of the assignment's package |
| EndToEnd.FilesMatchBuilt | scheduler/githubrepo.go:268-297 | So `reconciler.yaml`, `namespace.yaml` and the configuration file hold what the latest successful reconcile of the assignment built |
| EndToEnd.CommitTracked | scheduler/githubrepo.go:319-355 | The tracking file names the commit of the base repository `main` |
| EndToEnd.TreeMatchesWorkloads | scheduler/githubrepo.go:211-306 | From the workloads on: a target folder lies in the published tree if and only if some policy intends its cluster type for some workload detail of that name |
| EndToEnd.PullRequestMatchesPolicies | controllers/gitopsrepo_controller.go:134-223 | After any run whose pull requests are recorded, two reconciles with the content of the quiescent namespace make the latest pull request carry exactly that content, its tree matches the policies, and it stands unless a failed attempt has closed it and the content has reverted; after safe steps it always stands |

## Left out

- ConfigHeap.MergeObjects: requires that a new map with nested values meets at most one existing map of its name, as the code would link those values into all of them; `ConfigSharing` shows that the law is false there. And it requires that no two names that are both arrays or both maps are compared, as the code would panic. Repeated names elsewhere, and flat maps that meet several namesakes, are covered.
- ConfigStore.ConfigData.Add: the same requirement for the value that is merged under its key.
- ConfigHeap.MergeArrays: requires the same. A slice is an object that grows; the capacity of a Go slice, and the aliasing of two slice headers over one backing array, are not modelled. NaN, which differs from itself, is not a scalar of the model.
- ConfigCollection.CollectPlatformConfig: requires that the values supplied for a key can be merged in place one after the other, which `WellFormedCanCollect` derives from the texts of the maps.
- ConfigCollection.CollectAzureConfig: requires the same, for every order of the keys that the sort may produce.
- ConfigCollection.GetConfigData: requires the same. It takes the name-sorted platform maps as an argument, for any outcome of sorting; the final copy of the data in key order, which has the same entries, is not modelled.
- ConfigCollection.CollectionDetermined: fixes the order of the Azure maps and of their equally long keys, which the code leaves open.
- WorkloadReconciler.Reconciler.Reconcile: a resource version is taken to change exactly when the target changes; updates by others between the listing and a write are among the failing calls.
- TreePublisher.GetTree: requires slash-free names, as the API server guarantees, and distinct paths in the listed tree; truncated listings, submodules, and a file standing where a folder is needed are not modelled.
- PublishedTree.TargetFoldersExact: says nothing of a target named README.md, whose folder would clash with the generated file.
- PullRequestProtocol.CreatesOnlyWhenSettled: the texts of condition reasons are not part of the status, so two writes that differ only in a reason count as the same version.
- PullRequestReconciler.Reconciler.CreatePR: branch, tree and commit inside the call only matter by their failing; a clean-up that fails part of the way counts as having closed the earlier pull requests. People who merge or close pull requests are not modelled.
- IssueProtocol.RunShowsLatest: nobody but the operator edits its issues. Deleted assignments are not reconciled again until they are created anew.
- AssignmentReconciler.Reconciler.Reconcile: starts from the built manifests or the error that building them gave; fetching objects, validation against JSON schemas and template expansion are outside of the model.
- PackagePlan.LivePackaged: a deletion removes the package together with its assignment, which owner references and garbage collection provide later.
- EndToEnd.TreeMatchesPolicies: assumes that assignments live no longer than their policies, which owner references and garbage collection provide, and that every assignment has the name the scheduler gives.
- EndToEnd.TreeMatchesWorkloads: assumes that the target store has no leftovers, that is, targets of details that have moved to another environment (`MovedDetailLeavesTarget`) or of workloads that are gone.
- WorkloadRounds.TwoRoundsSuffice: the deletes of the first round go through, as for the policies. Names must be distinct across environments too, since a leftover target can hold a name.
- PolicyRounds.TwoRoundsSuffice: the deletes of the first round go through; a failed delete call is one more interrupted reconcile, which `PolicyPlan.RetriesConverge` covers.
- Watches, predicates, finalizers, requeue delays and the wiring of the manager: library plumbing around the reconcilers.
- GitHub transport, authentication, commits and branches: only the overlay of the entries on the base tree and the success of each call remain.
- Flux, base repository, environment and workload registration reconcilers: create-or-update pairs that would only add easy members.
- The hash library: hashes are arbitrary functions, injective where a theorem says so.
