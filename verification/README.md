# sgroups-k8s-netguard: admission and reconciliation

The operator turns a handful of objects (services, address-group bindings and their
policies, service aliases, service-to-service rules) into port mappings per address group
and into `IEAgAgRule` objects of a provider. Admission webhooks check each write on its own;
controllers then bring other objects in line, each with its own reads and writes. This
project models both sides over one abstract cluster and proves how they fit together.

* **Ports.** `PortGrammar` holds the three port parsers, `PortChecks`, `MappingChecks` and
  `FastCheck` the overlap checks as the loops and the in-place sort of the source, each proved
  to decide a declarative predicate; `Entries` connects those decisions to what the
  controllers write.
* **Lifecycle.** `Lifecycle` and `Teardown` give the service and binding reconciles as
  functions of the cluster state, `Controllers` holds the same reconciles as methods that
  update a class in place and are proved to be those functions. `Retry` and `MappingRuns` split
  a reconcile into its read and its later write and quantify over every interleaving.
  `BindingWatch` holds the watches that requeue bindings and services, `Cleanup` the filter of
  stale entries.
* **Rule compiler.** `Rules` says what a service-to-service rule compiles to, `RuleStore` what
  a pass does to the stored rules, `RuleMeaning` what traffic the result accepts, `RuleWatch`
  when a rule is requeued, `RuleReconciler` runs the reconcile against a server whose
  calls may fail and whose store others may rewrite between any two calls, and `RulePass` puts
  a whole pass in terms of the objects it reads and the fields it writes.
* **Admission over runs.** `BindingPolicy` (with `Conditions`) and `AliasRules` are state machines over
  admitted creates, updates and deletes and atomic controller passes.

Strings are sequences of characters, numbers are unbounded with Go's `int` range written out in
`Atoi`. A nondeterministic choice stands for Go's map iteration order and for list order.

## What the proofs found

* `UpdateWithRetry` never succeeds after a conflict: the copy it reads again is not used, so
  every attempt carries the first version (`Retry.NoLostUpdate`). This is also why no update is lost.
* Port mappings are patched without a version. Over runs without a patch about a service, its entry stays
  exactly when every patch accepted meanwhile had read it (`MappingRuns.EntryStaysExactly`); otherwise an
  accepted edit is lost (`MappingRuns.PatchCanBeLost`).
* Neither the creation of a service nor an update that leaves its ports alone looks at its groups: a service
  can be admitted that its controller then cannot put into a mapping (`Lifecycle.AddedGroupRefused`).
  `Lifecycle.ServiceReconcilesExactly` says when it can.
* The optimized overlap check also compares the other entries among themselves; it agrees with
  the simple one only where service names are distinct (`FastCheck.FastFormExactly`).
* A rule name joins group names with a dash and leaves out namespaces, and an unqualified group of a target
  service in another namespace is sought in the wrong one. `RuleMeaning.MeaningPreservedExactly` says when the
  compiled rules accept exactly the traffic asked for, between groups and not references;
  `MeaningPreservedByKeys` and `MeaningPreservedByNames` say it in terms a caller can read off the names and
  namespaces. `HyphensCollide`, `NamespacesCollide` and `UnqualifiedTargetLosesTraffic` are families that lose
  some for every digest.
* Binding and unbinding restores both lists only for a group and a service that were absent
  (`Lifecycle.BindThenUnlink`).
* A supporting policy can still go while it is deleting, or turn while it is not Ready; otherwise never
  (`BindingPolicy.SupportNeverWithdrawn`). A binding can be admitted on a policy that is being deleted
  (`BindingPolicy.DeletingPolicyReached`).
* The webhooks of rules and aliases are registered for resources `rules2s` and `servicealias`
  (config/webhook/manifests.yaml:86 and :127), while the API serves `rules2ses` and `servicealiases`, so they may
  never be consulted. What holds either way: `AliasRules.RulesUniqueExactly`, `NeverLostExactly`,
  `IntegrityExactly` and `WriteSafeExactly`, whose conditions speak of the stored state. What rests on the
  rule webhook being consulted: `RulesStayUnique` and, for rule creations, `AliasIntegrity`. Checked alias
  deletions only add a second guard to the controller's finalizer.
* A rule keeps an alias it names exactly when the controller's finalizer is on the alias (or the alias is live and
  deletions are checked). Creating a rule asks for a ready alias and not for that: an alias that its controller has
  released and a foreign finalizer still holds is ready (`AliasRules.AdmittedRuleSafeExactly`). Editing a rule asks
  nothing about its aliases at all, since the readiness check has no case for a RuleS2S.
* A failed TCP rule skips the UDP rule of the same pair, which is then deleted as obsolete though still asked for
  (`RuleReconciler.SkippedUdpIsDeleted`). Existing rules are patched but not adopted.
* A port mapping requeues only services that have an entry in it: a lost entry is noticed by the
  binding's watch alone.

## Model

| member | source | states |
|---|---|---|
| PortGrammar.ParsePortRange | internal/webhook/v1alpha1/port_utils.go:19-67 | a parsed range has 0 ≤ start ≤ end ≤ 65535 |
| PortGrammar.ParseAcceptsExactly | internal/webhook/v1alpha1/port_utils.go:19-67 | the parser succeeds with a range if and only if the string is an expression of that range in a grammar stated without splitting or conversion |
| PortGrammar.ParseOfRendered | internal/webhook/v1alpha1/port_utils.go:19-67 | parsing inverts the decimal rendering of every port and every range |
| PortGrammar.ValidatePortAgrees | internal/webhook/v1alpha1/webhook_utils.go:159-211 | the second parser accepts exactly the empty string and what the first accepts after trimming |
| PortGrammar.SplitOfJoin | internal/controller/rules2s_controller.go:424-470 | joining with commas and splitting gives the list back |
| PortGrammar.JoinOfSplit | internal/webhook/v1alpha1/port_utils.go:28-32 | splitting cuts at every separator and joining gives the string back |
| PortGrammar.TrimExactly | internal/webhook/v1alpha1/webhook_utils.go:165 | trimming takes off exactly the spaces at both ends |
| PortGrammar.SpaceCodes | internal/webhook/v1alpha1/webhook_utils.go:165 | the characters that are trimmed, by code |
| PortGrammar.ProviderReadsJoinedPorts | deps/apis/sgroups-k8s-provider/v1alpha1/types.go:68-124 | every joined list of parsed ports passes the provider's check, splits back to itself and denotes exactly the union of its ranges |
| PortGrammar.ProviderAcceptsExactly | deps/apis/sgroups-k8s-provider/v1alpha1/types.go:68-124 | the provider accepts the empty string and exactly the lists whose every trimmed item is a port or range expression |
| PortChecks.OverlapMeansSharedPort | internal/webhook/v1alpha1/port_utils.go:70-74 | the overlap test holds if and only if some port number is in both ranges |
| PortChecks.OverlapFreeMeans | internal/webhook/v1alpha1/port_utils.go:77-132 | the overlap check in port numbers: all ports parse and no number is shared with an entry of another service name in its protocol |
| PortChecks.NoDuplicatesMeans | internal/webhook/v1alpha1/webhook_utils.go:214-250 | the duplicate check in port numbers: all ports parse and no number is opened twice for TCP or twice for UDP |
| PortChecks.InternalOKMeans | internal/webhook/v1alpha1/addressgroupportmapping_webhook.go:125-198 | the mapping check in port numbers: all ports parse, no entry opens a number twice, no two names open one number, per protocol |
| PortChecks.ScanEntry | internal/webhook/v1alpha1/port_utils.go:99-112 | accepts one protocol of an entry if and only if its ports parse and overlap none of the service's ranges |
| PortChecks.CollectServicePorts | internal/webhook/v1alpha1/port_utils.go:77-92 | fails exactly when a port does not parse, else holds each protocol's ranges in order |
| PortChecks.CheckPortOverlaps | internal/webhook/v1alpha1/port_utils.go:77-132 | accepts if and only if all ports parse and none clashes with an entry of another service name in its protocol |
| PortChecks.SortByStart | internal/webhook/v1alpha1/port_utils.go:202-205 | the array ends as a permutation of itself in start order |
| PortChecks.CheckPortRangeOverlaps | internal/webhook/v1alpha1/port_utils.go:200-220 | sorts in place and accepts if and only if the original list is pairwise disjoint |
| PortChecks.SortAndScanDecides | internal/webhook/v1alpha1/port_utils.go:200-220 | for every start-ordered permutation, comparing neighbours decides pairwise disjointness of the original list |
| PortChecks.NeighboursDecide | internal/webhook/v1alpha1/port_utils.go:207-217 | in start order, disjoint neighbours are the same as all pairs disjoint |
| MappingChecks.ConvertIngressPortsToProtocolPorts | internal/webhook/v1alpha1/port_utils.go:223-243 | yields the TCP ports and the UDP ports in order |
| MappingChecks.SelectMembers | internal/webhook/v1alpha1/port_utils.go:223-243 | a protocol's configuration is exactly the service's ports of that protocol |
| MappingChecks.ConvertedExactly | internal/webhook/v1alpha1/port_utils.go:223-243 | the conversion keeps the TCP ports and the UDP ports in order with their descriptions, and nothing else |
| MappingChecks.ValidateNoDuplicatePorts | internal/webhook/v1alpha1/webhook_utils.go:214-250 | accepts if and only if every port parses and no two ports of one known protocol clash |
| MappingChecks.ValidateNoDuplicatePortsInPortConfig | internal/webhook/v1alpha1/webhook_utils.go:253-277 | accepts if and only if every port parses and no two clash |
| MappingChecks.NoDuplicatesBySelect | internal/webhook/v1alpha1/webhook_utils.go:214-250 | the check of a service is the check of both halves of its conversion, plus parsing of the rest |
| MappingChecks.ScanOthers | internal/webhook/v1alpha1/addressgroupportmapping_webhook.go:152-165 | for every iteration order, accepts a range if and only if it overlaps nothing under another name |
| MappingChecks.RecordEntry | internal/webhook/v1alpha1/addressgroupportmapping_webhook.go:144-168 | accepts one protocol of an entry if and only if it is clear of all ranges under other names, and then records exactly its ranges |
| MappingChecks.CheckInternalPortOverlaps | internal/webhook/v1alpha1/addressgroupportmapping_webhook.go:125-198 | for every iteration order, accepts if and only if all ports parse, each list is disjoint, and entries of different names are disjoint per protocol |
| FastCheck.CheckPortOverlapsOptimized | internal/webhook/v1alpha1/port_utils.go:135-197 | accepts if and only if everything parses and each protocol's pooled ranges are pairwise disjoint |
| FastCheck.CollectOthers | internal/webhook/v1alpha1/port_utils.go:158-185 | fails exactly when a port of another name does not parse, else pools the others' ranges in order |
| FastCheck.FastFormExactly | internal/webhook/v1alpha1/port_utils.go:135-197 | the fast form accepts if and only if the simple form accepts, the service passes the duplicate check and the other entries are disjoint among themselves |
| FastCheck.FastFormAgrees | internal/webhook/v1alpha1/port_utils.go:77-197 | both forms agree on admitted services and admitted mappings with distinct service names |
| FastCheck.FastFormDisagrees | internal/webhook/v1alpha1/port_utils.go:155-190 | without distinct names, some admitted mapping is rejected by the fast form and accepted by the simple one |
| Entries.UpsertExact | internal/controller/addressgroupbinding_controller.go:400-471 | an upsert leaves exactly the converted ports under the service, every other entry in place, and is idempotent |
| Entries.UpsertEntryWise | internal/controller/addressgroupbinding_controller.go:400-471 | the first entry of the name and namespace keeps its reference and takes the converted ports; without one, an entry with the service's reference is appended |
| Entries.RemoveEntryWise | internal/controller/addressgroupbinding_controller.go:625-653 | the first entry of the name and namespace is taken out and the rest kept in order |
| Entries.UpsertThenRemove | internal/controller/addressgroupbinding_controller.go:625-653 | removing after upserting gives the list back if and only if the service had no entry |
| Entries.RemoveKeepsUnique | internal/controller/service_controller.go:262-309 | removing from a list with one entry per service leaves such a list without the service |
| Entries.RemoveKeepsInternalOK | internal/controller/service_controller.go:262-309 | removing an entry never makes the mapping webhook refuse |
| Entries.EntryOKIsNoDuplicates | internal/webhook/v1alpha1/webhook_utils.go:214-277 | a service passes its duplicate check if and only if its converted entry passes the mapping's, for known protocols |
| Entries.OverlapFreeIsDisjoint | internal/webhook/v1alpha1/port_utils.go:95-128 | against an admissible mapping, the overlap check is disjointness of the converted entry from the other names |
| Entries.AdmissionComposes | internal/webhook/v1alpha1/addressgroupbinding_webhook.go:168-186 | on an admissible mapping, the duplicate and overlap checks accept a service exactly when the mapping webhook accepts the controller's upsert |
| Entries.OwnEntryDoesNotMatter | internal/webhook/v1alpha1/service_webhook.go:133-150 | taking the service's own entry out first does not change the overlap check |
| Lifecycle.ReconcileGroupsExact | internal/controller/service_controller.go:101-212 | the service pass succeeds if and only if every named mapping accepts its upsert, and then exactly the existing named mappings are upserted |
| Lifecycle.ServiceReconcileIdempotent | internal/controller/service_controller.go:101-212 | a second service pass changes nothing |
| Lifecycle.ServiceReconcileExactly | internal/controller/service_controller.go:101-212 | after a pass without an error exactly the existing mappings a group names have the service's entry put in, none if it has no ports |
| Lifecycle.ReconcileGroupsStops | internal/controller/service_controller.go:101-212 | a refused pass stops at the first named mapping that refuses its upsert, with exactly the earlier ones done |
| Lifecycle.ServiceReconcilesExactly | internal/controller/service_controller.go:101-212 | over admissible mappings, the pass of a service that passed its duplicate check succeeds if and only if it has no ports or passes the overlap check of every named mapping not being deleted; mappings stay admissible even when it fails |
| Lifecycle.AdmittedServiceReconciles | internal/webhook/v1alpha1/service_webhook.go:91-159 | an admitted update to different ports always reconciles; any admitted update reconciles if and only if the service has no ports or fits the mappings its groups name; every mapping stays admissible either way |
| Lifecycle.ServiceUpdateDecision | internal/webhook/v1alpha1/service_webhook.go:68-159 | an update to different ports is admitted if and only if it passes the duplicate check and fits every bound group's existing mapping, one that keeps the ports if and only if it passes the duplicate check, as at creation; a deleted service's always |
| Lifecycle.AddedGroupRefused | internal/webhook/v1alpha1/service_webhook.go:68-121 | a service on port 80 given a group whose mapping holds another on port 80 is admitted, at creation and on update, and its controller is refused |
| Lifecycle.AddThenRemove | internal/controller/addressgroupbinding_controller.go:369-395 | adding then removing a group gives the list back if and only if it was absent |
| Lifecycle.RefEditsExactly | internal/controller/addressgroupbinding_controller.go:369-395 | adding appends the reference unless one of its name and namespace is there; removing takes exactly the first such reference out |
| Lifecycle.BindEffect | internal/controller/addressgroupbinding_controller.go:364-471 | a successful binding pass changes the service's groups and the mapping's entries and nothing else |
| Lifecycle.UnlinkEffect | internal/controller/addressgroupbinding_controller.go:538-668 | a successful unbinding removes the group and the entry and changes nothing else |
| Lifecycle.BindExactly | internal/controller/addressgroupbinding_controller.go:128-510 | after a pass without an error the group is in the stored service after the earlier references, the service's entry is in the group's mapping, created if missing, and nothing else changed; without service or group nothing changed |
| Lifecycle.BindStores | internal/controller/addressgroupbinding_controller.go:364-471 | a reconciled binding is in force: its group is in the service and its service in the group's mapping |
| Lifecycle.BindSucceedsExactly | internal/controller/addressgroupbinding_controller.go:364-471 | over admissible mappings the pass succeeds if and only if the mapping is missing, being deleted, or fits the service; a refused pass has still put the group into the service, and nothing else |
| Lifecycle.UnbindExactly | internal/controller/addressgroupbinding_controller.go:513-700 | after a deletion without an error the binding is gone, its service has lost the first reference to the group, its mapping the service's entry, and nothing else changed |
| Lifecycle.BindThenUnlink | internal/controller/addressgroupbinding_controller.go:538-668 | binding then unbinding restores the services if and only if the group was absent, and the mappings if and only if the service was |
| Lifecycle.GroupsWriteAdmitted | internal/webhook/v1alpha1/service_webhook.go:106-121 | a change of an admitted service's groups is never refused |
| Lifecycle.AdmittedBindingReconciles | internal/controller/addressgroupbinding_controller.go:364-471 | a binding that passed the overlap check is never refused and leaves every mapping admissible |
| Teardown.ServiceDeletionEffect | internal/controller/service_controller.go:219-332 | deleting a service removes it, its cascaded bindings and its entries in the mappings its groups name, nothing else |
| Teardown.ServiceDeletionExactly | internal/controller/service_controller.go:219-332 | exactly the bindings of the service's namespace that name it are marked deleted, the service is gone, and exactly the mappings its groups name have lost its entry |
| Teardown.BindingDeletionEffect | internal/controller/addressgroupbinding_controller.go:513-700 | deleting a binding removes it, its group from the service and the service's entry from its mapping, nothing else |
| Teardown.TeardownConfluence | internal/controller/service_controller.go:219-332 | every order of the service delete and all its binding deletes, with repetitions, ends in the same state: the named mappings without the service's entry, the service and its bindings gone, other services, their bindings and other mappings untouched |
| Controllers.ValidateServiceCreate | internal/webhook/v1alpha1/service_webhook.go:68-88 | decides exactly the duplicate and port checks, and nothing about groups |
| Controllers.ValidateServiceUpdate | internal/webhook/v1alpha1/service_webhook.go:91-159 | the loop with the temporary copies decides exactly the stated admission predicate |
| Controllers.CheckGroup | internal/webhook/v1alpha1/service_webhook.go:125-152 | checking the copy without the service's entry decides the same as checking the mapping itself |
| Controllers.Cluster.PatchMapping | internal/webhook/v1alpha1/addressgroupportmapping_webhook.go:82-110 | the list is replaced if and only if the webhook admits it |
| Controllers.Cluster.UpdateServiceGroups | internal/controller/addressgroupbinding_controller.go:384-392 | the group list is replaced if and only if the service webhook admits it |
| Controllers.Cluster.UpsertEntry | internal/controller/service_controller.go:136-210 | overwrites or appends in place, ending exactly as the upsert under the mapping webhook |
| Controllers.Cluster.RemoveEntry | internal/controller/service_controller.go:262-309 | splices in place, ending exactly as the removal under the mapping webhook |
| Controllers.Cluster.ReconcileService | internal/controller/service_controller.go:88-216 | refines the service pass the theorems are about |
| Controllers.Cluster.ReconcileServiceDelete | internal/controller/service_controller.go:219-332 | refines the service deletion the theorems are about |
| Controllers.Cluster.ReconcileBinding | internal/controller/addressgroupbinding_controller.go:128-510 | refines the binding pass the theorems are about |
| Controllers.Cluster.ReconcileBindingDelete | internal/controller/addressgroupbinding_controller.go:513-700 | refines the unbinding the theorems are about |
| Retry.StoredObject.UpdateWithRetry | internal/controller/utils.go:45-78 | succeeds if and only if the first attempt does; otherwise only others' writes are stored; bounds attempts and gives the exact wait |
| Retry.BackoffBound | internal/controller/utils.go:72-74 | at most maxRetries waits sum to at most interval·(2^maxRetries − 1) |
| Retry.StepExactly | internal/controller/utils.go:50-77 | each step of the interleaving by its fields: an attempt is stored if and only if the version read is the current one, otherwise it counts a conflict and fails with the last one allowed |
| Retry.StoredObject.Attempt | internal/controller/utils.go:50-64 | an attempt is accepted if and only if nothing was written since the read, and a conflict stays one |
| Retry.NoLostUpdate | internal/controller/utils.go:45-78 | over every interleaving with stale reads, the stored group list is the sequential replay of exactly the successful calls, and a call that met a conflict never succeeds |
| Retry.ChangeKeepsGroup | internal/controller/addressgroupbinding_controller.go:369-395 | adding a group puts it in; a change about another group neither puts it in nor takes it out |
| Retry.AddedGroupIsStored | internal/controller/utils.go:45-78 | over every interleaving, a group whose addition succeeded and that no later success drops is in the stored list |
| MappingRuns.EditKeepsUnique | internal/controller/service_controller.go:136-210 | every edit a controller makes to a stale copy keeps one entry per service |
| MappingRuns.EditOwnEntry | internal/controller/service_controller.go:136-210 | what each of the four edits does to its own service's entry |
| MappingRuns.StepExactly | internal/webhook/v1alpha1/addressgroupportmapping_webhook.go:82-110 | a patch carries its edit of the list read, and replaces the whole list if and only if the mapping is being deleted or the new list is admissible |
| MappingRuns.MappingInvariant | internal/webhook/v1alpha1/addressgroupportmapping_webhook.go:82-110 | over every run of stale reads and whole-list patches, each list ever stored has one entry per service and the current one is admissible unless deleting |
| MappingRuns.AcceptedPatchKeepsExactly | internal/controller/addressgroupbinding_controller.go:415-471 | what an accepted patch leaves of any other service is exactly the entry in the list it had read, so the stored entry survives if and only if the read saw it |
| MappingRuns.EntryStaysExactly | internal/controller/service_controller.go:136-210 | over every run without an accepted patch about a service, its entry stays throughout if and only if each accepted patch had read that entry |
| MappingRuns.CurrentReadsReplay | internal/controller/utils.go:81-151 | when each accepted patch had read the list it replaces, the list is the sequential replay of exactly the accepted edits |
| MappingRuns.PatchCanBeLost | internal/controller/utils.go:81-151 | from any run, two admitted patches prepared from one list both succeed and the earlier one's new entry is gone |
| BindingWatch.FindBindingsForService | internal/controller/addressgroupbinding_controller.go:767-794 | requests exactly the bindings of the service |
| BindingWatch.FindBindingsForGroup | internal/controller/addressgroupbinding_controller.go:797-858 | requests exactly the bindings whose reference has the group's name and its namespace or none |
| BindingWatch.FindServicesForPortMapping | internal/controller/service_controller.go:361-380 | requests exactly the services that have an entry |
| BindingWatch.BindReachesWanted | internal/controller/addressgroupbinding_controller.go:364-471 | when service and group exist, a pass without an error, creating the mapping if need be, writes both wanted lists and nothing else |
| BindingWatch.BindIdempotent | internal/controller/addressgroupbinding_controller.go:128-510 | a second binding pass changes nothing |
| BindingWatch.BindingWatchesComplete | internal/controller/addressgroupbinding_controller.go:861-881 | if changes to one service, one group and one mapping alter what a binding wants, the watch of one that did change requests it |
| BindingWatch.StaleMappingIsRepaired | internal/controller/addressgroupbinding_controller.go:797-826 | a mapping's watch always requests the bindings of its group, and the pass of such a binding restores its service's entry for good |
| Cleanup.CleanupStalePortMappings | internal/controller/addressgroupportmapping_controller.go:135-188 | yields the entries of existing services and reports exactly whether anything was dropped |
| Cleanup.CleanupKeepsOrder | internal/controller/addressgroupportmapping_controller.go:154-188 | the kept entries are all those of existing services, at increasing positions of the original |
| Cleanup.CleanupKeepsInvariants | internal/controller/addressgroupportmapping_controller.go:154-188 | the filter keeps a mapping admissible and its entries unique |
| RuleStore.ApplyAllEffect | internal/controller/rules2s_controller.go:576-839 | after any writes each written key holds its last spec, existing owners and finalizers are kept, other rules are untouched |
| RuleStore.OwnedExactly | internal/controller/rules2s_controller.go:884-892 | a rule is owned if and only if some owner reference has the uid, the kind RuleS2S and the API version |
| RuleStore.SyncConverges | internal/controller/rules2s_controller.go:397-532 | after an active pass every expected rule holds the last spec for its key, every owned rule is expected or on its way out, every rule neither owned nor expected is untouched |
| RuleStore.SyncExactly | internal/controller/rules2s_controller.go:397-532 | rule by rule: written ones are created with the RuleS2S as only owner or keep all but their spec; of the others exactly those naming it as an owner by uid, kind and API version go; all else is untouched |
| RuleStore.LastSpecExactly | internal/controller/rules2s_controller.go:398-507 | the rule under a written key has the spec of the last write to it |
| RuleStore.SyncIdempotent | internal/controller/rules2s_controller.go:397-532 | a second pass leaves the rule store unchanged |
| RuleStore.DropOwnedConverges | internal/controller/rules2s_controller.go:919-983 | an inactive or deleting pass leaves no owned rule but those held by foreign finalizers, leaves the rest alone, and repeats without effect |
| RuleStore.DropOwnedExactly | internal/controller/rules2s_controller.go:919-983 | rule by rule: exactly those naming the RuleS2S as an owner lose the provider's finalizer and go, at once if that was the last |
| RuleStore.OthersRulesKept | internal/controller/rules2s_controller.go:919-983 | a rule whose owner references all have another uid survives unchanged any pass that does not write it |
| RuleStore.PassesCommute | internal/controller/rules2s_controller.go:397-532 | passes of two RuleS2S that share no rule, owned or written, can run in either order |
| RuleMeaning.JobMeans | internal/controller/rules2s_controller.go:597-666 | one compiled rule, seen from the namespace it is put in, accepts exactly the flows between the two groups its references name there, on the receiver's ports |
| RuleMeaning.JobsMembers | internal/controller/rules2s_controller.go:398-507 | the loops visit exactly the pairs of groups with the protocols that have ports |
| RuleMeaning.MeaningPreservedExactly | internal/controller/rules2s_controller.go:398-507 | the stored expected rules accept exactly local groups × target groups × receiver ports, groups seen from their services, if and only if the rules that survive overwriting reach exactly the pairs of groups asked for |
| RuleMeaning.MeaningPreservedByKeys | internal/controller/rules2s_controller.go:597-666 | when each service's references name different groups, that holds if and only if no two different jobs share a key and every unqualified reference is seen from the namespace it was written for |
| RuleMeaning.MeaningPreservedByNames | internal/controller/rules2s_controller.go:842-871 | with a collision-free digest, that holds if and only if joined names and rule namespaces tell the pairs apart and every unqualified reference is seen from the namespace it was written for |
| RuleMeaning.BoundGroupsDistinct | internal/webhook/v1alpha1/addressgroupbinding_webhook.go:80-94 | the groups that live bindings put into one service are different groups |
| RuleMeaning.PlacementExactly | internal/controller/rules2s_controller.go:597-611 | a rule lives in the receiving group's namespace if and only if traffic is ingress, or the target reference is qualified, or the target service is in the RuleS2S's namespace |
| RulePass.PlanExactly | internal/controller/rules2s_controller.go:131-380 | ingress compiles the local service's ports and egress the target service's; a pass over found services is active if and only if both have groups and the receiving one has ports |
| RulePass.PlanNeedsEnds | internal/controller/rules2s_controller.go:131-238 | a pass is active or inactive only if both aliases lead to services |
| RulePass.CompiledExactly | internal/controller/rules2s_controller.go:597-666 | the compiled rule's traffic, transport, references, ports in order, action, logging, priority, name and namespace, field by field |
| RulePass.JobsInOrder | internal/controller/rules2s_controller.go:398-507 | jobs run by local group, then target group, then TCP before UDP |
| RulePass.PassExactly | internal/controller/rules2s_controller.go:60-573 | rule by rule and outcome by outcome, what an undisturbed pass does without finalizer, deleted, inactive, blocked and active |
| RulePass.PassServesExactly | internal/controller/rules2s_controller.go:131-532 | from the objects: after an undisturbed pass the written rules accept exactly the flows from a group of the local to a group of the target service on a port open on the receiving service, if and only if the surviving rules reach the meant pairs |
| RuleMeaning.SharedNameLosesTraffic | internal/controller/rules2s_controller.go:842-871 | with any digest, two pairs of distinct groups with a shared joined name lose requested traffic |
| RuleMeaning.UnqualifiedTargetLosesTraffic | internal/controller/rules2s_controller.go:605-612 | egress to an unqualified group of a target in another namespace loses requested traffic with any digest |
| RuleMeaning.HyphensCollide | internal/controller/rules2s_controller.go:849-853 | groups a-b, a against c, b-c lose traffic for every digest |
| RuleMeaning.NamespacesCollide | internal/controller/rules2s_controller.go:597-611 | two local groups of one name in two namespaces lose egress traffic for every digest |
| RuleMeaning.RuleCount | internal/controller/rules2s_controller.go:398-507 | with distinct keys there are local × target × protocols-in-use expected rules |
| RuleReconciler.RuleServer.CreateOrUpdate | internal/controller/rules2s_controller.go:576-839 | under any failures it reports success exactly when it wrote the key; undisturbed it is one write of the model |
| RuleReconciler.RuleServer.PatchWithRetry | internal/controller/utils.go:81-151 | reports success exactly when a patch was accepted; at most five patches are sent, all towards the object as first read with the new spec, the first from that object and each later one from the fresh copy read before it; undisturbed it replaces the spec alone |
| RuleReconciler.MergedExactly | internal/controller/utils.go:124-144 | a patch leaves the wanted value where base and wanted differ and the stored one elsewhere |
| RuleReconciler.SkippedUdpIsDeleted | internal/controller/rules2s_controller.go:398-532 | when a pair's TCP rule was not written in an active pass, its UDP rule is still asked for, and Delete is called for it if and only if it was owned in the listing |
| RuleReconciler.RuleServer.DeleteIfOwned | internal/controller/rules2s_controller.go:931-975 | success for an owned rule means its delete was accepted or it was not found; only owned rules are deleted |
| RuleReconciler.RuleServer.DeleteListed | internal/controller/rules2s_controller.go:942-972 | success means the delete was accepted or found nothing; undisturbed the rule is dropped as the model says, also when met again |
| RuleReconciler.RuleServer.DeleteRelated | internal/controller/rules2s_controller.go:919-983 | under any failures reports success only if every owned listed rule is gone and deletes no other; undisturbed it drops exactly the owned rules |
| RuleReconciler.RuleServer.DeleteObsolete | internal/controller/rules2s_controller.go:515-532 | under any failures Delete is called for exactly the existing rules that are not expected; undisturbed exactly these are deleted |
| RuleReconciler.RuleServer.ExistingRules | internal/controller/rules2s_controller.go:874-905 | a listing that succeeds yields exactly the owned rules of what was listed |
| RuleReconciler.RuleServer.RunPair | internal/controller/rules2s_controller.go:399-507 | the expected set is exactly what was written in the pass, under any failures, and a UDP rule is written only beside its pair's TCP rule; undisturbed the pair's jobs are done |
| RuleReconciler.RuleServer.RunJobs | internal/controller/rules2s_controller.go:397-508 | the nested loops return exactly the keys written, each UDP rule beside its pair's TCP rule; undisturbed they apply all writes of the compiled jobs |
| RuleReconciler.CollectPorts | internal/controller/rules2s_controller.go:407-418 | collects the receiver's ports of a protocol in order |
| RuleReconciler.RuleServer.Reconcile | internal/controller/rules2s_controller.go:60-573 | under any failures and interference nothing written in the pass is deleted in it, an active pass calls Delete for exactly the rules listed as owned and not written, and the finalizer goes only when all rules listed as owned are gone; a pass undisturbed from its own start is exactly its effect, whatever happened before |
| RuleWatch.FindRuleS2SForService | internal/controller/rules2s_controller.go:986-1049 | requests exactly the rules that reference an alias naming the service |
| RuleWatch.FindRuleS2SForServiceAlias | internal/controller/rules2s_controller.go:1052-1098 | requests exactly the rules that reference the alias |
| RuleWatch.RequestsExactly | internal/controller/rules2s_controller.go:986-1098 | a rule is requested if and only if it names, as local or resolved target, the alias or an alias of the service's name |
| RuleWatch.ServiceWatchComplete | internal/controller/rules2s_controller.go:986-1049 | if changing one service changes what a rule wants, the rule is requested |
| RuleWatch.AliasWatchComplete | internal/controller/rules2s_controller.go:1052-1098 | if changing one alias changes what a rule wants, the rule is requested |
| RuleWatch.DesiredIsSynced | internal/controller/rules2s_controller.go:297-532 | what a rule wants is what an active pass leaves under its keys and ownership |
| RulePass.DesiredExactly | internal/controller/rules2s_controller.go:131-532 | what the watches compare is what a pass leaves: the written keys with their specs if active, none if inactive, no answer if an object is missing |
| Conditions.SetCondition | internal/controller/addressgroupbindingpolicy_controller.go:130-153 | in place, the first condition of the type takes the status or a new one is appended |
| Conditions.SetDecides | internal/controller/addressgroupbindingpolicy_controller.go:130-153 | setting a condition decides its type and no other |
| Conditions.FirstDecides | internal/webhook/v1alpha1/webhook_utils.go:123-131 | the first condition of a type decides it and is the one set |
| BindingPolicy.FindPolicy | internal/webhook/v1alpha1/addressgroupbinding_webhook.go:190-212 | the flag loop finds a policy if and only if one allows the binding |
| BindingPolicy.SupportsMeans | internal/webhook/v1alpha1/addressgroupbinding_webhook.go:190-206 | a policy supports a binding if and only if it is in the group's namespace and names its group, service and the service's namespace |
| BindingPolicy.CreateBindingExactly | internal/webhook/v1alpha1/addressgroupbinding_webhook.go:67-215 | a binding is stored if and only if its references are well formed, service and group exist and are ready, the ports fit, another namespace's group has a supporting policy, and no live binding has its triple |
| BindingPolicy.UpdateBindingExactly | internal/webhook/v1alpha1/addressgroupbinding_webhook.go:218-383 | a live binding's update is stored if and only if a ready one keeps its references, they are served, and a new triple is no other live binding's |
| BindingPolicy.UniqueMeans | internal/webhook/v1alpha1/addressgroupbinding_webhook.go:80-94 | uniqueness by service name, group name and the group's resolved namespace |
| BindingPolicy.ReconcilePolicy | internal/controller/addressgroupbindingpolicy_controller.go:51-127 | yields the conditions of a pass; a Ready policy stays Ready |
| BindingPolicy.PolicyPassExactly | internal/controller/addressgroupbindingpolicy_controller.go:51-127 | a pass makes a live policy Ready if and only if its group and service exist, never takes Ready away, and touches nothing else |
| BindingPolicy.CreatePolicyExactly | internal/webhook/v1alpha1/addressgroupbindingpolicy_webhook.go:66-180 | a policy is stored if and only if its references are well formed, name an existing service and a group of its own namespace, and no other policy there has them |
| BindingPolicy.ChangePolicyExactly | internal/webhook/v1alpha1/addressgroupbindingpolicy_webhook.go:183-287 | a live policy's update is stored if and only if a ready one keeps its references and they exist; its deletion is refused if and only if it supports a binding |
| BindingPolicy.AdmittedBindingIsReconciled | internal/webhook/v1alpha1/addressgroupbinding_webhook.go:67-215 | an admitted binding's reconcile passes every webhook, puts the group into the service and the service into the mapping, and keeps all mappings admissible |
| BindingPolicy.BindingsStayUnique | internal/webhook/v1alpha1/addressgroupbinding_webhook.go:80-94 | over every run no two live bindings share service name, group name and resolved group namespace |
| BindingPolicy.LookupAndScanAreConverses | internal/webhook/v1alpha1/addressgroupbindingpolicy_webhook.go:250-287 | a policy may be deleted if and only if it supports no binding; an admitted cross-namespace binding has a supporting policy |
| BindingPolicy.SupportNeverWithdrawn | internal/webhook/v1alpha1/addressgroupbindingpolicy_webhook.go:183-247 | support survives every run in which the binding keeps its references if and only if the policy is Ready and not deleting |
| BindingPolicy.DeletingPolicyGoes | internal/webhook/v1alpha1/addressgroupbindingpolicy_webhook.go:250-287 | a supporting policy that is deleting has a run in which it goes |
| BindingPolicy.DeletingPolicyReached | internal/webhook/v1alpha1/addressgroupbinding_webhook.go:190-212 | from an empty cluster, a run of admitted steps leaves a binding supported by a policy that is being deleted |
| BindingPolicy.UnreadyPolicyTurns | internal/webhook/v1alpha1/webhook_utils.go:145-156 | a supporting policy that is not Ready has a run in which it points elsewhere |
| AliasRules.ValidateAliasDelete | internal/webhook/v1alpha1/servicealias_webhook.go:119-204 | refuses if and only if some rule has the alias as local or resolved target |
| AliasRules.ReferencedMeans | internal/webhook/v1alpha1/servicealias_webhook.go:140-180 | referenced means local in the rule's own namespace or resolved target of some stored rule, live or not |
| AliasRules.AliasStore.ReconcileAliasDelete | internal/controller/servicealias_controller.go:51-115 | keeps the finalizer exactly while a rule names the alias |
| AliasRules.AliasStore.ReconcileAlias | internal/controller/servicealias_controller.go:117-201 | refines the alias pass of the runs |
| AliasRules.AliasPassExactly | internal/controller/servicealias_controller.go:51-201 | a live alias gets the finalizer and is ready if and only if its service exists; a deleted one loses the finalizer if and only if no rule references it, and goes with the last |
| AliasRules.AliasWritesExactly | internal/webhook/v1alpha1/servicealias_webhook.go:66-204 | what consulted and unconsulted creations, edits and deletions of aliases store |
| AliasRules.RulesStayUnique | internal/webhook/v1alpha1/rules2s_webhook.go:67-195 | over every run whose rule writes consult the webhook, edits included, no two live rules ever share traffic, local name, target name and target namespace |
| AliasRules.RulesUniqueExactly | internal/webhook/v1alpha1/rules2s_webhook.go:81-95 | over every run, consulted or not, live rules stay distinct throughout if and only if every write was scanned for duplicates or would have passed the scan |
| AliasRules.CreateRuleExactly | internal/webhook/v1alpha1/rules2s_webhook.go:67-134 | a consulted creation stores the rule if and only if no live rule has its traffic, names and target namespace and both aliases exist and are ready |
| AliasRules.UpdateRuleExactly | internal/webhook/v1alpha1/rules2s_webhook.go:137-195 | a consulted update of a live rule stores it if and only if these fields stay or no other live rule has the new ones |
| AliasRules.NeverLostExactly | internal/controller/servicealias_controller.go:75-108 | over every run that keeps a rule, with foreign finalizers coming and going, an alias it names is never lost if and only if the controller's finalizer is on it, or it is live and alias deletions are checked |
| AliasRules.IntegrityExactly | internal/controller/servicealias_controller.go:75-108 | every rule's aliases exist over every run whose rule writes name safe aliases if and only if all aliases named at the start are safe |
| AliasRules.WriteSafeExactly | internal/webhook/v1alpha1/rules2s_webhook.go:97-131 | a rule write that is taken leaves integrity secured if and only if both aliases it names are safe |
| AliasRules.AdmittedRuleSafeExactly | internal/webhook/v1alpha1/rules2s_webhook.go:97-131 | an admitted rule creation leaves integrity secured if and only if neither alias, though ready, has been released by its controller |
| AliasRules.AliasIntegrity | internal/controller/servicealias_controller.go:75-108 | over every run, foreign finalizers included and with alias deletions checked or not, whose rules are created past their webhook on aliases not released and not edited to other aliases, every rule's aliases exist |
| AliasRules.OwnFinalizersSuffice | internal/controller/servicealias_controller.go:117-201 | without foreign finalizers nothing is released, so creations past the webhook and edits that keep the aliases suffice |
| AliasRules.EditKeepsIntegrityExactly | internal/webhook/v1alpha1/rules2s_webhook.go:137-195 | remark: right after an admitted edit integrity holds if and only if the aliases it names exist |
| AliasRules.SpecEditBreaksIntegrity | internal/webhook/v1alpha1/webhook_utils.go:102-120 | any live rule can be edited to name an alias that does not exist |
| AliasRules.ForeignFinalizerBreaksIntegrity | internal/webhook/v1alpha1/rules2s_webhook.go:97-131 | from an empty store, with every webhook consulted, an alias is reached that is ready and released, and a rule admitted on it loses it |

## Left out

- The API server, informer cache and garbage collector: a map from keys to objects, with a version only where a member needs one.
- JSON and reflection: values are compared by equality, so nil and empty lists are not told apart.
- Owner references other than those of the compiled rules, RuleS2SDstOwnRef objects and their cleanup, which the code does not do.
- SHA-256: an arbitrary function on strings, injective only where a theorem says so.
- Status of objects other than policies, messages, timestamps, logging and the debug branches.
- The manager, flags, TLS, metrics, RBAC, and generated code.
- SafeDeleteAndWait and UpdateStatusWithRetry: timers and the same loop over a status that no theorem reads.
- Service ValidateDelete: a refusal while owned aliases are used, which no other member depends on.
- Persistence of the stale-entry cleanup: the copy to compare with is taken after the assignment, so the patch is empty.
- MappingRuns.MappingInvariant: patches never conflict, because a merge patch carries no version; the conflict branch of the patch loop is modelled only in RuleReconciler.RuleServer.PatchWithRetry.
- Retry.NoLostUpdate: a successful update is one step and waiting times are not part of the interleaving; the waits are stated by Retry.StoredObject.UpdateWithRetry.
- PortChecks.SortByStart: an insertion sort stands for the library sort; SortAndScanDecides holds for every sort.
- RuleReconciler.RuleServer.UpdateCall: equality of the stored rule stands for an unchanged version.
- RuleReconciler.RuleServer.PatchWithRetry: the version that a retried patch may carry is not part of a stored rule; the server may answer any patch with a conflict.
- RuleReconciler.RuleServer.OtherCall: updates of the RuleS2S itself, finalizers included, are calls that may fail; their own retries are not modelled.
- RuleReconciler.RuleServer.Reconcile: the aliases and services it reads are one snapshot, and keys of the expected set are pairs, not joined strings.
- Rules.ToLower: ASCII letters only, which the admitted traffic and protocol values are.
- RuleMeaning.JobMeans: an empty namespace in a stored rule is read as the rule's own, by the convention of the API's reference type; what else the provider might make of it is not part of this model.
- RuleMeaning.MeaningPreservedExactly: traffic has at least three characters, which the enumeration in the API guarantees and the rule name slices.
- RuleMeaning.MeaningPreservedByKeys: supposes that a service's references name different groups, which holds for groups put there by bindings; for lists written by hand MeaningPreservedExactly is the condition.
- BindingPolicy.SupportNeverWithdrawn: admission and reconcile steps are atomic, so a check and the write it admits are not separated.
- AliasRules.AliasIntegrity: the same atomicity; only the alias controller sets its own finalizer and readiness.
- AliasRules.RulesStayUnique: supposes that rule writes consult the webhook, which the registration may prevent; RulesUniqueExactly does not.
