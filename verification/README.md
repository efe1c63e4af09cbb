# PingoraHub: a verified model of the control plane

PingoraHub is a control plane for proxy nodes. A hub, several background workers and one agent per node
act on shared rows: node bindings and failover policies, releases and acknowledgements, certificate orders
and versions, node operations and tokens. This project models those rows, the steps that change them, and
the text arithmetic around them, and proves what every run of the steps keeps.

`dafny verify dfyconfig.toml` checks everything. There are no axioms and no unproved members.

## How to read it

| module | what it models |
|---|---|
| `Bindings`, `Failover`, `FailoverCycle` | the failover worker and the hub's manual switch rewriting one site's bindings and policy |
| `ReleaseTargeting` | `create_release`, detached nodes and cleanup releases |
| `Certificates`, `Challenges` | certificate orders, versions and default bindings; DNS-01 challenge records |
| `DnsNames` | zones, identifiers and record names |
| `SiteConfig`, `RouteMatching` | the configuration validator, the route parser, and which route serves a path |
| `ReleaseStatus`, `ReleaseVersion`, `Repository` | release status, version text, the in-memory repository and its indexes |
| `CommandTemplate`, `Operations` | command rendering and the node-operation queue |
| `TokenStore` | node access and refresh tokens |
| `NodeAgent` | one agent with crashes, restarts, lost and late requests |
| `SiteCode` | slugs and unused site codes |
| `CertificateOrders`, `Common`, `Sorting`, `Text` | shared types, stable sorting, text helpers |

Conventions. Identifiers are natural numbers; a new identifier is one not in use. A database transaction,
or a write of the in-memory store under its lock, is one atomic step. The rows of a table are a multiset, and
a query is *any* listing of them that respects its `ORDER BY`. What a request has read may be out of date when it
writes. A run is a sequence of steps; a request the code refuses leaves the state alone, so the theorems about runs
put no condition on when a step may be tried.
State the source updates in place (`MemoryRepository`, `MemoryTokenStore`, the operation queue) is a class; its
ghost fields record history, and each method is specified by a function of the old state.

Properties that turned out false of the code are kept as the code has them. Each has an "if and only if" lemma that
says when it does hold, and a lemma at a concrete input where it fails:

- single primary under a second active policy: `Bindings.FailoverSinglePrimaryIff`, `Failover.TwoPoliciesBreakSinglePrimary`;
- bindings and policy in step after a switch inside a worker cycle: `Failover.SwitchInsideCycleIff`,
  `Failover.SwitchInsideCycleBreaksStep`;
- the same after a switch that drops the previous primary, or is interrupted: `Failover.SwitchInStepIff`,
  `Failover.DroppingPreviousPrimaryBreaksStep`, `Failover.SwitchKeepsStepIff`;
- the same after a worker attempt between the two writes of a switch: `Failover.AttemptBetweenWritesIff`, at every site
  in step;
- the cycle's summary counting every move: `FailoverCycle.ProcessFailoverPolicies`, `FailoverCycle.CycleHidesSwitch`;
- no node forgotten when a site is enabled or disabled, when a publish is interrupted, or when the site is deleted:
  `ReleaseTargeting.PlainReleaseKeepsTargetingIff`, `ReleaseTargeting.InterruptedPublishIff`,
  `ReleaseTargeting.DeleteSiteStopsServingIff`, with `ReleaseTargeting.DisableStrandsUnboundNode`,
  `ReleaseTargeting.InterruptStrandsUnboundNode` and `ReleaseTargeting.DeleteStrandsUnboundNode`;
- no node cut off by a late cleanup: `ReleaseTargeting.RunServedIff`, `ReleaseTargeting.LateCleanupStopsBoundNode`;
- no record forgotten by a retry: `Challenges.RequeueByStatus` with `Challenges.RequeueUndecidedByStatus`,
  `Challenges.RetryLeavesRecord`;
- every route resolved: `SiteConfig.RoutesAlwaysResolveIff`, `SiteConfig.UntrimmedUpstreamIsUnresolved`;
- every path served: `RouteMatching.EveryPathServedIff`, `RouteMatching.ExactDefaultLeavesPaths`;
- every record name inside its zone: `DnsNames.NormalizedNameInZoneIff`, `DnsNames.LookAlikeHostLeavesZone`;
- every claimed operation handed out: `Operations.ClaimFindsTemplateIff`, `Operations.DeletedTemplateIsMissed`;
- every claimed operation with a command: `Operations.DispatchRendersIff`, `Operations.EditedTemplateFails`.

`CommandTemplate.BracesInValuesBreakOrder` shows why the results on rendering exclude an opening brace in a value.

## Model

| member | source | states |
|---|---|---|
| `Bindings.SwitchedRows` | apps/failover-worker/src/main.rs:987-1058 | Whatever order the bindings are loaded in, the rows stored by a failover are the untouched rows plus the promoted and the demoted one. |
| `Bindings.OthersRows` | apps/failover-worker/src/main.rs:1012-1016 | Rows of other nodes are carried over with their multiplicity, rows of the two policy nodes not at all. |
| `Bindings.FailoverSinglePrimaryIff` | apps/failover-worker/src/main.rs:987-1058 | A failover ends with exactly one primary if and only if no node but the policy's two was primary before. |
| `Bindings.CurrentPrimaryIsSole` | apps/failover-worker/src/main.rs:1084-1090 | With one primary row, every listing of the rows yields that node and its priority. |
| `Bindings.CurrentPrimaryIsLowest` | apps/failover-worker/src/main.rs:1084-1090 | The current primary is a primary row of lowest priority, and nobody if and only if there is none. |
| `Bindings.PromotedPriority` | apps/failover-worker/src/main.rs:992-1003 | The promoted node takes the priority of the policy primary's primary row; without one, the lowest of any primary row; without any, 10. |
| `Bindings.DemotedPriorityIs` | apps/failover-worker/src/main.rs:1004-1010 | The demoted node takes the promoted one's old priority, but at least ten after its new one; exactly that if the standby was not bound. |
| `Bindings.MissingNodes` | apps/failover-worker/src/main.rs:1018-1048 | Policy nodes that are not bound enter as online and offline, under their ids as codes. |
| `Bindings.SwitchedMembers` | apps/failover-worker/src/main.rs:1012-1053 | The bindings built are those left alone, the promoted and the demoted one. |
| `Bindings.RetriggerIsNoOp` | apps/failover-worker/src/main.rs:321-324 | Re-reading the result of a failover, in any order, shows the promoted standby as primary, so the same snapshot triggers nothing more. |
| `Bindings.NextStandbyIsBest` | apps/failover-worker/src/main.rs:1060-1082 | The next standby exists if and only if a standby row of another node does, and is least in the worker's order. |
| `Bindings.NextStandbyIsPreferred` | apps/failover-worker/src/main.rs:1060-1082 | The chosen standby is online if any candidate is; among candidates of the same kind it has the lowest priority, and on a tie the lowest code. |
| `Bindings.FailoverFindsNextStandby` | apps/failover-worker/src/main.rs:943-985 | After a failover a next standby always exists, so the "no standby remains" branch is unreachable. |
| `Bindings.BuildManualRows` | apps/hub-api/src/service.rs:1269-1310 | The running-priority loop stores target, kept previous primary and the rest in order, at priorities 100, 200, 300 and so on. |
| `Bindings.HubPrimaryIsLowest` | apps/hub-api/src/service.rs:1226-1236 | The hub's primary is the primary row of lowest priority, and the first row if there is none. |
| `Bindings.DefaultTargetIsFirstStandby` | apps/hub-api/src/service.rs:1249-1261 | Without an explicit target a switch picks the standby of lowest priority, without one the other bound node of lowest priority, and is refused only if no other node is bound. |
| `Bindings.HubStandbyIsBest` | apps/hub-api/src/service.rs:2619-2628 | The hub's next standby exists if and only if another node has a standby row, and has the lowest priority value among those. |
| `Bindings.ManualRowsDistinct` | apps/hub-api/src/service.rs:1269-1310 | A manual switch never stores a node twice. |
| `Bindings.ManualRowsPrimary` | apps/hub-api/src/service.rs:1269-1310 | The target is the only primary afterwards, even if there were several before. |
| `Bindings.ManualRowsBound` | apps/hub-api/src/service.rs:1269-1310 | The nodes bound afterwards are those bound before and the target, except a previous primary that is not kept. |
| `Bindings.ManualTailKeepsOrder` | apps/hub-api/src/service.rs:1289-1310 | The nodes a switch does not name keep their old priority order. |
| `Bindings.KeptPrimaryIsNextStandby` | apps/hub-api/src/service.rs:2619-2628 | A kept previous primary is the next standby. |
| `Failover.FailoverReplaces` | apps/failover-worker/src/main.rs:987-1058 | Counted row by row, a failover replaces the rows of the two policy nodes and leaves every other row alone. |
| `Failover.ReplacedRows` | apps/failover-worker/src/main.rs:987-1058 | Such a replacement keeps nodes distinct, stores both new rows, and binds exactly the old nodes and the two policy nodes. |
| `Failover.FailoverInStepIff` | apps/failover-worker/src/main.rs:406-420 | From any snapshot of the policy and any load of the bindings, a committed failover meets no unique-constraint error, finds a next standby, promotes the snapshot's standby, and ends in step if and only if nobody but the snapshot's two nodes was primary in the load. |
| `Failover.AdvancedStandbyIsPreferred` | apps/failover-worker/src/main.rs:943-985 | The standby a failover stores, in terms of what was loaded: the most preferred of the other standby nodes and the demoted node with its own status. |
| `Failover.OnlineStandbyIsNext` | apps/failover-worker/src/main.rs:1060-1082 | The failed node is not the next standby while another standby is online. |
| `Failover.OnlyPolicyPrimariesIff` | apps/failover-worker/src/main.rs:1084-1090 | On the current rows of a site in step that condition is that the snapshot names the site's primary. |
| `Failover.FailoverKeepsStep` | apps/failover-worker/src/main.rs:311-337 | A failover of a site in step by a snapshot with the same primary stays in step with the promoted node as policy primary, and loses no node. |
| `Failover.NextHubStandbyIff` | apps/hub-api/src/service.rs:2619-2628 | After a manual switch the hub finds a new standby if and only if the previous primary was kept or a spare node exists. |
| `Failover.SwitchAcceptedIff` | apps/hub-api/src/service.rs:1226-1268 | A switch is accepted if and only if the site has bindings and the node named exists and is not the primary, or none is named and another node is bound. |
| `Failover.SwitchPolicyIs` | apps/hub-api/src/service.rs:1311-1325 | A switch that keeps the previous primary makes it the policy's standby; any other stores the lowest-priority standby of the rows written, or leaves the policy alone. |
| `Failover.SwitchInStepIff` | apps/hub-api/src/service.rs:1215-1327 | A manual switch, from any load of the bindings and any policy row, makes the target sole primary and ends in step if and only if a standby remains or the policy named the target already; interrupted between its two writes, only if the policy named the target already. |
| `Failover.SwitchStores` | apps/hub-api/src/service.rs:1269-1314 | Both writes of a switch respect the constraints of the database. |
| `Failover.SwitchKeepsStepIff` | apps/hub-api/src/service.rs:1311-1327 | On the current rows of a site in step: a complete switch keeps it in step if and only if a standby remains; one interrupted between the binding save and the policy update never does. |
| `Failover.NormalizeSiteBindings` | apps/hub-api/src/service.rs:2645-2680 | A bind request is accepted if and only if every role text is "primary" or "standby" up to case and whitespace, exactly one is "primary", and no node occurs twice; every item then gives the row it asks for, in priority order. |
| `Failover.NormalizeItems` | apps/hub-api/src/service.rs:2645-2680 | The loop with its set of seen nodes and its count of primaries decides exactly that, once the role texts are read. |
| `Failover.RoleIsRead` | apps/hub-api/src/service.rs:2682-2690 | What each role text is read as. |
| `Failover.AcceptedRowsAreValid` | apps/hub-api/src/service.rs:1098-1132 | Accepted bind requests give distinct nodes and a single primary. |
| `Failover.WorkerAttemptKeepsStep` | apps/failover-worker/src/main.rs:311-337 | An attempt on the current rows whose snapshot names the site's primary keeps the site in step and every node bound, however it ends; the rows are the old ones or those of the failover. |
| `Failover.AttemptStores` | apps/failover-worker/src/main.rs:326-336 | What an attempt stores and reports: switched exactly if it committed and its event was closed so; a failed attempt changed nothing, left its event open, or lost the answer to its commit; the event stays open exactly after a failed update or a crash. |
| `Failover.AttemptInStepIff` | apps/failover-worker/src/main.rs:311-337 | An attempt with any snapshot and any load keeps a site in step if and only if it does not commit or nobody but the snapshot's nodes was primary in the load. |
| `Failover.StepKeepsStepIff` | apps/hub-api/src/service.rs:1311-1327 | Any single write (attempt from stale reads, first or second write of a switch, an abandoned second write, any save of the site, node change) keeps the site in step, counting policy updates still to be written, if and only if its guard holds. |
| `Failover.RunInStepIff` | apps/failover-worker/src/main.rs:164-198 | A run that starts in step stays so throughout, counting policy updates still to be written, if and only if every write meets its guard; it is then in step whenever none is pending. |
| `Failover.RunKeepsStep` | apps/failover-worker/src/main.rs:164-198 | In every run of worker attempts (committed or not, event closed, misreported, left open or cut off by a crash) that act on the current rows by a snapshot naming the primary, keeping switches whose two writes nothing separates, and node changes: distinct nodes, one primary equal to the policy's once the switch under way has written it, a different standby, no node lost. |
| `Failover.UndisturbedSwitch` | apps/hub-api/src/service.rs:1311-1327 | The two writes of a switch with nothing in between are the whole switch. |
| `Failover.KeepingSwitchRestoresStep` | apps/hub-api/src/service.rs:1269-1327 | From any state of bindings and policy, a whole switch that keeps the previous primary ends in step. |
| `Failover.StaleSnapshotBreaksStep` | apps/failover-worker/src/main.rs:164-169 | A committed attempt on a site in step stays in step if and only if the cycle's snapshot names the site's primary. |
| `Failover.SwitchInsideCycleIff` | apps/failover-worker/src/main.rs:169-182 | A manual switch between snapshot and attempt: the two keep the site in step if and only if the operator switched to the node the worker would have promoted. |
| `Failover.SwitchInsideCycleBreaksStep` | apps/failover-worker/src/main.rs:169-182 | The concrete case: three nodes, and a switch to the third while the worker is about to promote the second. |
| `Failover.AttemptBetweenWritesIff` | apps/hub-api/src/service.rs:1317-1325 | A worker attempt between the two writes of a keeping switch: all three end in step if and only if the operator switched to the node the worker would have promoted, or the attempt does not commit. |
| `Failover.OpenEventDisablesWorker` | apps/failover-worker/src/main.rs:311-337 | Once a crash leaves an event open, every later run equals the run without its worker attempts. |
| `Failover.FailoverComputes` | apps/failover-worker/src/main.rs:992-1010 | The promoted priority is the old primary's; the demoted one is at least ten later and within any bound the rows respect. |
| `Failover.FailoverPriorities` | apps/failover-worker/src/main.rs:992-1010 | One failover keeps the primary's priority, ranks the demoted node at least ten later and stays within the bound. |
| `Failover.FailoversBoundPriorities` | apps/failover-worker/src/main.rs:992-1010 | Over any number of failovers the primary's priority P never changes, no priority exceeds max(initial maximum, P + 10), and if P + 10 fits a signed 32-bit integer so does every sum an attempt computes. |
| `Failover.TwoPoliciesBreakSinglePrimary` | apps/failover-worker/src/main.rs:200-265 | Two active policies on one site: a concrete site that ends with two primaries. |
| `Failover.DroppingPreviousPrimaryBreaksStep` | apps/hub-api/src/service.rs:1269-1327 | On any two-node site, a switch that drops the previous primary leaves the policy naming a node that is not primary. |
| `FailoverCycle.SilenceThreshold` | apps/failover-worker/src/main.rs:267-309 | A policy is eligible if and only if its gates are open and its primary is offline, never seen, or silent for threshold whole intervals. |
| `FailoverCycle.SilenceOfSeen` | apps/failover-worker/src/main.rs:1653-1661 | Missed heartbeats reach the threshold if and only if the silence lasts threshold times the interval, rounding and saturation included. |
| `FailoverCycle.MissedIs` | apps/failover-worker/src/main.rs:1653-1661 | Missed heartbeats are the whole intervals of silence, up to the largest 32-bit number. |
| `FailoverCycle.AttemptOnStep` | apps/failover-worker/src/main.rs:311-337 | An attempt on the current rows keeps a site in step if and only if it does not commit or its snapshot names the primary. |
| `FailoverCycle.AttemptReports` | apps/failover-worker/src/main.rs:326-336 | With a current snapshot the primary moves exactly when the attempt commits, and is reported as switched exactly then, unless the event was not closed so. |
| `FailoverCycle.LoadSiteBindings` | apps/failover-worker/src/main.rs:617-646 | The query returns exactly the stored rows joined with their nodes, in priority and code order. |
| `FailoverCycle.AttemptSite` | apps/failover-worker/src/main.rs:311-337 | From query to commit on one site: constraints are kept, a skipped attempt changed nothing, a failed one changed nothing, left its event open or lost the answer to its commit, and the site stays in step under exactly the condition above. |
| `FailoverCycle.Trigger` | apps/failover-worker/src/main.rs:311-337 | Only the policy's own site may change; a missing site is skipped if the policy has an open event and fails otherwise; all sites stay in step if and only if a committing attempt's snapshot names the primary. |
| `FailoverCycle.ProcessPolicy` | apps/failover-worker/src/main.rs:175-194 | An ineligible policy counts as skipped and changes nothing; of an eligible one, skipped grows exactly when its event is open, `switched` exactly when the primary moved and was reported so, and failed otherwise. |
| `FailoverCycle.ProcessFailoverPolicies` | apps/failover-worker/src/main.rs:164-198 | Over a whole cycle the counters add up to the policies scanned, only sites of eligible policies change, every site stays in step, and `switched` plus the moves reported as failures is the number of sites whose primary moved; `switched` is that number if and only if there was no such move. |
| `FailoverCycle.NoneHiddenIff` | apps/failover-worker/src/main.rs:326-336 | No move is hidden if and only if no eligible attempt committed and then failed to close its event as switched. |
| `FailoverCycle.CycleHidesSwitch` | apps/failover-worker/src/main.rs:182-193 | A cycle in which the site's primary moves and the summary reports no switch. |
| `FailoverCycle.HiddenSwitchExists` | apps/failover-worker/src/main.rs:326-336 | Such a cycle exists: a concrete site in step with an offline primary. |
| `ReleaseTargeting.PreviousReleaseIsLast` | apps/hub-api/src/service.rs:1412-1446 | Whatever order releases are listed in, the search finds the last saved site release. |
| `ReleaseTargeting.DetachedMembers` | apps/hub-api/src/service.rs:1412-1446 | A node is detached if and only if it was a target of the last site release and is not bound now. |
| `ReleaseTargeting.DetachedIncreasing` | apps/hub-api/src/service.rs:1434-1445 | A cleanup addresses each detached node once, in increasing order. |
| `ReleaseTargeting.CreateReleaseServesBoundNodes` | apps/hub-api/src/service.rs:1354-1410 | After a successful `create_release` the nodes serving the site are exactly the bound ones. |
| `ReleaseTargeting.CreateReleaseIff` | apps/hub-api/src/service.rs:1364-1397 | `create_release` is accepted if and only if the site exists, is fit for release if bound, and has a node to release to or clean up; it succeeds unless a cleanup is needed and the site code is blank; a refused one saves nothing. |
| `ReleaseTargeting.CreateReleaseSaves` | apps/hub-api/src/service.rs:1379-1397 | It saves one release to the bound nodes, if any, and one cleanup to the detached ones, if any, both for that site. |
| `ReleaseTargeting.CreateReleaseLeavesOthers` | apps/hub-api/src/service.rs:1448-1518 | Releasing one site changes nothing that nodes serve for another. |
| `ReleaseTargeting.UndisturbedPublish` | apps/hub-api/src/service.rs:1379-1397 | A whole `create_release` is its two saves with nothing in between. |
| `ReleaseTargeting.PublishKeepsCover` | apps/hub-api/src/service.rs:1379-1397 | The first save of `create_release` owes a cleanup to exactly the nodes it stops covering. |
| `ReleaseTargeting.StrikeKeepsServing` | apps/hub-api/src/store.rs:546-568 | Deleting a node removes it, and only it, from those that serve. |
| `ReleaseTargeting.StrikeKeepsTarget` | apps/hub-api/src/store.rs:546-568 | Deleting a node removes it, and only it, from the targets of the latest site release. |
| `ReleaseTargeting.DropNodeIff` | apps/hub-api/src/service.rs:428-470 | A node is deleted if and only if no site is bound to it, and then from every release. |
| `ReleaseTargeting.SiteSteps` | apps/hub-api/src/service.rs:1098-1132 | Binding, editing, adding and removing a site change that site and save no release. |
| `ReleaseTargeting.StepKeepsCoverIff` | apps/hub-api/src/service.rs:1354-1410 | Any step keeps every serving node a target of the latest site release or owed a cleanup, if and only if its guard holds; only an interrupted request and a site release saved on stale or no knowledge of detached nodes have one. |
| `ReleaseTargeting.RunCoveredIff` | apps/hub-api/src/service.rs:1354-1518 | A run keeps this throughout if and only if every step meets its guard. |
| `ReleaseTargeting.RunKeepsTargeting` | apps/hub-api/src/service.rs:1354-1518 | In every run of publishes, their cleanups, site deletions, rebinds and node deletions, interleaved at will but not interrupted, a node still serving a site is a target of its latest site release or owed a cleanup, and a target once no request is running. |
| `ReleaseTargeting.StepServesIff` | apps/hub-api/src/service.rs:1388-1397 | A step keeps every target of a latest site release serving if and only if it saves no cleanup for one of them. |
| `ReleaseTargeting.RunServedIff` | apps/hub-api/src/service.rs:1354-1410 | A run keeps this throughout if and only if no cleanup, late or for a deletion, is saved for a node published to since. |
| `ReleaseTargeting.ServingIsTargeted` | apps/hub-api/src/service.rs:1354-1518 | After a run that meets both guards, with no cleanup owed, the nodes serving a site are exactly the targets of its latest site release. |
| `ReleaseTargeting.InterruptedPublishIff` | apps/hub-api/src/service.rs:1379-1397 | `create_release` interrupted between its two saves is safe if and only if every serving node is bound. |
| `ReleaseTargeting.PlainReleaseKeepsTargetingIff` | apps/hub-api/src/service.rs:974-984 | A site release saved without looking for detached nodes is safe if and only if every serving node is a target. |
| `ReleaseTargeting.DeleteSiteStopsServingIff` | apps/hub-api/src/service.rs:1002-1013 | Deleting a site stops every node if and only if every serving node is bound. |
| `ReleaseTargeting.StrandedForever` | apps/hub-api/src/service.rs:1412-1446 | A node missed once serves the site in every later state, through publishes, plain releases and the deletion of the site, until it is bound again, addressed by chance, or deleted. |
| `ReleaseTargeting.DisableStrandsUnboundNode` | apps/hub-api/src/service.rs:974-984 | Unbinding a node and then disabling the site strands that node. |
| `ReleaseTargeting.InterruptStrandsUnboundNode` | apps/hub-api/src/service.rs:1379-1397 | Unbinding a node and interrupting the next `create_release` after its first save strands that node. |
| `ReleaseTargeting.DeleteStrandsUnboundNode` | apps/hub-api/src/service.rs:994-1016 | Unbinding a node and then deleting the site leaves the node serving a site that no longer exists. |
| `ReleaseTargeting.RepublishedIsReached` | apps/hub-api/src/service.rs:1354-1410 | The run to it: unbind a node, publish, bind it again and publish before the first cleanup is saved. |
| `ReleaseTargeting.LateCleanupStopsBoundNode` | apps/hub-api/src/service.rs:1388-1397 | The late cleanup then takes the site from a node that is bound and was just published to. |
| `Certificates.BindTargets` | apps/dns-worker/src/lib.rs:1101-1119 | The persist loop gives each target site, in order, the new version as its only default binding. |
| `Certificates.NextVersionIsCount` | apps/dns-worker/src/lib.rs:1034-1043 | With versions 1..k the next version computed from the maximum is k + 1. |
| `Certificates.NextVersionKeepsDense` | apps/dns-worker/src/lib.rs:1034-1082 | Storing it keeps every certificate's versions exactly 1..k. |
| `Certificates.TargetsCoverDefaults` | apps/dns-worker/src/lib.rs:1084-1099 | A persist rebinds every site that uses the certificate by default. |
| `Certificates.PersistKeepsInv` | apps/dns-worker/src/lib.rs:1029-1135 | Persisting a claimed job keeps versions dense, defaults single and newest, and ownership intact. |
| `Certificates.PersistedIsDefault` | apps/dns-worker/src/lib.rs:1029-1135 | The site's one default binding is then the version just stored; the certificate is active, its versions grew by one, and of all orders only this one became issued. |
| `Certificates.PersistForDeletedSite` | apps/dns-worker/src/lib.rs:1101-1119 | A persist for a site deleted meanwhile changes nothing. |
| `Certificates.DeleteSiteKeepsInv` | apps/hub-api/src/store.rs:610-623 | Deleting a site, even with a job of its own in flight, keeps the invariant. |
| `Certificates.DeleteSiteDetaches` | apps/hub-api/src/store.rs:610-623 | Deleting a site takes its bindings, its orders lose the site, nothing else changes. |
| `Certificates.RenewSiteKeepsInv` | apps/hub-api/src/service.rs:1134-1213 | A site renewal, reusing the default certificate or starting a new one, keeps the invariant. |
| `Certificates.RenewSiteOrders` | apps/hub-api/src/service.rs:1150-1203 | A renewal of a live site is refused if and only if an order of the site or its certificate is unfinished or no certificate is available; else it is a pending renewal of the certificate the default binding names, or of the new one without a binding, and nothing else changes. |
| `Certificates.RenewalAddsVersion` | apps/hub-api/src/service.rs:1134-1213 | A renewal without faults stores one more version of the certificate the site uses and makes it the site's one default. |
| `Certificates.CreateOrderKeepsInv` | apps/hub-api/src/service.rs:2101-2167 | A new order, for a site or standalone, keeps the invariant. |
| `Certificates.CreateOrderOrders` | apps/hub-api/src/service.rs:2101-2167 | A new order is pending, of a new certificate, owned by its site; refused if and only if an id is taken or the site is gone. |
| `Certificates.AutoRenewOrders` | apps/dns-worker/src/lib.rs:731-846 | The worker orders a renewal exactly for an active certificate with none under way, for no site in particular. |
| `Certificates.RequeuePutsBack` | apps/hub-api/src/service.rs:2080-2099 | A retry or reset puts any order that is not issued back to pending, unless another renewal of its certificate is under way. |
| `Certificates.SetStatusSets` | apps/dns-worker/src/lib.rs:1008-1027 | A status update sets the status of that order and nothing else, unless the index refuses it. |
| `Certificates.ClaimKeepsInv` | apps/dns-worker/src/lib.rs:934-1006 | Claiming an order for issuance keeps the invariant. |
| `Certificates.ClaimHandsOver` | apps/dns-worker/src/lib.rs:934-1006 | Claiming a presented order hands over what the order says and marks it issuing. |
| `Certificates.StepKeepsInv` | apps/dns-worker/src/lib.rs:731-846 | So does every other step: automatic renewal under the partial unique index, retry, status update, crash. |
| `Certificates.RunKeepsInv` | apps/dns-worker/src/lib.rs:731-1246 | In every run from a sound store the invariant holds. |
| `Certificates.EveryReachableStore` | apps/dns-worker/src/lib.rs:1029-1135 | In every reachable store versions are exactly 1..k, a site has at most one default binding, and it carries its certificate's newest version. |
| `Certificates.SiteRenewalMeetsNoConflict` | migrations/0005_certificate_renewal_guard.sql:26-31 | A site renewal that passes the hub's own check never violates the unique index on active renewals. |
| `Certificates.UpdateRefusedIff` | migrations/0005_certificate_renewal_guard.sql:26-31 | An order is refused by the index if and only if it would be a second unfinished renewal of its certificate. |
| `Certificates.OneUnfinishedRenewal` | migrations/0005_certificate_renewal_guard.sql:26-31 | In every reachable store a certificate has at most one unfinished renewal. |
| `Challenges.PresentedRecordInZone` | apps/dns-worker/src/lib.rs:1263-1298 | A challenge named by the DNS-01 rule in a covering zone is stored under exactly that name, inside the zone. |
| `Challenges.ChallengeIff` | apps/dns-worker/src/lib.rs:1263-1298 | A payload gives a challenge if and only if its type is TXT or missing and name and value are there; its fields, with zone and time to live defaulted. |
| `Challenges.CompletePayloadIsReused` | apps/dns-worker/src/lib.rs:1355-1367 | An order whose stored payload is complete is presented with it. |
| `Challenges.NewPayloadIsStored` | apps/dns-worker/src/lib.rs:1138-1153 | An incomplete one with what the server answers, which is stored. |
| `Challenges.PresentAccounts` | apps/dns-worker/src/lib.rs:1138-1167 | Presenting an order adds exactly the record that order then accounts for, whatever the outcome. |
| `Challenges.PresentLeaves` | apps/dns-worker/src/lib.rs:1138-1167 | The status and the record each outcome of presenting leaves. |
| `Challenges.FinalizeAccounts` | apps/dns-worker/src/lib.rs:1214-1261 | Finalization deletes the very record that was presented, or none. |
| `Challenges.FinalizeLeaves` | apps/dns-worker/src/lib.rs:1169-1187 | The status, the warning and the record each outcome of finalizing leaves. |
| `Challenges.RequeueKeepsInv` | apps/hub-api/src/service.rs:2080-2099 | A retry or reset moves the order's outstanding record to the abandoned ones; the account stays exact. |
| `Challenges.RequeueAcceptedIff` | apps/hub-api/src/service.rs:2035-2099 | A retry is accepted for failed orders only, a reset for every order not issued; both empty the payload. |
| `Challenges.RunKeepsAccount` | apps/dns-worker/src/lib.rs:1138-1298 | In every run, retries and resets included, the provider holds the foreign records, those abandoned by a retry or reset, and exactly those the orders account for. |
| `Challenges.NothingAbandoned` | apps/hub-api/src/service.rs:2035-2099 | Only a retry or reset abandons a record. |
| `Challenges.IssuedOrderLeavesNothing` | apps/dns-worker/src/lib.rs:1169-1187 | An order issued without a warning has no record left, whatever the other orders did. |
| `Challenges.IssuedOrdersLeaveNothing` | apps/dns-worker/src/lib.rs:1169-1187 | When every order was issued without a warning only abandoned records are left, and none without a retry or reset. |
| `Challenges.RequeueByStatus` | apps/hub-api/src/service.rs:2035-2099 | In every reachable state a retry or reset of a pending order loses nothing; of a presented order or one failed at issuance it loses exactly the record the stored payload names. |
| `Challenges.RequeueUndecidedByStatus` | apps/dns-worker/src/lib.rs:1138-1187 | In the other three statuses two orders can be stored alike, one with a record outstanding and one without. |
| `Challenges.RetryLeavesRecord` | apps/hub-api/src/service.rs:2035-2052 | A retried order that is then issued without a warning leaves the record of its first attempt behind. |
| `DnsNames.MatchOfNormalNames` | apps/dns-worker/src/lib.rs:1338-1344 | A normalized zone name is compared as it stands: the match is "equal or below", whatever the case and trailing dots of the identifier. |
| `DnsNames.MatchIgnoresCase` | apps/dns-worker/src/lib.rs:1338-1344 | The match ignores the identifier's case and trailing dot. |
| `DnsNames.MatchIgnoresWildcard` | apps/dns-worker/src/lib.rs:1330-1344 | A wildcard is compared as the domain it covers. |
| `DnsNames.MatchingZonesChain` | apps/dns-worker/src/lib.rs:1338-1344 | Of two zones that contain a name the shorter contains the longer. |
| `DnsNames.LongestZoneInnermost` | apps/dns-worker/src/lib.rs:793-805 | Among normalized zones the longest that matches an identifier lies inside every other that matches. |
| `DnsNames.LongestZoneIndependentOfOrder` | apps/dns-worker/src/lib.rs:793-805 | The zone name chosen for an identifier does not depend on the order or repetition of the zone rows. |
| `DnsNames.NormalizedNameInZoneIff` | crates/dns-provider/src/cloudflare.rs:312-320 | A normalized record name lies in the zone unless the host merely ends with the zone's letters. |
| `DnsNames.RecordNameCases` | crates/dns-provider/src/cloudflare.rs:312-320 | The three cases of a normalized record name. |
| `DnsNames.LookAlikeHostLeavesZone` | crates/dns-provider/src/cloudflare.rs:312-320 | A host that ends with the zone's letters, such as badexample.com for example.com, is stored as it is, outside the zone. |
| `DnsNames.ChallengeRecordInZone` | apps/dns-worker/src/lib.rs:1330-1344 | The DNS-01 record name (section 8.4 of RFC 8555) lies strictly inside any zone covering the identifier, and normalization leaves it unchanged. |
| `DnsNames.RecordNames` | apps/dns-worker/src/lib.rs:1330-1336 | The record name of a plain and of a wildcard identifier, as literal text. |
| `SiteConfig.CheckRoutes` | apps/hub-api/src/service.rs:2552-2605 | The loop with its set of seen keys accepts exactly the routes that are valid and pairwise distinct in active key, and finds a default if one exists. |
| `SiteConfig.ValidateSiteConfig` | apps/hub-api/src/service.rs:2524-2617 | A configuration is accepted if and only if it satisfies the declarative conditions. |
| `SiteConfig.RouteAcceptedIff` | apps/hub-api/src/service.rs:2552-2590 | A route is accepted if and only if it is an object with a name, a path from the root, one of two match types and a known upstream. |
| `SiteConfig.KnownMatchTypesParse` | apps/hub-api/src/store.rs:2881-2886 | The parser reads an accepted match type as the validator meant it. |
| `SiteConfig.MatchTypeTexts` | apps/hub-api/src/store.rs:2881-2886 | The texts read as an exact match. |
| `SiteConfig.ValidRouteParses` | apps/hub-api/src/store.rs:2851-2879 | An accepted route is parsed, into exactly the fields it was accepted for. |
| `SiteConfig.FieldDefaults` | apps/hub-api/src/store.rs:2851-2879 | The defaults of priority, enabled and strip-prefix, and when they apply. |
| `SiteConfig.NoRouteIsDropped` | apps/hub-api/src/store.rs:2821-2849 | The published routes are a sorted permutation of all configured ones. |
| `SiteConfig.PublishedOrder` | apps/hub-api/src/store.rs:2888-2906 | The published order pair by pair: priority, longer path, exact before prefix, name. |
| `SiteConfig.ClosedNamesResolve` | apps/hub-api/src/store.rs:2780-2819 | If no upstream is reachable by its trimmed name alone, every route resolves to a parsed upstream. |
| `SiteConfig.RoutesAlwaysResolveIff` | apps/hub-api/src/store.rs:76-92 | For a list of upstreams, all accepted configurations resolve if and only if that condition holds. |
| `SiteConfig.UnresolvedConfig` | apps/hub-api/src/store.rs:2780-2819 | An upstream reachable by its trimmed name alone gives an accepted configuration with an unresolved route. |
| `SiteConfig.UntrimmedUpstreamIsUnresolved` | apps/hub-api/src/store.rs:2780-2819 | The concrete case: one upstream named " a" and an accepted route to "a". |
| `SiteConfig.TrimmedUpstreamsAreClosed` | apps/hub-api/src/service.rs:2524-2550 | Names without surrounding whitespace satisfy it. |
| `RouteMatching.AcceptedRoutesHaveUniqueKeys` | apps/hub-api/src/service.rs:2552-2605 | Accepted configurations publish routes with unique active keys. |
| `RouteMatching.AcceptedByParsedRoutes` | apps/hub-api/src/service.rs:2552-2605 | Validator and parser agree: routes acceptable one by one are accepted together if and only if the parsed active routes have distinct keys and include a default if there are upstreams. |
| `RouteMatching.WinnerIsBest` | docs/superpowers/specs/2026-04-27-site-upstream-routes-design.md:109-119 | The first match in published order is an active match that no other active match outranks. |
| `RouteMatching.WinnerByTheRules` | docs/superpowers/specs/2026-04-27-site-upstream-routes-design.md:109-119 | The winner has the lowest priority value; among those the longest path; among those an exact route if there is one. |
| `RouteMatching.MatchRules` | docs/superpowers/specs/2026-04-27-site-upstream-routes-design.md:109-119 | An exact route matches its path only, a prefix route also child paths but no longer word. |
| `RouteMatching.MatchExample` | docs/superpowers/specs/2026-04-27-site-upstream-routes-design.md:109-119 | The documented example with /api. |
| `RouteMatching.EqualRankSameKey` | apps/hub-api/src/store.rs:2888-2906 | Two matches of one path that rank equally share path, match type and priority. |
| `RouteMatching.WinnerIsStrict` | apps/hub-api/src/store.rs:2888-2906 | With unique keys the winner strictly outranks every other active match, so names never decide. |
| `RouteMatching.WinnerIgnoresOrderAndNames` | apps/hub-api/src/store.rs:2888-2906 | Permuting or renaming the routes never changes which route serves a path. |
| `RouteMatching.EveryPathServedIff` | docs/superpowers/specs/2026-04-27-site-upstream-routes-design.md:109-119 | Every path has a route if and only if an active prefix route for `/` exists. |
| `RouteMatching.ExactDefaultLeavesPaths` | apps/hub-api/src/service.rs:2552-2605 | An accepted configuration whose default route is exact serves `/` and leaves `/x` without a route. |
| `RouteMatching.LegacyConfigServesEveryPath` | apps/hub-api/src/store.rs:2821-2849 | A configuration without routes sends every path to its first upstream, or nowhere if it has none. |
| `RouteMatching.LegacyRoute` | apps/hub-api/src/store.rs:2821-2849 | The one route of a configuration without routes. |
| `ReleaseStatus.AggregateReleaseStatus` | apps/hub-api/src/store.rs:3039-3074 | The one-pass flags compute: failed if any failed, success if all succeeded, publishing if any is in progress, else pending. |
| `ReleaseStatus.StatusIs` | apps/hub-api/src/store.rs:3039-3074 | The status from the acknowledgements alone. |
| `ReleaseStatus.SummarizeReleaseCounts` | apps/hub-api/src/service.rs:2186-2197 | The counters are the sizes of the four classes of nodes. |
| `ReleaseStatus.ClassesAre` | apps/hub-api/src/service.rs:2186-2197 | Which statuses count as success, failed, in progress and pending. |
| `ReleaseStatus.StatusAgreesWithCounts` | apps/hub-api/src/service.rs:2186-2197 | The four counts add up to the targets, and each status holds if and only if the counts say so. |
| `ReleaseVersion.SerialRoundTrip` | crates/application/src/lib.rs:36-42 | The serial can be read back from any version, whatever the scope and timestamp. |
| `ReleaseVersion.SerialInjective` | crates/application/src/lib.rs:36-42 | Versions with different serials differ. |
| `ReleaseVersion.VersionInjective` | crates/application/src/lib.rs:36-42 | With dash-free timestamps a version determines scope, timestamp and serial. |
| `ReleaseVersion.SerialDigits` | crates/application/src/lib.rs:36-42 | Serials below a thousand take three digits, larger ones as many as they need. |
| `ReleaseVersion.VersionFormat` | crates/application/src/lib.rs:36-42 | The format on an example. |
| `Repository.SaveKeepsIndexIff` | apps/hub-api/src/store.rs:502-509 | An unchecked save keeps a code index right if and only if the code is free for that record. |
| `Repository.LookupIsScan` | apps/hub-api/src/store.rs:516-519 | With an agreeing index a lookup by code is a scan of the records. |
| `Repository.NewestAfterSave` | apps/hub-api/src/store.rs:634-646 | Saving a release, new or over an old one, makes it the newest of its targets; another node's newest stays the same if and only if it was not the overwritten one. |
| `Repository.SaveReleaseIff` | apps/hub-api/src/store.rs:634-646 | Saving a release, new or over an old one, keeps cache, acknowledgements, status and version index right if and only if its acknowledgements match, its version is free, and no node it no longer targets has it as its newest. |
| `Repository.NewReleaseIsSafe` | apps/hub-api/src/store.rs:634-646 | For a new identifier the last condition always holds, and the version is free if and only if no release has it. |
| `Repository.StrikeKeepsReleases` | apps/hub-api/src/store.rs:559-565 | Deleting a node keeps every release's acknowledgements, status and newest-release entries right. |
| `Repository.StruckFields` | apps/hub-api/src/store.rs:546-568 | What striking a node leaves of sites and releases, field by field. |
| `Repository.AckKeepsReleasesIff` | apps/hub-api/src/store.rs:671-683 | An acknowledgement keeps them right if and only if it comes from a target. |
| `Repository.StoredFields` | apps/hub-api/src/service.rs:1642-1686 | What an acknowledgement stores in the release and in the node, field by field. |
| `Repository.NewNodeFields` | apps/hub-api/src/service.rs:312-338 | What a new node starts with. |
| `Repository.RemoveFromSites` | apps/hub-api/src/store.rs:555-557 | The loop removes the node from every site's bindings and changes nothing else. |
| `Repository.RemoveFromReleases` | apps/hub-api/src/store.rs:559-565 | The loop removes the node from every release's targets and acknowledgements and recomputes its status. |
| `Repository.PointTargets` | apps/hub-api/src/store.rs:639-643 | The loop makes the release the newest of each of its targets and of nobody else. |
| `Repository.BuildReleaseAckStatus` | apps/hub-api/src/service.rs:2445-2459 | Exactly the targets start out pending. |
| `Repository.MemoryRepository.SaveNode` | apps/hub-api/src/store.rs:502-509 | The record is stored; the index stays right if and only if the code is free. |
| `Repository.MemoryRepository.SaveNewNode` | apps/hub-api/src/service.rs:303-339 | The save after the lookup: it keeps the index right if and only if nobody has taken the code since. |
| `Repository.MemoryRepository.CreateNode` | apps/hub-api/src/service.rs:295-345 | With nothing between lookup and save, a node is created if and only if code and name are not blank and the code is unused; the index stays right. |
| `Repository.MemoryRepository.NodeIdByCode` | apps/hub-api/src/store.rs:516-519 | Answers exactly as a scan of the records would. |
| `Repository.MemoryRepository.RecordHeartbeat` | apps/hub-api/src/store.rs:570-584 | The node comes online unless it is in maintenance, its runtime fields are the reported ones, and nothing else changes; the index stays right. |
| `Repository.MemoryRepository.DeleteNode` | apps/hub-api/src/store.rs:546-568 | Record, index entry, bindings, targets and acknowledgements of the node go; every index and cache stays right. |
| `Repository.MemoryRepository.SaveSite` | apps/hub-api/src/store.rs:586-593 | The record is stored; the index stays right if and only if the code is free for that site. |
| `Repository.MemoryRepository.DeleteSite` | apps/hub-api/src/store.rs:610-623 | Record and index entry go; the index stays right. |
| `Repository.MemoryRepository.SaveRelease` | apps/hub-api/src/store.rs:634-646 | Everything stays right under exactly the conditions of `Repository.SaveReleaseIff`, also when a release is overwritten. |
| `Repository.MemoryRepository.LatestReleaseIdForNode` | apps/hub-api/src/store.rs:666-669 | The newest saved release that targets the node. |
| `Repository.MemoryRepository.UpdateReleaseAck` | apps/hub-api/src/store.rs:671-683 | The acknowledgement given is stored and the status recomputed, targets and version untouched; everything stays right if and only if the node is a target. |
| `Repository.ReleaseService.SaveCompiledRelease` | apps/hub-api/src/service.rs:1520-1558 | With serials from the counter the version is always new, so no version entry is ever overwritten and everything stays right. |
| `Repository.ReleaseService.SaveAck` | apps/hub-api/src/service.rs:1642-1686 | The writes after the reads: everything stays right if and only if the node is still a target and the record saved for it still its own. |
| `Repository.ReleaseService.AckRelease` | apps/hub-api/src/service.rs:1642-1686 | With nothing between reads and writes: refused if and only if the release is unknown or the node not a target; otherwise the acknowledgement is stored and the node shows the acknowledged version; everything stays right. |
| `CommandTemplate.RenderCommand` | crates/ops-orchestrator/src/lib.rs:36-66 | Unknown parameters are refused if and only if there are any; otherwise the result is that of the replacement loop. |
| `CommandTemplate.ReplaceFillsHole` | crates/ops-orchestrator/src/lib.rs:48-63 | On text without opening braces, replacing one placeholder fills exactly its holes, and the containment test is "such a hole exists". |
| `CommandTemplate.LoopIsSubstitution` | crates/ops-orchestrator/src/lib.rs:36-66 | With brace-free names, and no opening brace in values and text, the loop succeeds if and only if every allowed hole has a scalar value, and then equals simultaneous substitution. |
| `CommandTemplate.OrderIrrelevant` | crates/ops-orchestrator/src/lib.rs:48-63 | Order and repetition of the allowed names do not matter. |
| `CommandTemplate.NoAllowedPlaceholderLeft` | crates/ops-orchestrator/src/lib.rs:48-63 | A rendered command holds no placeholder of an allowed name. |
| `CommandTemplate.ReportsFirstError` | crates/ops-orchestrator/src/lib.rs:48-63 | A failing rendering reports the first allowed name that has a placeholder and no scalar value. |
| `CommandTemplate.FirstErrorIs` | crates/ops-orchestrator/src/lib.rs:48-63 | Which name that is, and whether it is reported as missing or invalid. |
| `CommandTemplate.ValueTexts` | crates/ops-orchestrator/src/lib.rs:55-60 | How strings, numbers and truth values are written. |
| `CommandTemplate.BracesInValuesBreakOrder` | crates/ops-orchestrator/src/lib.rs:48-63 | A value that spells a placeholder is read again as a placeholder; the order of the names then shows. |
| `Operations.CreateKeepsInv` | apps/hub-api/src/service.rs:604-669 | Saving an operation built from whatever the request had read of the template, stale or not, keeps the queue's invariant. |
| `Operations.ClaimKeepsInv` | apps/hub-api/src/store.rs:986-1020 | Claiming the oldest approved operation keeps it. |
| `Operations.ReportKeepsInv` | apps/hub-api/src/service.rs:804-839 | So does a report that saves the record it had read before over whatever is stored by then. |
| `Operations.RunKeepsInv` | apps/hub-api/src/store.rs:905-1030 | Every run of creations, claims, reports, template edits and deletions, interleaved access by access, keeps it. |
| `Operations.DispatchSafety` | apps/hub-api/src/store.rs:986-1020 | In every run an operation is handed out at most once, only to its own node, only if created approved; of two handed to one node the first was created no later, unless the second was saved only after that. |
| `Operations.DispatchInCreationOrder` | apps/hub-api/src/store.rs:991-1000 | If operations are saved in the order of their creation times, a node receives them in that order. |
| `Operations.ClaimFindsTemplateIff` | apps/hub-api/src/store.rs:1005-1014 | In every reachable queue a claim hands the operation out if and only if its template was still stored when the operation was saved, or has been saved again since; otherwise it is marked running in vain. |
| `Operations.RunningWasDispatchedIff` | apps/hub-api/src/store.rs:1005-1014 | An operation marked running has been handed out if and only if it was not claimed in vain. |
| `Operations.NoOrphans` | migrations/0001_init.sql:364-368 | If no template is deleted between its reading and the save, as the foreign key of the database ensures, no operation is ever claimed in vain. |
| `Operations.DeletedTemplateIsMissed` | apps/hub-api/src/store.rs:943-961 | The concrete run: a template deleted between reading and save leaves an operation running that nobody has. |
| `Operations.UnchangedTemplateRenders` | apps/hub-api/src/service.rs:2776-2796 | The command renders at dispatch whenever the template is the one the operation was created with. |
| `Operations.DispatchRendersIff` | apps/hub-api/src/service.rs:2776-2796 | On templates whose opening braces are all placeholders, and values without one, a claimed operation gets a command if and only if every parameter is allowed and every allowed placeholder has a scalar value; the command is then the substitution. |
| `Operations.WaitingIsNeverDispatched` | apps/hub-api/src/service.rs:633-637 | An operation created without its required approval is never handed out. |
| `Operations.DispatchedWasApproved` | apps/hub-api/src/service.rs:627-637 | Whatever was handed out was created from a template that needs no approval, or with a ticket that is not blank. |
| `Operations.EditedTemplateFails` | apps/hub-api/src/service.rs:2776-2796 | Editing the template between creation and claim can leave an operation running without a command. |
| `Operations.MemoryOperations.SaveOperationTemplate` | apps/hub-api/src/store.rs:905-917 | The stored templates change as in the step; operations of that template are orphans no more. |
| `Operations.MemoryOperations.DeleteOperationTemplate` | apps/hub-api/src/store.rs:943-953 | The loop removes the template and exactly the operations that use it; the others are unchanged. |
| `Operations.MemoryOperations.ReadTemplate` | apps/hub-api/src/service.rs:615-620 | The template as stored at that moment. |
| `Operations.MemoryOperations.CreateNodeOperation` | apps/hub-api/src/service.rs:604-669 | Accepted if and only if node and template had been found and the command renders with the template read; the operation saved has the fields requested and is approved if and only if the template needs no approval or a ticket is given that is not blank, else waiting. |
| `Operations.MemoryOperations.SelectNext` | apps/hub-api/src/store.rs:991-1000 | The node's approved operation with the earliest creation time, if and only if there is one. |
| `Operations.MemoryOperations.ClaimNextNodeOperation` | apps/hub-api/src/store.rs:986-1020 | Claims that operation; from a sound queue it returns the template and records one dispatch if and only if the operation is no orphan. |
| `Operations.MemoryOperations.ReportNodeOperationResult` | apps/hub-api/src/service.rs:804-839 | Refused for an operation not found or of another node; else the record read is saved with the outcome reported. |
| `TokenStore.TokenLiveIff` | apps/hub-api/src/token_store.rs:31-132 | Any token ever issued is live, with its own lease, if and only if nothing newer happened to its node. |
| `TokenStore.LiveTokenWasIssued` | apps/hub-api/src/token_store.rs:112-120 | Every live token was issued, to the node and with the expiry of its lease. |
| `TokenStore.OneLivePerNode` | apps/hub-api/src/token_store.rs:31-37 | A node has at most one live token of each kind. |
| `TokenStore.IssueKeepsAgreement` | apps/hub-api/src/token_store.rs:79-110 | Issuing a fresh token keeps live leases equal to the current tokens. |
| `TokenStore.RevokeKeepsAgreement` | apps/hub-api/src/token_store.rs:122-131 | So does revoking. |
| `TokenStore.MemoryTokenStore.IssueTokens` | apps/hub-api/src/token_store.rs:79-110 | The four maps agree with the history extended by this issue. |
| `TokenStore.MemoryTokenStore.RevokeTokens` | apps/hub-api/src/token_store.rs:122-131 | The four maps agree with the history extended by this revocation. |
| `TokenStore.MemoryTokenStore.AuthorizeNode` | apps/hub-api/src/service.rs:766-789 | Accepts if and only if the node exists and the token is the node's newest, not revoked and not expired. |
| `TokenStore.MemoryTokenStore.RefreshLease` | apps/hub-api/src/token_store.rs:117-120 | A lease is found if and only if the token is its node's current refresh token. |
| `TokenStore.MemoryTokenStore.IssueForLease` | apps/hub-api/src/service.rs:742-764 | With a lease looked up before, however long ago: a new pair for the lease's node, and the token is worthless afterwards. |
| `TokenStore.MemoryTokenStore.RefreshNodeToken` | apps/hub-api/src/service.rs:742-764 | With nothing between lookup and issue: accepts if and only if the refresh token is the node's current one, which is worthless afterwards. |
| `NodeAgent.AgentKeepsInv` | apps/node-agent/src/main.rs:358-494 | Every step of the agent's pipeline keeps the invariant, whatever each request and file operation answers. |
| `NodeAgent.RunKeepsInv` | apps/node-agent/src/main.rs:84-173 | So does every run with crashes, restarts, hub changes and late requests. |
| `NodeAgent.SuccessMeansApplied` | apps/hub-api/src/service.rs:1642-1668 | In every run the hub holds "success" for a release only if this agent had applied and activated its version. |
| `NodeAgent.FailedMeansAttempted` | apps/node-agent/src/main.rs:417-440 | The hub holds "failed" only if an apply for that release failed. |
| `NodeAgent.LocalStateIsTrue` | apps/node-agent/src/main.rs:281-298 | In memory and on disk, the current version was activated here and the last acknowledgement was accepted by the hub. |
| `NodeAgent.CurrentChangesOnlyByActivation` | apps/node-agent/src/main.rs:442-451 | The current release fields change only on a completed activation or a restart. |
| `NodeAgent.ActivationInstalls` | apps/node-agent/src/main.rs:442-451 | What an activation writes into the agent's state. |
| `NodeAgent.HeartbeatSaves` | apps/node-agent/src/main.rs:111-125 | An answered heartbeat writes the state to disk; an unanswered one ends the agent. |
| `NodeAgent.RestartResumes` | apps/node-agent/src/main.rs:281-290 | A restart resumes from the disk. |
| `NodeAgent.ReportsOnTheWay` | apps/node-agent/src/main.rs:378-415 | The hub hears downloading before the fetch and applying before the apply. |
| `NodeAgent.PackageIsOfTheVersion` | apps/hub-api/src/service.rs:1605-1640 | The package comes from a release of the announced version that targets the node. |
| `NodeAgent.FailureIsReported` | apps/node-agent/src/main.rs:417-440 | A failed apply is reported as failed and changes nothing at the agent. |
| `NodeAgent.ErrorEndsRound` | apps/node-agent/src/main.rs:126-146 | A failed request ends the round, or starts it over after an authorization error. |
| `NodeAgent.FailedApplyKeepsCurrent` | apps/node-agent/src/main.rs:788-826 | While applies fail, the current release fields stay as they were in memory and on disk, through crashes and restarts. |
| `NodeAgent.FaultFreeRoundConverges` | apps/node-agent/src/main.rs:358-466 | A round without faults installs the new version, records it on disk and leaves "success" at the hub. |
| `NodeAgent.ConfirmsRunningVersion` | apps/node-agent/src/main.rs:468-491 | An agent that runs the newest version but has not said so tells the hub and writes it down. |
| `NodeAgent.IdleWhenAcknowledged` | apps/node-agent/src/main.rs:468-494 | One that has said so does nothing. |
| `SiteCode.SlugifySiteCode` | apps/hub-api/src/service.rs:2383-2408 | The one-pass loop computes the words of the text joined by single dashes, with no leading, trailing or doubled dash. |
| `SiteCode.SlugIsSlug` | apps/hub-api/src/service.rs:2383-2408 | Joined words are a slug, for every text. |
| `SiteCode.CharOfSlug` | apps/hub-api/src/service.rs:2386-2395 | What a slug keeps of each character. |
| `SiteCode.SlugStep` | apps/hub-api/src/service.rs:2396-2406 | The slug of a text with one more character. |
| `SiteCode.OpenAfter` | apps/hub-api/src/service.rs:2396-2406 | When the next word is set off by a dash. |
| `SiteCode.SlugFixedPoint` | apps/hub-api/src/service.rs:2383-2408 | A text is its own slug if and only if it is a slug; making slugs is idempotent. |
| `SiteCode.ChooseBase` | apps/hub-api/src/service.rs:2347-2367 | The base is the first non-empty slug of wish, domain and name, else a random code. |
| `SiteCode.BeforeDotIsFirstLabel` | apps/hub-api/src/service.rs:2358-2362 | The part of the domain used is everything before its first dot. |
| `SiteCode.CandidateTexts` | apps/hub-api/src/service.rs:2369-2380 | The codes tried: the base, then -2, -3 and so on. |
| `SiteCode.CandidatesDiffer` | apps/hub-api/src/service.rs:2369-2380 | No two candidates are equal. |
| `SiteCode.CollisionsBounded` | apps/hub-api/src/service.rs:2369-2380 | There are at most as many collisions as existing codes. |
| `SiteCode.GenerateUniqueSiteCode` | apps/hub-api/src/service.rs:2347-2381 | Terminates with the first unused candidate, at a suffix of at most the number of existing codes plus one; the code is a slug. |

## Left out

- HTTP routing, cookies, console pages, login and admin sessions, JSON envelopes: plumbing and easy members.
- ACME exchanges, signing, X.509 and hashing: only the success or failure of each call is kept.
- SQL text, connection pools and Redis commands: each transaction is one atomic step; only the constraints that matter are kept.
- Shell commands, health checks, REST calls to the DNS provider and file writes: success or failure only; a state file is written whole or not at all.
- Concurrency inside one database write or one write of the in-memory store: each is atomic. What a request had read before its write may be stale in `Failover`, `Operations`, for a saved site release in `ReleaseTargeting`, and for the checked writes of `Repository` and `TokenStore`; in the certificate modules a request's reads and its write are one step.
- Two DNS workers at once: order status updates are unconditional, so one worker process with atomic admin steps is assumed.
- Release counters and 64-bit wrap-around, suffix counters and 32-bit wrap-around: counters are unbounded; the bounds proved for the suffix and for priorities show when the fixed widths suffice.
- DNS-based traffic switching during a failover, failover events other than whether one is open, and status-worker counters.
- Name indexes of DNS providers and operation templates: after a rename the code leaves a stale entry, so no agreement is claimed.
- The hub's active_config_version: it is recorded even while downloading, so "active implies applied" is not an invariant of the code.
- Cache rules, balance methods and endpoints of a site configuration: no hard property depends on them.
- Node-side route matching is not part of the repository; the match rules are those of its design document.
- The Unicode case mapping of letters outside ASCII in statuses and match types.
- Failover.RunKeepsStep: assumes one active policy per site that starts in step with the bindings; other saves of the site, stale reads, separated writes of a switch and dropping the previous primary are covered by `Failover.RunInStepIff` instead.
- Failover.NormalizeItems: the role texts are read before the loop, not item by item inside it; the answer is the same.
- FailoverCycle.ProcessFailoverPolicies: takes and returns the sites as a map instead of updating a database in place, and no hub write falls inside the cycle; such writes are covered by `Failover.SwitchInsideCycleIff` and `Failover.RunInStepIff`.
- ReleaseTargeting.RunKeepsTargeting: assumes strictly increasing creation times; interrupted requests and other site releases are covered by `ReleaseTargeting.RunCoveredIff`.
- Certificates.RunKeepsInv: certificate status texts other than "active", renewal dates and domains are not modelled, so which certificates are due is arbitrary.
- Challenges.RunKeepsAccount: zone rows do not change during the run.
- SiteConfig.ValidateSiteConfig: keys of JSON objects are a datatype of the keys the code reads, and error texts are not modelled.
- Operations.DispatchSafety: operations queued by workers are not modelled.
- TokenStore.MemoryTokenStore.IssueTokens: the random token is a parameter that was never issued before.
- NodeAgent.RunKeepsInv: the agent is a step machine on values, because a crash may fall between any two statements of its loop; sessions and operations are left out.
