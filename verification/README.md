# A verified model of the Fabric SDK's hard parts

This project models, in Dafny 4.11, the parts of the Hyperledger Fabric SDK for Go that hold state
machines, concurrent protocols and loop algorithms, and proves what they are meant to guarantee for
every input, every interleaving and every map iteration order.

| file | what it models |
|---|---|
| `Collections.dfy` | optional values and the orders in which a collection is visited |
| `ConnectionCache.dfy` | the critical sections of the caching gRPC connector, as functions on its abstract value |
| `ConnectorRuns.dfy` | callers, handles, janitors and `Close` as one transition system over those sections |
| `Connector.dfy` | the connector, its records and its handles as objects that refine those functions |
| `OrdererStream.dfy` | the producer and the consumer of an orderer's stream, over any finite script of `Recv` results |
| `Proposal.dfy` | removal of duplicate targets and the fan-out of a proposal |
| `ConfigQuery.dfy` | in-place filtering, matching and the query of a config block |
| `LedgerTargets.dfy` | shuffle-and-cut selection of ledger targets |
| `Lifecycle.dfy`, `StringOrder.dfy` | agreement on committed chaincode definitions; Go's string order |
| `InvocationChain.dfy` | merging of invocation chains, additional endorsers |
| `EndorsementHandler.dfy` | endorsement in two phases |
| `ChannelConfig.dfy` | extraction of versions and items from a tree of config groups |
| `Capability.dfy` | `HasCapability` and the order of version names |
| `EndpointConfig.dfy` | entity matchers, layered defaults, option maps shared by reference |
| `PathSubst.dfy` | substitution of `${VAR}` in paths |

Clocks, random numbers, the answers of peers and of the gRPC library are parameters or free choices
of a step; a timeout is a failing choice of the step that waits. A payload is given together with
what the protobuf decoders make of it. Regular expressions are given by what they match and replace.
Where a Go map is ranged over, the model picks the next key freely.

Seven claims that one might expect turn out to fail. The model keeps the code as it is and states the
exact limit:

* Closing the connector while it is in use can end in a send on a closed channel, which panics. Before
  `Close` is called that is possible, without a further dial, exactly when a dial of a live connection
  is in progress, or a handle is given back during `Close` while a janitor is on its way out and so
  leaves the token that starts another, fatal one (`PanicPossibleIff`). With a further dial it is
  always possible (`AnotherDialCanPanic`). So a caller whose dials have all returned and who gives
  nothing back while `Close` runs is safe. As `Close` returns, the panic is still possible exactly when
  a janitor is left or a dial is about to start one (`PanicAfterCloseIff`), and can still be avoided
  exactly when every such janitor reached its select before `janitorDone` became nil
  (`PanicAvoidableIff`).
* An idle cached connection need not have a janitor that watches it, and not only for a moment: one
  that is dialled and released while a janitor is on its way out stays unwatched until the next dial
  or release (`UnwatchedIsReachable`). The return of a dial or of a handle leaves a janitor at work
  exactly when none is on its way out (`WatchedAfterIff`), and a janitor at work stays while a
  connection stays in the index (`WatchedWhileIndexed`).
* The drain loop of the stream consumers re-reads the length of the channel it drains, and takes only
  half of what is buffered. No error is lost in any run exactly because the error channel has one
  slot (`DrainErrors`, `DrainsCompletelyIff`, `LostError`).
* A peer looked up twice by URL need not resolve to the same configuration, because each lookup ranges
  over the map of peers in an order of its own. It does exactly unless two stored peers of that URL
  differ (`ResolvesAlikeIff`, `SharedUrl`).
* The capabilities of a channel can depend on the order in which the groups of its configuration are
  visited. They do not exactly when at most one set can be found last for each group name
  (`CapabilitiesDeterminedIff`, `OrdersCanDisagree`).
* String order is version order for names whose components have up to `width` digits exactly when
  `width` is one (`StringOrderIsVersionOrderIff`), and for two given versions exactly when the first
  difference is of the right kind (`SeenCorrectlyIff`); a group that lists V10 does not support V2
  (`NewerVersionUnseen`).
* Merging a merged chain again reports no change exactly when later calls of a chaincode bring no
  collection beyond its first call (`RemergeUnchangedIff`, `RepeatedCallChangesAgain`).

The comment above `mergeCCCall` says that the response's call is returned when the collection sets are
the same; the code returns a copy of the original call in that case, and so does the model.

## Model

| member | source | states |
|---|---|---|
| ConnectorRuns.RunsAreSafe | pkg/fab/comm/connector.go:113-323 | in every run of dials, failed dials, handle closes, releases, deaths, sweeps and `Close` steps: every entry of `conns` is under its own target and in the index; every connection ever created is in the index or shut down; until `Close` ends each indexed connection counts exactly the callers that hold it; until it closes the channels there is at most one janitor, its exit send finds the slot free and nothing panics; until `Close` begins, tokens plus janitors are one |
| ConnectorRuns.StepKeepsInvariant | pkg/fab/comm/connector.go:113-331 | the inductive invariant behind it is kept by each of the fifteen steps, including a late failing dial of a removed connection and a repeated close of a handle |
| ConnectorRuns.SweepIsExact | pkg/fab/comm/connector.go:257-277 | before `Close` ends, a tick shuts exactly the indexed connections that no caller holds and that are idle past the limit, and drops these and the dead ones from the index, and the entries of their targets; no live connection that a caller holds is shut |
| ConnectorRuns.IdleSinceLastRelease | pkg/fab/comm/connector.go:257-268 | in every run from a new connector a sweep shuts a live indexed connection iff no caller holds it and more than the idle time has passed since the run last gave it back |
| ConnectorRuns.IdleSinceRelease | pkg/fab/comm/connector.go:345-350 | after a release, and any steps that do not release that connection again, the same with the time of that release |
| ConnectorRuns.DialOutcome | pkg/fab/comm/connector.go:168-210 | a dial shares a live cached connection, which gains a user; a dead one leaves both maps and wakes a janitor; otherwise the new one is filed in both maps with one user |
| ConnectorRuns.NoDialAfterClose | pkg/fab/comm/connector.go:183-186 | a closed connector refuses to dial |
| ConnectorRuns.FailOutcome | pkg/fab/comm/connector.go:127-132 | a failing dial takes its connection out of the index and shuts it, and clears the entry of its target, whatever that is by then |
| ConnectorRuns.WatchedAfterIff | pkg/fab/comm/connector.go:279-287 | before `Close` the return of a dial, or of a handle of an indexed connection, leaves a janitor at work iff none is on its way out |
| ConnectorRuns.WatchedWhileIndexed | pkg/fab/comm/connector.go:312-322 | in every run before `Close` a janitor at work stays at work as long as a connection stays in the index |
| ConnectorRuns.UnwatchedIsReachable | pkg/fab/comm/connector.go:312-320 | a run after which an idle connection is in the index and no janitor is there |
| ConnectorRuns.ClosedForGood | pkg/fab/comm/connector.go:97-110 | once `Close` has ended every connection ever created is shut down, and in every continuation that stays so and none is created |
| ConnectorRuns.CloseCanFinish | pkg/fab/comm/connector.go:76-110 | from every reachable state at most six steps of `Close` and the janitor bring `Close` to its end: its wait never hangs |
| ConnectorRuns.PanicPossibleIff | pkg/fab/comm/connector.go:76-110 | from any state before `Close`, some run that begins no further dial sends on the closed token channel iff a dial of a live connection is in progress, or handles may be given back, one is of an indexed connection and a janitor is about to exit |
| ConnectorRuns.AnotherDialCanPanic | pkg/fab/comm/connector.go:212-223 | from any state before `Close` one further dial makes that possible |
| ConnectorRuns.PanicIsReachable | pkg/fab/comm/connector.go:212-223 | so it is from a new connector |
| ConnectorRuns.PanicAfterCloseIff | pkg/fab/comm/connector.go:106-109 | after `Close` some continuation sends on the closed token channel iff a janitor is left or a dial is between readiness and the start of the janitor |
| ConnectorRuns.PanicAvoidableIff | pkg/fab/comm/connector.go:106-109 | after `Close` some continuation comes to rest without that iff no janitor is left that finds `janitorDone` nil at its select or is on its way out, and no dial is about to start one |
| ConnectorRuns.HoldersMoved | pkg/fab/comm/connection.go:92-111 | how the number of holders of each connection changes when one caller moves on |
| ConnectionCache.RemoveAllSound | pkg/fab/comm/connector.go:257-277 | removing any set of connections, by connection and by target, keeps `conns` inside the index and loses no connection |
| ConnectionCache.RemoveAllStep | pkg/fab/comm/connector.go:257-268 | removing one after another, in any order, is removing all at once |
| ConnectionCache.CreateSound | pkg/fab/comm/connector.go:183-210 | the locked part of a dial keeps the cache sound |
| ConnectionCache.AbandonSound | pkg/fab/comm/connector.go:127-132 | so does the locked part of a failing dial, also of a connection that was removed before |
| ConnectionCache.FlushShutsEverything | pkg/fab/comm/connector.go:326-331 | closing the indexed connections leaves no connection ever created open |
| Connector.CachedConn.SetClosed | pkg/fab/comm/connector.go:345-350 | gives one use back, never below zero, and notes the time |
| Connector.CachingConnector.constructor | pkg/fab/comm/connector.go:56-73 | a new connector is empty and has one token |
| Connector.CachingConnector.CreateConn | pkg/fab/comm/connector.go:183-210 | refines `Create`: a closed connector refuses, a live cached connection gains a user, a dead one is dropped and wakes the janitor, otherwise a new record with one user is filed in both maps |
| Connector.CachingConnector.LoadConn | pkg/fab/comm/connector.go:168-181 | the cached part of that, with the records shared by both maps |
| Connector.CachingConnector.FailDial | pkg/fab/comm/connector.go:127-132 | refines `Abandon` |
| Connector.CachingConnector.ReleaseConn | pkg/fab/comm/connector.go:138-166 | refines `Release` for every record of the connection; a connection of foreign origin changes nothing; after closing it is shut down |
| Connector.CachingConnector.ShutdownConn | pkg/fab/comm/connector.go:244-255 | drops a connection from both maps and wakes the janitor, unless the connector is closed |
| Connector.CachingConnector.RemoveConn | pkg/fab/comm/connector.go:270-277 | drops a connection from both maps and closes it |
| Connector.CachingConnector.EnsureJanitorStarted | pkg/fab/comm/connector.go:279-287 | a janitor starts iff a token is buffered or the channel is closed |
| Connector.CachingConnector.SweepAndRemove | pkg/fab/comm/connector.go:257-268 | deleting while iterating, in any order, removes exactly the expired connections at once |
| Connector.CachingConnector.EnterSelect | pkg/fab/comm/connector.go:308-311 | a janitor that finds `janitorDone` nil will hear only ticks |
| Connector.CachingConnector.JanitorTick | pkg/fab/comm/connector.go:312-318 | sweeps, and the janitor goes to its exit if nothing is left in the index and back to its select otherwise |
| Connector.CachingConnector.SendToken | pkg/fab/comm/connector.go:319-320 | the exit send gives the token back, or panics on a closed channel |
| Connector.CachingConnector.SelectClose | pkg/fab/comm/connector.go:88-95 | takes the token, or else tells the janitor to stop and has to await it |
| Connector.CachingConnector.FinishClose | pkg/fab/comm/connector.go:97-110 | shuts every connection ever created and closes the channels |
| Connector.GRPCConnection.Close | pkg/fab/comm/connection.go:92-111 | of any number of closes of a handle only the first reaches the connector |
| OrdererStream.RunsDeliverEverything | pkg/fab/orderer/orderer.go:291-342 | for every script and every interleaving the run is finite, and where it stops both processes are at their end and the consumer has the last result and all errors in order |
| OrdererStream.NoDeadlock | pkg/fab/txn/txn.go:239-271 | in every reachable state some step is possible iff the consumer has not returned |
| OrdererStream.NilErrorIff | pkg/fab/orderer/orderer.go:308-314 | the caller sees no error iff the stream ended cleanly and carried no failure |
| OrdererStream.BroadcastOutcome | pkg/fab/orderer/orderer.go:291-342 | for every sequence of responses and every interleaving: no error iff the stream ends in EOF and every response has status 200; the status is 200 iff some response has it; the errors are those of the other responses in order, then that of a broken stream |
| OrdererStream.DeliverOutcome | pkg/fab/orderer/orderer.go:400-435 | no error iff the stream ends in EOF and every status reply is a success; the result is the last block, or nil iff there is none; the errors are those of the other status replies in order |
| OrdererStream.RefusalsAre | pkg/fab/orderer/orderer.go:336-340 | each response without status 200 is reported with its status and text, as often as it came |
| OrdererStream.ErrorStatusesAre | pkg/fab/orderer/orderer.go:419-423 | so is each such status reply of a deliver stream |
| OrdererStream.ToError | pkg/common/errors/multi/multi.go:53-63 | a caller sees nil for no error, the error itself for one, and the whole list otherwise |
| OrdererStream.ErrorsConserved | pkg/fab/orderer/orderer.go:317-342 | errors received, buffered and unsent, in this order, are the same sequence before and after each step |
| OrdererStream.DrainErrors | pkg/fab/txn/txn.go:264-268 | the drain loop alone takes the first half, rounded up, of what is buffered |
| OrdererStream.DrainsCompletelyIff | pkg/fab/orderer/orderer.go:350 | every run of every script delivers all errors iff the error channel has one slot |
| OrdererStream.LostError | pkg/fab/orderer/orderer.go:308-312 | with two slots, a script and a run that lose an error |
| OrdererStream.FailedDeliverIsReported | pkg/fab/orderer/orderer.go:352-375 | when the connection or the stream cannot be opened the consumer returns that one error and no block |
| OrdererStream.TryOrderers | pkg/fab/txn/txn.go:176-186 | for every random order: success iff some orderer accepts, with the answer of the first that does, otherwise the last error |
| Proposal.TargetsWithoutDuplicates | pkg/fab/txn/proposal.go:142-163 | all targets when one is not a peer; otherwise the first of each URL: a subsequence with pairwise distinct URLs that loses none |
| Proposal.OnePerUrl | pkg/fab/txn/proposal.go:146-156 | that leaves pairwise distinct URLs and loses none |
| Proposal.EachIsFirst | pkg/fab/txn/proposal.go:152-155 | each target left is the first of its URL |
| Proposal.FanOut | pkg/fab/txn/proposal.go:115-136 | whatever the order of the goroutines, the two lists are the responses and the errors in the order of entry, and hold each answer exactly once |
| Proposal.ListsInOrder | pkg/fab/txn/proposal.go:122-133 | both lists are in the order of entry |
| Proposal.EveryAnswerOnce | pkg/fab/txn/proposal.go:115-136 | every interleaving collects the same answers, each exactly once |
| Proposal.SendProposal | pkg/fab/txn/proposal.go:81-139 | nil and missing targets are refused; otherwise each target sent to contributes exactly one response or one error |
| Proposal.Append | pkg/common/errors/multi/multi.go:42-51 | appending to a nil, single or multiple error adds exactly one fault at the end |
| ConfigQuery.FilterResponses | pkg/fab/channel/ledger.go:277-294 | filtering over the aliased slice is the order-preserving filter, leaves the rest of the array alone, and adds exactly one error per dropped response |
| ConfigQuery.KeptOrDropped | pkg/fab/channel/ledger.go:277-294 | each response with status 200 that the verifier accepts is kept as often as it came in, and each other one as often dropped |
| ConfigQuery.EachDropIsReported | pkg/fab/channel/ledger.go:277-294 | the errors are those of the dropped responses, one by one, with their endorser and status |
| ConfigQuery.KeptInOrder | pkg/fab/channel/ledger.go:277-294 | both parts keep their order |
| ConfigQuery.Match | pkg/fab/channel/responsevalidator.go:27-62 | no error iff the minimum is positive, enough responses are there and all carry a block with the same single transaction; each error only in its case |
| ConfigQuery.MatchingIff | pkg/fab/channel/responsevalidator.go:27-62 | whether the filtered responses match does not depend on the order in which they came in |
| ConfigQuery.QueryChaincode | pkg/fab/channel/ledger.go:258-275 | yields the good responses in the order of entry, and one error for each other answer |
| ConfigQuery.QueryConfigBlock | pkg/fab/channel/ledger.go:239-256 | for every interleaving a block is returned iff at least the minimum of targets answered with status 200 and all that did agree; it is one of theirs; the query fails iff none answered so, with one error for each answer, and otherwise the responses do not match, for want of a minimum or of responses exactly when they are wanting |
| ConfigQuery.AgreementIff | pkg/fab/channel/responsevalidator.go:27-62 | what agreement means, answer by answer |
| ConfigQuery.QuorumOfPeers | pkg/fab/channel/ledger.go:239-256 | behind a returned block stand at least the minimum of peers of different URLs with exactly its data |
| LedgerTargets.PreparedBounds | pkg/client/ledger/ledger.go:347-371 | defaults leave a minimum not above the maximum; a number that is given stays unless a maximum yields to the minimum, and one that is not given is one; the maximum is negative iff both numbers were |
| LedgerTargets.Shuffle | pkg/client/ledger/ledger.go:461-466 | shuffling in place is the round-by-round exchange with the drawn places |
| LedgerTargets.ShuffleKeeps | pkg/client/ledger/ledger.go:461-466 | a shuffle is a permutation |
| LedgerTargets.ShuffleReachesAll | pkg/client/ledger/ledger.go:461-466 | every permutation is the outcome of some draws |
| LedgerTargets.FilterTargets | pkg/client/ledger/ledger.go:435-449 | the accepted peers, in order |
| LedgerTargets.AcceptedExactly | pkg/client/ledger/ledger.go:435-449 | with their multiplicity, and no others |
| LedgerTargets.AcceptedInOrder | pkg/client/ledger/ledger.go:435-449 | and in their order |
| LedgerTargets.CalculateTargets | pkg/client/ledger/ledger.go:374-418 | discovered peers are filtered by the request's filter, or else by the client's own, and given targets by neither: no peers are found iff none passes, and all that are returned pass; they are the head of a shuffle of the candidates, between minimum and maximum in number; each failure exactly in its case; a slice panics iff both numbers were given negative and there are candidates; a given slice is at most permuted |
| Lifecycle.VerifyResponsesMatch | pkg/client/resmgmt/lifecycleprocessor.go:541-566 | comparing neighbours accepts iff all responses decode and agree with the first, and so pairwise; otherwise the verdict is that of the first response that does not agree |
| Lifecycle.AcceptedIff | pkg/client/resmgmt/lifecycleprocessor.go:569-592 | with any sort by name only answers that all decode, carry one status and hold the same definitions, in whatever order, are accepted; and they are, when no two different definitions of a list share a name |
| Lifecycle.CertainIff | pkg/client/resmgmt/lifecycleprocessor.go:541-592 | answers are accepted however equal names are sorted iff they hold the same definitions and, when there is more than one, no two different ones share a name |
| Lifecycle.CanonicalIff | pkg/client/resmgmt/lifecycleprocessor.go:585-589 | two lists compare equal however each is sorted iff they hold the same definitions and no two different ones share a name |
| Lifecycle.SortIsCanonical | pkg/client/resmgmt/lifecycleprocessor.go:585-589 | then the sorted list is unique |
| InvocationChain.MergeInvocationChains | pkg/client/channel/invoke/selectendorsehandler.go:224-239 | the filtered response chain, call by call and in order, each merged with the chain's first call of its chaincode; changed iff a call that passes the filter is of a chaincode that the chain does not call, or has a collection that the chain's first call of it lacks |
| InvocationChain.KeptExactly | pkg/client/channel/invoke/selectendorsehandler.go:227-231 | the filter keeps a call that passes as often as it comes |
| InvocationChain.KeptInOrder | pkg/client/channel/invoke/selectendorsehandler.go:227-231 | and keeps them in order |
| InvocationChain.MergeCCCall | pkg/client/channel/invoke/selectendorsehandler.go:245-260 | a call of a chaincode not in the chain is returned as it is and is a change; otherwise it is merged with the first call of its chaincode, a change iff that lacks a collection |
| InvocationChain.GetCCCall | pkg/client/channel/invoke/selectendorsehandler.go:264-271 | the first call of a chaincode |
| InvocationChain.Merge | pkg/client/channel/invoke/selectendorsehandler.go:275-285 | adds each missing collection once; merged iff one was missing |
| InvocationChain.AddMissingIsUnion | pkg/client/channel/invoke/selectendorsehandler.go:275-285 | the old collections stay in front, the union is exact, and what is added is added once |
| InvocationChain.MergedIsUnion | pkg/client/channel/invoke/selectendorsehandler.go:245-285 | a merged call has the response's chaincode and exactly the collections of both |
| InvocationChain.RemergeUnchangedIff | pkg/client/channel/invoke/selectendorsehandler.go:224-294 | merging the result again reports no change iff later calls of a chaincode bring nothing beyond its first |
| InvocationChain.MergeIsIdempotent | pkg/client/channel/invoke/selectendorsehandler.go:224-294 | with distinct chaincodes in the response merging again gives the same chain |
| InvocationChain.RepeatedCallChangesAgain | pkg/client/channel/invoke/selectendorsehandler.go:224-239 | a response that calls one chaincode twice, for which it does not |
| InvocationChain.AdditionalEndorsers | pkg/client/channel/invoke/selectendorsehandler.go:149-157 | exactly the endorsers of organizations not yet among the targets, as often as listed and in order; with the targets they cover all that are required |
| EndorsementHandler.NewInvocationChain | pkg/client/channel/invoke/txnhandler.go:132-142 | the loop builds the chain that the next row describes |
| EndorsementHandler.NewChainIs | pkg/client/channel/invoke/txnhandler.go:132-142 | the requested chaincode once, at the head, with the collections of its last call in the request; all other calls, in order |
| EndorsementHandler.RequestContext.Handle | pkg/client/channel/invoke/selectendorsehandler.go:47-92 | with given targets only those are asked; otherwise, when the first response reveals more than the chain has, every organization that the selection requires for the merged chain is asked in one of the two phases, and none of the first phase again in the second; a failing second selection is no error, any other failure is |
| EndorsementHandler.RequestContext.GetAdditionalEndorsers | pkg/client/channel/invoke/selectendorsehandler.go:123-158 | a chain with news is stored before the selection is asked, and stays when that fails |
| EndorsementHandler.RequestContext.RevealedIff | pkg/client/channel/invoke/selectendorsehandler.go:129-134 | a response reveals more iff it has a new chaincode or collection that is neither a system chaincode's nor excluded by the caller; no other is in the merged chain |
| EndorsementHandler.RevealedOnce | pkg/client/channel/invoke/selectendorsehandler.go:129-134 | what was revealed once is not news when the request is handled again, when the response's chaincodes are distinct |
| ChannelConfig.LoadConfig | pkg/fab/chconfig/chconfig.go:404-456 | succeeds iff all known values decode and all MSPs are of the supported type; then the versions mirror the tree and the items grow by the log of a complete visit in the order followed |
| ChannelConfig.LoadConfigValue | pkg/fab/chconfig/chconfig.go:518-601 | what one value adds to which list, by its key, that it adds nothing else, and when it fails |
| ChannelConfig.LoadAnchorPeers | pkg/fab/chconfig/chconfig.go:458-472 | appends each anchor peer under the name of its group |
| ChannelConfig.LoadOrdererAddresses | pkg/fab/chconfig/chconfig.go:491-502 | appends the addresses |
| ChannelConfig.EveryOrderFindsAll | pkg/fab/chconfig/chconfig.go:412-437 | in every order of visits the log holds exactly what the whole tree holds, with multiplicity |
| ChannelConfig.MspsFound | pkg/fab/chconfig/chconfig.go:474-489 | an MSP is found in the groups below and once more when the group's own value decodes to it |
| ChannelConfig.AnchorPeersFound | pkg/fab/chconfig/chconfig.go:458-472 | an anchor peer as often as its organization's group lists it |
| ChannelConfig.OrderersFound | pkg/fab/chconfig/chconfig.go:491-502 | an orderer address as often as the address values list it |
| ChannelConfig.CapabilitiesFound | pkg/fab/chconfig/chconfig.go:504-516 | a capability set once for each group of its name that lists exactly its members |
| ChannelConfig.LoadableIff | pkg/fab/chconfig/chconfig.go:458-516 | a tree loads iff at every path the known values decode and the MSP is of the supported type |
| ChannelConfig.MirrorAt | pkg/fab/chconfig/chconfig.go:404-456 | at every path the versions are those of the source group: version, mod-policy, policies, and values without their mod-policies |
| ChannelConfig.ReplayHolds | pkg/fab/chconfig/chconfig.go:458-516 | the lists hold each item as often as it was found; a group name has capabilities iff some were found, and then one of the sets found |
| ChannelConfig.ExtractConfig | pkg/fab/chconfig/chconfig.go:379-401 | from nothing, the items hold exactly what the tree holds |
| ChannelConfig.OutcomeCanBeLast | pkg/fab/chconfig/chconfig.go:412-437 | in every order of visits the last capabilities found for a name are among those that the tree allows to be last: of a group, or else of one below it |
| ChannelConfig.LastIsReached | pkg/fab/chconfig/chconfig.go:412-437 | and each of those is last in some order |
| ChannelConfig.CapabilitiesDeterminedIff | pkg/fab/chconfig/chconfig.go:504-516 | the capabilities are the same for all orders of visits iff at most one set can be last for each name |
| ChannelConfig.OneSetPerName | pkg/fab/chconfig/chconfig.go:504-516 | so they are when no name is found with two different sets, and when group names are distinct |
| ChannelConfig.OrdersCanDisagree | pkg/fab/chconfig/chconfig.go:504-516 | one organization under two groups with different capabilities: two orders with different results |
| Capability.HasCapability | pkg/fab/chconfig/chconfig.go:109-129 | true iff the group lists the capability or a greater version of it |
| Capability.PatternIff | pkg/fab/chconfig/chconfig.go:35 | the pattern accepts exactly V followed by numbers joined by underscores |
| Capability.PlainNamesIff | pkg/fab/chconfig/chconfig.go:109-116 | a name that is no version is supported iff it is listed and set |
| Capability.VersionsIff | pkg/fab/chconfig/chconfig.go:114-127 | a version is supported iff it is listed and set or a version greater as a string is listed |
| Capability.Monotone | pkg/fab/chconfig/chconfig.go:109-129 | more capabilities never support less |
| Capability.DownwardClosed | pkg/fab/chconfig/chconfig.go:118-127 | a supported version supports every smaller one in string order |
| Capability.WidthsDecide | pkg/fab/chconfig/chconfig.go:122 | string order is component-wise numeric order when components have equal widths |
| Capability.StringOrderIsVersionOrderIff | pkg/fab/chconfig/chconfig.go:122 | for components of up to `width` digits the two orders coincide iff `width` is one |
| Capability.OrdersAgreeIff | pkg/fab/chconfig/chconfig.go:122 | on two versions without leading zeros the orders agree iff at the first differing component one version has ended, or the widths are equal, or the shorter component with what follows it is the smaller string |
| Capability.SeenCorrectlyIff | pkg/fab/chconfig/chconfig.go:109-129 | exactly then one listed version tells correctly whether the other is supported |
| Capability.SupportsIffNotOlder | pkg/fab/chconfig/chconfig.go:118-127 | with one-digit components a version is supported iff the group lists one that is not older |
| Capability.NewerVersionUnseen | pkg/fab/chconfig/chconfig.go:122 | V10 does not support V2 |
| EndpointConfig.FirstMatch | pkg/fab/endpointconfig.go:1448-1453 | a matcher that matches and before which none does, or nothing when none matches |
| EndpointConfig.EndpointConfig.IsToBeIgnored | pkg/fab/endpointconfig.go:1427-1443 | a name is ignored iff its first match says so |
| EndpointConfig.EndpointConfig.GetMapped | pkg/fab/endpointconfig.go:1526-1544 | the entry stored under the mapped host, or else the default, with a fresh copy of its option map |
| EndpointConfig.EndpointConfig.MatchEndpoint | pkg/fab/endpointconfig.go:1485-1516 | substitutions go into the copy only; nothing resolves through an ignoring matcher |
| EndpointConfig.EndpointConfig.TryMatching | pkg/fab/endpointconfig.go:1445-1585 | a lookup changes no stored configuration and no option map; an ignored key never resolves, by name or URL; a matched key gets the certificate and a fresh copy of the options of the entry under the mapped host, or else of the default, with the substituted, the entry's or its own URL; an unmatched one the stored entry, the first entry of its URL, or the default |
| EndpointConfig.EndpointConfig.ResolvesAlikeIff | pkg/fab/endpointconfig.go:1463-1474 | a key resolves to one configuration for all orders of the stored entries iff it does not come to a search by URL in which two entries of that URL differ |
| EndpointConfig.EndpointConfig.LookupPeerAgain | pkg/fab/endpointconfig.go:1445-1483 | after any other lookups, and each time in another order of the peers, a key resolves again, and to the same configuration unless it is ambiguous in that way |
| EndpointConfig.EndpointConfig.LookupOrdererAgain | pkg/fab/endpointconfig.go:1546-1585 | orderers are searched in a stored list, so after any other lookups a key resolves to the same configuration |
| EndpointConfig.SharedUrl | pkg/fab/endpointconfig.go:1463-1474 | two peers of one URL with different options, and two lookups that differ |
| EndpointConfig.EndpointConfig.AddMissing | pkg/fab/endpointconfig.go:873-936 | missing URL, certificate and options come from the defaults; an entity without options refers to the default map itself |
| EndpointConfig.EndpointConfig.FillMissing | pkg/fab/endpointconfig.go:895-901 | own options win over defaults, and the default map is unchanged even when it is the same map |
| EndpointConfig.EndpointConfig.LoadAll | pkg/fab/endpointconfig.go:833-871 | for every order and however maps are shared, exactly the entities that are neither default nor ignored are stored, each with its own URL, certificate and options over the defaults; the default map does not change |
| PathSubst.Subst | pkg/util/pathvar/subst.go:30-50 | splitting and rejoining equals one left-to-right scan |
| PathSubst.SplitRefinesScan | pkg/util/pathvar/subst.go:36-47 | for every path and every set of variables |
| PathSubst.OneVariable | pkg/util/pathvar/subst.go:55-67 | one piece is replaced or kept as the scanner would |
| PathSubst.IdentityWhenNothingResolves | pkg/util/pathvar/subst.go:55-67 | when no variable of the path is set, whatever else is, the path is unchanged, unterminated `${` included |
| PathSubst.IdentityIff | pkg/util/pathvar/subst.go:55-67 | given which variables are set, the path is unchanged for all their values iff none of its own is set |
| PathSubst.ScanCutsAtOpen | pkg/util/pathvar/subst.go:36-47 | what precedes a `${` never influences what follows it |
| PathSubst.ValuesAreNotRescanned | pkg/util/pathvar/subst.go:55-67 | a resolved variable is replaced wherever it stands and its value is never looked at again |
| StringOrder.Trichotomy | pkg/client/resmgmt/lifecycleprocessor.go:588 | string order is total and strict |
| StringOrder.Transitive | pkg/fab/chconfig/chconfig.go:122 | and transitive |

## Left out

- gRPC dialing, TLS, certificates and protobuf encoding: foreign code, given by its results.
- A second, concurrent `Close` of the connector: one call is assumed.
- Early returns of `SendBroadcast` that abandon the producer after a failed send: the protocol claim is about runs in which the consumer is reached.
- InvocationChain.Merge: chains are values; two merged calls that append to one backing array are not captured, which can matter only when a response names a chaincode twice.
- ChannelConfig.LoadConfig: the tree of versions is built as a value, since it is freshly allocated and never shared; a nil map and an empty map are not told apart.
- Lifecycle.AcceptedIff and Lifecycle.CertainIff: cover the query of all definitions; a query by name compares one definition and needs no sort. The sort of the Go library is any sort that keeps its contract.
- EndpointConfig.EndpointConfig.LoadAll: the loading of the default entity itself is not modelled; its option map is taken to exist.
- Channel policies and timeouts of the endpoint configuration: filling each field from its default would only add easy members.
- Retry, greylist, event dispatch, discovery and selection services, MSP and CA clients, wallets, metrics and logging.
- `matchBlockData` and the height maximum of `QueryInfo`: easier forms of the agreement proved for config blocks.
