# NetCortex, modelled and proved

NetCortex turns packet traces of a 5G core into incidents and decisions. Its deterministic parts
rebuild protocol state from captures (`5gcap`), search for a root cause (`triage`), gate a
remediation behind an approval (`dispatch`) and grade the risk of a change (`impact`). This project
models those parts in Dafny and proves what they compute. `dafny verify dfyconfig.toml` checks all
of it.

Code that updates state in place is modelled by methods with loops, and by classes where the source
has objects: the flow builder, the correlation, the search tree with its parent pointers, the clause
nodes of the corpus builder, the Episode store, the command runner and the dispatcher. Each such
method is proved against a declarative specification, and the properties are lemmas about that
specification. Decoders, regular expressions, hashing, JSON, the language model and the shell are
parameters: arbitrary functions of which only the stated laws are used (a serialised Episode is one
non-empty line and parses back; a clause token has no tab; the logarithm is defined and non-negative
from 1 on, the square root from 0 on). Times, rewards and values are `real`.

What each group says:

- **Trace machines** (`Capture`, `Hosts`, `FlowProcedures`, `Flows`, `FlowBuilder`, `Pfcp`, `Sbi`,
  `Correlate`, `Output`, `Kpi`, `CrossPlane`). SCTP reassembly conserves every first-seen payload and
  inverts fragmentation under interleaving and retransmission; hosts that share ports are kept apart
  under an exact condition. The one-pass flow builder with its
  four dictionaries is "group by UE, then pair"; the pairing is given by two relations over a
  flow's message list, without any dictionary. PFCP and SBI pairing, the cross-plane join and the
  latency arithmetic are likewise equal to relations over the message lists.
- **Search** (`Search`). The tree is a heap of nodes. At every moment each node's visits and value
  are the count and the mean of the rewards in its subtree; UCB is defined whenever it is used; a
  rollout descends by UCB and grows the leaf it reaches by what the foreign calls answer, and every
  node goes on matching those calls; a run reports the completed node with the highest reward and
  exactly the path to it.
- **Corpus and graph** (`Packing`, `ClauseTree`, `Corpus`, `Specgraph`). The stack builder makes the
  one canonical tree of the document's headings, the packer the one greedy packing, no slice of a
  clause's text is missing from its chunks, and the graph module recovers the tree from them.
- **Dispatch** (`Memory`, `Linking`, `Runbook`, `Executor`, `Gate`, `Closing`). The episode file
  refines a list, evidence links are sound and complete, three stable sorts are one ranking, the
  runner receives exactly what was approved and at most once, and closing can be retried.
- **Impact** (`Impact`, `Rubric`). The blast radius classifies every peer; each of the four grades
  has its exact condition, and LOW is equivalent to full knowledge of a harmless change.

`Common`, `Dicts`, `Strings`, `StableSort` and `Messages` hold shared vocabulary: optional values,
insertion-ordered dictionaries, split and join, the stable sort and the decoded messages.

## Where the code and its documentation differ

The model follows the code; each difference is a lemma.

- A refused SBI response can inherit a flow, although a refused message "never joins":
  `Correlate.RefusedLinksIff` says exactly when, `Correlate.RefusedResponseMayLink` shows one.
- An answered PFCP procedure takes its kind from the response's type:
  `Pfcp.KindFollowsResponse` and `Pfcp.KindMayDiffer`. (The comment on the request table says
  requests are always even; the table is what is modelled.)
- The NGAP fallback is "used only when the flow has no completed NAS-level procedure of the same
  kind", but a NAS procedure may complete after it: `FlowProcedures.FallbackBesideNasIff` says
  exactly when a flow stores both, `FlowProcedures.FallbackMayDuplicateNas` shows the usual trace.
- Messages are reassembled "per association and stream" and retransmissions dropped per association,
  but an association is taken to be a pair of ports, without the addresses. `Hosts.HostsKeepTheirChunksIff`
  and `Hosts.HostsAreSeparateIff` say exactly when hosts behind the same ports do not disturb each
  other, `Hosts.ReusedTsnIsDropped` shows a loss. Apart from hosts, nothing is dropped exactly when
  no TSN is used twice (`Capture.NothingDroppedIff`); a TSN that comes round again is dropped.
- "Bodies of at most max_chars" does not count the blank lines between pieces, and a single word may
  be longer: `Packing.BodiesFitIff` says exactly when all bodies fit, by the guard that would count
  them, and `Packing.BodyMayExceed` shows one that does not.
- Word slices rejoin to the text exactly when no space is lost at a cut:
  `Packing.SlicesRejoinIff` and `Packing.SlicesMayLose`.
- A search with no rollouts fails, because the rollout number it reports is never set: `Search.Tree.Run`
  has no result exactly then, or after an exception of execute, which nothing catches.

## Model

| member | source | states |
|---|---|---|
| Capture.ReadCapture | 5gcap/fivegcap/capture.py:26-66 | the buffers-and-set loop returns the messages completed by the first-seen NGAP chunks of the capture |
| Capture.Conservation | 5gcap/fivegcap/capture.py:48-64 | for every chunk sequence, a stream's emitted messages followed by its leftover buffer are its payloads, in order: no byte is lost, duplicated or moved to another stream |
| Capture.StreamsAreIndependent | 5gcap/fivegcap/capture.py:50-64 | a stream's messages and leftover are those of its own chunks alone |
| Capture.RetransmissionIsInvisible | 5gcap/fivegcap/capture.py:47-49 | a copy of an already sent TSN, inserted anywhere after the first, changes nothing |
| Capture.NothingDroppedIff | 5gcap/fivegcap/capture.py:47-49 | de-duplication keeps every chunk exactly when no (ports, TSN) occurs twice |
| Capture.ReassemblyInvertsFragmentation | 5gcap/fivegcap/capture.py:50-64 | from any wire order that keeps the stream's order, with other streams and retransmissions in between, fragmented messages come back in order and nothing is left over |
| Capture.InterleavingDoesNotMatter | 5gcap/fivegcap/capture.py:50-64 | two wires that agree on a stream's chunks give that stream the same messages |
| Hosts.HostsKeepTheirChunksIff | 5gcap/fivegcap/capture.py:46-49 | what is kept of every pair of addresses is what would be kept of it alone, exactly when no TSN of a pair of ports is used by two pairs of addresses |
| Hosts.ReusedTsnIsDropped | 5gcap/fivegcap/capture.py:46-49 | a first-sent chunk of another host is dropped, whatever it carries, when ports and TSN repeat; so is one of the same host whose TSN has come round again |
| Hosts.HostsAreSeparateIff | 5gcap/fivegcap/capture.py:50-64 | hosts behind the same ports get the messages each would get alone, with at most one message begun, exactly when only a finished message is followed by a chunk of another host |
| FlowProcedures.TablesAgree | 5gcap/fivegcap/flow.py:16-33 | the code's tables start, accept, reject and release each kind on exactly the messages the pairing relations name, an unparsed message on none, and a wrapped name before an outer one |
| FlowProcedures.OpenNasMeaning | 5gcap/fivegcap/flow.py:135-150 | the open NAS start is the latest start of the kind with no end of the kind since |
| FlowProcedures.StartsMeaning | 5gcap/fivegcap/flow.py:122-131 | the pending NGAP starts are, in order, exactly the starts of the kind since the last release, so the one a fallback takes is the earliest of them |
| FlowProcedures.ClosingsArePairs | 5gcap/fivegcap/flow.py:97-162 | the pairers close exactly the NAS pairs (a start and the first end after it, with no other start of the kind in between) and, for a kind no NAS procedure has closed, the first fallback pair |
| FlowProcedures.ClosingsAreWellOrdered | 5gcap/fivegcap/flow.py:97-162 | procedures are stored in order of their ends, no message closes two of one kind, and a fallback is the first of its kind and hence the only one |
| FlowProcedures.ProceduresAreClosed | 5gcap/fivegcap/flow.py:106-110 | every stored procedure has an end time, an end message and an outcome |
| FlowProcedures.FallbackBesideNasIff | 5gcap/fivegcap/flow.py:97-110 | a flow stores a fallback of a kind exactly when an NGAP end of it could close before every NAS pair of it was complete; it stores a fallback beside a NAS procedure exactly when a NAS pair follows all the same |
| FlowProcedures.FallbackMayDuplicateNas | 5gcap/fivegcap/flow.py:97-110 | the usual trace of it: an NGAP setup between a NAS request and its accept yields two overlapping procedures of one kind |
| Flows.EachMessageLandsOnce | 5gcap/fivegcap/flow.py:112-120 | every input message is in the list of its own UE, once and in its place, or among the unassociated |
| Flows.MessagesArePartitioned | 5gcap/fivegcap/flow.py:112-120 | the flows' lists and the unassociated messages add up to the input |
| Flows.DecodedUnderEarlierCipher | 5gcap/fivegcap/flow.py:55-62 | each NAS payload of a flow is decoded under the cipher selected by the messages before it |
| Flows.CipherIsFirst | 5gcap/fivegcap/flow.py:59-61 | a flow's cipher is the first one any of its messages selects |
| Flows.InterleavingKeepsFlows | 5gcap/fivegcap/flow.py:65-163 | any two interleavings of the same per-UE sequences give each UE the same messages, decoded NAS, partial flag and procedures |
| Flows.FlowsAreGrouped | 5gcap/fivegcap/flow.py:65-120 | grouping by key is grouping by UE: two messages are in one flow exactly when their RAN ids are equal and their associations are equal or swapped, in the order of the capture; the messages without any id are left over; flows are numbered by first messages; each flow's fields and decoded NAS follow from its own messages |
| FlowBuilder.Flow.constructor | 5gcap/fivegcap/flow.py:82-88 | a new flow has its first message's normalised association and identifiers, and is partial unless that is the initial one |
| FlowBuilder.BookStep | 5gcap/fivegcap/flow.py:119-162 | one step of both pairers on the shared dictionaries keeps them equal to what the flow's message list says is open, pending and closed |
| FlowBuilder.Builder.FlowFor | 5gcap/fivegcap/flow.py:76-92 | a message gets its UE's flow, made on first sight at the end of the order, and no other flow changes |
| FlowBuilder.Builder.NasOf | 5gcap/fivegcap/flow.py:55-62 | decoding uses the flow's cipher, and the first selected one is kept |
| FlowBuilder.Builder.CompleteNgap | 5gcap/fivegcap/flow.py:97-110 | an NGAP end closes the earliest pending start, unless a procedure of the kind is stored, when the starts are dropped |
| FlowBuilder.Builder.Take | 5gcap/fivegcap/flow.py:117-162 | the loop body's effect on one flow and the two dictionaries |
| FlowBuilder.Builder.Feed | 5gcap/fivegcap/flow.py:112-162 | one message keeps every flow equal to the specification of its own messages so far |
| FlowBuilder.BuildFlows | 5gcap/fivegcap/flow.py:65-163 | the one pass groups the capture by UE: every message is in the flow of its RAN id and its association in either direction and in no other, or is left over without any id; each flow's association, ids, partial flag, decoded NAS, cipher and procedures are those of its own messages |
| Pfcp.PairProcedures | 5gcap/fivegcap/pfcp.py:232-282 | stated on the messages: an exchange is a request that is no retransmission and the first later response that has its number and travels its path in reverse; the result holds one procedure for each exchange and each lost request and no other, with times, names, kind, cause and outcome of those two messages, sorted by start; the unpaired requests are the lost ones in order |
| Pfcp.PendingMeaning | 5gcap/fivegcap/pfcp.py:243-251 | the pending request of a key is the first of the unbroken run of requests since the last response of the key |
| Pfcp.FirstSendEndsOneWay | 5gcap/fivegcap/pfcp.py:243-281 | a first send is answered by exactly one response or times out, never both |
| Pfcp.AnswersIsOneToOne | 5gcap/fivegcap/pfcp.py:247-251 | no response answers two requests and no request is answered twice |
| Pfcp.TimeoutsAreUnpaired | 5gcap/fivegcap/pfcp.py:269-282 | the timeout procedures are exactly the unpaired requests |
| Pfcp.PairingIsExact | 5gcap/fivegcap/pfcp.py:232-282 | every first send yields exactly one procedure and nothing else does; no response is used twice; request index is below response index; the output is sorted and stable |
| Pfcp.ResultPairs | 5gcap/fivegcap/pfcp.py:22-34 | the key-based pairing is that: the keys of the code identify exactly a request's retransmissions and the responses on the reversed path |
| Pfcp.KindFollowsResponse | 5gcap/fivegcap/pfcp.py:255-257 | the recorded kind is the request's exactly when the response's type is the request's plus one |
| Pfcp.KindMayDiffer | 5gcap/fivegcap/pfcp.py:255-257 | a type 51 response to a modification request is recorded as an establishment |
| Sbi.PairProcedures | 5gcap/fivegcap/sbi.py:345-381 | stated on the messages: one procedure for each stream with a readable request, from its last request to its last response, which accepts exactly with a status of 200 to 299; without one it has timed out; the unpaired count is the number of timeouts; sorted by start, and equal starts in the order of first requests, connection by connection |
| Correlate.FlowSupis | 5gcap/fivegcap/correlate.py:28-35 | the claims of a SUPI are exactly the flows that declare it |
| Correlate.FlowTunnels | 5gcap/fivegcap/correlate.py:64-71 | the claims of a tunnel are exactly the flows that declare it |
| Correlate.UnambiguousIffOwned | 5gcap/fivegcap/correlate.py:39-41 | a key is unambiguous for a flow exactly when that flow and no other declares it |
| Correlate.Correlation.JoinSbi | 5gcap/fivegcap/correlate.py:38-61 | every message gets its link, and each flow's references are the strictly increasing list of exactly the messages linked to it |
| Correlate.Correlation.JoinN4 | 5gcap/fivegcap/correlate.py:74-90 | the same for N4 messages |
| Correlate.Correlate | 5gcap/fivegcap/correlate.py:93-102 | the joined result of both planes |
| Correlate.SbiLinkMeaning | 5gcap/fivegcap/correlate.py:38-59 | an SBI link exists exactly when the SUPI is declared by that flow alone and the request is readable, or a response's stream carries such a request last |
| Correlate.N4LinkMeaning | 5gcap/fivegcap/correlate.py:79-88 | an N4 link exists exactly when the message is readable and its unambiguous tunnels name that flow and no other |
| Correlate.FlowOrderIrrelevant | 5gcap/fivegcap/correlate.py:28-102 | permuting the flows changes no link |
| Correlate.RefusedLinksIff | 5gcap/fivegcap/correlate.py:48-59 | a refused message links exactly when it is a response whose stream carries a joined request |
| Correlate.RefusedResponseMayLink | 5gcap/fivegcap/correlate.py:54-59 | such a refused response takes its request's flow |
| Output.SbiFlowIds | 5gcap/fivegcap/output.py:267-277 | a procedure record carries the flow of the last request on its stream |
| Output.AnsweredProcedureSharesFlow | 5gcap/fivegcap/output.py:267-277 | with one request and one response on a stream, the request, the response and their procedure carry the same flow id |
| Output.PfcpFlowIds | 5gcap/fivegcap/output.py:189-195 | an N4 procedure record carries its request's flow if that is linked, else its response's, and none exactly when neither is linked |
| Kpi.Compute | 5gcap/fivegcap/kpi.py:37-55 | durations of the complete flows' procedures by kind, and the accept and reject counts over all flows |
| Kpi.FlowsAreClosed | 5gcap/fivegcap/kpi.py:42-43 | on the builder's output every duration is defined |
| Kpi.SuccessesAndFailuresAddUp | 5gcap/fivegcap/kpi.py:48-54 | successes and failures add up to the number of procedures |
| CrossPlane.CrossPlaneKpis | 5gcap/fivegcap/kpi.py:62-145 | the three results are the means of the latencies of the flows' sessions, each latency between two legs that the session has; the means add when no session was seen on just two of its legs |
| CrossPlane.FlowLegsMean | 5gcap/fivegcap/kpi.py:77-142 | the legs of each session, stated on the messages: the only establishment response naming a tunnel of that session and of no other, the only create with its id that reached the SMF of that response, the only setup item; a flow without sessions has the only message of each kind |
| CrossPlane.AnchorResponses | 5gcap/fivegcap/kpi.py:114-121 | an establishment response is filed under the one session whose tunnels it hits, and under none if it hits two |
| CrossPlane.LegsCloseUp | 5gcap/fivegcap/kpi.py:75-142 | every session of a run that contributes to two of the lists contributes to the third, and its latencies add; a session feeds all lists or none exactly when not just two of its legs were seen, and if that holds of all, the means of the run add |
| CrossPlane.MeansAdd | 5gcap/fivegcap/kpi.py:58-59 | when the same sessions feed all three lists the means add |
| CrossPlane.ResponseAnchorsOneSession | 5gcap/fivegcap/kpi.py:114-121 | over all flows, an establishment response anchors at most one session: the same flow and the same session id |
| Search.Node.Backprop | triage/triage/search.py:309-313 | the recursion adds one visit to every node of the path and moves its value by the running-mean step, each once |
| Search.MeanAppend | triage/triage/search.py:310-311 | the running-mean step yields the mean of the longer list |
| Search.Tree.Record | triage/triage/search.py:370 | after a backprop every node's visits and value still count and average the rewards of its subtree |
| Search.Tree.ObserveAndEvaluate | triage/triage/search.py:349-370 | the child gets its observation, episode, reward and status from the foreign calls, the evaluation is logged, and the tree stays valid; an exception of execute ends the search, one of evaluate fails the node |
| Search.ParentHasMore | triage/triage/search.py:316-322 | a parent's subtree holds at least the evaluations of a child's |
| Search.Tree.VisitsAreOrdered | triage/triage/search.py:316-322 | whenever children are compared, parent visits are at least child visits and these at least one, so the logarithm and the divisions are defined |
| Search.Tree.UcbIsWorth | triage/triage/search.py:316-322 | what UCB amounts to from the rewards in the two subtrees: a failed child is worth nothing, otherwise the mean reward divided by the number of evaluations once more, plus the exploration term |
| Search.Tree.BestChild | triage/triage/search.py:398 | the chosen child is worth at least as much as every sibling and more than every earlier one |
| Search.Tree.Expand | triage/triage/search.py:376-390 | one fresh child for each different non-empty proposal, in the order of first proposal, and no other node changes |
| Search.Tree.EvaluateChildren | triage/triage/search.py:393-397 | the children are evaluated in order, each by its own answers of execute and evaluate: all of them, or up to the first episode when the search exits on completion, or up to an exception of execute |
| Search.Tree.Grow | triage/triage/search.py:376-397 | an open leaf asks expand for its trajectory, gets one child for each different non-empty proposal, fails exactly when there is none, and its children are evaluated |
| Search.Tree.Rollout | triage/triage/search.py:372-399 | the rollout descends by worth to a failed, too deep or childless node. An open leaf grows: its children are exactly what expand answers for its trajectory, it fails exactly without proposals, and each evaluated child carries its own answers; any other leaf fails and nothing else changes. No node off the leaf changes status or children, a failed node never does, and every evaluated node goes on matching the calls it was evaluated by |
| Search.Tree.Completed | triage/triage/search.py:401-405 | exactly the nodes of the subtree that hold an episode, in pre-order |
| Search.Tree.BestPartial | triage/triage/search.py:407-417 | the stack walk reaches every node once and returns an evaluated node of highest reward, of several the one that a walk from last child to first meets first |
| Search.Tree.ForceFinalize | triage/triage/search.py:419-450 | without an episode, call expand below the highest-reward evaluated node for its own trajectory; the first proposal that finalizes becomes one node there, told by its own execute and evaluate answers; without such a proposal, or without any evaluation, the tree stays as it was |
| Search.TrajectoryIsPath | triage/triage/search.py:303-307 | a node's trajectory is its path from below the root, with each action and observation |
| Search.Tree.Rollouts | triage/triage/search.py:457-462 | as many rollouts as reported: the given number, fewer only if an episode or an exception of execute ends the search; the first one asks expand for the root's actions and evaluates its children |
| Search.Tree.Run | triage/triage/search.py:452-471 | the result is that of the completed node of highest reward, in pre-order the first of several, or there is none; the root's children are what the first call proposed, every other node's come from a call for its own trajectory and every evaluation from its own calls, all made in this run for this objective; a finalize is forced exactly when rollouts left evaluations but no episode; at most one episode with early exit; depths stay within the limit, one more only for the forced node; no result exactly without rollouts or after an exception of execute |
| Packing.Slices | triage/scripts/build_corpus.py:168-181 | the buffer loop returns the slices of the specification |
| Packing.SlicesRejoinIff | triage/scripts/build_corpus.py:170-181 | the slices rejoin to the text exactly when it fits, or no empty word comes first or meets a buffer with no room for a space |
| Packing.SlicesRejoin | triage/scripts/build_corpus.py:170-181 | text without empty words is cut without loss |
| Packing.SlicesMayLose | triage/scripts/build_corpus.py:173-178 | a space at a cut is lost |
| Packing.SlicesFit | triage/scripts/build_corpus.py:168-181 | a slice fits unless it is a single word |
| Packing.Pack | triage/scripts/build_corpus.py:184-198 | the loop returns the bodies of the greedy packing of all slices |
| Packing.PackingIsGreedy | triage/scripts/build_corpus.py:188-198 | the parts hold all pieces in order, each fits or is one piece, and none could have taken the next piece |
| Packing.GreedyIsUnique | triage/scripts/build_corpus.py:188-198 | no other grouping is greedy |
| Packing.PackingBounds | triage/scripts/build_corpus.py:184-198 | parts fit unless they are one oversize word, two neighbours never fit together, and parts number less than 2 * total / max + 1 |
| Packing.RoomIff | triage/scripts/build_corpus.py:184-198 | the parts leave room for the blank lines exactly when the packing is the one whose guard counts them, and that packing always does |
| Packing.BodiesFitIff | triage/scripts/build_corpus.py:168-198 | the bodies of several pieces keep to the limit exactly when a guard that counts the blank lines would have packed the same; all bodies do exactly when moreover no word is longer than the limit |
| Packing.BodyMayExceed | triage/scripts/build_corpus.py:184-198 | a body longer than max_chars |
| Packing.SlicesAreFound | triage/scripts/build_corpus.py:184-198 | every slice of every text is found in some body |
| ClauseTree.ClausesAreCanonical | triage/scripts/build_corpus.py:220-225 | each clause extends its parent's by a dot, and belongs below no clause on the last branch of an earlier sibling |
| ClauseTree.CanonicalIsUnique | triage/scripts/build_corpus.py:220-225 | two canonical trees with the same pre-order are equal |
| ClauseTree.TreeIsTheDocument | triage/scripts/build_corpus.py:203-227 | the tree's pre-order is document order, each clause has its own title and exactly the text up to the next numbered heading, and exactly the placed headings are there, among them every one that extends no skipped heading |
| ClauseTree.PlacedAreKept | triage/scripts/build_corpus.py:215-225 | a numbered heading is in the tree exactly when it is not skipped and leaves no skipped heading open: one that no heading since has closed |
| ClauseTree.OnlyTree | triage/scripts/build_corpus.py:203-227 | it is the only canonical tree with the placed headings and their texts, for every document |
| Corpus.Attach | triage/scripts/build_corpus.py:224-225 | appending to the open clause's children in place keeps the heap stack equal to the value stack |
| Corpus.PopStack | triage/scripts/build_corpus.py:220-223 | popping closes exactly the clauses the heading does not extend |
| Corpus.Build | triage/scripts/build_corpus.py:203-227 | the heap of nodes left by the loop is the clause tree of the document |
| Corpus.Emit | triage/scripts/build_corpus.py:231-254 | the recursion appends the chunks of the subtree in pre-order, each under its ancestors' heading lines |
| Corpus.BuildChunks | triage/scripts/build_corpus.py:201-257 | the chunks come in groups, one for each clause in document order; a clause of fewer than 80 characters has none, otherwise its chunks hold the packed bodies of its text in order, each after a line naming title, version, clause and heading and a line with the breadcrumb if there is one, with the body's length |
| Corpus.TextIsFound | triage/scripts/build_corpus.py:233-251 | unless its clause is too short, every slice of every unit is found in the text of a chunk of that clause |
| Specgraph.RebuildTree | triage/triage/specgraph.py:101-126 | the dictionary loop computes the specified nodes and pairs, and fails exactly on a breadcrumb without a tab |
| Specgraph.SplitTabInverts | triage/triage/specgraph.py:113-115 | a heading line splits back into clause and heading |
| Specgraph.NodesMeaning | triage/triage/specgraph.py:117-125 | for any chunks: a node for each clause named, under a heading it was named by, with exactly its own chunks |
| Specgraph.RoundTrip | triage/triage/specgraph.py:101-126 | for every document, the rebuilt nodes and containment pairs are those of its clause tree restricted to clauses with chunks and their ancestors |
| Specgraph.RoundTripOfClause | triage/triage/specgraph.py:117-125 | with distinct clause numbers, each such clause gets back its own heading and exactly its own chunks |
| Specgraph.SpecsAreIndependent | triage/triage/specgraph.py:112-125 | chunks of other specifications leave a specification's nodes alone |
| Memory.EpisodeStore.Add | dispatch/dispatch/memory.py:64-71 | the file grows by one line |
| Memory.EpisodeStore.Load | dispatch/dispatch/memory.py:73-85 | the Episodes on the lines that parse, in order; none for a missing file |
| Memory.EpisodeStore.SetOutcome | dispatch/dispatch/memory.py:87-111 | every matching line is rewritten and no other, the last match is returned; a missing file or unknown incident changes nothing |
| Memory.AddRefines | dispatch/dispatch/memory.py:64-71 | on a terminated file, adding appends one Episode to what loads and no other line changes |
| Memory.SetRefines | dispatch/dispatch/memory.py:87-111 | what loads is the list with the outcome set on every Episode of the incident; all other lines, corrupt ones included, are as before |
| Memory.HoldsIffLoaded | dispatch/dispatch/memory.py:101-109 | the incident is known exactly when an Episode of it loads |
| Memory.SetTwice | dispatch/dispatch/memory.py:87-111 | setting the same outcome again changes nothing |
| Memory.FileRefinesList | dispatch/dispatch/memory.py:58-111 | over every sequence of operations from a terminated file with any corrupt lines, the file stays terminated, loads as the abstract list and keeps its corrupt lines |
| Linking.BuildIndex | dispatch/dispatch/correlation.py:14-18 | the index maps each non-null key value to exactly its items, and key values met in one item keep that item's order |
| Linking.PairUp | dispatch/dispatch/correlation.py:26-47 | the two inner loops over a key value's items add its one pair, if it may link and is not linked yet |
| Linking.LinkEvidence | dispatch/dispatch/correlation.py:8-49 | exactly the pairs identified by a key value of two items, in the window and agreeing on every shared key; each once, a < b, in order, under the first such key of the earlier item |
| Runbooks.MatchRunbooks | dispatch/dispatch/runbook.py:163-185 | the three successive sorts return the first three eligible runbooks of the one ranking |
| Runbooks.ThreeSortsAreOne | dispatch/dispatch/runbook.py:182-184 | stable sorts by slug, by date and by score are one sort by score, then date, then slug |
| Runbooks.TopThree | dispatch/dispatch/runbook.py:173-185 | no eligible runbook left out outranks one returned |
| Runbooks.LibraryOrderIrrelevant | dispatch/dispatch/runbook.py:163-185 | with distinct slugs the order of the library is irrelevant |
| Executor.FilteredDryRunIsRender | dispatch/dispatch/executor.py:40-92 | filtering a dry run gives back exactly what was rendered, for every action and arguments |
| Executor.RenderIsAllowed | dispatch/dispatch/executor.py:40-67 | what is rendered is exactly one of the five actions' commands with a value that passed its rail: a declared service, a path inside the sandbox, an IMSI, a known scenario; observe_only has none; anything else is refused |
| Executor.CommandRunner.Apply | dispatch/dispatch/executor.py:94-102 | the runner receives the commands, in order, exactly when they are what the rails allow for the proposal's action and arguments |
| Gate.Dispatcher.Handle | dispatch/dispatch/cli.py:106-122 | an incident with a record is refused; otherwise it waits with a proposal that lists exactly the commands its action and arguments stand for, under its own hash, or with none when the rails refuse it |
| Gate.Dispatcher.RunApproval | dispatch/dispatch/graph.py:279-291 | the runner receives the checkpointed proposal's allowed commands exactly when the decision acted on is approve with execute and the record carries the checkpoint's hash; the log lists them; refused otherwise, leaving the decision or rolling it back; the invariant holds that each incident ran at most once |
| Gate.Dispatcher.Execute | dispatch/dispatch/graph.py:222-247 | the execute step passes exactly under its guards, and the executor's mismatch branch is never taken |
| Gate.Dispatcher.EditRecord | dispatch/dispatch/graph.py:124-128 | whatever is written into the records, the invariant of the gate holds |
| Gate.ExactRan | dispatch/dispatch/graph.py:234-243 | a run adds the incident to the history once, with exactly the commands its proposal stands for |
| Closing.Closer.Close | dispatch/dispatch/cli.py:125-168 | the guarded writes to the store, the draft and the record are the specified attempt, wherever it breaks off |
| Closing.CloseIsRetryable | dispatch/dispatch/cli.py:125-168 | after any number of failed attempts with the same arguments, a successful one leaves store, drafts and record as one successful close alone, and succeeds exactly when that would |
| Closing.SecondCloseIsRefused | dispatch/dispatch/cli.py:145-148 | a closed incident refuses every further attempt, which changes nothing |
| Impact.InferRoles | impact/impact/capture.py:160-228 | the loops find the specified roles, those of Impact.RolesAreExact |
| Impact.RolesAreExact | impact/impact/capture.py:160-228 | a role is listed for an address exactly when it is an end of the first InitialUEMessage, an end of the first N4 association or else establishment request, or the destination of a request to that producer; each cites such a message |
| Impact.RolesAreProved | impact/impact/capture.py:160-228 | every role cites a message that has its address at one end, and none is listed twice |
| Impact.RolesAreInOrder | impact/impact/capture.py:160-228 | the list holds exactly the roles some message shows, each citing the first message that shows it, in the order of those messages, sender before receiver |
| Impact.BlastRadius | impact/impact/capture.py:253-376 | stated on the capture: the target is the first role listed under its name; the affected NFs are exactly those that share a message with it and whose last listed role is another, sorted by role and address, each with exactly the procedures that reach it, in order and counted; the unknown peers are exactly those that share a message and have no role, each with the first such message |
| Impact.ExplainsRadius | impact/impact/capture.py:277-369 | the classification and attribution by the scan is that radius: a flow's procedures reach the ends of its messages, N4 ones the SMF and the UPF, SBI ones the ends of the existing messages that the last flow with their id refers to |
| Impact.NoteAllClassifies | impact/impact/capture.py:277-309 | the classification of one address after any messages |
| Impact.Attribute | impact/impact/capture.py:311-369 | one procedure reaches exactly the partners it touches |
| Impact.CountsAreOfDistinctProcedures | impact/impact/capture.py:231-250 | an NF's count is its number of attributed procedures, all with different pointers, and successes and failures are among them |
| Rubric.AssessHistory | impact/impact/rubric.py:108-209 | the signal is a failed change of that kind on the target, else a mention in some store, else silence, which counts only when all four stores are there to attest it |
| Rubric.FactorsMean | impact/impact/rubric.py:212-466 | the reach is wide with two affected NFs, or two reference partners when the target is not located; when it is known to be narrow, and when a critical interface is in reach or known not to be |
| Rubric.Grade | impact/impact/rubric.py:469-479 | HIGH exactly on a past failure or a critical interface in reach; MEDIUM exactly otherwise on a mention in some store or a wide reach; LOW exactly otherwise for an upgrade with four silent stores and a reach known to be harmless; else the evidence does not suffice |
| Rubric.LowExplainsEveryPeer | impact/impact/rubric.py:86-105 | with the target located, a LOW grade leaves every peer of its own role or the one affected NF |

## Left out

- Packet decoding: scapy, pycrate, h2 and HPACK, and the extractors of NAS, NGAP, PFCP and SBI fields; the models start from decoded messages. Names that only select branches are enumerations.
- SCTP chunks other than DATA and the begin bit, which the source ignores as well.
- Float rounding, Python newline translation and wall-clock values: reals, text after decoding and opaque times.
- Identity of Procedure objects: an open procedure is a value moved between the dictionaries and the flow, so aliasing between them is not represented.
- `service_name`, the SBI and N4 name tables, `bind_placeholders`, topology, rendering, traces, prompts, embeddings, argument parsing and the evaluation harnesses: only easy case splits or text.
- Search.Tree.Expand: the foreign expand, execute and evaluate steps are functions of a call number and their arguments; tracing around them is dropped.
- A forced finalize may hang its node below a failed one; only rollouts leave failed nodes alone.
- Corpus.Build: the clause regular expressions are parameters.
- The chunk files of several specifications are treated by `Specgraph.SpecsAreIndependent`; entities, causes and messages of the graph are not modelled.
- Memory.EpisodeStore.Add: validation of a dictionary argument and a file that does not end in a newline are outside the refinement; `memory_context` is not modelled.
- Gate.Dispatcher.Handle: runs from the alarm to the approval interrupt in one step; a run that fails between nodes and the storage of checkpoints are not modelled. After a failing execute step the stored decision may be kept or rolled back, and a later resume may act on the kept or the new one; the gate holds either way.
- Gate.Dispatcher.EditRecord: records are rewritten but never deleted; deleting one lets the incident be handled, and run, again.
- Closing.Closer.Close: a write of the store that tears the file is not modelled; a torn draft is.
- Rubric.Grade: findings and citations of the factors are text and dropped; that the evidence pointers show every critical interface is not claimed.
