# Verified model of keycl

This project models three parts of keycl and proves properties of them in Dafny 4.11.
`dafny verify dfyconfig.toml` checks all of it.

**Cluster topology and slot plans** (`lib/cli/cli.go`).
`GoStrings.dfy` holds the pieces of Go's `strings`, `strconv` and `bufio` that are needed, `Atoi` with its
clamping included. `ClusterNodes.dfy` has the byte machine of `GetClusterNodes` as a loop over one line and a
loop over the reply; a reference reader that cuts a line field by field is its specification. `NodeLines.dfy`
prints `CLUSTER NODES` replies and proves the round trip. `ClusterInfo.dfy` does the same for
`GetClusterInfo`. `SlotPlans.dfy` has the loops of `GetNoSlotNodes`, `ReshardAll`, `ExceptNode` and
`MergeNode`, each ending in a plan: refused, panicked, or a reshard of so many slots from one node to another.
`SlotSets.dfy` relates slot lists to sets of slots. `SlotCluster.dfy` gives the plans their effect on a map
from primaries to the slots they own: a reshard that succeeds moves exactly the number of slots asked for,
which ones is left open, and a reshard that fails may have moved any part of what it could take.
`ExceptOnClusters.dfy`, `MergeOnClusters.dfy` and `ReshardAllOnClusters.dfy` follow the three operations from
the printed reply to the owners afterwards, and `GapsOnClusters.dfy` treats `ExceptNode` where slots have gaps.

**The prompt reactor** (`lib/cli/reactor.go`).
`CommandScanner.dfy` has the split function and the loop of `bufio.Scanner` that drives it, over a stream cut
into reads in any way. `Reactor.dfy` is a transition system with one action for each read, each token taken,
each send, the closing of the channel, each tick, and each receive; a run takes any enabled action at every
step. The `React` method is proved to produce such runs. `Prompts.dfy` adds the table `Reshard` registers and
the dialogue it leads to.

**The paged catalogue** (`lib/api/rest/rest.go` over `lib/store/queries`).
`Paging.dfy` gives the meaning of the listing queries for any collation that is a strict total order with the
empty text first. `PagedWalk.dfy` is the walk of a client from cursor to cursor. `Catalogue.dfy` has the two
tables with their constraints, the four requests that change them, each with its visitor run as `VisitTx` runs
it, and the two listings. A text holds one character per character of the database, so its length is the one
that VARCHAR limits.

## What the proofs show about the code

- `isSlave` and `checkMasterID` outlive the line they were set on. A reply is read as its lines would be read
  one by one exactly when it lists at most one replica. Every later replica loses its master ID, and if that ID
  has a letter in it, its ping time, pong time, epoch and link state are read as slots, the last as slot 0.
  Such a replica is no node without slots for `ReshardAll`, and as the source of `MergeNode` it gives a count
  made of timestamps, for which no reshard can move anything. Node IDs, flags and the records of primaries are
  right for any number of replicas, which is why the results on primaries hold for all replies.
- A slot that is being migrated or imported is read as the slots 0 and 0.
- A hostname behind the cluster port turns the port into 0, and a link state that ends the line loses its last
  byte.
- `ExceptNode` refuses a node at either end of the slot range. The condition at lib/cli/cli.go:503 joins the
  two missing borders with `||`, so the branches at lib/cli/cli.go:508-513, which choose the only border there
  is, are never reached with an effect.
- `ExceptNode` asks for the hull of the node's slots, whenever other nodes begin right behind and end right
  before it. If the slots have a gap it asks for more than the node has, and no such reshard can succeed.
  `ReshardAll` can lead there: from 0, 1-3, 4-16383 and an empty node to 0, 1 and 3, 4-12288, and 2 with
  12289-16383, where three slots are asked of the node that owns 1 and 3.
- `MergeNode` panics exactly when its source has an odd number of single slots. With an even number of them
  its count is off by the gaps it counts less the insides of ranges it skips, and the two can cancel out, as
  they do for 0, 2-5 and 7. A positive miscount asks for more than there is; a negative one leaves exactly so
  many slots behind in the source.
- `ReshardAll` divides by zero on an empty reply, and asks for slots to be given to a replica exactly when the
  reply lists one. Without replicas all its reshards can succeed, and they leave the cluster evened out.
- When the reactor's loop is left by a tick and the stream has more than ten tokens beyond those consumed, the
  producer stays blocked on its full channel for good.
- `CLUSTER INFO` lines without a colon make `GetClusterInfo` panic, and only those.
- The duplicate guards of `CreateNode` are asked about the cluster named "". Elsewhere the same node can be
  created again, and a page boundary between two equal node IDs loses rows of the walk: once an ID is there more
  than ten times no completed walk returns all rows.
- A name, node ID or host that is over-long by spaces only is stored without them, and is then not found under
  the text it was given. A node with both its ID and its host like that passes the duplicate guards every time.
- After the commit `VisitTx` runs the visitor once more on the finished transaction (lib/store/store.go:54), and
  the session query fails. So every request that changes the rows is answered 401, and 201 or 200 is never
  sent by these handlers.
- `CreateCluster` of the API stores neither the description nor the password of its request
  (lib/api/rest/rest.go:474-476).

## Model

| member | source | states |
|---|---|---|
| ClusterNodes.ReadLine | lib/cli/cli.go:104-183 | For every line and every value of the two outer flags the byte machine gives the node and the flags that cutting the line field by field gives, and no slice is out of range |
| ClusterNodes.GetClusterNodes | lib/cli/cli.go:93-190 | The loop over the reply: blank lines give no node, each other line is read with the flags left by the lines before it |
| ClusterNodes.OneNodePerLine | lib/cli/cli.go:94-103 | Whatever the lines, each one that is not blank behind an optional "txt:" gives one node |
| GoStrings.ScanFirstLine | lib/cli/cli.go:97-99 | A line ends before a line feed, with a carriage return in front of it or not, and the last one at the end of the reply |
| GoStrings.TrimPrefixOnce | lib/cli/cli.go:99 | The prefix is cut off once and nothing else is |
| ClusterNodes.HasSlaveFlag | lib/cli/cli.go:132-138 | Found exactly when "slave" is among the flags |
| ClusterNodes.ReadSlots | lib/cli/cli.go:165-177 | One number for each token without '-', two for each with one, in order |
| ClusterNodes.SlotsAreNonNegative | lib/cli/cli.go:165-177 | Whatever the reply, no parsed slot is negative |
| NodeLines.TokensRoundTrip | lib/cli/cli.go:165-177 | Printed single slots and ranges are read back as the flattened list, decimals included |
| NodeLines.TokenWrittenOut | lib/cli/cli.go:165-177 | For any text: a token without '-' is one number, one with '-' gives the numbers before and behind the first '-', up to the second |
| NodeLines.MigratingToken | lib/cli/cli.go:165-177 | A slot being migrated or imported, as in "[93->-id]", is read as the two numbers 0 and 0 |
| GoStrings.AtoiOfDigits | lib/cli/cli.go:169-175 | The numbers are decimal: one digit more makes ten times the number plus the digit, cut off at the greatest 64-bit integer |
| GoStrings.AtoiOfJunk | lib/cli/cli.go:169-175 | Digits followed by anything else, and the empty text, are read as 0 |
| GoStrings.AtoiOfSigned | lib/cli/cli.go:169-175 | A sign before the digits |
| GoStrings.TrimSpaceOf | lib/cli/reactor.go:95 | Of two stretches of the six white space characters and the text between them that text is left |
| NodeLines.PortRoundTrip | lib/cli/cli.go:122-128 | The cluster port comes back, or 0 when a hostname follows it |
| NodeLines.PrimaryRoundTrip | lib/cli/cli.go:104-183 | A primary's line reads the same at every place of the reply, and leaves the flags as they were |
| NodeLines.FirstReplicaRoundTrip | lib/cli/cli.go:142-151 | The first replica's line is read whole, master ID included |
| NodeLines.LaterReplicaIsMisread | lib/cli/cli.go:142-177 | Every later replica is read with the right ID, host, port and flags but an empty master ID; if its master ID has a letter, the ID from the first byte in a-z or A-Z on becomes its link state, and its ping time, pong time, epoch and link state come before its slots as slot numbers; otherwise the rest is right |
| NodeLines.LineRoundTrip | lib/cli/cli.go:104-183 | For every well-formed record, printing its line and reading it with fresh flags recovers ID, host, port, flags, master ID of a replica and slots; the link state exactly when slots follow and without its last byte otherwise |
| NodeLines.WrittenLine | lib/cli/cli.go:104-183 | A line written out with its separators, its link state "connected" or "disconnected" and "-" as a primary's master: each field is read as written, the master ID exactly behind the flag "slave" |
| NodeLines.UnfinishedLine | lib/cli/cli.go:106-130 | A line that ends within its ID, host, port or flags has the fields before that and no others |
| NodeLines.UnfinishedTail | lib/cli/cli.go:142-180 | Text without letters behind the flags gives no link state and no slots, and a link state followed by one blank is whole and has no slots |
| NodeLines.FirstReplicaIsRead | lib/cli/cli.go:142-151 | The first replica of every reply with one is read whole |
| NodeLines.ReplyExact | lib/cli/cli.go:93-186 | Every printed reply, with any number of replicas, gives exactly these nodes: the primaries and the first replica as printed, each later replica as misread |
| NodeLines.ReplyRoundTrip | lib/cli/cli.go:93-186 | For every reply of well-formed lines and blanks, the hoisted-flag loop equals the fresh-flag reader line by line if and only if at most one line is a replica's; the fresh-flag reader recovers every record |
| NodeLines.ReplyAgrees | lib/cli/cli.go:93-186 | With any number of replicas, IDs and flags of all nodes and the whole record of every primary are right |
| ClusterInfo.FindColon | lib/cli/cli.go:244-249 | The position behind the last colon |
| ClusterInfo.Store | lib/cli/cli.go:252-269 | Each known key sets its own field and no other |
| ClusterInfo.GetClusterInfo | lib/cli/cli.go:235-270 | Panics exactly when a non-blank line has no colon; otherwise each field holds the value of the last line with its key |
| ClusterInfo.LastValueOfField | lib/cli/cli.go:250-269 | Among field lines in any order, repeated or not, blanks and unknown keys, a field's value is found |
| ClusterInfo.InfoRoundTrip | lib/cli/cli.go:235-270 | Any such reply with the eight lines of the keys written out, "cluster_state:" to "cluster_my_epoch:", reads back as that record without a panic |
| ClusterInfo.NothingRead | lib/cli/cli.go:235-270 | Fields that no line names are empty or 0 |
| SlotPlans.GetNoSlotNodes | lib/cli/cli.go:199-206 | The IDs of the nodes without slots in order, and the number of nodes |
| SlotPlans.NoSlotIDsInOrder | lib/cli/cli.go:199-206 | The nodes without slots, each once, at increasing positions of the reply |
| SlotPlans.ReshardAll | lib/cli/cli.go:358-371 | One reshard of 16384/n from "all" to each node without slots; division by zero on an empty reply |
| SlotPlans.BorderSlots | lib/cli/cli.go:460-479 | First slot, last slot and hull size of the last slot-owning primary with the ID, zeros when there is none |
| SlotPlans.BorderIDs | lib/cli/cli.go:481-501 | The last primaries that begin right above and end right below those slots |
| SlotPlans.ExceptNode | lib/cli/cli.go:454-520 | The plan: refused unless both borders are found, else the drawn border, the hull size, the excepted node |
| SlotPlans.ExceptPlanWrittenOut | lib/cli/cli.go:460-520 | On any nodes: from the last slot-owning primary with the ID, the last that begins at its last slot plus 1 and the last that ends at its first slot minus 1, the plan is the drawn one, last-first+1 and the ID |
| SlotPlans.ExceptRefused | lib/cli/cli.go:503-505 | On any nodes: refused when no such border has an ID |
| SlotPlans.CountPairs | lib/cli/cli.go:549-554 | Panics exactly on a list of odd length, else sums the pairs |
| SlotPlans.PairSumOfMore | lib/cli/cli.go:549-554 | A pair in front of any even list adds last-first+1, modulo 64-bit wrap-around |
| SlotPlans.Int64Wraps | lib/cli/cli.go:553 | Sums are 64-bit integers, equal to the exact ones modulo 2^64 |
| SlotPlans.MergeNode | lib/cli/cli.go:527-558 | The plan for the last nodes with the two IDs: refused, panicked, or the pair sum |
| SlotPlans.MergePlanWrittenOut | lib/cli/cli.go:532-558 | On any nodes: the plan is that for the last nodes with the two IDs |
| SlotPlans.MergeRefused | lib/cli/cli.go:542-544 | On any nodes: refused when one of the two IDs is not there |
| SlotPlans.NotExcepted | lib/cli/cli.go:460-505 | On any reply whatsoever a node that is unknown, a replica, slotless, or whose slots begin at 0 is refused |
| SlotSets.HullBound | lib/cli/cli.go:474-478 | last-first+1 is at least the number of slots owned, with equality exactly when there is no gap between them |
| SlotSets.MergeCountIsCardinality | lib/cli/cli.go:549-554 | For disjoint ranges in any order the list is even and the sum is the number of slots, without a 64-bit wrap |
| SlotSets.SinglesBreakPairs | lib/cli/cli.go:167-176 | The list is two numbers for each token exactly when no token is a single slot, and odd exactly when the number of single slots is odd |
| SlotSets.MergeCountExact | lib/cli/cli.go:549-554 | For any ascending mix of ranges and an even number of single slots, the sum is the number of slots plus the gaps counted less the insides of ranges skipped between odd and even singles; it is right exactly when those cancel out |
| SlotSets.MergeMiscountsSingles | lib/cli/cli.go:550-553 | The two single slots 0 and 2 are counted as three |
| ExceptOnClusters.RepliesNameIntervals | lib/cli/cli.go:462-479 | The parsed reply of a cluster of intervals gives the ends of every owner's interval |
| ExceptOnClusters.ExceptOnIntervals | lib/cli/cli.go:454-520 | On a partition into intervals: a reshard exactly for interior nodes, to the unique neighbour on the drawn side, for exactly the slots owned; otherwise refused |
| ExceptOnClusters.ExceptKeepsIntervals | lib/cli/cli.go:454-525 | After that reshard the node is empty, the neighbour has its slots, nothing else changed, and the owners are again intervals partitioning all slots |
| ExceptOnClusters.ExceptNodeOnCluster | lib/cli/cli.go:454-525 | The two results together, from the printed reply to the cluster after the reshard, for any number of replicas; the reshard can succeed |
| ExceptOnClusters.ExceptAsksForHull | lib/cli/cli.go:454-525 | On any cluster, with gaps or without, a planned reshard asks for at least the slots of the node, for exactly those if and only if they have no gap, and with a gap no such reshard succeeds |
| GapsOnClusters.ExceptPlansExactly | lib/cli/cli.go:454-520 | On any cluster, with gaps or without, from the printed reply: a reshard exactly when some node begins right behind the last slot of the node and some node ends right before its first, asking for the whole range between, for the one such node on the drawn side; otherwise refused |
| GapsOnClusters.ReshardAllOpensGaps | lib/cli/cli.go:358-376 | A cluster of intervals that a completed ReshardAll leaves with a gap, on which ExceptNode asks for three slots of a node that owns two, so that its reshard never succeeds |
| MergeOnClusters.MergeNodeOnCluster | lib/cli/cli.go:527-558 | For a primary as source: panics exactly with an odd number of single slots; otherwise asks for the source's slots plus the miscount, which ranges alone never have; that reshard can succeed exactly when the miscount is not positive and leaves as many slots in the source as the miscount is below zero, so at zero the source is empty and the target has the union |
| MergeOnClusters.MergeNodeFromReplica | lib/cli/cli.go:527-558 | For a replica as source: asks for no slots, or, for a replica behind another one whose master ID has a letter, for a number made of its ping and pong times and its epoch; a reshard that succeeds changes nothing in either case |
| ReshardAllOnClusters.ReshardAllPlan | lib/cli/cli.go:193-207 | On any printed reply each node read without slots is served exactly once, in the order of the reply, with 16384/n: the empty primaries, the first replica, and the later replicas whose master ID has no letter |
| ReshardAllOnClusters.ReshardAllBound | lib/cli/cli.go:366-371 | Whichever slots each reshard picks, every step finds its target empty and at least 16384/n slots elsewhere, the latest target has exactly that many, and after i steps the nodes that had slots keep (n-i) times that |
| ReshardAllOnClusters.ReshardAllServesReplicas | lib/cli/cli.go:199-204 | Some planned target is not a primary exactly when the reply lists a replica |
| ReshardAllOnClusters.ReshardAllOnCluster | lib/cli/cli.go:358-376 | From the printed reply to the final owners: all the reshards can succeed exactly when no replica is listed, and whenever they do the slots are still partitioned, the nodes that had slots keep 16384/n for each of them between them, and if a node was empty one of these ends with exactly 16384/n |
| SlotCluster.Conservation | lib/cli/cli.go:358-376 | Over any sequence of the three operations on any replies, with reshards that succeed or fail half-way, every slot stays owned by exactly one of the same nodes |
| SlotCluster.ErrorsChangeNothing | lib/cli/cli.go:503-540 | On any reply: an operation ends in an error or a panic before any reshard exactly when the command failed, the reply is empty (ReshardAll), the node or a node at one of its borders is missing (ExceptNode), or one of the two nodes is missing or the source has an odd list (MergeNode); the cluster then stays as it was |
| CommandScanner.SplitRedisCommand | lib/cli/reactor.go:32-62 | Cuts at the first '\n', '?' or ':'; at the end of the input delivers a non-empty rest as the final token |
| CommandScanner.FirstToken | lib/cli/reactor.go:37-51 | Text free of '\n', '?' and ':' followed by one of these is the token cut off, whatever comes behind; without one it is a token only at the end of the input |
| CommandScanner.TokensOfStream | lib/cli/reactor.go:37-51 | Any delimiter-free pieces joined by delimiters are the tokens of the stream they make up, the trailing one only when it is not empty |
| CommandScanner.CutStream | lib/cli/reactor.go:37-51 | Every stream is made up in that way: tokens and dropped delimiters rebuild it |
| CommandScanner.OfferedAtOnce | lib/cli/reactor.go:65-74 | Buffered text up to a delimiter is delivered without waiting for another read, and what is behind the delimiter stays buffered |
| CommandScanner.Scanner.Scan | lib/cli/reactor.go:65-73 | Delivers the next token of the rest of the stream, or false when there is none, whatever the reads; reads nothing when the buffer holds a token |
| CommandScanner.ScanAll | lib/cli/reactor.go:71-76 | However a stream is cut into reads, the tokens delivered are those of the one-shot split of the whole stream |
| CommandScanner.NoKeyLost | lib/cli/reactor.go:95-97 | An occurrence of a good key in the stream lies inside exactly one token, which contains it after trimming |
| CommandScanner.NoKeyInvented | lib/cli/reactor.go:95-97 | A trimmed token contains a good key only where its segment of the stream does |
| Reactor.ReactorSafety | lib/cli/reactor.go:64-105 | In every reachable state: consumed tokens then channel are a prefix of the stream's tokens, the channel holds at most 10, the output is in order one answer from a contained key for each consumed matching token, cancel has been called once if the loop has been left and not before, and at most 2N+1 rounds have been made |
| Reactor.NothingAfterCancel | lib/cli/reactor.go:83-93 | After cancel nothing more is consumed or written and cancel is not called again |
| Reactor.TickEndsIdleLoop | lib/cli/reactor.go:83-88 | A tick ends the loop exactly when no token has been received since the tick before |
| Reactor.RunsTerminate | lib/cli/reactor.go:71-105 | No run is longer than reads + 4N + 3 steps, and one that can go no further has left the loop with exactly one cancel |
| Reactor.AlwaysGoesOn | lib/cli/reactor.go:71-105 | As long as the loop runs, a waiting token can be received, an empty closed channel is seen, a tick can come at any time, and the producer can go on unless ten tokens wait; so something other than a tick can always happen |
| Reactor.SilentTicker | lib/cli/reactor.go:71-105 | A run without ticks that only a tick could take further has left through the closed channel and answered the whole stream |
| Reactor.BlockedProducer | lib/cli/reactor.go:71-76 | When nothing can happen any more the producer has closed the channel exactly when at most ten tokens of the stream were not consumed; otherwise it holds a token that the full channel cannot take |
| Reactor.ClosedMeansAllAnswered | lib/cli/reactor.go:89-93 | Left through the closed channel, the loop has consumed and answered every token of the stream |
| Reactor.AnswerAt | lib/cli/reactor.go:96-102 | There are as many answers as matching tokens, each at its token's rank among them |
| Reactor.EveryPromptAnswered | lib/cli/reactor.go:64-105 | From bytes to answers: every occurrence of a registered good key has its token answered when the channel was closed, with the response of a key contained in the trimmed token and a line feed |
| Reactor.AnswersDetermined | lib/cli/reactor.go:96-102 | The order of the map does not show unless a token matches keys with different answers |
| Reactor.Reactor.FindReaction | lib/cli/reactor.go:95-102 | Some registered key contained in the trimmed command, none only if no key is |
| GoStrings.ContainsMiddle | lib/cli/reactor.go:97 | Text with the key between any two others contains it |
| GoStrings.MiddleOfContains | lib/cli/reactor.go:97 | Text that contains the key is made up in that way |
| Reactor.Reactor.React | lib/cli/reactor.go:64-105 | Whatever the interleaving, what happens is a run of the transition system that ends with exactly one cancel, with ticks only where the ticker fires, and the writer has received its output; with a ticker that never fires that answers the whole stream |
| Prompts.Register | lib/cli/cli.go:315-322 | The reaction table of Reshard with the five prompts written out, "done" only for a single source |
| Prompts.FormatIntIsDecimal | lib/cli/cli.go:316 | Every 64-bit number is printed as decimal digits without a zero in front, a sign before negative ones, and Atoi reads it back |
| Prompts.KeysAreGood | lib/cli/cli.go:316-322 | Every registered key is free of delimiters and of white space at its ends |
| Prompts.ReshardDialogue | lib/cli/cli.go:302-348 | Whichever of the prompts the tool asks, in whatever order, each is answered in turn by one line: a decimal number that reads as the slots, the target, the source, "done" and "yes" |
| Prompts.ExceptNodeDialogue | lib/cli/cli.go:454-524 | For an interior node those answers name a decimal number that reads as that of its slots, a neighbour and the node itself |
| Paging.PageIsSlice | lib/store/queries/queries.sql.go:339-341 | A page is the first ten rows of the sorted table behind the cursor, and the rows behind a cursor are a suffix of it |
| Paging.PageIsPage | lib/store/queries/queries.sql.go:339-341 | A page has ten at most of the rows behind the cursor, in strict order and so each once; other rows behind the cursor are there only behind a page of ten, and after all of it |
| Paging.LexIsCollation | lib/store/queries/queries.sql.go:339-341 | The order by code point is one of the orders assumed |
| PagedWalk.WalkUnderChange | lib/api/rest/rest.go:594-617 | With any changes of the table between requests the names returned are strictly increasing, and a completed walk has every row that was there at each request |
| PagedWalk.StaticWalkDetermined | lib/api/rest/rest.go:969-982 | On an unchanged table two walks have the same pages as far as both go |
| PagedWalk.StaticWalkEnds | lib/api/rest/rest.go:969-982 | On an unchanged table of n rows some walk is completed if and only if the tenth row has not the empty key, and then no walk is longer than n/10+1 pages |
| PagedWalk.UniqueWalk | lib/api/rest/rest.go:969-982 | On an unchanged table of n distinct keys no walk is longer than n/10+1 pages, and a walk is completed exactly when it has that many, having returned all rows in order, each once |
| PagedWalk.StaticWalkIff | lib/api/rest/rest.go:969-982 | On an unchanged table every completed walk returns exactly the rows if and only if no multiple of ten splits equal keys and the tenth key is not empty, and takes then exactly n/10+1 pages |
| PagedWalk.StuckAtEmpty | lib/api/rest/rest.go:970-974 | A tenth row with the empty key sends the client back to the first page at every request |
| Catalogue.ChangesAreAnsweredUnauthorized | lib/store/store.go:36-55 | Every request to change the tables is answered with an error; with a session the answer is 401 exactly when the request has changed the rows |
| Catalogue.UnauthorizedMeansChanged | lib/store/store.go:36-55 | Over any sequence of requests with a session there are as many answers 401 as changes of the rows; without one the rows end as they were, without deletions each stands for one row more, and with deletions only for one row less at least |
| Catalogue.RowsDifferAfterUnauthorized | lib/store/store.go:36-55 | Over requests that only create or only delete, the rows differ in the end exactly when one was answered 401 |
| Catalogue.CreateClusterForgets | lib/api/rest/rest.go:474-476 | A new cluster is stored under its name without the description and the password of the request, and is found under the name given exactly when that is not over-long |
| Catalogue.CreateClusterExact | lib/api/rest/rest.go:467-490 | With a session, one row more with the name cut to 255 characters if only blanks are cut off and no cluster has that name; otherwise the same rows; answered 401 or 400 |
| Catalogue.CreatedClustersAreListed | lib/api/rest/rest.go:466-490 | From empty tables, clusters created under any distinct names of up to 255 characters are what a completed walk returns, each once and in order |
| Catalogue.CreateNodeExact | lib/api/rest/rest.go:775-824 | In an existing cluster, one row more exactly when no node of the cluster named "" has the ID or the address and the texts fit; otherwise the same rows; answered 401, 409 or 400 |
| Catalogue.NoSuchCluster | lib/api/rest/rest.go:782-787 | A node for a cluster that does not exist changes nothing and is answered 404 |
| Catalogue.DeleteNodeExact | lib/api/rest/rest.go:1037-1068 | With a session, exactly the nodes of that cluster with that ID go; answered 404 when there is none |
| Catalogue.AllRequestsKeepValid | lib/store/queries/schema.sql:32-55 | Over any sequence of requests cluster names stay unique and every node belongs to an existing cluster |
| Catalogue.OtherClustersUntouched | lib/store/queries/queries.sql.go:171-173 | No sequence of requests changes a node, or any page of nodes, of a cluster none of them names |
| Catalogue.DeleteClusterExact | lib/store/queries/queries.sql.go:153-155 | Removes exactly the named cluster and its nodes, and is answered 500 when there is none |
| Catalogue.DeletedStaysGone | lib/api/rest/rest.go:776-787 | Until its name is created again, a deleted cluster has no nodes and is unknown to every later request about it |
| Catalogue.CreateThenDeleteNode | lib/api/rest/rest.go:1038-1068 | A created node is found by ID and address as stored; deleting it takes all nodes of the cluster with its ID, which gives the rows back exactly when the ID was not there before; an over-long ID finds nothing to delete |
| Catalogue.NewClusterHasNoNodes | lib/store/queries/queries.sql.go:35-37 | A cluster begins without nodes, whatever its name was used for before |
| Catalogue.DeleteUndoesCreate | lib/api/rest/rest.go:725-737 | Creating and deleting a cluster changes the rows twice, is answered 401 twice, and gives the rows back |
| Catalogue.ClusterWalk | lib/api/rest/rest.go:565-617 | Paging through the clusters while requests of all kinds are served: increasing, no repeats, nothing missed that was there throughout |
| Catalogue.ClusterWalkStatic | lib/api/rest/rest.go:577-603 | No walk over n unchanging clusters is longer than n/10+1 pages, and one is completed exactly when it has that many, having returned all clusters in order |
| Catalogue.DuplicateNodes | lib/api/rest/rest.go:789-805 | The request for a node once created changes the rows again, so that the ID is there twice, exactly outside the cluster named "" or with both ID and host over-long; otherwise it is refused |
| Catalogue.TwinsAreLost | lib/api/rest/rest.go:969-982 | Once the same node has been created until its ID is in a cluster not named "" more than ten times, no completed walk returns all its nodes; and there is a completed walk when no ID is empty |
| Catalogue.Store.VisitCreateCluster | lib/api/rest/rest.go:467-482 | Outcome and tables after one run of the visitor, in an open or a finished transaction, names over-long by spaces cut to 255; an error leaves the tables as they were |
| Catalogue.Store.VisitDeleteCluster | lib/api/rest/rest.go:725-737 | Outcome and tables after one run of the visitor |
| Catalogue.Store.VisitCreateNode | lib/api/rest/rest.go:776-817 | Outcome and tables after one run of the visitor, the guards asked about the cluster named "", IDs and hosts over-long by spaces cut to 255 |
| Catalogue.Store.VisitDeleteNode | lib/api/rest/rest.go:1038-1068 | Outcome and tables after one run of the visitor; all nodes with the ID go |
| Catalogue.Store.Handle | lib/store/store.go:36-55 | Status sent and tables after a request whose visitor runs, is rolled back or committed, and after the commit runs again on the finished transaction |
| Catalogue.Store.HandleGetClusters | lib/api/rest/rest.go:577-619 | The rows of the page of ten behind the cursor, each once |
| Catalogue.Store.HandleGetNodes | lib/api/rest/rest.go:945-1001 | The rows of the named cluster's page of ten behind the cursor, each once; not found for an unknown cluster |

## Left out

- Processes, pipes, contexts and logging: a command is its reply, or its absence when it fails.
- `CreateCluster`, `AddNode`, `ForgetNode`, `DeleteNode`, `ReplicateNode` and `Rebalance` of `lib/cli/cli.go`: they assemble arguments and call an external binary.
- Which slots the cluster tool picks in a reshard: any that it may take. Replies are those of a server that lists a primary's slots in ascending order.
- Migrating and importing slots in brackets: what a single such token is read as is proved, but the printed records have none.
- ClusterNodes.ReadLine: the node is a value rebuilt field by field, not an object behind a pointer; nothing else holds the pointer while its line is read.
- ClusterNodes.ParseReply: lines longer than the scanner's token limit are not cut off, because replies are taken as scanned lines; `TrimSpace` knows ASCII white space only.
- CommandScanner.Scanner.Scan: the token limit, read errors other than the end of the stream, and the limit on empty reads are not modelled.
- Reactor.Reactor.React: writes never block or fail, the ticker may fire at any time, and fairness of the selection is not assumed.
- The texts of responses, and errors of the database connection.
- Sessions are a yes or no; users, passwords, cookies, JSON and timestamps are not modelled, nor are the gaps that refused insertions leave in the ID sequences.
- Catalogue.Store.HandleGetNodes: rows with equal node IDs come in the order of their row IDs, which the query leaves open; the results on walks speak of the keys only.
- `UpdateCluster`, the remaining node updates, `lib/api/rails`, `lib/util` and `lib/api/server.go`.
