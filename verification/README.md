# A fragmented, replicated file store on a ring: model and proofs

The system stores files in the memory of N single-threaded nodes that form a ring. Node N, the *index*,
cuts a new file into fragments, puts every fragment on two consecutive live nodes and remembers where;
later it picks one live copy of each fragment and has them sent to the node a client asked. Nodes notice
the death of their predecessor, pass a notice around, close the ring again, and if it was the index that
died, node N - 1 takes the lead and rebuilds the index from what the survivors report about their own
fragments.

The main result is `WorldTheorems.EveryFileComesBack`. It ranges over every history of the whole store
(formation of the ring, stored files, at most one death of any node, repair, takeover and rebuild, in any
interleaving) and says that whenever the ring is at rest, a get of any name through any live node
other than the index reaches the index and returns exactly the bytes of the file that answers to the name,
whatever order the fragments arrive in, with one exactly described exception; an unused name is rejected, and
no read or write leaves a table or buffer. Names are no keys: which of several files of one name answers is
part of the statement. `EveryFileCanBeStored` says exactly when storing succeeds,
`WorldHangs.EveryPutEnds` how it fails otherwise and `WorldEffects.EveryPutLeaves` what every node holds
afterwards in either case, `EveryHistoryComesToRest` that rest is always within
reach, `RingTurns.EveryTurnIsOpen` that no interleaving of the nodes' turns is missing from the histories,
`WorldSessions.EverySessionFits` that every report session stays inside its tables, and `StuckHappens`
that the exception does occur.

`dafny verify dfyconfig.toml` checks the whole project.

## How the project is organised

| part | modules |
|---|---|
| cutting and reassembling files | `Split` |
| byte transport, packet format | `Transport`, `Framing` |
| choosing nodes, fan-out, slots, choosing copies | `Placement`, `Storage`, `Layout`, `Selection` |
| rebuilding the index from reports | `Rebuild`, `Failover`, `Takeover` (tables), `Heritage` (containers), `TakeoverGet`, `Sessions` (bounds) |
| storing and fetching | `Cluster`, `PutPhase`, `Losses`, `Degraded`, `Hangs` (failed transfers), `Leftovers` and `Effects` (what a put leaves on every node) |
| ring protocols as a step system | `Ring`, `RingPicture` (closed form of every reachable state), `RingSteps`, `RingDeath`, `RingRuns`, `RingTheorems`, `RingOutcomes`, `RingRest`, `RingTurns` (which steps are possible) |
| ring and files together | `World`, `WorldViews`, `WorldRuns`, `WorldTheorems`, `WorldTurns`, `WorldHangs`, `WorldEffects`, `WorldNames`, `WorldSessions` |
| the mutable records and containers | `Servers`, `FileServers`, `NetIndexes`, `IndexRebuild` |

Code that changes things in place is a class or a method, proved equal to a function of its inputs or of the
old state; the theorems are about these functions.

## What turned out to be false

* A get after one death does not always succeed. With four nodes, if node 3 dies, the index notices it itself
  and counts its net size down twice, to 2; a file in four fragments then has as many fragments as twice
  the net size, the index takes the branch that asks first copies only, and fragment 3 is asked from the dead
  node. `Losses.GetAfterLoss` shows that this is the only case, `WorldTheorems.StuckHappens` that it happens.
* A takeover can change the answer to a get. While the first index lives, a name finds the first file stored
  under it. The new index lists its own containers first, which are those of the split files, and then
  the unsplit files that nodes 1 and 2 report; so a name finds the first split file that has it, and the
  first file only if none is split (`Heritage.InheritedName`). The answers agree unless the first file of the
  name is unsplit and a later one is split (`WorldNames.AnswersAgreeIff`, both directions), and in every ring
  of at least four there is a history in which the same get returns one file before the death of the index and
  another one after it (`WorldNames.AnswerChanges`).
* A transfer between nodes whose size is a multiple of 4096 never completes: the receiver awaits one more
  read than there are non-empty buckets (`Transport.TransferCompletes`, both directions). In a fan-out the
  index goes on after such a transfer while the receiver hangs, and is lost itself once it addresses that
  receiver again. In a complete ring this happens exactly if the file is split and its size divided by the
  number of nodes, rounded down, is a multiple of 4096 (`Hangs.BlockedIff`; `Hangs.BlockedIffReduced` after a
  loss); otherwise only the holders of the last fragment can hang. `WorldHangs.EveryPutEnds` says who hangs in
  every history; `WorldHangs.HangsHappen` gives a file of each kind, 16385 and 16381 bytes on four nodes, and
  `WorldEffects.HangsLeave` what the nodes then hold.
* Reading back a packet fails whenever the first read returns only one byte of the size prefix
  (`Framing.FramingRoundTrip`): depending on the low byte of the size it is an error, a panic or a packet that
  was never sent (`Framing.ReadShifted`). A packet of more than 65524 bytes is read with its size modulo 65536
  (`Framing.ReadCut`).
* With three nodes the death of the index makes two leaders (`RingOutcomes.TwoLeadersOfThree`); from four
  nodes on there is exactly one (`RingTheorems.UniqueLeader`).
* The neighbour id recorded after a repair is right only if the dead node was N, or was 1 in a ring of at
  least four (`RingOutcomes.RepairedIdIsRightIff`); the address recorded beside it is always right.
* After the loss of node N - 1 the widow's two counters no longer add up to N, and the index puts no
  fragment of a new file on itself (`Placement.PlacementWidowed`); such files still come back.
* Re-processing a report is harmless from three fragments on, but not below
  (`Rebuild.RepeatedReportIsNotHarmless`).

## Modelling decisions

* A step of the ring is one turn of a node's main loop; links are FIFO queues. A report session between a
  node and the index is one step. Nodes die once the ring is at rest, and at most one dies.
* `known_peers` starts at 0, as it is meant to; main.c:153-154 allocates the record without setting it. The
  contents of the freshly allocated peer table are arbitrary (`WorldTurns.FirstLeaderBegins`, `NextLeaderBegins`).
* The net size is an unsigned 64-bit counter and is decremented twice by the node that detects a death, as in
  the code.
* An address is its port; nobody listens on an erased address.
* Fragment counts are 8 bits wide in the containers, there is room for 100 files, and sizes fit an `int`;
  histories are restricted accordingly.
* Of a name the system keeps and compares a C string of at most 199 characters (`Storage.Stem`).
* A node's reads match the sender's writes; the client's reads may be cut anywhere.

## Model

| member | source | states |
|---|---|---|
| `WorldTheorems.EveryFileComesBack` | main.c:1048-1290 | in every history, at rest, a get of any name through any live non-index node reaches the index and returns, in any arrival order, the bytes of the file that answers to the name: the first one stored under it, or after a takeover the first split one if there is one; an unused name is rejected; the client waits forever exactly if that file was stored in four fragments on four nodes and node 3 died since; and nothing is ever read or written out of bounds |
| `WorldTheorems.EveryFileCanBeStored` | main.c:848-1046 | in every history, at rest with the first index alive, storing a file succeeds if and only if there are fewer than 100 files, it has fewer than 2^31 bytes, and neither the upload nor a fragment has a size divisible by 4096 |
| `WorldHangs.EveryPutEnds` | main.c:787-1046 | in every history, at rest with the first index alive, how storing a file ends: it succeeds exactly if the upload completes and nobody hangs; the index is lost exactly if the file is split and its size divided by the net size is a multiple of 4096, and then exactly the holders of the first fragment hang, the index apart; otherwise exactly those of the last fragment, the index apart, if that fragment has such a size |
| `WorldEffects.EveryPutLeaves` | main.c:966-1038 | in every history, at rest with the first index alive, what every node holds after the fan-out of an uploaded file, whether it is stored, somebody hangs or the index is lost: what it held before and, byte by byte, what `Effects.LeftAt` says |
| `WorldEffects.EveryPutKeeps` | main.c:856-862 | in every history: of a file of at most 100 bytes, or of no more bytes than there are nodes for it, the first two of these nodes have all and nobody else any; of every other file exactly these nodes have a part |
| `WorldEffects.NewFileNodesAre` | main.c:882-920 | new files go to all live nodes in ascending order; with node N - 1 dead, to 1..N - 2 |
| `WorldEffects.HangsLeave` | main.c:794-810 | on four nodes, of 16385 bytes nobody gets anything but nodes 1 and 2 and the index have opened a container; of 16381 bytes node 1 lacks the fourth fragment and everybody else has two |
| `WorldTurns.EveryTurnHappens` | main.c:93-481 | in every history the next thing to happen can be any step a node's mode and links call for |
| `WorldTurns.FirstLeaderBegins` | main.c:151-154 | for every content of its freshly allocated peer table there is a history in which node N begins with it |
| `WorldTurns.NextLeaderBegins` | main.c:151-154 | whatever has been stored, for every content of its freshly allocated peer table there is a history in which the index dies and node N - 1 begins with it |
| `WorldHangs.HangsHappen` | main.c:1013-1038 | on four nodes 16385 bytes make nodes 1 and 2 hang and cost the index; 16381 bytes make only node 1 hang |
| `WorldNames.AnswersAgreeIff` | main.c:157-190 | with the same files stored, a get gives the same answer before the index is lost and after its succession if and only if not (the first file of the name is unsplit and a later one is split) |
| `WorldNames.AnswerChanges` | main.c:157-190 | in every ring of at least four, for any such two files, a history in which a get returns the first one, the index dies, the ring comes to rest, and the same get returns the second one |
| `WorldSessions.EverySessionFits` | main.c:304-326 | in every history every report session, also that of a new index with itself, stays inside its tables: each report has the length its table has and is written inside it, and the file table has room for each container opened |
| `WorldSessions.EveryNodeHasRoom` | lib/fileserver/fs.c:20-44 | in every history, at rest with the first index alive, no node has more containers than there are files, and the placement loops stay inside the peer table |
| `WorldTheorems.StuckHappens` | main.c:1072 | a history of four nodes leads to a ring at rest in which the only file never comes back |
| `WorldTheorems.EveryHistoryComesToRest` | main.c:93-481 | from the end of every history the ring can come to rest with nobody else dying, in at most 7N - 3 steps, keeping the files |
| `WorldRuns.HistorySound` | main.c:123-481 | every history keeps the invariant: nobody dead and every node has exactly its share; or a node lost and the rest intact; or the index rebuilt from exactly those who have reported |
| `WorldRuns.ReportTaken` | main.c:313-326 | a report session turns the data rebuilt from some reporters into the data rebuilt from these and one more |
| `WorldRuns.LeadTaken` | main.c:151-193 | taking the lead gives the data rebuilt from the leader's own files |
| `WorldViews.FormedView` | main.c:233-336 | the index of every formed ring sees a full, correct peer table and correct counters |
| `WorldViews.BereavedView` | lib/machine/procedures.c:20-108 | after every repair the index sees exactly the dead node erased, and a net size lower by two if it detected the death itself |
| `WorldViews.InheritedView` | main.c:148-231 | after every takeover node N - 1 sees a correct table of its own |
| `Losses.GetFromFullRing` | main.c:1093-1099 | put then get in a complete ring returns the first file of the name |
| `Losses.GetAfterLoss` | main.c:1064-1136 | put, lose any node but the index, get: the first file of the name comes back unless four nodes, the third lost, file split; then the client waits forever; nothing is read or written out of bounds |
| `Losses.ServedReturns` | main.c:1181-1290 | if every choice names a live holder of its fragment, the requester's buffer ends up equal to the file |
| `TakeoverGet.GetAfterTakeover` | main.c:378-481 | put, lose the index, rebuild from the survivors in any order, get: the file the new index finds under the name comes back, for every ring of at least four nodes |
| `TakeoverGet.NextIdFreshAfterTakeover` | lib/machine/procedures.c:333-345 | the rebuilt store has ids 1..file_count, each once, so file_count + 1 is fresh |
| `Heritage.RebuiltStoreIs` | lib/machine/procedures.c:341-345 | the exact store of the new index, whichever nodes have reported in whatever order: its own containers, then, once node 1 or 2 has reported, those of the unsplit files, both in the order of their ids |
| `Heritage.LookupInherited` | lib/fileserver/fs.c:78-89 | it has exactly the split files and the unsplit ones reported so far |
| `Heritage.InheritedName` | lib/fileserver/fs.c:91-104 | under a name the new index finds the first split file that has it, or else the first file, or nothing |
| `TakeoverGet.TakeoverChangesAnswer` | main.c:157-190 | of two files of one name, the first unsplit and the second split, the old index finds the first and the new one the second |
| `TakeoverGet.UnknownAfterTakeover` | main.c:658-666 | a get of an unused name is rejected after a takeover |
| `Takeover.TableRebuilt` | lib/machine/procedures.c:347-400 | the table rebuilt from all survivors is the original one with the dead index's entries blank, for split and unsplit files |
| `Takeover.ReportsInBounds` | lib/machine/procedures.c:366-399 | every report, in any order, has the length its table has and writes inside it |
| `Sessions.SessionFits` | main.c:304-314 | whoever has reported before, everything a node reports fits: each report its file's table, each new container the file table |
| `Sessions.InheritanceHasRoom` | lib/machine/procedures.c:341-345 | a file the new index has not got yet leaves it with fewer containers than there are files |
| `Takeover.SurvivorTableInBounds` | lib/server/server.c:356-365 | every peer-table read caused by a rebuilt table is inside the new peer table |
| `Takeover.TakeoverChoice` | main.c:1076-1091 | exactly which copies are asked for after a takeover: the first one of every fragment, but fragment N from node 1 |
| `Takeover.ChoicesAfterTakeover` | main.c:1076-1091 | after a takeover every fragment is asked from a survivor that holds it |
| `Failover.SaveStoreTable` | main.c:304-314 | all of a node's reports together change a file's table by the one report about that file |
| `Failover.SaveNodesTable` | main.c:251-330 | however many files there are, each table is made from the reports about its file alone |
| `Failover.SplitFold` | lib/machine/procedures.c:378-399 | the reports of any holders of a split file give exactly the placed entries of these holders |
| `Failover.WholeFold` | lib/machine/procedures.c:363-377 | for an unsplit file the reports give the table sorted by node, whoever comes first |
| `Rebuild.SaveReport` | lib/machine/procedures.c:347-400 | the in-place updates compute ApplyReport |
| `Rebuild.ReportIsOwnEntries` | main.c:422-446 | what a holder reports from its two slots is its two entries of the original table, in table order |
| `Rebuild.ReportRestoresOwn` | lib/machine/procedures.c:378-399 | a report restores exactly its sender's entries and touches no other position, inside the table |
| `Rebuild.RebuildRefinesPlacement` | lib/machine/procedures.c:347-400 | after any reports in any order a position holds the entry placed there if its holder has reported, and is blank otherwise |
| `Rebuild.RebuildIgnoresOrder` | lib/machine/procedures.c:347-400 | order and repetition of reports do not matter from three fragments on |
| `Rebuild.RebuildTwoFragments` | lib/machine/procedures.c:385-390 | with two fragments either order fills all four positions with fragment i + 1 on two nodes |
| `Rebuild.RebuildOneFragment` | lib/machine/procedures.c:363-377 | with one fragment either order gives the table sorted by node id |
| `Rebuild.RepeatedReportIsNotHarmless` | lib/machine/procedures.c:363-390 | below three fragments a repeated report overwrites the other replica |
| `RingRuns.StepDepicted` | main.c:123-481 | every step of every node keeps the closed form of the reachable states |
| `RingRuns.RunDepicted` | main.c:123-481 | every run stays within the closed form and every step raises the rank by one |
| `RingRuns.RunsAreShort` | main.c:206-481 | no run has more than 7N - 3 steps |
| `RingTurns.EveryTurnIsOpen` | main.c:93-481 | in every reachable state exactly the steps that the nodes' modes and links call for are possible, a leader's beginning with any content of its peer table included; so tables are long enough and divisors not zero, and no interleaving is left out |
| `RingTheorems.Progresses` | main.c:123-481 | no run gets stuck before the ring is at rest |
| `RingTheorems.NobodyMisreads` | main.c:341-376 | a node waiting for gossip only ever reads the leader's presentation, an idle node only ever the notice of the death that happened |
| `RingTheorems.GossipNeverMeetsNotice` | lib/machine/procedures.c:20-74 | a presentation is never in flight while a death notice is |
| `RingTheorems.UniqueLeader` | main.c:148-201 | the leadership test succeeds exactly for N, or N - 1 once N is dead; nobody else ever acts as leader |
| `RingOutcomes.FormedRing` | main.c:206-336 | a formed ring: everybody has taken exactly one presentation, naming N, and reported exactly once; table and counters are right |
| `RingOutcomes.NoticeVisitsEverybodyOnce` | lib/machine/procedures.c:78-108 | every survivor but the widow reads the notice exactly once; the counters add up to N, for the widow to N - 1 |
| `RingOutcomes.IndexAfterLoss` | lib/machine/procedures.c:52-66 | the index erases exactly the dead node |
| `RingOutcomes.IndexAfterTakeover` | main.c:148-231 | node N - 1 leads with a full table and one report from each of 1..N - 2, who each took one more presentation |
| `RingOutcomes.EverybodyDialsLeader` | main.c:686-695 | whenever the ring is at rest, every live node but the leader dials the leader when it needs the index |
| `RingOutcomes.LinksFormOneCycle` | lib/machine/procedures.c:35-46 | after the repair forward links form one cycle over the live nodes |
| `RingOutcomes.RepairedIdIsRightIff` | lib/machine/procedures.c:40 | when the recorded neighbour id is right |
| `RingOutcomes.TwoLeadersOfThree` | main.c:148-201 | in every formed ring of three the death of the index can lead to two leaders |
| `RingRest.ComesToRest` | main.c:123-481 | from every reachable state the ring can come to rest with nobody else dying |
| `RingRest.RestIsFinal` | main.c:483-491 | at rest nothing but a first death can happen |
| `RingPicture.BootPred` | lib/server/server.c:32 | the ring formula for the backward neighbour gives the predecessor |
| `Servers.ServerRecord.constructor` | lib/server/server.c:9-49 | the record after start is the one every run of the step system begins with; with BootPred, its backward neighbour is the predecessor |
| `Servers.ServerRecord.Begin` | main.c:148-201 | the record becomes OnBegin of the old one: only the node whose id is the net size gets a peer table, with arbitrary contents |
| `Servers.ServerRecord.Present` | main.c:206-231 | the record becomes OnPresent of the old one, and what is sent names this node and its address |
| `Servers.ServerRecord.TakeGossip` | main.c:341-376 | the node follows whom it reads about, and passes the presentation on unless its next neighbour is the index |
| `Servers.ServerRecord.SaveReportedPeer` | lib/server/server.c:367-378 | one table entry and the counter change |
| `Servers.ServerRecord.TakeReport` | main.c:233-336 | the reporter's address is recorded, and the index is idle exactly after the last of net_size - 1 reports |
| `Servers.ServerRecord.HealthCheck` | lib/machine/procedures.c:78-108 | the net size goes down by two and the deaths up by one, an index erases the dead node, and the notice names it and the widow's address |
| `Servers.ServerRecord.CheckPeerB` | lib/machine/procedures.c:5-76 | a notice is either passed on or, by the dead node's predecessor, answered with a dial to the widow; an index erases the dead node, and the dead index's followers start over; other packets change nothing |
| `Servers.ServerRecord.AcceptPeer` | main.c:123-146 | the backward link is open again, its recorded id unchanged; node 1 starts over, others go on |
| `Placement.PlaceFragments` | main.c:871-924 | the nested loops stay in bounds, end, and fill the table with Placed |
| `Placement.StartIsLive` | main.c:882-902 | the skip loop makes fragment i start at the i-th live node |
| `Placement.ScanIsLivePair` | main.c:904-920 | the replica loop finds the i-th live node and its cyclic live successor, which differ |
| `Placement.PlacementOverAnyLiveSet` | main.c:856-924 | the same for the whole table, over any set of live nodes |
| `Placement.PlacementWidowed` | main.c:908 | what a widowed index does instead |
| `Selection.SelectReplicas` | main.c:1064-1099 | the loop computes Select; RingChoice, PrimaryChosen and TakeoverChoice say which copy that is |
| `Selection.SelectionServes` | main.c:1064-1099 | every choice is alive if and only if every fragment has its first holder alive, or the second one and the fallback branch runs |
| `Selection.RingChoice` | main.c:1064-1099 | which copy of a file placed over the full ring is asked for: the first, unless its holder is dead and the fallback branch runs |
| `Degraded.PrimaryChosen` | main.c:1064-1099 | of a file placed on live nodes only, always the first copy |
| `Selection.LostOnlyByAdjacentDeaths` | main.c:1064-1099 | a file over the full ring is served if and only if no two adjacent nodes are dead and the ring size is not twice the net size |
| `Storage.FanoutFile` | main.c:966-1038 | the fan-out loop cuts every piece at the right offset and computes FanoutRun; who hangs and whether the index is lost is in Hangs.RunHangs and BlockedAt, what every node holds in Leftovers.RunStores and StoresAt |
| `Storage.FanoutRunCompletes` | main.c:966-1038 | every node gets its pieces exactly if nobody ends up hanging |
| `Leftovers.RunStores` | main.c:966-1038 | for any table, as long as the index is not lost, every node has gained exactly its own or transportable entries, in table order, and a container if any entry was addressed to it |
| `Leftovers.StoresAt` | main.c:1013-1038 | once the index is lost, the same for the entries before the one that costs it |
| `Effects.PiecesCount` | main.c:856-862 | one piece up to 100 bytes or up to as many bytes as nodes, otherwise as many pieces as nodes |
| `Effects.FanoutLeaves` | main.c:966-1038 | for a file over any list of nodes, the exact containers and slots every node has gained in each of the cases stored, hanging, lost |
| `Hangs.RunHangs` | main.c:966-1038 | for any table the index is lost exactly if some entry is addressed to a node that hangs over an earlier one, and as long as it is not, exactly the receivers of pieces of a size divisible by 4096 hang |
| `Hangs.BlockedAt` | main.c:1013-1038 | once the index is lost nothing more happens: those hang who hang over entries before the first one addressed to a hanging node |
| `Hangs.FanoutEnds` | main.c:966-1038 | for a file's table over any list of nodes: exactly who hangs, and exactly when the index is lost |
| `Hangs.BlockedIff` | main.c:966-1038 | in a complete ring the index is lost if and only if the file is split and its size divided by the ring size is a multiple of 4096 |
| `Hangs.BlockedIffReduced` | main.c:966-1038 | the same after a loss, with the net size the index then has; with a net size of one the only node gets both copies |
| `Hangs.PutRunCompletes` | main.c:848-1046 | for any view of the index, storing succeeds exactly if the upload completes and nobody hangs |
| `Storage.Stem` | lib/fileserver/fs.c:33 | the longest start of a name that is a C string of at most 199 characters |
| `Storage.FanoutLayout` | main.c:966-1038 | every node gets its pieces exactly if no remote piece has a size divisible by 4096; then every node gains exactly its pieces and keeps the rest |
| `Storage.Find` | lib/fileserver/fs.c:78-89 | the position of the first container with the id, or none |
| `Layout.HeldIsShare` | main.c:969-996 | which fragments the j-th live node ends up with |
| `Layout.TwoSlotsInOrder` | lib/fileserver/fs.c:49-73 | at most two fragments per node, so nothing is overwritten, and slot 0 has the smaller id |
| `Layout.SpreadTransportable` | main.c:1038 | fan-out over live nodes completes if and only if every piece can be transferred |
| `PutPhase.PutAllLayout` | main.c:848-1046 | storing any list of files succeeds if and only if every transfer completes, and leaves every node with exactly its share |
| `PutPhase.IndexIdsAreSequential` | main.c:864-869 | container i of the index has id i + 1 |
| `PutPhase.LookupInStore` | lib/fileserver/fs.c:78-89 | looking a file up on any node finds what that node gained with it |
| `PutPhase.LiveServes` | lib/machine/procedures.c:230-251 | the i-th node and the next one serve fragment i + 1 with its bytes |
| `Degraded.PlacedOnSpots` | main.c:856-924 | where an index that has lost a node puts new files |
| `Degraded.PutOnTargets` | main.c:848-1046 | storing on any list of usable nodes succeeds if and only if every transfer completes, and changes nothing else |
| `Degraded.PutThenGet` | main.c:1048-1290 | a file stored under a new name after a loss comes back |
| `Degraded.PutKeepsGets` | main.c:848-1046 | storing a file never changes the answer to a get of an earlier one |
| `Degraded.GrowsByOne` | main.c:848-1046 | one more file after a loss: when it succeeds, that all names are answered as before, and a new name with the new file |
| `Cluster.DeliveryFromPeer` | lib/machine/procedures.c:225-285 | a fragment asked from another node arrives, at its place, exactly if that node has it and its size is no multiple of 4096 |
| `Cluster.GetReturns` | main.c:1181-1290 | a fetch whose fragments all arrive returns the file in any order |
| `Cluster.GetFails` | main.c:1101-1130 | a fetch that asks one fragment from a dead node, and the others from nodes that have them, waits forever and writes nothing out of bounds |
| `Cluster.FindName` | lib/fileserver/fs.c:91-104 | the position of the first container with the name, or none |
| `Cluster.FirstNamed` | lib/fileserver/fs.c:91-104 | the first file with the name, or none |
| `Split.RangesTile` | main.c:873-880 | consecutive fragment ranges meet and end at the file's end |
| `Split.SplitFragmentsNonEmpty` | main.c:856-862 | a fragment of a non-empty file is not empty |
| `Split.EveryByteInOneFragment` | main.c:966-972 | every byte lies in exactly one fragment |
| `Split.SizesOfFragments` | main.c:878-880 | the sizes in the table are the sizes of the pieces cut |
| `Split.ReassemblyInAnyOrder` | main.c:1228-1267 | copying every fragment in any order, even repeatedly, rebuilds the file |
| `Split.CopyDeliveries` | main.c:1240-1267 | the in-place copies compute ApplyAll |
| `Transport.SendLargeBuffer` | lib/server/server.c:228-267 | the buckets sent: size / 4096 + 1 of them, all but the last of 4096 bytes, which concatenate to the buffer |
| `Transport.WaitLargeBuffer` | lib/server/server.c:270-293 | when the fixed-count receiver completes and what it has then |
| `Transport.BucketsRebuild` | lib/server/server.c:228-267 | the buckets, with or without the empty one, concatenate to the buffer |
| `Transport.TransferCompletes` | lib/server/server.c:228-293 | a transfer delivers the buffer, or blocks exactly if the size is a multiple of 4096 |
| `Transport.SendChunks` | client/cmd/send.go:134-151 | the client sends the non-empty buckets; as many as awaited if and only if the size is no multiple of 4096 |
| `Transport.Relay` | main.c:794-810 | what a relaying node passes on to the index |
| `Transport.UploadCompletes` | main.c:787-812 | an upload through a relay completes exactly if the size is no multiple of 4096, unchanged |
| `Transport.ReadLargeBuffer` | client/cmd/request.go:13-33 | the client gets the first `size` bytes however the stream is cut, or an error if it ends early |
| `Transport.DeliverToClient` | main.c:1273-1287 | the assembled file reaches the client unchanged, for every size |
| `Framing.LittleEndianRoundTrip` | client/cmd/packet.go:48-75 | decoding inverts encoding modulo the width |
| `Framing.ReadPacket` | client/cmd/packet.go:164-207 | the loop computes ReadSpec however the body is cut, and whether the first read gets one or two bytes of the prefix; what that is for every stream a packet can leave is in ReadCut and ReadShifted |
| `Framing.PacketLayout` | client/cmd/packet.go:48-63 | where the size, sender, type and content are, and in which byte order |
| `Framing.ReadCut` | client/cmd/packet.go:164-207 | what is read of any packet and whatever follows it, cut off after any number of bytes, when the first read gets the whole prefix: an error, a panic for the wrapped sizes 9 and 10, or the packet with as much content as its 16-bit size says |
| `Framing.ClosedEarly` | client/cmd/packet.go:166-188 | a connection that ends within a packet, or before it, is an error |
| `Framing.ReadShifted` | client/cmd/packet.go:166-171 | the same when the first read gets one byte: exactly when it is an error or a panic, and otherwise the packet that is made up, byte by byte |
| `Framing.FramingRoundTrip` | client/cmd/packet.go:48-75 | reading back gives the same packet and leaves the next one untouched, if and only if the first read gets the whole prefix and the content has at most 65524 bytes |
| `Framing.ResponseLayout` | client/cmd/packet.go:135-148 | where the size, id and fragment count are, and in which byte order |
| `Framing.ResponseCut` | client/cmd/packet.go:135-148 | a descriptor cut off after any number of bytes: an error below 16, a panic at 16, otherwise the descriptor |
| `Framing.ResponseRoundTrip` | client/cmd/packet.go:135-148 | the client learns the size, id and fragment count that were sent |
| `FileServers.FileServer.constructor` | lib/fileserver/fs.c:8-15 | an empty table |
| `FileServers.FileServer.AddFile` | lib/fileserver/fs.c:20-44 | adding appends a fresh container, with the name cut off after 199 characters |
| `FileServers.FileServer.AddFragmentAt` | lib/fileserver/fs.c:49-73 | one slot of one container changes |
| `FileServers.FileServer.FindFile` | lib/fileserver/fs.c:78-89 | the loop finds the first container with the id, or none |
| `FileServers.FileServer.FindFileByName` | lib/fileserver/fs.c:91-104 | the loop finds the first container with the name, cut off after 199 characters, or none |
| `FileServers.FileServer.ReceiveFragment` | main.c:1141-1179 | a node that is sent a fragment stores it as StoreFragment says |
| `NetIndexes.IndexNode.constructor` | lib/fileserver/fni.c:15-32 | a node with a blank table |
| `NetIndexes.NetIndex.constructor` | lib/fileserver/fni.c:6-13 | the empty list |
| `NetIndexes.NetIndex.Link` | lib/fileserver/fni.c:34-46 | the list stays acyclic, ends at TAIL and has file_count nodes; the node is appended |
| `NetIndexes.NetIndex.AddFile` | lib/fileserver/fni.c:34-46 | the sequence of entries grows by the new one at the end, nothing else changes |
| `NetIndexes.NetIndex.FindFile` | lib/fileserver/fni.c:54-65 | terminates with the first node that has the id, or null |
| `NetIndexes.FirstIsReplaced` | lib/machine/procedures.c:333-340 | changing the found node's table in place is replacing the first entry with the id |
| `IndexRebuild.SaveFileToIndex` | lib/machine/procedures.c:325-402 | on the linked index and the file table, the code does what SaveFile says; other tables stay as they are |
| `IndexRebuild.MakeReports` | main.c:404-446 | what a node reports about its containers, in order |
| `IndexRebuild.HandleNewFile` | main.c:848-932 | the next id, a fresh container and the placement table, appended to what was there; the table has two entries for a file of at most 100 bytes or of no more bytes than the net size, otherwise two for each of net size fragments |

## Left out

- Sockets, polling, clocks, sleeps, presentation handshakes and acknowledgements: links are queues, a death is a step.
- Argument and address parsing; an address is a number.
- The overlap of the machine state's union members, struct padding, malloc failure, freeing and leaks.
- Storing files after a takeover: the new peer table has fewer entries than positions are taken modulo, so the code reads outside it.
- A client that asks the index itself: its id is taken for a ring position.
- Second and later deaths, and deaths in a ring of two: neighbour ids are not kept up to date. Placement and selection are still proved for any set of live nodes.
- Deaths while the ring forms, while a file is stored or fetched, or while reports are under way.
- Histories contain only files all of whose pieces arrived; what a node that hangs in a transfer does to the ring is not modelled.
- Reads that do not match the sender's writes at the nodes' fixed-count receivers.
- IndexRebuild.SaveFileToIndex: requires that the report fits its table and that there is room for the container, which the code does not look at; WorldSessions.EverySessionFits proves both for every report in every history.
- FileServers.FileServer.AddFile: requires room for the container, which the code does not look at; WorldSessions.EveryNodeHasRoom proves it for histories, which stay below 100 files.
- FileServers.FileServer.ReceiveFragment: requires room for the container if the file is new to the node, which the code does not look at; the same lemma proves it for histories.
- IndexRebuild.HandleNewFile: requires room for the container and a peer table not shorter than the modulus of the placement loops, which the code does not look at; the same lemma proves both for histories.
- Servers.ServerRecord.Begin: sets known_peers to 0, where main.c:153-154 leaves what malloc returned.
- Above 255 nodes, 100 files or 2 GB the numbers wrap in the code but not in the model; histories stay below these limits.
- The client's console, commands and connection handling, debug output and shell scripts other than the ring layout of boot.sh.
- xfileserver_free_file, xfileserver_free_fs and server_close, which the main loop never reaches.
