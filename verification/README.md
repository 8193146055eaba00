# A verified model of gem5's Python tools

gem5 is a computer-architecture simulator. Around it stands a set of Python tools that prepare simulations and digest
their traces. This project models the tools that carry real algorithms and proves what they promise, or, where a
promise does not hold, exactly when it does.

| file | tool | central result |
|---|---|---|
| `SnSort`, `ReorderQueue` | pipeline viewer: reorder queue | the output is the stably sorted trace if and only if every instruction arrives before too many larger ones have left the queue; the documented assumption is enough, and it is tight |
| `TraceRegion` | pipeline viewer: region of interest | the region is printed whole and in order if and only if nothing wanted is left unread and no wanted instruction is overtaken by another |
| `RowPainter`, `Timeline`, `TimelineText`, `DivFacts` | pipeline viewer: timeline of one instruction | which letters every printed row shows, length and every cell of it, and exactly when a row has the requested width |
| `UpgradeRules`, `Upgraders`, `CheckpointUpgrade` | checkpoint upgrader | the loader builds exactly the declared dependencies; resolution is independent of set iteration order, idempotent, and, for upgraders, aborts if and only if the pending ones hold a cycle; from the scripts to the written checkpoint |
| `PortBinder`, `BindPositions`, `SortedBinding` | configuration reader: port binding | greedy binding is as good as any selection in the visiting order, and succeeds if and only if the places of the connections in it allow; sorting does not guarantee that |
| `Varint`, `Framing` | protobuf stream library | round trip of sizes and of whole files, and the exact result of reading a cut file |
| `Text`, `DepTrace` | dependency trace encoder and decoder | what every printed record reads back as; it is the record if and only if it has the fields of its type and no virtual address or address space |
| `MemTestTree` | memory test system | the recursive builder places every subsystem, and builds as many testers as were announced |
| `Years`, `CopyrightBlocks` | copyright tool | date lists round trip if and only if ranges have four-digit ends; comment blocks are whole, ordered, disjoint and the only such list, and they end with their comments if and only if none starts with a comment on a single line |
| `Aggregator` | checkpoint aggregator | relocated addresses read the same bytes if and only if memory images are complete; section names never collide |
| `BasicBlocks` | trace analysis | basic blocks are the unique partition of the trace at branches, and the jump map holds exactly the branches they are entered from |
| `PeriodicCheckpoints` | simulation driver | checkpoints lie on the schedule, their exact number, and exactly when a program's own requests cut the series short |
| `LatMemRanges` | memory latency sweep | the sizes measured are all quarter steps between powers of two |
| `LogRoll` | rolling log | a dump between two lines is always the last lines in order |

Code that updates things in place is modelled by classes and loops, each proved against a function on values; the
theorems are about those functions. The contracts of the main operations (`ProcessTrace`, `PrintInst`,
`UpgradeCheckpoint`, `BindPorts`, `BuildTree`, `FindCBlocks`, `ExtractBasicBlocks`, `Aggregate`) also state the outcome
in terms of the input alone, without those functions. `dafny verify dfyconfig.toml` checks everything.

## How the model relates to the tools

- Files, clocks, signals and the simulator are parameters: a trace is a sequence of complete instruction records, a
  file a sequence of bytes or characters, a simulator a script of the answers it will give.
- Wherever the code walks over a Python set or dictionary, the model allows any order. `IsRun` in `UpgradeRules` holds
  of every order in which a round of migrations can be applied.
- In the port binder the visiting order is a parameter, since `sorted` compares port objects that define no order in
  Python 3. The comment at `GEM5/configs/example/read_config.py:314` says that sorting makes exactly one direction of
  every connection bindable. `SortedOrderCanFail` gives, for any four ascending names, a sorted list that fails and
  that another order binds; `BindsIffPositions` says for every order whether it works, from the places of the
  connections in it.
- The upgrader's documentation says that a tag depending on a tag with a downgrader waits for it to be removed. The
  code waits for the tag to be present. `RemovedFirstIff` says when the documented order holds all the same, and
  `AbsentRemovedTagBlocks` that the migration can never run once the tag is gone.
- The periodic checkpoint loop tests the answer to the first call of a period although a later call may have ended it.
  `RequestsAreIgnoredIff` is the exact consequence and `RequestCutsTheSeries` an example.
- A `/* */` comment on a single line is not closed on that line by the copyright scanner: its end is sought from the
  next line on, and code in between goes into the block. `BlockEndsWithItsCommentIff` is exact about it,
  `EverythingUpToClose` says what the block covers, and `CodeBetweenOneLineComments` is an example. A comment that
  reaches the end of the file is dropped (`CommentToTheEndIsDropped`), and so is a `//` notice directly before a line
  with code and a comment (`NoticeBeforeCode`).
- The dependency trace message has a virtual address and an address space, and the simulator writes the former on
  request (`GEM5/src/cpu/o3/probe/elastic_trace.cc:838`). The text form has no place for them: `LineReadsBack` and
  `VirtualAddressIsLost`.
- Text is ASCII. The padding written by the aggregator is the character zero, not the byte zero, as in the code.

## Model

| member | source | states |
|---|---|---|
| `SnSort.SortPermutes` | GEM5/util/o3-pipeview.py:165 | sorting the queue keeps every instruction, with its multiplicity |
| `SnSort.SortSorts` | GEM5/util/o3-pipeview.py:165 | the sorted queue ascends by sequence number |
| `SnSort.SortKeepsKeyOrder` | GEM5/util/o3-pipeview.py:165 | instructions with equal sequence numbers keep their order of arrival |
| `SnSort.StableSortIsUnique` | GEM5/util/o3-pipeview.py:165 | sorted with every key's order kept is if and only if: no other result is possible |
| `SnSort.FilterSort` | GEM5/util/o3-pipeview.py:165-184 | testing the boundaries after sorting gives the same as sorting what passes them |
| `ReorderQueue.PrintQueue.PrintInsts` | GEM5/util/o3-pipeview.py:162-184 | the in-place sort and pop loop drains the queue to the threshold; of what it pops, in order, exactly the instructions are printed that keep all the limits asked for |
| `ReorderQueue.PrintQueue.QueueInst` | GEM5/util/o3-pipeview.py:154-159 | one arrival: append, and drain to the minimum above the maximum |
| `ReorderQueue.WantedIs` | GEM5/util/o3-pipeview.py:168-183 | the tests that skip an instruction let through exactly what the options ask for, zero meaning no limit |
| `ReorderQueue.FillsThenDrains` | GEM5/util/o3-pipeview.py:154-167 | an input up to the maximum is all queued; one more leaves the minimum queued and the rest popped |
| `ReorderQueue.DrainConserves` | GEM5/util/o3-pipeview.py:162-167 | popped and queued instructions together stay the same; what was popped stays popped; the length left is the threshold |
| `ReorderQueue.RunConserves` | GEM5/util/o3-pipeview.py:154-167 | at every moment of every run each arrival is either queued or popped, exactly once |
| `ReorderQueue.OutputConserves` | GEM5/util/o3-pipeview.py:146-148 | at the end of the trace everything has been popped exactly once |
| `ReorderQueue.FirstDrain` | GEM5/util/o3-pipeview.py:157-159 | when the queue first pops: at the arrival that exceeds its capacity |
| `ReorderQueue.DrainsAreRegular` | GEM5/util/o3-pipeview.py:157-159 | later drains come at fixed distances, whatever the instructions are |
| `ReorderQueue.QueueLength` | GEM5/util/o3-pipeview.py:45-48 | closed form of the queue length after any input, and its bound |
| `ReorderQueue.DrainedSince` | GEM5/util/o3-pipeview.py:157-159 | nothing is popped between two drains, and a drain leaves the minimum threshold |
| `ReorderQueue.BoundedDisorderSuffices` | GEM5/util/o3-pipeview.py:49-50 | the documented assumption implies the exact condition |
| `ReorderQueue.InTimeSplit` | GEM5/util/o3-pipeview.py:154-167 | while all arrive in time, what was popped followed by the sorted queue is the sorted input so far |
| `ReorderQueue.LateArrivalBreaksOrder` | GEM5/util/o3-pipeview.py:49-50 | one late arrival makes the whole output unsorted, whatever follows |
| `ReorderQueue.OutputIsSortedIff` | GEM5/util/o3-pipeview.py:45-50 | the output is the stable sort of the input, and is sorted at all, if and only if every instruction arrives in time |
| `ReorderQueue.DisorderLimitIsTight` | GEM5/util/o3-pipeview.py:49-50 | one more place of disorder than documented is too much, for every pair of thresholds |
| `TraceRegion.ProcessTrace` | GEM5/util/o3-pipeview.py:72-149 | skipping, stopping, queueing and filtering: whatever is printed was read and keeps every limit of the options; it is exactly the selected part of the sorted whole trace if and only if the region is in time; under the documented bounds on disorder and drift it ascends and holds every record that keeps the limits, as often as the trace does |
| `TraceRegion.PrintTrace` | GEM5/util/o3-pipeview.py:81-149 | the loop over the records refines skipping, stopping, queueing and filtering |
| `TraceRegion.SkippedIs` | GEM5/util/o3-pipeview.py:81-105 | where reading starts: at the first record fetched in the region, or behind one with a later event in it; by number, at the first that has it |
| `TraceRegion.UntilStopIs` | GEM5/util/o3-pipeview.py:126-134 | reading stops at the first record beyond the region by more than the tolerance, and at no other |
| `TraceRegion.PrintedIsRequested` | GEM5/util/o3-pipeview.py:72-184 | nothing is printed that was not read or that a limit excludes |
| `TraceRegion.RequestedIsSelected` | GEM5/util/o3-pipeview.py:162-184 | the selected part of the sorted trace holds every record within the limits, as often as the trace |
| `TraceRegion.RegionIsComplete` | GEM5/util/o3-pipeview.py:81-149 | under the documented bounds, starting late and stopping early loses nothing of the region and adds nothing |
| `TraceRegion.TopIsKept` | GEM5/util/o3-pipeview.py:154-167 | the queue always holds the largest of all arrivals, as many as a drain leaves |
| `TraceRegion.PoppedIsDrained` | GEM5/util/o3-pipeview.py:162-167 | what has been popped, from the input alone: all arrivals up to the last drain but the largest |
| `TraceRegion.SelectedIffInTime` | GEM5/util/o3-pipeview.py:162-184 | the wanted instructions are printed in order if and only if none arrives after a larger wanted one was popped |
| `TraceRegion.RegionIsCompleteIff` | GEM5/util/o3-pipeview.py:60-149 | the region is printed whole and in order if and only if nothing wanted is behind the stop and no wanted instruction is overtaken |
| `RowPainter.Stamp` | GEM5/util/o3-pipeview.py:268-277 | one event: dots up to its column, its letter, and the new position |
| `RowPainter.PaintLength` | GEM5/util/o3-pipeview.py:264-278 | a painted row is as long as its width plus one for every mark that shares a cell |
| `RowPainter.PaintCell` | GEM5/util/o3-pipeview.py:264-278 | with distinct cells the row has its width and every cell its letter or dot |
| `RowPainter.PaintLetters` | GEM5/util/o3-pipeview.py:264-278 | a character other than the dot is on a row if and only if a mark has it |
| `Timeline.SingleRowIffCompact` | GEM5/util/o3-pipeview.py:233-238 | one row is printed if and only if the timeline is compact |
| `Timeline.EventOnExactlyOneRow` | GEM5/util/o3-pipeview.py:246-258 | an event is on one row, the one computed from its tick, if it is not before the first row, and on none otherwise |
| `Timeline.CollectEvents` | GEM5/util/o3-pipeview.py:247-259 | the loop over the stages collects and sorts the events of a row |
| `Timeline.SortEventsSorts` | GEM5/util/o3-pipeview.py:256-259 | the events are permuted into the order of Python's tuples: by offset, ties by the name of the stage |
| `Timeline.DrawLetters` | GEM5/util/o3-pipeview.py:261-277 | the drawing loop refines the painter's function |
| `Timeline.DrawEvents` | GEM5/util/o3-pipeview.py:260-279 | the whole row refines the painter's function |
| `Timeline.PrintRow` | GEM5/util/o3-pipeview.py:247-278 | one row, and whether it has no events |
| `Timeline.PrintRows` | GEM5/util/o3-pipeview.py:246-290 | the loop over rows prints each in order, and fails if and only if a single row has no events |
| `TimelineText.PrintInst` | GEM5/util/o3-pipeview.py:221-290 | all rows in order; on each, every stage's own letter is shown if and only if the stage falls on that row, a dispatch only if it differs from the issue, and all else is `=` for an abandoned and `.` for a completed instruction; it fails if and only if a compact timeline has no event, never for a fetched instruction |
| `TimelineText.RowShows` | GEM5/util/o3-pipeview.py:241-278 | that statement for one row |
| `TimelineText.RowCells` | GEM5/util/o3-pipeview.py:264-278 | on a row of the requested width each letter is in the cell of its clock cycle, counted around the row |
| `TimelineText.LastEventIs` | GEM5/util/o3-pipeview.py:226-231 | the last event is the latest tick of all stages, the store's only if it is shown |
| `TimelineText.BaseIs` | GEM5/util/o3-pipeview.py:223-224 | the first row starts at the last multiple of the row width up to the fetch |
| `TimelineText.LastRow` | GEM5/util/o3-pipeview.py:233-252 | the last row is the one that holds the last event |
| `TimelineText.NamesAreAlphabetical` | GEM5/util/o3-pipeview.py:256-259 | ties between events are broken by the alphabetical order of the stage names |
| `Timeline.FetchIsDrawn` | GEM5/util/o3-pipeview.py:262 | the first row of a fetched instruction has an event |
| `Timeline.RowEventsEmpty` | GEM5/util/o3-pipeview.py:251-262 | a row has no events if and only if no stage lies on it |
| `Timeline.RowMarks` | GEM5/util/o3-pipeview.py:264-270 | a row's marks ascend, stay within the row, and are exactly the visible stages in the columns of their ticks |
| `Timeline.RowLength` | GEM5/util/o3-pipeview.py:264-278 | the row length is the width plus the drawn stages minus the distinct columns |
| `Timeline.RowContent` | GEM5/util/o3-pipeview.py:264-278 | a row has the requested width if and only if no two drawn stages share a column, and then every cell is as it should be |
| `Timeline.ColumnIsCycle` | GEM5/util/o3-pipeview.py:256-268 | a stage's column is its clock cycle modulo the width |
| `Timeline.SameColumnSameCycle` | GEM5/util/o3-pipeview.py:247-268 | on a row that starts with a whole cycle, columns coincide if and only if cycles do |
| `Timeline.CompactColumns` | GEM5/util/o3-pipeview.py:249-268 | on a compact row, columns are distinct if and only if cycles are and none is a full turn after that of the fetch |
| `Timeline.RowWidthByCycles` | GEM5/util/o3-pipeview.py:233-278 | a full row, or a compact one without events before the fetch, has the requested width if and only if its stages are in distinct cycles and, in the compact form, none is a full turn after the fetch |
| `Timeline.UnalignedFetchOverflows` | GEM5/util/o3-pipeview.py:249-278 | any fetch inside a cycle has an instruction whose compact row is too long although all cycles differ |
| `UpgradeRules.AppliedTags` | GEM5/util/cpt_upgrader.py:242-254 | in any order of application a run applies all pending tags, or all but those it reports |
| `UpgradeRules.AppliedOnce` | GEM5/util/cpt_upgrader.py:242-254 | no tag is applied twice |
| `UpgradeRules.AppliedInOrder` | GEM5/util/cpt_upgrader.py:138-152 | whatever is applied finds each dependency present at the start or upgraded before it |
| `UpgradeRules.ResolvedTags` | GEM5/util/cpt_upgrader.py:144-152 | the tags after a completed resolution: pending upgrades added, pending downgrades removed |
| `UpgradeRules.FinalTags` | GEM5/util/cpt_upgrader.py:240-254 | an upgraded checkpoint has all upgrader tags and no downgrader tag, and nothing is left to apply to it |
| `UpgradeRules.StuckHasCycle` | GEM5/util/cpt_upgrader.py:245-248 | if no pending tag depends on a removed one, an abort shows a dependency cycle among the pending tags |
| `UpgradeRules.CycleGetsStuck` | GEM5/util/cpt_upgrader.py:245-248 | under the same condition a cycle leads to an abort |
| `UpgradeRules.AbortsIffCycle` | GEM5/util/cpt_upgrader.py:240-254 | if no pending tag depends on a removed one, as in every registry of upgraders only, resolution aborts if and only if the pending tags hold a cycle |
| `UpgradeRules.RemovedFirstIff` | GEM5/util/cpt_upgrader.py:56-61 | every run downgrades before dependants, as documented, if and only if no pending tag depends on a removed one |
| `UpgradeRules.AbsentRemovedTagBlocks` | GEM5/util/cpt_upgrader.py:138-142 | a tag that depends on a removed, absent tag makes resolution abort |
| `UpgradeRules.RemovedDependencyExample` | GEM5/util/cpt_upgrader.py:56-61 | two scripts for which the documented downgrade order fails both ways |
| `Upgraders.DeclaredRulesAudited` | GEM5/util/cpt_upgrader.py:85-89 | audited scripts give rules fit for resolution if and only if no tag has both kinds of migration |
| `Upgraders.Registry.Register` | GEM5/util/cpt_upgrader.py:90-136 | what one script adds to the four shared tables |
| `Upgraders.Registry.LoadScripts` | GEM5/util/cpt_upgrader.py:162-163 | after loading, the last script that claims a tag or version owns it |
| `Upgraders.Registry.ChainLegacy` | GEM5/util/cpt_upgrader.py:165-169 | versions from 3 to the first gap depend on their predecessor, all others are unchanged; it fails if and only if version 2 is missing |
| `Upgraders.Registry.ForwardOne` | GEM5/util/cpt_upgrader.py:173-183 | one tag's forward dependencies are turned around; failure names an unknown tag, and happens if and only if there is one |
| `Upgraders.Registry.PointForward` | GEM5/util/cpt_upgrader.py:173-178 | the tag is appended to each forward dependency's list, and to no other |
| `Upgraders.Registry.FirstUnknown` | GEM5/util/cpt_upgrader.py:179-183 | reports an unknown dependency if and only if there is one |
| `Upgraders.Registry.ResolveForward` | GEM5/util/cpt_upgrader.py:171-183 | in any visiting order all forward dependencies are turned around, or an unknown tag is reported |
| `Upgraders.Registry.ChainScripts` | GEM5/util/cpt_upgrader.py:165-169 | in terms of the scripts: each object depends on what its script declares after chaining |
| `Upgraders.Registry.LoadAll` | GEM5/util/cpt_upgrader.py:158-183 | loading succeeds if and only if every name is known and no legacy version is missing, and then holds exactly the declared rules, fit for resolution if no tag has both kinds of migration |
| `Upgraders.Registry.ApplyRound` | GEM5/util/cpt_upgrader.py:250-252 | a round in any order changes the tags as the rules say, and applies each ready tag once |
| `Upgraders.Registry.FindReady` | GEM5/util/cpt_upgrader.py:244 | the ready tags are those of the rules |
| `Upgraders.Registry.ResolveTags` | GEM5/util/cpt_upgrader.py:240-254 | the loop's outcome is that of the rules for every choice of order, and the migrations applied are one of their runs |
| `Upgraders.Registry.LegacyTags` | GEM5/util/cpt_upgrader.py:214-216 | a legacy number stands for the tags of versions 2 up to it, and fails if and only if one is missing |
| `Upgraders.Registry.ProcessFile` | GEM5/util/cpt_upgrader.py:206-264 | when a checkpoint is rejected, aborted, unchanged or written; a written one has all upgraded and no downgraded tags and would not change again |
| `CheckpointUpgrade.UpgradeCheckpoint` | GEM5/util/cpt_upgrader.py:158-264 | loading and then migrating a checkpoint, from the scripts alone: when it fails, aborts, changes nothing or writes which tags; what is applied, in which order, and which tags the result has are stated from the scripts; with upgraders only it aborts if and only if the pending ones hold a cycle |
| `CheckpointUpgrade.OwnersAreLast` | GEM5/util/cpt_upgrader.py:133-136 | a tag or version belongs to the last script that claims it |
| `CheckpointUpgrade.DependencyIs` | GEM5/util/cpt_upgrader.py:165-183 | the rules loaded hold exactly the dependencies of the scripts: declared, chained by legacy version, or pointed forward |
| `CheckpointUpgrade.InitialTagsAre` | GEM5/util/cpt_upgrader.py:214-216 | a legacy number stands for the tags of the scripts that own the versions from 2 up to it |
| `CheckpointUpgrade.AppliedAre` | GEM5/util/cpt_upgrader.py:240-254 | the tags migrated are the upgrades the checkpoint lacked and the downgrades it had |
| `CheckpointUpgrade.AppliedAfter` | GEM5/util/cpt_upgrader.py:138-152 | each is migrated once, after everything it depends on |
| `PortBinder.BindPorts` | GEM5/configs/example/read_config.py:293-339 | the connections made are the greedy ones of the order; an unknown port is reported if and only if some connection reaches it, and it is the first such; otherwise binding fails if and only if the connections made are not half of the list |
| `PortBinder.MarkPorts` | GEM5/configs/example/read_config.py:298-304 | there is a counter, at zero, for exactly the ports on a left side |
| `PortBinder.GreedyIsValid` | GEM5/configs/example/read_config.py:325-334 | every connection is made when both its ports are next in index order |
| `PortBinder.PortsUsedOnce` | GEM5/configs/example/read_config.py:306-312 | no port is bound twice |
| `PortBinder.BoundInIndexOrder` | GEM5/configs/example/read_config.py:306-334 | each port's indices are bound as 0, 1, 2, ... |
| `PortBinder.OneDirectionOnly` | GEM5/configs/example/read_config.py:314-316 | a connection is never made in both directions |
| `PortBinder.HalfIsEverything` | GEM5/configs/example/read_config.py:336-339 | if half the list is made, every connection is made in exactly one direction |
| `PortBinder.SuccessMeansMatching` | GEM5/configs/example/read_config.py:336-339 | success shows that the list pairs the ports |
| `PortBinder.SuccessBindsAllIndices` | GEM5/configs/example/read_config.py:336-339 | after success no listed index is left unbound |
| `PortBinder.GreedyIsAhead` | GEM5/configs/example/read_config.py:325-334 | greedy binding never falls behind any valid selection, on any port |
| `PortBinder.SucceedsIffPossible` | GEM5/configs/example/read_config.py:314-339 | binding succeeds if and only if some valid selection in the visiting order does |
| `BindPositions.AllOnTime` | GEM5/configs/example/read_config.py:325-334 | if no connection is stuck, each is made at its first place unless it is forced to the second |
| `BindPositions.PositionsAreNeeded` | GEM5/configs/example/read_config.py:325-339 | success shows that ports are paired, no index is skipped and no connection is stuck |
| `BindPositions.BindsIffPositions` | GEM5/configs/example/read_config.py:314-339 | for every order: binding succeeds if and only if ports are paired, no index is skipped, and no connection has both places before what it needs can be made |
| `SortedBinding.SortedOrderCanFail` | GEM5/configs/example/read_config.py:151-153 | for any four ascending names, a list sorted by object, port and index that fails and that another order binds |
| `Varint.EncodedLength` | GEM5/util/protolib.py:143-155 | the length of an encoding is the number of 7-bit groups of the value |
| `Varint.DecodeEncoded` | GEM5/util/protolib.py:98-126 | decoding an encoding gives the value narrowed as the code narrows it, or fails beyond ten bytes, and leaves the rest |
| `Varint.DecodeIs` | GEM5/util/protolib.py:98-126 | what any bytes decode to: the 7-bit groups up to the first byte without its top bit, or an error |
| `Varint.NarrowedIs` | GEM5/util/protolib.py:98-126 | narrowing keeps the low 32 bits, and is negative if and only if the value exceeds a signed 64-bit number |
| `Varint.RoundTripIff` | GEM5/util/protolib.py:98-155 | a size survives if and only if it is below two to the 32 |
| `Varint.EncodingIsShortest` | GEM5/util/protolib.py:143-155 | no byte string that decodes to a value is shorter than its encoding |
| `Varint.BitsAbove` | GEM5/util/protolib.py:115 | the bits or-ed in lie above the bits that are there, so the "or" is an addition |
| `Framing.OutFile.EncodeVarint` | GEM5/util/protolib.py:143-155 | the byte loop appends the encoding |
| `Framing.OutFile.EncodeMessage` | GEM5/util/protolib.py:157-163 | a message is appended with its size |
| `Framing.InFile.Read` | GEM5/util/protolib.py:111 | a read takes what was asked for, or all there is |
| `Framing.InFile.DecodeVarint` | GEM5/util/protolib.py:98-126 | the byte loop decodes the size at the position and moves behind it |
| `Framing.InFile.ReadMessage` | GEM5/util/protolib.py:128-141 | one message, the end of the file or an error, as the specification says |
| `Framing.ReadAll` | GEM5/util/decode_inst_dep_trace.py:153-155 | the reading loop gives all messages up to the first that is none |
| `Framing.DecodeAllIs` | GEM5/util/protolib.py:128-141 | what is read from any bytes: a body as long as its size says and the file allows, then the rest; nothing without a positive size |
| `Framing.DecodeFrame` | GEM5/util/protolib.py:128-163 | a written message is read back, except that an empty one ends the file |
| `Framing.StreamRoundTrip` | GEM5/util/protolib.py:128-163 | a written file reads back up to its first empty message |
| `Framing.StreamRoundTripIff` | GEM5/util/protolib.py:128-163 | a file survives if and only if no message is empty |
| `Framing.CutStream` | GEM5/util/protolib.py:128-141 | what is read from a file cut at any byte |
| `Framing.CutGivesBeginning` | GEM5/util/protolib.py:128-141 | that is the original bodies and at most one more, shortened, which the framing does not tell from a whole one |
| `DepTrace.PrintDeps` | GEM5/util/decode_inst_dep_trace.py:190-201 | dependencies are written each after a comma |
| `DepTrace.PrintInfo` | GEM5/util/decode_inst_dep_trace.py:157-188 | the fields present, with the defaults of the missing ones |
| `DepTrace.PrintRecord` | GEM5/util/decode_inst_dep_trace.py:157-203 | one record as a line of text |
| `DepTrace.MemoryFormat` | GEM5/util/decode_inst_dep_trace.py:157-203 | the line of a load or store, field by field, with the defaults of missing fields |
| `DepTrace.CompFormat` | GEM5/util/decode_inst_dep_trace.py:157-203 | the line of a computation, field by field |
| `DepTrace.DepFormat` | GEM5/util/decode_inst_dep_trace.py:190-201 | each dependency is written in decimal behind a comma |
| `DepTrace.ParseDeps` | GEM5/util/encode_inst_dep_trace.py:179-192 | non-empty items as numbers, or a failure |
| `DepTrace.ParseLine` | GEM5/util/encode_inst_dep_trace.py:148-192 | one line as a record, or the error it stops with |
| `DepTrace.SurplusIgnored` | GEM5/util/encode_inst_dep_trace.py:152-177 | fields behind the last one needed change nothing |
| `DepTrace.TypeRefused` | GEM5/util/encode_inst_dep_trace.py:155-165 | a type that is none, or invalid, is refused by its name |
| `DepTrace.EmptyItemIgnored` | GEM5/util/encode_inst_dep_trace.py:179-192 | an empty item anywhere in a dependency list changes nothing |
| `DepTrace.DepsRoundTrip` | GEM5/util/encode_inst_dep_trace.py:179-192 | written dependencies read back, the leading comma included |
| `DepTrace.LineReadsBack` | GEM5/util/encode_inst_dep_trace.py:147-194 | what the printed line of any record reads back as: an error, the record without its virtual address and address space, or a computation with a memory field taken for its delay |
| `DepTrace.LineRoundTripIff` | GEM5/util/encode_inst_dep_trace.py:147-194 | a written record reads back, with defaults filled in, if and only if it has the fields of its type and neither virtual address nor address space |
| `DepTrace.VirtualAddressIsLost` | GEM5/src/proto/inst_dep_record.proto:63-83 | a load with a virtual address, as the simulator writes it, and what is left of it |
| `DepTrace.ParsedIsNormal` | GEM5/util/encode_inst_dep_trace.py:147-194 | whatever is parsed is in range, survives printing and has all defaults filled in |
| `DepTrace.PrintingIsIdempotent` | GEM5/util/decode_inst_dep_trace.py:154-203 | any text that parses once parses to the same record after printing |
| `DepTrace.DecodeTrace` | GEM5/util/decode_inst_dep_trace.py:153-203 | a whole trace as text |
| `DepTrace.EncodeTrace` | GEM5/util/encode_inst_dep_trace.py:145-195 | a whole text as a trace: the records of all lines in order, or the error of the first line that cannot be used |
| `DepTrace.ConvertIs` | GEM5/util/encode_inst_dep_trace.py:147-194 | lines are converted one by one up to the first that cannot be used |
| `DepTrace.TraceRoundTripIff` | GEM5/util/encode_inst_dep_trace.py:145-195 | a trace survives if and only if each of its records does |
| `MemTestTree.NumTesters` | GEM5/configs/example/memtest.py:104-116 | the total is the sum over levels of testers times subsystems |
| `MemTestTree.CheckSpec` | GEM5/configs/example/memtest.py:141-166 | each error is raised if and only if it is the first cause that holds, and none if and only if the specification is valid |
| `MemTestTree.AddSubsystem` | GEM5/configs/example/memtest.py:228-249 | the next name of a level is new, and adding it keeps table, names, places and tester count consistent |
| `MemTestTree.ChildHangsOff` | GEM5/configs/example/memtest.py:266-268 | the subsystem built for a cache is numbered so that its parent is that cache |
| `MemTestTree.Builder.constructor` | GEM5/configs/example/memtest.py:220-221 | all levels start at index zero |
| `MemTestTree.Builder.Place` | GEM5/configs/example/memtest.py:228-265 | one subsystem is numbered, named and put in its place |
| `MemTestTree.Builder.MakeLevel` | GEM5/configs/example/memtest.py:223-286 | one subtree: every level above grows by its width, everything stays in place, and its testers are counted |
| `MemTestTree.Builder.MakeChildren` | GEM5/configs/example/memtest.py:266-268 | the subtrees of all caches of one subsystem |
| `MemTestTree.BuildTree` | GEM5/configs/example/memtest.py:288-289 | the whole tree: the testers of all subsystems sum to the announced number, each level has the product of fan-outs; for every subsystem its testers, caches, crossbar and the cache it hangs off, from the specification alone |
| `MemTestTree.WholeTree` | GEM5/configs/example/memtest.py:223-289 | a consistent tree of the right widths is exactly this one |
| `MemTestTree.HornerWidth` | GEM5/configs/example/memtest.py:105-110 | widths counted from the memory side and from the subtree side agree |
| `MemTestTree.HornerTesters` | GEM5/configs/example/memtest.py:105-116 | testers counted level by level and subtree by subtree agree |
| `Years.SortedYears` | GEM5/util/find_copyrights.py:176-177 | the years in ascending order |
| `Years.FindRuns` | GEM5/util/find_copyrights.py:179-197 | the loop finds maximal runs that cover exactly the given years |
| `Years.RunsAreUnique` | GEM5/util/find_copyrights.py:179-197 | there is only one list of maximal runs |
| `Years.DateStr` | GEM5/util/find_copyrights.py:175-199 | the text lists the maximal runs, and reads back to the same years if and only if longer runs have four-digit ends |
| `Years.WrittenRuns` | GEM5/util/find_copyrights.py:179-199 | runs are written in order with a comma between them and nothing else |
| `Years.AddRange` | GEM5/util/find_copyrights.py:106-108 | a range adds its years, both ends included |
| `Years.AddDate` | GEM5/util/find_copyrights.py:103-114 | one item: a range, a year, or nothing |
| `Years.ProcessDates` | GEM5/util/find_copyrights.py:99-116 | the years of a whole list |
| `Years.RangeReads` | GEM5/util/find_copyrights.py:98-108 | two four-digit years around a hyphen, with any white space, read as the years from one to the other |
| `Years.YearReads` | GEM5/util/find_copyrights.py:109-114 | an item without a hyphen is one year or nothing |
| `Years.ReadInAll` | GEM5/util/find_copyrights.py:99-116 | a year is read if and only if some item of the list has it |
| `Years.RunContribution` | GEM5/util/find_copyrights.py:98-114 | what one printed run reads back to: never a foreign year, and its last year is lost unless it reads back whole |
| `Years.DatesRoundTripIff` | GEM5/util/find_copyrights.py:98-199 | reading what was printed gives the same years if and only if runs of several years have four-digit ends |
| `CopyrightBlocks.ScanFindsBlocks` | GEM5/util/find_copyrights.py:47-93 | at every line: blocks are in order, disjoint, with only blank lines between, each from an opening to the next close behind its line or a run of line comments; what the scan stops on |
| `CopyrightBlocks.FindCBlocks` | GEM5/util/find_copyrights.py:47-93 | the blocks reported are the only list of whole comments, in order, with only blank lines between, up to where the scan stops; a run of line comments ends only before code or a block comment, or before a new notice; it fails if and only if a line mixes both styles |
| `CopyrightBlocks.GenerateCBlocks` | GEM5/util/find_copyrights.py:47-93 | the generator refines the scan; its assertions hold except the one on mixed comment styles |
| `CopyrightBlocks.BlocksAreUnique` | GEM5/util/find_copyrights.py:47-93 | no other list of blocks is ordered, separated by blank lines only, whole and complete |
| `CopyrightBlocks.LineCommentsAreWhole` | GEM5/util/find_copyrights.py:65-86 | a run of line comments is reported as one block up to a new notice or to something else |
| `CopyrightBlocks.BlockEndsWithItsCommentIff` | GEM5/util/find_copyrights.py:54-59 | a block ends where the comment that starts it ends if and only if that comment is not on a single line |
| `CopyrightBlocks.AllBlocksEndWithTheirCommentIff` | GEM5/util/find_copyrights.py:47-93 | all blocks do if and only if none starts with a comment on a single line |
| `CopyrightBlocks.EverythingUpToClose` | GEM5/util/find_copyrights.py:54-59 | once a comment is opened, whatever follows up to the next close behind that line goes into its block |
| `CopyrightBlocks.CodeBetweenOneLineComments` | GEM5/util/find_copyrights.py:54-90 | two one-line comments with code between them make one block, code included |
| `CopyrightBlocks.NoticeBeforeCode` | GEM5/util/find_copyrights.py:65-86 | line comments right before code are reported if and only if the code line has no comment of its own |
| `CopyrightBlocks.CommentToTheEndIsDropped` | GEM5/util/find_copyrights.py:51-90 | a comment of either kind that is open at the end of the file is behind all blocks |
| `CopyrightBlocks.FindLineBlocks` | GEM5/util/find_copyrights.py:17-45 | for scripts and Lisp: maximal runs of comment lines before the first line of code |
| `Aggregator.CopyPages` | GEM5/util/checkpoint_aggregator.py:102-109 | the page loop copies the pages that exist |
| `Aggregator.MemoryLength` | GEM5/util/checkpoint_aggregator.py:94-112 | the merged memory is as long as its page count says if and only if every image was complete |
| `Aggregator.ByteIsKept` | GEM5/util/checkpoint_aggregator.py:99-109 | every copied byte is in the merged memory, behind the earlier checkpoints |
| `Aggregator.RelocationIsRightIff` | GEM5/util/checkpoint_aggregator.py:71-72 | an address is relocated to where its byte went if and only if all earlier images were complete |
| `Aggregator.RelocatedReadsSame` | GEM5/util/checkpoint_aggregator.py:69-109 | with complete images a relocated address reads the byte it read before |
| `Aggregator.NoAliasing` | GEM5/util/checkpoint_aggregator.py:71-96 | addresses of different checkpoints never meet |
| `Aggregator.Pad` | GEM5/util/checkpoint_aggregator.py:118-126 | padding reaches the requested size with the fewest pages |
| `Aggregator.NoFewerPages` | GEM5/util/checkpoint_aggregator.py:118-126 | no smaller number of pages reaches the size |
| `Aggregator.PaddingIs` | GEM5/util/checkpoint_aggregator.py:119-126 | padding is whole pages of the character zero |
| `Aggregator.RenamingIsInjective` | GEM5/util/checkpoint_aggregator.py:65-67 | a renamed section determines the section and the number put in |
| `Aggregator.TagsDiffer` | GEM5/util/checkpoint_aggregator.py:56-66 | zero-filled numbers of different checkpoints have one length and differ |
| `Aggregator.TagIs` | GEM5/util/checkpoint_aggregator.py:56-66 | the number put in is the checkpoint's, in decimal, as long as the largest one |
| `Aggregator.ContainsCpuIs` | GEM5/util/checkpoint_aggregator.py:65 | a section is a processor's if and only if its name holds "cpu" somewhere |
| `Aggregator.RenamedFirst` | GEM5/util/checkpoint_aggregator.py:66 | the number goes behind the first "cpu", and renaming goes on behind that |
| `Aggregator.RenamedElse` | GEM5/util/checkpoint_aggregator.py:66 | a name without "cpu" is kept |
| `Aggregator.RenamedContainsCpu` | GEM5/util/checkpoint_aggregator.py:65-67 | a renamed section is still recognised as one of a processor |
| `Aggregator.ItemsRelocated` | GEM5/util/checkpoint_aggregator.py:69-74 | of a section's items only addresses change |
| `Aggregator.NameDetermines` | GEM5/util/checkpoint_aggregator.py:64-89 | a merged name comes from one checkpoint and one section |
| `Aggregator.SectionNamesDistinct` | GEM5/util/checkpoint_aggregator.py:58-92 | no section name occurs twice in the merged configuration |
| `Aggregator.MergeConfig` | GEM5/util/checkpoint_aggregator.py:64-89 | one configuration's part of the result |
| `Aggregator.MergeAll` | GEM5/util/checkpoint_aggregator.py:55-112 | the loop over checkpoints: memory, sections, page count, and the largest tick of all |
| `Aggregator.Aggregate` | GEM5/util/checkpoint_aggregator.py:41-136 | the merged checkpoint: its tick is the largest of all; its sections are exactly the processors' sections of every checkpoint, renamed and relocated, and the other sections of the last; page count, next process and padding; its announced size is that of its memory if and only if all images were complete |
| `Aggregator.LatestTickIs` | GEM5/util/checkpoint_aggregator.py:81-84 | the tick kept is at least every checkpoint's, and is one of them |
| `Aggregator.SectionsAre` | GEM5/util/checkpoint_aggregator.py:64-89 | a section is in the result if and only if it comes from a checkpoint: name, items and relocation one by one |
| `BasicBlocks.ExtractBasicBlocks` | GEM5/util/ClockAnalysis.py:81-102 | the counts are those of the one list of blocks that make up the trace and end at branches; a jump is recorded if and only if an instruction is the first of the trace, entered from 0, or follows a branch, entered from that branch's address |
| `BasicBlocks.BlocksPartition` | GEM5/util/ClockAnalysis.py:86-100 | the blocks are non-empty, make up the trace, and branch at their end and only there |
| `BasicBlocks.PartitionIsUnique` | GEM5/util/ClockAnalysis.py:86-100 | no other list of blocks does |
| `BasicBlocks.CountsCoverTrace` | GEM5/util/ClockAnalysis.py:95-100 | counts times lengths add up to the length of the trace |
| `BasicBlocks.JumpsAre` | GEM5/util/ClockAnalysis.py:86-98 | in terms of the blocks: an edge is recorded if and only if some block starts there right after the other one's last instruction |
| `BasicBlocks.JumpsFromTrace` | GEM5/util/ClockAnalysis.py:86-98 | in terms of the trace: an edge is recorded if and only if an instruction there directly follows the branch it names, or starts the trace |
| `BasicBlocks.ScanTrace` | GEM5/util/ClockAnalysis.py:81-102 | the loop refines the splitting of the trace |
| `PeriodicCheckpoints.Simulate` | GEM5/configs/common/Simulation.py:236-237 | the simulator: it advances at most the ticks requested, and exactly those when it reports the limit |
| `PeriodicCheckpoints.Resume` | GEM5/configs/common/Simulation.py:238-240 | resuming after requests ends at or before the target, at it when the limit is reported, and never with a request |
| `PeriodicCheckpoints.ScriptCheckpoints` | GEM5/configs/common/Simulation.py:230-265 | the driver's loops refine the specification for every simulator |
| `PeriodicCheckpoints.ResumeTo` | GEM5/configs/common/Simulation.py:259-260 | the inner loop passes over the program's requests |
| `PeriodicCheckpoints.CheckpointsOnSchedule` | GEM5/configs/common/Simulation.py:236-263 | checkpoints are taken at the given tick and every period after, without gaps, within the limits |
| `PeriodicCheckpoints.RunToFiltered` | GEM5/configs/common/Simulation.py:238-240 | leaving out requests does not change how a stretch ends |
| `PeriodicCheckpoints.PeriodsCount` | GEM5/configs/common/Simulation.py:249-263 | the exact number of checkpoints the loop adds |
| `PeriodicCheckpoints.RoomIs` | GEM5/configs/common/Simulation.py:249-263 | the room for checkpoints is the number asked for or the number of periods up to the last tick, whichever is less |
| `PeriodicCheckpoints.UninterruptedCount` | GEM5/configs/common/Simulation.py:236-263 | a simulation that is never interrupted takes as many checkpoints as there is room for |
| `PeriodicCheckpoints.BadLimitIff` | GEM5/configs/common/Simulation.py:251-253 | the simulator is asked to run backwards if and only if the first checkpoint was taken behind the last tick and more were wanted |
| `PeriodicCheckpoints.RequestsAreIgnoredIff` | GEM5/configs/common/Simulation.py:249-263 | requests leave the series as it is if and only if at most one checkpoint was still due or possible when one came |
| `PeriodicCheckpoints.RequestCutsTheSeries` | GEM5/configs/common/Simulation.py:249-263 | a simulation in which one request costs two checkpoints |
| `LatMemRanges.IsPow2Iff` | GEM5/configs/dram/lat_mem_rd.py:136-138 | the bit trick recognises exactly the powers of two |
| `LatMemRanges.OnlyEightfold` | GEM5/configs/dram/lat_mem_rd.py:149-153 | of five to eight quarter steps only the eighth is a power of two |
| `LatMemRanges.Ranges` | GEM5/configs/dram/lat_mem_rd.py:140-153 | the loop gives the closed form, up to the first size that reaches the limit |
| `LatMemRanges.NextStep` | GEM5/configs/dram/lat_mem_rd.py:146-153 | the step is doubled if and only if the new size is a power of two |
| `LatMemRanges.SizesAt` | GEM5/configs/dram/lat_mem_rd.py:143-153 | the sizes one by one: 4, 5, 6 and 7 times 1024, then twice that, and so on |
| `LatMemRanges.SizeSteps` | GEM5/configs/dram/lat_mem_rd.py:143-153 | sizes grow, by at most a quarter each |
| `LatMemRanges.SizesAscend` | GEM5/configs/dram/lat_mem_rd.py:143-153 | no size is measured twice |
| `LatMemRanges.PowersAreSizes` | GEM5/configs/dram/lat_mem_rd.py:143-153 | every power of two in range is measured |
| `LogRoll.Rolling` | GEM5/util/logroll.py:78-79 | a full buffer holds the last lines, rotated to the index |
| `LogRoll.DumpIsWindow` | GEM5/util/logroll.py:52-56 | after any number of lines a dump shows the last ones in order |
| `LogRoll.SignalBetweenStoreAndIndex` | GEM5/util/logroll.py:70-79 | a dump between storing a line and moving the index shows that line first |
| `LogRoll.Follow` | GEM5/util/logroll.py:62-81 | both loops together print the last lines of the whole input, in order, all of them if there are fewer than the buffer holds |
| `LogRoll.DumpLines` | GEM5/util/logroll.py:52-56 | the two printing loops show the buffer from the index round |

## Left out

- The C++ simulator, the build system and the other Python tools: outside this model, which covers the tools above.
- TimelineText.PrintInst: does not model colours, the tick label, the program counter and the disassembly of a row.
- TraceRegion.ProcessTrace: reads complete instruction records; the assembly of a record from its trace lines, and a record that a line is missing from, are not modelled.
- TraceRegion.ProcessTrace: start ticks and start sequence numbers are not negative, as the viewer's options make them.
- Upgraders.Registry.Register: the type checks on a script's variables and what a migration does to the configuration are not modelled.
- CheckpointUpgrade.UpgradeCheckpoint: requires that no tag has both an upgrader and a downgrader script; DeclaredRulesAudited says that this is the only way loaded rules can be unfit.
- Upgraders.Registry.ResolveTags: requires a usable registry for the same reason; LoadAll establishes it.
- UpgradeRules.AbortsIffCycle: is about pending tags none of which depends on a removed tag; AbsentRemovedTagBlocks and RemovedFirstIff cover the others.
- PortBinder.BindPorts: does not model setting the attributes of the bound objects; a port that is on no left side is reported instead of raising a key error.
- Framing.InFile.ReadMessage: stops at a negative size, which only ten-byte sizes can have; reading a negative number of bytes depends on the kind of file.
- Framing.CutGivesBeginning: is about framing; whether a shortened body still parses as a message is up to the message library.
- Framing: protobuf message bodies are byte strings; header and magic number of a trace file are not modelled.
- DepTrace: digits and white space beyond ASCII, and the trace file's header, are not modelled.
- MemTestTree: cache parameters, the ports inside a subsystem and the random specification are not modelled.
- Years.DateStr: requires at least one year; the tool stops with an index error on an empty set.
- PortBinder.SucceedsIffPossible: is about lists that hold both directions of each connection once and no port connected to itself, as the binder demands; so is BindPositions.BindsIffPositions.
- CopyrightBlocks: the patterns that classify a line, and owners and authors of a notice, are not modelled.
- Aggregator.Aggregate: does not model compression, the process number of file descriptor sections and whether the last checkpoint has the memory section that is resized.
- BasicBlocks.ExtractBasicBlocks: takes the test for branches as a parameter.
- PeriodicCheckpoints.ScriptCheckpoints: requires that the first checkpoint is not before the current tick and that the period is not negative, since a simulator cannot run backwards.
- LogRoll.Follow: signals are handled between two lines or, in SignalBetweenStoreAndIndex, between the two steps of one line; the process and its pipe are not modelled.
