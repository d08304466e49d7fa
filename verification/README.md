# Convoy simulator: verified models

This project models the algorithms at the core of a V2X convoy simulator and of the INET
library it builds on, and proves what they promise. Eight groups of files, each with the
mathematics first and the imperative code last:

| part | files |
|---|---|
| interval tree (`IntervalTree`) | `IntervalTreeModel`, `IntervalTreeFixups`, `IntervalTreeSplice`, `IntervalTreeQuery`, `IntervalTreeLinks`, `IntervalTree`, `IntervalTreeRuns` |
| 128-bit integers (`Int128`) | `Binary`, `Widths`, `Int128Words`, `Int128Shifts`, `Int128Text`, `Int128`, `Int128Division` |
| hierarchical state machines (`Macho`) | `MachoHierarchy`, `MachoRuns`, `MachoMachine` |
| initialization stages (`InitStageRegistry`) | `InitStages` |
| glob patterns (`PatternMatcher`) | `PatternMeaning`, `PatternSyntax`, `PatternGrammar`, `PatternEscape`, `PatternMatcher` |
| bit streams (`MemoryOutputStream`, `MemoryInputStream`) | `Binary`, `BitStrings`, `MemoryStreamBits`, `MemoryStreamItems`, `MemoryOutputStreams`, `MemoryInputStreams` |
| convoy stores, membership and routing | `ReportStores`, `DtwinStores`, `ConvoyTypes`, `ConvoyRouting`, `ConvoyEvents`, `ConvoyCommands`, `ClusterSelection`, `MembershipControl`, `ConvoyStations` |
| utilization filter (`UtilizationFilter`) | `UtilizationFilters` |

`Options` and `Sequences` hold what several of them share. `dafny verify dfyconfig.toml` checks everything.

## How the code is modelled

- The interval tree's nodes are records in an explicit heap, a map from addresses to cells; the
  two sentinels are addresses like any other. `Rep` says that the records reachable along a path
  represent a tree in a context, with every parent link. The left and right branches of the
  fixups are one member with a `Side` parameter. The address of a new node is a parameter of
  `Insert`; freeing a node removes its address. An interval carries an id that stands for its
  address, since the source compares interval pointers. Times are integers within plus or minus
  2^63 - 1.
- `Int128` keeps a `lo` and a `hi` word; words are integers and every conversion to 64 bits is
  written out. The bitwise operators are defined bit by bit.
- Macho's user code appears as a function that answers each init call, and as a script of event
  handlers; the engine's own assertions on user code (at most one pending transition, init only
  to proper substates) are the conditions on both.
- Stream bytes are their eight bits, most significant first. The ten unrolled 16- to 64-bit
  write functions, and the ten read functions, are one member per byte order with the number of
  bytes as a parameter.
- The two report stores have the same update and expiry code and are one class over any record
  payload. `uint64_t` age computations wrap.
- The twin store's parallel maps are one record value. Identifiers are compared as wholes.
- The binder is a class with the next-hop table and the registered convoys. Assumed of it: a
  master is its own next hop, attaching a device makes the cluster's manager its next hop, a
  device that is not attached has next hop 0, and the greatest convoy id is that of the convoys
  registered. The node id of a new device is a parameter; in `ConvoyStations` it is a counter.
- Simulated time, RSSI and filter values are integers or reals.

## What the proofs found

- A query of the interval tree that starts at the least representable time can miss stored
  overlaps, because the sentinel's `max_high` is that very time. It is right for every later start
  (`QueryCompleteIff`).
- Dividing the least 128-bit value gives quotient 0 and the value itself as remainder; dividing
  by it never ends; every other division is truncated division (`DividesWhen`). `operator<` is
  wrong exactly on two negative numbers with equal high words whose low words lie on different
  sides of 2^63 (`LessExactWhen`). The least value prints as `-0`. `set` takes the letter one
  behind the last digit of a radix for a digit, so that `1a` is 20 (`DigitReadWhen`).
- After a circle error the stage count is left at the number of stages numbered so far, and a
  later request for the count returns it without a second error (`GetNumInitStagesTwice`).
- A backslash does not take away the special meaning of a bracket that opens a numeric range; a
  text whose special characters are quoted matches itself exactly when it has no such bracket
  (`EscapeProtectsWhen`), where the header promises it for every text.
- Numeric ranges are maximal in the line, so substring matching does not find a number inside
  another one. It finds exactly the parts that match, for every line, unless the pattern ends in
  a numeric range (`PartsMatchWhen`).
- `writeByte`, and with it every function that writes whole bytes, is right exactly at bit
  offsets 0 and 4 modulo 8 (`WriteByteRightWhen`, `WriteBytesRightWhen`).
- A report stamped later than the receiver's clock is taken by any sweep before its time. An
  older report can then come back, and the store is right for good exactly when no such sweep
  happens (`SweepHarmlessWhen`).
- After an expiry, `readFromStore` still lists the identifier, with stamp 0 and zero coordinates
  (`RunShows`), with an empty type and with the old address (`SweepLabels`).
- A gateway that is told to become a member keeps the role of a gateway
  (`ChangeClusterMembership`), so the same command detaches it again.
- A packet to a device that is attached nowhere is sent to address 0 by every node with an idle
  device (`UnattachedFate`). If the station that owns the next hop is not the master of that
  cluster and does not have the destination, a packet circles for ever or has no route
  (`PacketFate`). Scans and joins after broadcasts never lead there (`ConvoyStations.Run`).
  Orchestration commands can: exactly those that name a cluster without a master elsewhere, or
  that take the master from a cluster in which others have devices (`CommandKeepsWhen`,
  `CommandsCanCircle`, `DissolvedClusterLoses`).

## Model

| member | source | states |
|---|---|---|
| `IntervalTrees.IntervalTree.Insert` | inet4.4/src/inet/common/IntervalTree.cc:188-240 | insertion keeps parent links, key order, exact max_high, colours and black heights; the in-order row gains exactly the new entry, after every key not greater; the memory gains exactly the new record |
| `IntervalTrees.IntervalTree.RecursiveInsert` | inet4.4/src/inet/common/IntervalTree.cc:158-178 | the new node, still black, is linked at leaf level where the key order demands, equal keys to the right |
| `IntervalTrees.IntervalTree.FixupMaxHigh` | inet4.4/src/inet/common/IntervalTree.cc:180-186 | only max_high fields change, and along the whole path they become the maximum of the node and its two subtrees |
| `IntervalTrees.IntervalTree.Rotate` | inet4.4/src/inet/common/IntervalTree.cc:110-155 | both rotations, on the linked records: the records represent the rotated tree in the same context |
| `IntervalTrees.IntervalTree.InsertPass` | inet4.4/src/inet/common/IntervalTree.cc:199-237 | one pass of the recolour loop, both mirror images: the records represent the recoloured or rotated tree and the new focus |
| `IntervalTrees.IntervalTree.InsertFixup` | inet4.4/src/inet/common/IntervalTree.cc:199-239 | the recolour loop ends, with all tree rules restored and the in-order row unchanged |
| `IntervalTreeFixups.RotRow` | inet4.4/src/inet/common/IntervalTree.cc:110-155 | a rotation does not change the in-order row |
| `IntervalTreeFixups.RotMax` | inet4.4/src/inet/common/IntervalTree.cc:129-154 | recomputing max_high of the two rotated nodes keeps it exact everywhere, and the same at the top |
| `IntervalTreeFixups.InsertStepRow` | inet4.4/src/inet/common/IntervalTree.cc:199-237 | a pass of the recolour loop keeps the in-order row and moves strictly towards the root |
| `IntervalTreeFixups.InsertStepKeeps` | inet4.4/src/inet/common/IntervalTree.cc:199-237 | a pass keeps black heights and max_high and leaves at most one red-red fault, at the focus |
| `IntervalTrees.IntervalTree.DeleteNode` | inet4.4/src/inet/common/IntervalTree.cc:410-460 | deleting any node removes exactly its entry from the in-order row and keeps links, key order, exact max_high, colours and black heights; exactly its record is freed |
| `IntervalTrees.IntervalTree.DeleteInterval` | inet4.4/src/inet/common/IntervalTree.cc:386-391 | one stored occurrence of the interval leaves the row and its record is freed, if there is one; else nothing changes |
| `IntervalTrees.IntervalTree.RecursiveSearch` | inet4.4/src/inet/common/IntervalTree.cc:393-408 | finds a node that stores the interval, or nil exactly when none does |
| `IntervalTrees.IntervalTree.DeleteFixup` | inet4.4/src/inet/common/IntervalTree.cc:324-384 | although it reads the top node only once, before any rotation, the loop ends with all rules restored and the row unchanged |
| `IntervalTrees.IntervalTree.DeletePass` | inet4.4/src/inet/common/IntervalTree.cc:329-382 | one pass, both mirror images: the invariant of the missing black holds again, nearer to the root, or the tree is finished |
| `IntervalTrees.IntervalTree.GetMinimum` | inet4.4/src/inet/common/IntervalTree.cc:242-247 | the leftmost node of a subtree, which is the successor that deletion uses |
| `IntervalTrees.IntervalTree.DeleteSingle` | inet4.4/src/inet/common/IntervalTree.cc:410-460 | deletion of a node that lacks a child |
| `IntervalTrees.IntervalTree.DeleteDouble` | inet4.4/src/inet/common/IntervalTree.cc:410-460 | deletion of a node with two children: its successor takes its place and colour |
| `IntervalTrees.IntervalTree.MoveSuccessor` | inet4.4/src/inet/common/IntervalTree.cc:417-441 | splicing out the successor and giving it the links of the deleted node, also when it is the right child itself |
| `IntervalTreeFixups.RedSiblingKeeps` | inet4.4/src/inet/common/IntervalTree.cc:332-336 | rotating a red sibling up keeps the shortage invariant and the row, and makes the sibling black |
| `IntervalTreeFixups.BlackNephewsKeeps` | inet4.4/src/inet/common/IntervalTree.cc:338-341 | reddening a sibling with two black children moves the shortage up |
| `IntervalTreeFixups.LastRotationKeeps` | inet4.4/src/inet/common/IntervalTree.cc:343-352 | the last rotation pays the missing black and keeps row, max_high and the colour on top |
| `IntervalTreeFixups.Assemble` | inet4.4/src/inet/common/IntervalTree.cc:188-240 | a path and a subtree that fit make a whole valid tree with the row they show |
| `IntervalTreeFixups.Disassemble` | inet4.4/src/inet/common/IntervalTree.cc:410-460 | a valid tree seen from any position: subtree and path obey the rules and the row is the same |
| `IntervalTreeModel.FixMaxKeeps` | inet4.4/src/inet/common/IntervalTree.cc:180-186 | recomputing max_high along a path makes it exact there and touches neither order nor colours |
| `IntervalTreeSplice.LeastIsFirst` | inet4.4/src/inet/common/IntervalTree.cc:242-247 | the leftmost node is the first of the row, the rest is the row without it |
| `IntervalTreeSplice.SingleReady` | inet4.4/src/inet/common/IntervalTree.cc:417-449 | after splicing out a node with one child the tree is settled, or exactly one black short if the node was black |
| `IntervalTreeSplice.DoubleReady` | inet4.4/src/inet/common/IntervalTree.cc:417-455 | the same after the successor was spliced out and moved |
| `IntervalTreeSplice.SingleRow` | inet4.4/src/inet/common/IntervalTree.cc:417-428 | the row loses exactly the spliced entry and stays sorted |
| `IntervalTreeSplice.DoubleRow` | inet4.4/src/inet/common/IntervalTree.cc:417-441 | the row loses exactly the deleted entry, not the successor |
| `IntervalTreeQuery.OverlapIsSharedPoint` | inet4.4/src/inet/common/IntervalTree.cc:463-471 | the overlap test is true exactly when the two closed intervals share a point |
| `IntervalTreeQuery.HitsAreTheOverlaps` | inet4.4/src/inet/common/IntervalTree.cc:473-514 | the reference answer contains each stored overlapping interval as often as it is stored and nothing else |
| `IntervalTreeQuery.PrunedIsComplete` | inet4.4/src/inet/common/IntervalTree.cc:473-514 | skipping a right subtree whenever the left one had no hit loses nothing, if the query starts after the least time |
| `IntervalTreeQuery.EarliestQueryLosesHits` | inet4.4/src/inet/common/IntervalTree.cc:473-514 | a query from the least time does lose one of two different stored overlapping intervals: nil has max_high equal to it |
| `IntervalTreeQuery.QueryCompleteIff` | inet4.4/src/inet/common/IntervalTree.cc:473-514 | the search is right on every valid tree if and only if the query starts after the least time |
| `IntervalTrees.IntervalTree.Query` | inet4.4/src/inet/common/IntervalTree.cc:473-514 | the loop over the explicit stack ends, leaves the stack top at 1 and delivers exactly the pruned search; if every entry of the row has its ends in order and the query starts after the least time, that is every overlapping stored interval, as often as it is stored, in the order of the row |
| `IntervalTreeQuery.WellFormedRow` | inet4.4/src/inet/common/IntervalTree.cc:473-514 | what the search needs of the stored intervals can be read off the row |
| `IntervalTreeQuery.HitsAnswer` | inet4.4/src/inet/common/IntervalTree.cc:473-514 | the reference answer holds exactly the overlapping intervals of the stored bag, with their multiplicity |
| `IntervalTreeRuns.Perform` | inet4.4/src/inet/common/IntervalTree.cc:188-514 | any sequence of insertions, deletions and queries on a new tree: the stored intervals are those of a plain bag, every query after the least time is answered as the bag would, and the memory holds the two sentinels and the stored records, nothing else |
| `IntervalTreeRuns.DoOne` | inet4.4/src/inet/common/IntervalTree.cc:188-514 | one operation of such a run |
| `IntervalTreeRuns.DropsBag` | inet4.4/src/inet/common/IntervalTree.cc:386-391 | a row that loses one entry loses one occurrence from the bag |
| `IntervalTrees.IntervalTree.Visit` | inet4.4/src/inet/common/IntervalTree.cc:481-501 | one node: its hit is reported, the flags and the stack stay right, the remaining answer shrinks by the hit |
| `IntervalTrees.IntervalTree.PopAll` | inet4.4/src/inet/common/IntervalTree.cc:503-511 | popping enters a right subtree exactly when its left side had a hit, or empties the stack |
| `IntervalTreeQuery.VisitLeft` | inet4.4/src/inet/common/IntervalTree.cc:486-499 | going left and pushing the node preserves the remaining answer |
| `IntervalTreeQuery.Pop` | inet4.4/src/inet/common/IntervalTree.cc:503-511 | popping an entry preserves the remaining answer |
| `Int128s.Int128.Neg` | inet4.4/src/inet/common/Int128.cc:160-166 | negation modulo 2^128 |
| `Int128s.Int128.AddAssign` | inet4.4/src/inet/common/Int128.cc:202-212 | addition modulo 2^128, also of an object to itself |
| `Int128s.Int128.SubAssign` | inet4.4/src/inet/common/Int128.h:128-131 | subtraction modulo 2^128 |
| `Int128s.Int128.MulAssign` | inet4.4/src/inet/common/Int128.cc:214-235 | 128 rounds of shift and add give the product modulo 2^128 |
| `Int128s.Int128.ShlAssign` | inet4.4/src/inet/common/Int128.cc:350-378 | multiplication by 2^n modulo 2^128 for every n |
| `Int128s.Int128.ShrAssign` | inet4.4/src/inet/common/Int128.cc:319-348 | floor division of the signed value by 2^n for every n |
| `Int128s.Int128.Bit` | inet4.4/src/inet/common/Int128.cc:289-298 | bit n of the two's complement value, the sign above bit 127 |
| `Int128s.Int128.SetBit` | inet4.4/src/inet/common/Int128.cc:300-317 | sets or clears any bit of any number, the sign bit included; bits from 128 on are ignored |
| `Int128s.Int128.Div` | inet4.4/src/inet/common/Int128.cc:237-287 | truncated division if and only if the dividend is not the least value, whose quotient is 0 and whose remainder is itself |
| `Int128Division.DividesWhen` | inet4.4/src/inet/common/Int128.cc:237-287 | for every divisor but 0, the two loops end with truncated division if and only if neither operand is the least value |
| `Int128Division.LeastDivisorNeverEnds` | inet4.4/src/inet/common/Int128.cc:237-287 | with the least value as divisor no number of turns of the second loop is enough, whatever the dividend |
| `Int128Division.Swings` | inet4.4/src/inet/common/Int128.cc:265-277 | the running remainder swings between 0 and the least value, the comparison never holds and the bit position never moves |
| `Int128Division.LeastDividend` | inet4.4/src/inet/common/Int128.cc:237-287 | the least value divided by anything else gives quotient 0 and itself as remainder, which is not truncated division |
| `Int128Division.OtherwiseDivides` | inet4.4/src/inet/common/Int128.cc:237-287 | in all other cases the loops end and give quotient and remainder of truncated division |
| `Int128Division.LoopsGive` | inet4.4/src/inet/common/Int128.cc:237-287 | what the method div promises is what its two loops compute, turn by turn, however long they are given |
| `Int128Division.DivCounted` | inet4.4/src/inet/common/Int128.cc:237-287 | the quotient and remainder of a call of div are those of the loops after some number of turns, and after no number of turns others |
| `Int128s.Int128.FirstPrefix` | inet4.4/src/inet/common/Int128.cc:253-263 | reading the dividend from the top stops at its first prefix that reaches the divisor, below twice the divisor |
| `Int128s.Int128.LongDivide` | inet4.4/src/inet/common/Int128.cc:265-277 | division equation and remainder bound on magnitudes; the running remainder never leaves 127 bits |
| `Int128s.Int128.SubtractOnce` | inet4.4/src/inet/common/Int128.cc:274-276 | one subtraction keeps the division equation and leaves a remainder below the divisor |
| `Int128s.LongDivideShift` | inet4.4/src/inet/common/Int128.cc:265-277 | shifting the next dividend bit in keeps the division equation and cannot overflow |
| `Int128s.LongDivideSubtract` | inet4.4/src/inet/common/Int128.cc:265-277 | subtracting the divisor and setting a quotient bit keeps the division equation |
| `Int128s.TruncatedUnique` | inet4.4/src/inet/common/Int128.cc:237-287 | truncated division determines quotient and remainder |
| `Int128s.Int128.DivAssign` | inet4.4/src/inet/common/Int128.h:133-138 | the quotient rounded towards zero, 0 for the least value |
| `Int128s.Int128.ModAssign` | inet4.4/src/inet/common/Int128.h:140-144 | the remainder with the sign of the dividend, written into the dividend itself by div |
| `Int128s.Int128.Of` | inet4.4/src/inet/common/Int128.h:64-74 | construction from a built-in integer keeps its value |
| `Int128s.Int128.Less` | inet4.4/src/inet/common/Int128.cc:380-390 | the order of the values if and only if it is not asked about equal negative high words with low words on different sides of 2^63 |
| `Int128s.LessExactWhen` | inet4.4/src/inet/common/Int128.cc:380-390 | the same for any four words |
| `Int128s.LessFails` | inet4.4/src/inet/common/Int128.cc:380-390 | the excluded family is not empty |
| `Int128s.Int128.ToString` | inet4.4/src/inet/common/Int128.cc:37-62 | the numeral of the value for every radix, with the default for radices out of range; the 256-byte buffer is never full |
| `Int128s.Int128.Set` | inet4.4/src/inet/common/Int128.cc:64-107 | sign, radix prefix and digits up to the first other character, modulo 2^128 |
| `Int128Text.PrintThenParse` | inet4.4/src/inet/common/Int128.cc:37-107 | parsing the decimal numeral gives the value back if and only if it is not the least value |
| `Int128Text.DigitsFit` | inet4.4/src/inet/common/Int128.cc:37-62 | a number below 2^k has at most k digits in any radix from 2 to 37 |
| `Int128Text.DigitsRead` | inet4.4/src/inet/common/Int128.cc:90-103 | in every radix from 2 to 37 the digits of a number denote it |
| `Int128Text.PrefixedValue` | inet4.4/src/inet/common/Int128.cc:76-107 | a numeral behind 0x is read as hexadecimal, behind 0 as octal, any other as decimal, with its sign |
| `Int128Text.DigitReadWhen` | inet4.4/src/inet/common/Int128.cc:92-99 | a character is read as the digit it is in the radix, or as none, if and only if it is not the letter one behind the last digit |
| `Int128Text.LetterInDecimal` | inet4.4/src/inet/common/Int128.cc:92-99 | the excluded case occurs: 1a is read as 20 in decimal |
| `Int128Text.DigitChars` | inet4.4/src/inet/common/Int128.cc:55-55 | the digits that are printed |
| `Int128Text.DigitsShape` | inet4.4/src/inet/common/Int128.cc:37-62 | a positive numeral starts with a non-zero digit, so it is never read as octal |
| `Int128Shifts.ShlSmall` | inet4.4/src/inet/common/Int128.cc:363-375 | the carry between the words of a left shift |
| `Int128Shifts.ShrSmall` | inet4.4/src/inet/common/Int128.cc:333-345 | the carry between the words of a right shift |
| `Int128Shifts.AddWords` | inet4.4/src/inet/common/Int128.cc:202-212 | the carry between the words of an addition |
| `Int128Shifts.LowWordBit` | inet4.4/src/inet/common/Int128.cc:300-317 | a bit of the low word is that bit of the value, and no other changes |
| `Int128Shifts.HighWordBit` | inet4.4/src/inet/common/Int128.cc:300-317 | the same for the high word, with the sign bit |
| `Int128Words.WrapMul` | inet4.4/src/inet/common/Int128.cc:214-235 | reduction to 128 bits respects products |
| `MachoHierarchy.ChainMembers` | inet4.4/src/inet/common/Macho.h:789-792 | isChild holds exactly for the states on the chain from Root to the state |
| `MachoHierarchy.MeetingPoint` | inet4.4/src/inet/common/Macho.cc:139-173 | the exits and the entries of a transition stop at the same state |
| `MachoHierarchy.TransitionNests` | inet4.4/src/inet/common/Macho.cc:339-402 | a transition from a state leaves exactly the target and its superstates entered |
| `MachoHierarchy.RunFromRootNests` | inet4.4/src/inet/common/Macho.cc:248-402 | over every sequence of transitions from Root the trace is properly nested and the entered states are those of the last target; back at Root there are none |
| `MachoHierarchy.SavedKeepsOk` | inet4.4/src/inet/common/Macho.h:276-297 | saving keeps every recorded history properly inside its owner |
| `MachoHierarchy.Toward` | inet4.4/src/inet/common/Macho.h:727-739 | the direct substate on the way to a left state |
| `MachoMachine.Machine.ExitFrom` | inet4.4/src/inet/common/Macho.cc:156-173 | exit actions innermost first up to the state that properly contains the target; boxes are freed accordingly |
| `MachoMachine.Machine.EnterTo` | inet4.4/src/inet/common/Macho.cc:139-154 | entry actions outermost first; boxes exist exactly for the entered states |
| `MachoMachine.Machine.CreateBox` | inet4.4/src/inet/common/Macho.h:913-923 | a box is made only if there is none |
| `MachoMachine.Machine.DeleteBox` | inet4.4/src/inet/common/Macho.h:390-413 | the box of a left state is destroyed and its place kept |
| `MachoMachine.BoxesLeave` | inet4.4/src/inet/common/Macho.h:390-413 | leaving the innermost state keeps boxes live exactly for the entered states |
| `MachoMachine.BoxesEnter` | inet4.4/src/inet/common/Macho.h:913-923 | entering a state keeps boxes live exactly for the entered states |
| `MachoMachine.Machine.SaveHistory` | inet4.4/src/inet/common/Macho.h:685-689 | shallow history records the direct substate, deep history the left state, up through all superstates |
| `MachoMachine.Machine.SaveHistorySuper` | inet4.4/src/inet/common/Macho.h:727-739 | every superstate with a history strategy records, no other does |
| `MachoMachine.Machine.RunInit` | inet4.4/src/inet/common/Macho.cc:175-187 | a history transition goes to the recorded state, else the user init decides; the target lies properly inside |
| `MachoMachine.Machine.ChangeState` | inet4.4/src/inet/common/Macho.cc:355-371 | exits, history, current state and entries of one transition |
| `MachoMachine.Machine.Transition` | inet4.4/src/inet/common/Macho.cc:346-386 | the whole effect of one pending transition: exits, entries, history, and the one new pending transition that its init or its history requests, to a proper substate |
| `MachoMachine.Machine.RunPending` | inet4.4/src/inet/common/Macho.cc:346-386 | chained init and history transitions are all performed, and end within the height of the state tree |
| `MachoMachine.Machine.Rattle` | inet4.4/src/inet/common/Macho.cc:339-402 | events and transitions are performed in turn until nothing is pending; an event is left pending if and only if the handlers of the script do not settle |
| `MachoRuns.RunRests` | inet4.4/src/inet/common/Macho.cc:346-386 | a run starts with the pending transition, ends inside its target, and rests only where the init of the state requests nothing |
| `MachoRuns.RunStays` | inet4.4/src/inet/common/Macho.cc:346-386 | if the init of the target requests nothing, the run ends in the target, with the actions of that one transition |
| `MachoRuns.HistoryResumes` | inet4.4/src/inet/common/Macho.cc:175-187 | a history transition ends inside the state that its target has recorded |
| `MachoRuns.RattleRests` | inet4.4/src/inet/common/Macho.cc:339-402 | the last transition that any handler requests decides where the machine rests; without a request nothing changes |
| `MachoRuns.RattleSettles` | inet4.4/src/inet/common/Macho.cc:339-402 | an event is left pending exactly when the script of handlers is used up |
| `MachoMachine.Machine.Start` | inet4.4/src/inet/common/Macho.cc:248-256 | from Root, with what an earlier life has recorded, the machine performs the transition to the start state first and rests inside it, in it if its init requests nothing |
| `MachoMachine.Machine.Dispatch` | inet4.4/src/inet/common/Macho.h:1518-1525 | the transition that the handler requests is performed first; the machine rests inside the last requested state, or stays as it was if none was requested; no event is pending if and only if the handlers settle |
| `MachoMachine.Machine.Shutdown` | inet4.4/src/inet/common/Macho.cc:268-278 | exactly the exit actions from the current state to Root are performed, the state left is recorded, no box is live that is not persistent, and the machine can be started again |
| `MachoMachine.StartToShutdown` | inet4.4/src/inet/common/Macho.cc:248-402 | a whole life, for any sequence of events: after the start and after each event exactly the current state and its superstates are entered, the state lies inside the start target and inside the last target that the event's handlers requested, and after the shutdown none is entered, with no live box that is not persistent |
| `InitStages.InitStageRegistry.AssignInitStageNumbers` | inet4.4/src/inet/common/InitStageRegistry.cc:42-79 | unknown name if and only if a dependency names no stage; otherwise normal return without, and an error with, a circular dependency; then numbers 0..n-1 in the sorted vector, each after all predecessors; a sorted vector stays as it is; after a circle error the stage count is the number of stages that have a number, below n |
| `InitStages.InitStageRegistry.GetNumInitStages` | inet4.4/src/inet/common/InitStageRegistry.cc:36-40 | numbers the stages only if the count is outdated, and returns the count, after an error too |
| `InitStages.InitStageRegistry.GetNumInitStagesTwice` | inet4.4/src/inet/common/InitStageRegistry.cc:36-79 | a second request reports no circle: it returns the full count if and only if there is no circle, else the number of stages numbered |
| `InitStages.AssignedSize` | inet4.4/src/inet/common/InitStageRegistry.cc:55-72 | the counter of the numbering loop is the number of stages with a number |
| `InitStages.ResolvesAnyOrder` | inet4.4/src/inet/common/InitStageRegistry.cc:45-54 | with distinct names the same edge lists resolve the dependencies in every order of the vector |
| `InitStages.InitStageRegistry.Renumber` | inet4.4/src/inet/common/InitStageRegistry.cc:42-79 | with distinct names, numbering a second time changes neither numbers nor vector |
| `InitStages.InitStageRegistry.GetInitStage` | inet4.4/src/inet/common/InitStageRegistry.cc:16-22 | the first stage of the name, if any |
| `InitStages.InitStageRegistry.ResolveDependencies` | inet4.4/src/inet/common/InitStageRegistry.cc:45-54 | numbers cleared; both edge lists say the same and are what the dependencies name |
| `InitStages.InitStageRegistry.SortStages` | inet4.4/src/inet/common/InitStageRegistry.cc:73-75 | once all stages are numbered, the sorted vector is a permutation with number i at index i |
| `InitStages.InitStageRegistry.Pass` | inet4.4/src/inet/common/InitStageRegistry.cc:57-69 | a pass numbers ready stages consecutively; if it numbers none, none is ready; one pass suffices on a sorted vector |
| `InitStages.InitStageRegistry.NumberStages` | inet4.4/src/inet/common/InitStageRegistry.cc:55-72 | passes end with all stages numbered or with a circle |
| `InitStages.InitStageRegistry.AddInitStage` | inet4.4/src/inet/common/InitStageRegistry.cc:24-28 | the new stage is appended and the numbering is outdated |
| `InitStages.InitStageRegistry.AddInitStageDependency` | inet4.4/src/inet/common/InitStageRegistry.cc:30-34 | the dependency is appended and the numbering is outdated |
| `InitStages.RankedHasNoCycle` | inet4.4/src/inet/common/InitStageRegistry.cc:55-72 | numbers that grow along dependencies exclude circles |
| `InitStages.StuckHasCycle` | inet4.4/src/inet/common/InitStageRegistry.cc:70-71 | a set of stages that all wait for each other contains a circle, by construction |
| `InitStages.NothingReady` | inet4.4/src/inet/common/InitStageRegistry.cc:70-71 | a pass without progress exposes a circle |
| `InitStages.NumberNext` | inet4.4/src/inet/common/InitStageRegistry.cc:59-66 | numbering a ready stage keeps predecessors before successors |
| `InitStages.SortGivesIndex` | inet4.4/src/inet/common/InitStageRegistry.cc:73-75 | sorting by number puts number i at index i and permutes the stages |
| `InitStages.PredsAnyOrder` | inet4.4/src/inet/common/InitStageRegistry.cc:16-22 | with distinct names the order of the vector does not change the dependency graph |
| `PatternMatchers.PatternMatcher.MatchesLine` | inet4.4/src/inet/common/PatternMatcher.cc:338-362 | matching, with the test of the last two characters, holds exactly when the line can be cut into pieces that fit the elements |
| `PatternMatchers.PatternMatcher.DoMatch` | inet4.4/src/inet/common/PatternMatcher.cc:241-336 | decides the same for the elements and the line from any position, ends, and never reads past END |
| `PatternMatchers.PatternMatcher.MatchSequence` | inet4.4/src/inet/common/PatternMatcher.cc:297-324 | both shortcuts and the backtracking over every length |
| `PatternMatchers.PatternMatcher.Step` | inet4.4/src/inet/common/PatternMatcher.cc:248-295 | an element that leaves no choice: where it ends, or that it fits nowhere |
| `PatternMatchers.PatternMatcher.IsInSet` | inet4.4/src/inet/common/PatternMatcher.cc:228-239 | membership in one of the character ranges |
| `PatternMatchers.PatternMatcher.SetPattern` | inet4.4/src/inet/common/PatternMatcher.cc:32-93 | the token list of the text, END last and nowhere else, or the error of the text |
| `PatternGrammar.CompileIsGrammar` | inet4.4/src/inet/common/PatternMatcher.cc:32-93 | the tokenizer accepts exactly the texts that the grammar spells, in pieces: literals with and without backslashes, wildcards, sets, numbers in braces and in brackets; and the tokens are what the pieces mean, dotted or not |
| `PatternGrammar.PieceRead` | inet4.4/src/inet/common/PatternMatcher.cc:40-78 | a piece that stands in the text is read as one token, with its meaning, up to where the next piece starts |
| `PatternGrammar.PieceFound` | inet4.4/src/inet/common/PatternMatcher.cc:40-78 | every token that is read is a piece that stands in the text |
| `PatternGrammar.RangeRead` | inet4.4/src/inet/common/PatternMatcher.cc:147-174 | a numeric range that stands in the text is read with its bounds, and with -1 for a missing one |
| `PatternGrammar.OpensWhen` | inet4.4/src/inet/common/PatternMatcher.cc:147-174 | a numeric range is recognised exactly where one stands |
| `PatternGrammar.MembersRead` | inet4.4/src/inet/common/PatternMatcher.cc:95-129 | the members of a set are read back, single characters and ranges, a leading closing brace and a trailing dash included |
| `PatternGrammar.MembersFound` | inet4.4/src/inet/common/PatternMatcher.cc:95-129 | every closed set has such members |
| `PatternGrammar.MarksRead` | inet4.4/src/inet/common/PatternMatcher.cc:131-145 | the characters of a literal are read back, up to a wildcard or to a bracket that opens a numeric range |
| `PatternGrammar.UndottedCompile` | inet4.4/src/inet/common/PatternMatcher.cc:40-78 | a pattern that is not for dotted paths has no element that treats dots as special |
| `PatternGrammar.StarMatches` | inet4.4/src/inet/common/PatternMatcher.cc:66-69 | a lone star matches every line, in a dotted path every line without a dot |
| `PatternGrammar.NumberMatches` | inet4.4/src/inet/common/PatternMatcher.cc:147-174 | the text {lo..up} matches the decimal text of a number exactly when the number lies between the two bounds |
| `PatternGrammar.TokenError` | inet4.4/src/inet/common/PatternMatcher.cc:124-125 | an unmatched brace is the error of a token that starts with a brace |
| `PatternMatchers.PatternMatcher.ParseSet` | inet4.4/src/inet/common/PatternMatcher.cc:95-129 | the ranges of a set, a leading closing brace included |
| `PatternMatchers.PatternMatcher.ParseLiteralString` | inet4.4/src/inet/common/PatternMatcher.cc:131-145 | a literal up to a wildcard or up to the bracket of a numeric range |
| `PatternMatchers.PatternMatcher.ParseNumRange` | inet4.4/src/inet/common/PatternMatcher.cc:147-174 | a numeric range with optional bounds |
| `PatternMatchers.MatchText` | inet4.4/src/inet/common/PatternMatcher.cc:32-362 | setting a text and matching a line: full and substring mode, and plain comparison for texts without wildcards |
| `PatternMeaning.DescribesSome` | inet4.4/src/inet/common/PatternMatcher.cc:241-336 | cut by cut, the first element takes a piece and the others describe the rest |
| `PatternMeaning.SequenceStep` | inet4.4/src/inet/common/PatternMatcher.cc:297-324 | a sequence element stops here or takes one more character |
| `PatternMeaning.EndsInLiteral` | inet4.4/src/inet/common/PatternMatcher.cc:302-304 | a final ** and literal match exactly what ends in the literal |
| `PatternMeaning.LastLiteral` | inet4.4/src/inet/common/PatternMatcher.cc:343-358 | a pattern that ends in a literal only matches lines that end in it |
| `PatternMeaning.RunForced` | inet4.4/src/inet/common/PatternMatcher.cc:287-295 | a numeric range takes the maximal digit run |
| `PatternMeaning.SubstringMode` | inet4.4/src/inet/common/PatternMatcher.cc:81-89 | with ** added where missing, the pattern matches the line exactly when it describes a part of it |
| `PatternMeaning.SomewhereIsSomePart` | inet4.4/src/inet/common/PatternMatcher.h:46-48 | substring mode finds a pattern only if it matches some part of the line; unless the last element that must take a character is a numeric range, exactly then |
| `PatternMeaning.PartsMatchWhen` | inet4.4/src/inet/common/PatternMatcher.cc:241-336 | matching a part and describing it inside the line are the same in every line if and only if the last element that must take a character is no numeric range, or the pattern matches nothing |
| `PatternMeaning.PartMatches` | inet4.4/src/inet/common/PatternMatcher.cc:241-336 | what a pattern describes inside a line it matches as a line of its own; the other way round if it does not end in a numeric range or no digit follows the part |
| `PatternMeaning.DigitBehind` | inet4.4/src/inet/common/PatternMatcher.cc:287-295 | for every pattern that ends in a numeric range: a digit behind its shortest match spoils the match |
| `PatternMeaning.RangeSomewhere` | inet4.4/src/inet/common/PatternMatcher.cc:287-295 | a numeric range is found exactly where a digit run that no digit follows has a fitting value |
| `PatternMeaning.NumbersDoNotMatchInParts` | inet4.4/src/inet/common/PatternMatcher.cc:287-295 | the excluded case occurs: {1..1} matches 1 but is not found in 12 |
| `PatternSyntax.PlainMatchesItself` | inet4.4/src/inet/common/PatternMatcher.cc:390-395 | a text without wildcards matches exactly itself |
| `PatternSyntax.QuotedMatchesItself` | inet4.4/src/inet/common/PatternMatcher.h:35-35 | with a backslash before every character a text matches exactly itself |
| `PatternEscape.EscapeProtectsWhen` | inet4.4/src/inet/common/PatternMatcher.h:35-35 | a text with a backslash before each of its special characters matches exactly itself if and only if none of its brackets opens a numeric range |
| `PatternEscape.OpenNeverMatchesItself` | inet4.4/src/inet/common/PatternMatcher.cc:131-145 | a text with a bracket that opens a numeric range never matches its own escaped form |
| `PatternSyntax.QuotedBracketStillOpens` | inet4.4/src/inet/common/PatternMatcher.cc:131-145 | the excluded case occurs: a quoted bracket opens a numeric range |
| `PatternSyntax.TokenAt` | inet4.4/src/inet/common/PatternMatcher.cc:40-78 | every token is well formed; only a literal after something else may leave the cursor where it was |
| `PatternSyntax.NumRangeAt` | inet4.4/src/inet/common/PatternMatcher.cc:147-174 | a recognised range ends at its closing character and contains two dots |
| `MemoryInputStreams.WriteAndRead` | inet4.4/src/inet/common/MemoryOutputStream.h:92-371 | for every sequence of writable items, reading the same kinds back returns the same values, uses up all bits and never passes the end |
| `MemoryStreamItems.DecodeEncode` | inet4.4/src/inet/common/MemoryInputStream.h:138-482 | reading an item where its bits stand returns it, reduced to its field, and stops right behind it |
| `MemoryStreamItems.LeRoundTrip` | inet4.4/src/inet/common/MemoryOutputStream.h:216-317 | little-endian bytes denote the number they were made from |
| `MemoryStreamBits.WriteByteRightWhen` | inet4.4/src/inet/common/MemoryOutputStream.h:127-137 | writeByte appends the bits of every value if and only if the offset is 0 or 4 modulo 8 |
| `MemoryStreamBits.WriteBytesRightWhen` | inet4.4/src/inet/common/MemoryOutputStream.h:207-317 | so do the functions that write several bytes, for every number of bytes |
| `MemoryStreamBits.PutBytesAppends` | inet4.4/src/inet/common/MemoryOutputStream.h:207-317 | at offsets 0 and 4 the bits of all bytes are appended and the padding stays zero |
| `MemoryStreamBits.PutByteFails` | inet4.4/src/inet/common/MemoryOutputStream.h:127-137 | at every other offset 0x80 is written with a zero first bit |
| `MemoryStreamBits.PutByteAppends` | inet4.4/src/inet/common/MemoryOutputStream.h:127-137 | at offsets 0 and 4 the eight bits are appended and the padding stays zero |
| `MemoryStreamBits.PutBitAppends` | inet4.4/src/inet/common/MemoryOutputStream.h:92-101 | one bit is appended and the padding stays zero |
| `MemoryStreamBits.GetBitReads` | inet4.4/src/inet/common/MemoryInputStream.h:138-152 | the addressed bit |
| `MemoryStreamBits.GetByteReads` | inet4.4/src/inet/common/MemoryInputStream.h:184-203 | the next eight bits at every offset |
| `MemoryOutputStreams.MemoryOutputStream.WriteBit` | inet4.4/src/inet/common/MemoryOutputStream.h:92-101 | appends the bit |
| `MemoryOutputStreams.MemoryOutputStream.WriteByte` | inet4.4/src/inet/common/MemoryOutputStream.h:127-137 | appends the byte at offsets 0 and 4 |
| `MemoryOutputStreams.MemoryOutputStream.WriteUint2` | inet4.4/src/inet/common/MemoryOutputStream.h:179-182 | appends the two low bits |
| `MemoryOutputStreams.MemoryOutputStream.WriteUint4` | inet4.4/src/inet/common/MemoryOutputStream.h:188-193 | appends the four low bits |
| `MemoryOutputStreams.MemoryOutputStream.WriteNBitsOfUint64Be` | inet4.4/src/inet/common/MemoryOutputStream.h:363-371 | appends the n low bits, refuses 0 and more than 64 |
| `MemoryOutputStreams.MemoryOutputStream.WriteUintBe` | inet4.4/src/inet/common/MemoryOutputStream.h:207-304 | writes the n low bytes, highest first, at any offset; at offsets 0 and 4 these are the 8n low bits, appended in network order |
| `MemoryOutputStreams.MemoryOutputStream.WriteUintLe` | inet4.4/src/inet/common/MemoryOutputStream.h:216-317 | writes the n low bytes, lowest first, at any offset; at offsets 0 and 4 their bits are appended |
| `MemoryOutputStreams.MemoryOutputStream.WriteString` | inet4.4/src/inet/common/MemoryOutputStream.h:354-357 | appends the characters and a zero byte |
| `MemoryInputStreams.MemoryInputStream.ReadBit` | inet4.4/src/inet/common/MemoryInputStream.h:138-152 | the next bit, or false and the flag at the end |
| `MemoryInputStreams.MemoryInputStream.ReadByte` | inet4.4/src/inet/common/MemoryInputStream.h:184-203 | the next byte, or zero and the flag when it is not complete |
| `MemoryInputStreams.MemoryInputStream.ReadUint2` | inet4.4/src/inet/common/MemoryInputStream.h:257-262 | the number that the next two bits denote |
| `MemoryInputStreams.MemoryInputStream.ReadUint4` | inet4.4/src/inet/common/MemoryInputStream.h:268-275 | the number that the next four bits denote |
| `MemoryInputStreams.MemoryInputStream.ReadNBitsToUint64Be` | inet4.4/src/inet/common/MemoryInputStream.h:471-482 | the masked bits or-ed together; bits past the end are zero |
| `MemoryInputStreams.MemoryInputStream.ReadUintBe` | inet4.4/src/inet/common/MemoryInputStream.h:289-403 | the bytes or-ed together, highest first; missing bytes are zero |
| `MemoryInputStreams.MemoryInputStream.ReadUintLe` | inet4.4/src/inet/common/MemoryInputStream.h:300-420 | the bytes or-ed together, lowest first; missing bytes are zero |
| `MemoryInputStreams.MemoryInputStream.ReadString` | inet4.4/src/inet/common/MemoryInputStream.h:460-465 | the bytes up to the first zero or to the end |
| `MemoryStreamItems.BitSumIs` | inet4.4/src/inet/common/MemoryInputStream.h:471-482 | or-ing masks gives the number that the bits denote |
| `MemoryStreamItems.BeSumIs` | inet4.4/src/inet/common/MemoryInputStream.h:289-403 | or-ing shifted bytes gives the number that the bits denote |
| `MemoryStreamItems.LeSumIs` | inet4.4/src/inet/common/MemoryInputStream.h:300-420 | the same with the lowest byte first |
| `BitStrings.BackFromBits` | inet4.4/src/inet/common/MemoryInputStream.h:257-275 | the n low bits of a number denote it modulo 2^n |
| `BitStrings.BackToBits` | inet4.4/src/inet/common/MemoryOutputStream.h:179-193 | a bit string is the representation of the number it denotes |
| `ReportStores.RunExact` | convoy-architecture/src/stores/MemberStore.cc:43-87 | after every sweep, over any order of reports and sweeps under a monotone clock in which no sweep comes before the time of a received stamp, the store holds exactly one record for each name whose newest report ever received is young enough, and it is that report |
| `ReportStores.SweepHarmlessWhen` | convoy-architecture/src/stores/MemberStore.cc:76-87 | a sweep at a given time leaves the store right for every later sweep if and only if no stamp received so far exceeds that time |
| `ReportStores.EarlySweepLoses` | convoy-architecture/src/stores/MemberStore.cc:76-87 | after any run, a sweep that comes before the time of some received stamp makes a later sweep leave the wrong records |
| `ReportStores.OlderReportReturns` | convoy-architecture/src/stores/MemberStore.cc:64-87 | such a run: the report stamped 5 is swept at 1, and the one stamped 1 takes its place |
| `ReportStores.RunKeeps` | convoy-architecture/src/stores/SubscriberStore.cc:44-85 | at any time of such a run each record is a received report, one per name, and every live newest report is stored |
| `ReportStores.UpdateKeeps` | convoy-architecture/src/stores/MemberStore.cc:64-71 | an update keeps that, whatever the stamp of the report |
| `ReportStores.SweepExact` | convoy-architecture/src/stores/MemberStore.cc:76-87 | a sweep at a time that no stamp exceeds leaves exactly the live newest reports |
| `ReportStores.NewestIs` | convoy-architecture/src/stores/MemberStore.cc:64-71 | the newest report is the first to arrive of those with the greatest stamp |
| `ReportStores.SurvivorIsNewest` | convoy-architecture/src/stores/MemberStore.cc:76-87 | a record that survives a sweep is the newest report of its name, not an older one that came late |
| `ReportStores.FutureIsSwept` | convoy-architecture/src/stores/MemberStore.cc:78-84 | a sweep before the time of a stamp takes the record, since the age wraps, whatever else is stored |
| `ReportStores.ReportStore.Update` | convoy-architecture/src/stores/SubscriberStore.cc:54-69 | replaces the record of the name only by a newer report, appends a new name |
| `ReportStores.ReportStore.CheckExpiry` | convoy-architecture/src/stores/SubscriberStore.cc:76-85 | afterwards exactly the live newest reports are stored, as long as no sweep came before the time of a stamp |
| `DtwinStores.RunNeverBack` | convoy-architecture/src/stores/DtwinStore.cc:70-141 | over every run of updates, sweeps and default-inserting reads, no observation is accepted after a newer one of the same object, not even when the newer one has expired |
| `DtwinStores.OfferAllKeeps` | convoy-architecture/src/stores/DtwinStore.cc:110-136 | what the maps accept of a message is exactly what the newest accepted observations allow, object by object |
| `DtwinStores.GateComplementsExpiry` | convoy-architecture/src/stores/DtwinStore.cc:77-108 | what passes the late-arrival gate is newer than everything that has expired |
| `DtwinStores.RefusesOlder` | convoy-architecture/src/stores/DtwinStore.cc:107-119 | the store refuses exactly what is older than the newest observation ever accepted, expired or not |
| `DtwinStores.MergeMonotone` | convoy-architecture/src/stores/DtwinStore.cc:110-136 | a message never replaces a newer observation and is itself accounted for completely |
| `DtwinStores.PutKeeps` | convoy-architecture/src/stores/DtwinStore.cc:121-135 | an accepted observation is stored; other objects keep theirs |
| `DtwinStores.EraseKeeps` | convoy-architecture/src/stores/DtwinStore.cc:79-94 | a sweep erases no object whose newest observation is young enough |
| `DtwinStores.SweepShows` | convoy-architecture/src/stores/DtwinStore.cc:79-94 | after a sweep every object shows its newest observation if that is young enough and nothing if not, and exactly the young stamps are left |
| `DtwinStores.RunShows` | convoy-architecture/src/stores/DtwinStore.cc:70-141 | the same after every sweep of every run, also of a sweep that the object count suppresses |
| `DtwinStores.PutLabels` | convoy-architecture/src/stores/DtwinStore.cc:124-128 | an accepted observation sets type and address exactly if its address is not negative |
| `DtwinStores.SweepLabels` | convoy-architecture/src/stores/DtwinStore.cc:84-89 | a sweep clears the type of what it erases and keeps the address |
| `DtwinStores.TouchKeeps` | convoy-architecture/src/stores/DtwinStore.cc:161-209 | default insertion by reads changes nothing that is stored |
| `DtwinStores.DtwinStore.UpdateObject` | convoy-architecture/src/stores/DtwinStore.cc:112-135 | accepted if and only if not older than the newest accepted; then it is what is shown, with type and address unless the address is negative |
| `DtwinStores.DtwinStore.UpdateObjects` | convoy-architecture/src/stores/DtwinStore.cc:98-141 | a late message changes nothing, any other is merged object by object |
| `DtwinStores.DtwinStore.CheckObjectExpiry` | convoy-architecture/src/stores/DtwinStore.cc:70-96 | afterwards every object shows its newest observation if that is young enough and nothing if not; if the object count is positive exactly the young stamps are left and counted; identifiers and addresses stay |
| `DtwinStores.DtwinStore.ReadFromStore` | convoy-architecture/src/stores/DtwinStore.cc:143-173 | one entry per identifier with what the maps show: the whole newest observation if young enough, stamp 0 with zero position and heading for what has expired, and type and address or their defaults |
| `DtwinStores.EntryShows` | convoy-architecture/src/stores/DtwinStore.cc:161-171 | an entry shows the newest accepted observation, all of it, or nothing of it |
| `DtwinStores.DtwinStore.ReadTimestamp` | convoy-architecture/src/stores/DtwinStore.cc:206-209 | the stamp, or an inserted 0 |
| `DtwinStores.DtwinStore.ReadPositionX` | convoy-architecture/src/stores/DtwinStore.cc:186-189 | the coordinate, or an inserted 0 |
| `DtwinStores.DtwinStore.UpdateObjectTypeAndAddress` | convoy-architecture/src/stores/DtwinStore.cc:211-218 | type and address of a known object |
| `ClusterSelection.TableIsLatest` | convoy-architecture/src/controls/MembershipControl.cc:404-409 | after any sequence of broadcasts the table holds exactly the latest of each cluster, once |
| `ClusterSelection.Choose` | convoy-architecture/src/controls/MembershipControl.cc:185-236 | a broadcast of greatest RSSI among those of the right direction, sufficient RSSI and a convoy with room; none exactly when there is no such broadcast |
| `ClusterSelection.CopyQualified` | convoy-architecture/src/controls/MembershipControl.cc:189-195 | exactly the broadcasts of the right direction and sufficient RSSI |
| `ClusterSelection.SortDescending` | convoy-architecture/src/controls/MembershipControl.cc:208-212 | a permutation in descending order of RSSI |
| `MembershipControls.MembershipControl.ReceiveBroadcast` | convoy-architecture/src/controls/MembershipControl.cc:388-409 | the broadcast replaces the one of its cluster or is appended |
| `MembershipControls.MembershipControl.HandleBroadcastScanEvent` | convoy-architecture/src/controls/MembershipControl.cc:174-244 | the node joins the chosen cluster if it has room, founds a cluster in that convoy if not, and founds a fresh convoy if and only if nothing was chosen |
| `MembershipControls.MembershipControl.CreateNewConvoy` | convoy-architecture/src/controls/MembershipControl.cc:253-259 | a convoy id not used before, with this node as its first manager |
| `MembershipControls.MembershipControl.CreateNewCluster` | convoy-architecture/src/controls/MembershipControl.cc:261-277 | the primary device is replaced by a registered master |
| `MembershipControls.MembershipControl.JoinNewCluster` | convoy-architecture/src/controls/MembershipControl.cc:279-289 | the gateway or the primary device is attached; a gateway stays a gateway; a master device does not move |
| `MembershipControls.MembershipControl.ScanInNetwork` | convoy-architecture/src/controls/MembershipControl.cc:174-244 | the scan is one of the network events below: the node ends up as the event leaves it; the event is legal if the node has heard masters only |
| `MembershipControls.MembershipControl.JoinGatewayInNetwork` | convoy-architecture/src/controls/MembershipControl.cc:279-283 | so is a join with the gateway device |
| `MembershipControls.MembershipControl.DetachInNetwork` | convoy-architecture/src/controls/MembershipControl.cc:465-466 | and a detachment of both devices, after which the binder still knows their next hops |
| `MembershipControls.MembershipControl.RejoinInNetwork` | convoy-architecture/src/controls/MembershipControl.cc:499-510 | a manager gets a new member device, then the primary device joins |
| `MembershipControls.MembershipControl.ChangeClusterMembership` | convoy-architecture/src/controls/MembershipControl.cc:487-513 | the node ends up as the events of its new role leave it; it takes the role it is told, except that a gateway told to be a member stays a gateway |
| `MembershipControls.MembershipControl.HandleOrchestrationMessage` | convoy-architecture/src/controls/MembershipControl.cc:454-485 | a command is a short sequence of network events, by convoy, role and clusters: the node ends up as they leave it, with the role by the same rule, and a convoy is founded exactly when the command's is beyond all others and not the node's own |
| `MembershipControls.ClusterDevice.JoinNewCluster` | convoy-architecture/src/devices/ClusterDevice.cc:139-149 | addresses of a joined device; a master ignores the call |
| `MembershipControls.ClusterDevice.DetachFromCluster` | convoy-architecture/src/devices/ClusterDevice.cc:151-155 | all addresses are cleared |
| `MembershipControls.ClusterDevice.ConfigureAndStart` | convoy-architecture/src/devices/ClusterDevice.cc:44-84 | address from the binder, manager from its next hop |
| `ConvoyRouting.DeliveredInTwo` | convoy-architecture/src/controls/RoutingControl.cc:310-425 | in a consistent network a packet with a route is delivered to the owner of its destination after one hop, or after two through the destination's manager |
| `ConvoyRouting.BackendDeliveredInTwo` | convoy-architecture/src/controls/RoutingControl.cc:291-308 | the same for a packet that a station gets from the backend |
| `ConvoyEvents.RunDelivers` | convoy-architecture/src/controls/RoutingControl.cc:361-425 | whatever clusters the nodes join and found, the network stays consistent and packets with a route arrive in two hops |
| `ConvoyEvents.StartedRunDelivers` | convoy-architecture/src/controls/MembershipControl.cc:39-61 | the same for stations that start with distinct node ids and no device attached |
| `ConvoyRouting.PacketFate` | convoy-architecture/src/controls/RoutingControl.cc:310-425 | in any network with unique addresses: a packet with a route is delivered, in at most two hops, if and only if the sender addresses the destination itself or the owner of the next hop has the destination or is the master of its cluster; otherwise it is lost if nobody owns the next hop, and without a route or circling for every number of hops if somebody does |
| `ConvoyRouting.ThroughManager` | convoy-architecture/src/controls/RoutingControl.cc:404-425 | at the owner of the next hop: delivered if and only if it has the destination or is the master of that cluster |
| `ConvoyRouting.UnattachedFate` | convoy-architecture/src/controls/MembershipControl.cc:362-372 | the fate of a packet to a device that is attached nowhere, in every case: no route without an idle device; delivered by a detached master; else sent to address 0, where it is lost, or reaches a station with a detached device, which delivers it if it has the destination or is a master and else has no route or sends it round for ever |
| `ConvoyEvents.UnattachedIsReachable` | convoy-architecture/src/controls/MembershipControl.cc:362-372 | two stations just after the start, one of which has founded a cluster, show that case |
| `ConvoyCommands.CommandsCanCircle` | convoy-architecture/src/controls/MembershipControl.cc:477-478 | three stations start, found and join a cluster; then two members are told to join, in the same role and convoy, the address of one of them, which is no master: a packet between them circles for ever |
| `ConvoyCommands.JoinedIs` | convoy-architecture/src/controls/MembershipControl.cc:174-244 | that network is reached from the start by scans |
| `ConvoyCommands.CommandKeepsWhen` | convoy-architecture/src/controls/MembershipControl.cc:454-513 | a command keeps the network consistent if and only if it is ignored, or every cluster it names has a master at another station and no device of another station is left in a cluster whose master obeys it |
| `ConvoyCommands.CommandResult` | convoy-architecture/src/controls/MembershipControl.cc:454-513 | both devices of a station and their next hops after any command that is not ignored |
| `ConvoyCommands.IgnoredWhen` | convoy-architecture/src/controls/MembershipControl.cc:463-478 | which commands are ignored |
| `ConvoyCommands.DetachesWhen` | convoy-architecture/src/controls/MembershipControl.cc:463-476 | which commands detach both devices first, and which found a convoy |
| `ConvoyCommands.DissolvedClusterLoses` | convoy-architecture/src/controls/MembershipControl.cc:454-513 | whatever command a manager obeys, the packets that the members of its former cluster send each other are lost |
| `ConvoyEvents.EventKeepsSane` | convoy-architecture/src/controls/MembershipControl.cc:253-289 | every event, commands with any cluster included, keeps addresses unique and devices of the right kinds |
| `ConvoyEvents.EventKeeps` | convoy-architecture/src/controls/MembershipControl.cc:253-289 | joining a master's cluster with the primary or the gateway device, founding a cluster and leaving one as a member keep the network consistent, and every master stays |
| `ConvoyEvents.EventKeepsWhen` | convoy-architecture/src/controls/MembershipControl.cc:253-289 | an event keeps the network consistent if and only if the joined cluster has a master and no device stays behind in a cluster that loses its own |
| `ConvoyEvents.MastersAfter` | convoy-architecture/src/controls/MembershipControl.cc:253-289 | which clusters have a master after an event |
| `ConvoyStations.Run` | convoy-architecture/src/controls/MembershipControl.cc:39-513 | stations start, then hear broadcasts of masters, scan and obey commands in any order: addresses stay unique; without commands the network stays consistent and every packet with a route arrives in at most two hops |
| `ConvoyStations.Stations.StartAll` | convoy-architecture/src/controls/MembershipControl.cc:39-61 | the stations that have started form the network of unattached devices with the first node ids |
| `ConvoyStations.Stations.HearOne` | convoy-architecture/src/controls/MembershipControl.cc:388-409 | a broadcast changes no device, and what has been heard names masters |
| `ConvoyStations.Stations.ScanOne` | convoy-architecture/src/controls/MembershipControl.cc:174-244 | a scan keeps the network consistent while no command has been obeyed, since what was heard are masters |
| `ConvoyStations.Stations.ObeyOne` | convoy-architecture/src/controls/MembershipControl.cc:454-485 | a command changes only the station that obeys it |
| `ConvoyStations.Stations.SaneNow` | convoy-architecture/src/controls/MembershipControl.cc:62-113 | in every reachable state addresses are unique and devices of the right kinds |
| `ConvoyStations.Stations.FitsNow` | convoy-architecture/src/controls/MembershipControl.cc:454-485 | in every reachable state a command finds what the theorems on commands assume |
| `ConvoyEvents.StartIsConsistent` | convoy-architecture/src/controls/MembershipControl.cc:39-61 | stations that have just started, built from distinct node ids, form a consistent network |
| `ConvoyRouting.RouteWhen` | convoy-architecture/src/controls/MembershipControl.cc:362-372 | exactly the nodes with a device in the destination's cluster have a route |
| `UtilizationFilters.Run` | inet4.4/src/inet/common/ResultFilters.cc:281-348 | for any 0/1 signal, interval and value limit, the windows tile the time without gap or overlap, each utilization lies between 0 and 1 and is the mean of its window, and they add up to the integral of the signal; every window fired before the end is one interval long, or ends with the sample that reaches the value limit, or, without intermediate values, an interval before a sample; the end fires what is left |
| `UtilizationFilters.UtilizationFilter.Process` | inet4.4/src/inet/common/ResultFilters.cc:281-312 | at the value limit one window is fired that ends now; else, less than an interval after the last window, none; else the next interval, then every further whole one, or without intermediate values at most one up to an interval before now; sums and tiling are kept |
| `UtilizationFilters.UtilizationFilter.Finish` | inet4.4/src/inet/common/ResultFilters.cc:330-348 | windows tile the time to the end: nothing is fired if a window ends there, else one whole interval, or all of them with intermediate values, if there is time for it, and the rest |
| `UtilizationFilters.UtilizationFilter.EmitUtilization` | inet4.4/src/inet/common/ResultFilters.cc:314-322 | the fired window starts at the last one's end; the assertion on its value holds |
| `UtilizationFilters.UtilizationFilter.UpdateTotalValue` | inet4.4/src/inet/common/ResultFilters.cc:324-328 | the total is the integral since the last window |
| `UtilizationFilters.UtilizationFilter.EmitWhole` | inet4.4/src/inet/common/ResultFilters.cc:295-298 | the catch-up loop ends, fires windows of one interval each and leaves less than an interval |
| `UtilizationFilters.UtilizationFilter.CatchUp` | inet4.4/src/inet/common/ResultFilters.cc:292-306 | what a sample fires that comes an interval or more after the last window |
| `UtilizationFilters.CaughtIsDue` | inet4.4/src/inet/common/ResultFilters.cc:292-306 | every window so fired has a reason: its length, or a sample an interval behind its end |
| `UtilizationFilters.TotalIsArea` | inet4.4/src/inet/common/ResultFilters.cc:281-348 | tiling windows that each report their mean add up to the integral |
| `UtilizationFilters.AreaBounds` | inet4.4/src/inet/common/ResultFilters.cc:314-318 | the integral of a 0/1 signal grows by between nothing and the time passed |
| `UtilizationFilters.TilesBefore` | inet4.4/src/inet/common/ResultFilters.cc:314-322 | each window starts where the one before ended, the first at 0 |

## Left out

- IntervalTrees.IntervalTree.Insert: does not model the comparison with a null interval, because every caller passes one.
- IntervalTrees.IntervalTree.DeleteNode: does not model that the returned pointer may dangle after the node is freed, because ownership of intervals is not part of this model.
- getMaximum, getPredecessor, the climbing branch of getSuccessor and the destructor of the interval tree: never used by insertion, deletion or query, or memory ownership only.
- Int128s.Int128.Div: excludes the divisor 0, which the source leaves undefined, and the least value, on which the method would not end; `Int128Division.LeastDivisorNeverEnds` states that case.
- Int128s.Int128.DivAssign: excludes the same divisors.
- Int128s.Int128.ModAssign: excludes the same divisors.
- Int128: floating-point constructors and conversions, increments, bitwise compound operators and the assignment from `int64_t`, which does not extend the sign.
- Macho: event and initializer template arities, snapshots, deprecated box setters, aliases and the debug build's dummy event.
- MachoMachine.Machine.Rattle: handles as many events as the script of handlers has, because handlers that keep dispatching events need not end.
- InitStages.InitStageRegistry.AddInitStage: a stage is registered once, as the defining macro does.
- PatternMatchers.PatternMatcher.SetPattern: a text that ends in a backslash is an error of its own, because the source then reads past the terminator.
- PatternMatchers.PatternMatcher.ScanNumber: numbers are unbounded, `long` overflow of `atol` is not modelled.
- PatternMatchers.PatternMatcher.IsInSet: characters are compared by code, the sign of C++ `char` is not modelled.
- PatternMatcher: case-insensitive matching, `patternPrefixMatches` and `debugStr`.
- MemoryOutputStreams.MemoryOutputStream.WriteNBitsOfUint64Be: for 32 to 64 bits the source shifts an `int` by its width or into its sign, which C++ leaves undefined or to the compiler; these widths are excluded.
- MemoryInputStreams.MemoryInputStream.ReadNBitsToUint64Be: excludes 32 to 64 bits for the same reason.
- Streams: repeated and vector forms of bits and bytes, MAC, IPv4 and IPv6 addresses, `seek` and `copyData` would only add easy members.
- ReportStores.RunExact: no sweep comes before the time of a received stamp; `SweepHarmlessWhen` and `EarlySweepLoses` show that this is needed. Times and stamps are simulation times, below 2^63.
- ReportStores.RunKeeps: the same runs.
- ReportStores.ReportStore.Update: the subscriber store's side update of the twin store is the separate member `UpdateObjectTypeAndAddress`.
- DtwinStores.DtwinStore.UpdateObjects: stamps are simulation times, below 2^63.
- DtwinStores.DtwinStore.ReadFromStore: the message's entries form a map, their order is not modelled; the other accessors behave like the two that are modelled.
- MembershipControls.MembershipControl.HandleBroadcastScanEvent: scheduling of the following events, publisher lists and signal power are not modelled.
- The transmit powers in orchestration commands, the binder's list of clusters after them, and the choice of publishers and subscribers: not used for routing, or plain filters.
- ConvoyStations.Stations.ScanOne: a manager does not scan, because a station scans once, when it has started.
- ConvoyStations.Stations.HearOne: a master whose addresses a command has cleared is not heard.
- ConvoyRouting.UnattachedFate: of several stations with a detached device, a packet to address 0 reaches the last one, because the radio that would decide is not part of this model.
- ConvoyRouting.DeliveredInTwo: covers subscriptions, publications, maneuvers and orchestrations; member reports leave for the backend at the first roadside unit.
- ConvoyRouting.Travel: packets without a route stop, the source's branch for them is marked as future work.
- Utilization filter: reading its parameters from the NED file and simulation-time rounding.
- OMNeT++ plumbing, PHY and NIC classes, geometry and dB conversions, and everything else in the repository.
