# Verified models of ICGlue's hard cores

ICGlue generates hardware descriptions from a hierarchy of modules, instances, signals, parameters and
register files. This project models the parts of it whose correctness is not visible from one function body,
and proves what they promise. `dafny verify dfyconfig.toml` checks everything.

- **Register devices in C++** (`MaskedMemory`, `Subword`, `RegfileDevice`, `RegfileRuns`, `RegfileFields`).
  Two bus back ends and two write caches that stack in any order. Every stack is, on all used bits,
  indistinguishable from plain memory with masked writes.
- **Connection engine** (`Forest`, `ConnectionInfo`, `HierarchyDb`, `MergeTree`, `MergeProperties`,
  `MergeAttributes`, `MergeNodes`, `Labels`, `TreeShape`, `Reduce`, `Generation`, `Builder`, `SignalNet`,
  `Parameters`, `Connections`, `Chains`, `Names`, `Nets`, `Directions`, `Objects`, `Created`, `TopForks`,
  `ConnectionEngine`, `EdgeCases`). Module and instance tables stay a forest; the paths from the end points to the top are merged,
  reduced to the module around them and turned into declarations, ports and pins, or parameters and adjustments.
  A signal is one electrically connected net, named and directed as its start points ask, and signals created
  one after the other share names in a module only by force; a parameter elaborates to its root's value at every
  end point. For start points that agree on names, the set of created objects is stated outright from tables, start
  points and name: which modules and instances get an object, its name, direction, connection and inversion.
- **Schematic algorithms** (`LeastCost`, `GridPaths`, `GridRouter`, `MonotoneFit`, `IsotonicRegression`,
  `PortPlacement`, `Layering`). Least-cost grid routing, least-squares port placement, longest-path layering.
- **Register model in Python** (`BitSets`, `RegisterFields`, `PyDevice`, `DebugDevice`, `RegisterEntry`,
  `RegisterRuns`).
  Field packing, devices of any power-of-two word size, desired and mirrored value against the device.
- **Coroutine scheduler** (`SchedulerModel`, `SchedulerProperties`, `ThreadQueues`, `Scheduling`). Growing
  sentinel-terminated queues refine a state machine in which no wake-up is lost.
- **CRC reference** (`Gf2`, `Crc`). The bitwise loop computes a remainder of polynomials over GF(2).

Code that updates state in place is modelled by classes and methods with loops, each proved against a function
or predicate about which the lemmas then speak.

## Where the code and its documentation part

- `_assign_monotone` documents an L2-optimal placement inside the bounds. The pooled phase is optimal, the
  shift or even spread after it in general is not. `PortPlacement.ClosestIff` gives the exact condition,
  `PortPlacement.ShiftingIsNotClosest` an input that breaks the promise.
- The check in `ig_lib_add_instance` for a default instance that already has a parent can never fire, since
  an instance of that name then exists and the first check answers (`HierarchyDb.LibDb.AddInstance`).
- `ig_lib_rm_suffix_pinport` means to strip direction suffixes only; its letter comparisons contradict each
  other, so any trailing `_x` goes. `Generation.StripsOnlyDirSuffixIff` says for which names this makes no
  difference, `Generation.StripsOtherLetters` shows one where it does.
- A forced name "must be kept verbatim" (lib/ig_lib.h:81). When start points of one end point carry one name
  with different flags, the first of them decides for pins and ports, the last for the declaration, since every
  level of the merge runs through the paths in the opposite order (`Labels.NodeLabel`).
  `Names.KeptVerbatimIff` says exactly when the name is kept, `EdgeCases.ForcedNameIsLost` shows one that is not.
- A signal goes to the lowest module around its end points, except when they all lie in one instance right below
  that is named differently, as in a signal from a module back to itself (`Nets.IsPlaced`,
  `EdgeCases.LoopBackIsDeclaredAbove`).
- When the first start point sits at the top module and another one names that module differently,
  `ig_lib_htree_reduce` returns the node it has just freed (`TopForks.ForksIff`, `EdgeCases.TwoNamesForTop`).
  The model answers `Dangling` there and promises nothing about what follows.
- A masked write of a Python register entry makes the whole desired value mirrored, so after an unrelated
  `set()` the mirrored value claims bits the device does not hold (`RegisterEntry.MaskedWriteAfterSet`).
  `RegisterEntry.StepAgreesIff` and `RegisterEntry.RunAgreesIff` say exactly when agreement survives.
- The Python byte-memory device picks byte `addr & 3` of the value whatever the word size. It does what the
  sub-word device asks of it exactly for four-byte words (`DebugDevice.WorksIffFourBytes`); with eight bytes
  a full write loses byte 4 (`DebugDevice.EightByteWriteLosesByteFour`).

## Model

| member | source | states |
|---|---|---|
| GridRouter.AStarGrid | schematic/icglue_hier_drawio.py:705-757 | the returned points lead from s to t and are a route of least cost among all obstacle-free lane paths; None exactly when there is no such path |
| GridPaths.CostIs | schematic/icglue_hier_drawio.py:738-755 | a path costs its length, 60 per corner, the congestion price per edge of another net, and 40 times its edges' history |
| GridPaths.CrossesIff | schematic/icglue_hier_drawio.py:643-656 | a segment crosses a box exactly if it lies strictly between two sides and more than 1e-6 of it between the others |
| GridRouter.PointsAreCrossings | schematic/icglue_hier_drawio.py:729-736 | the points of a path are where its lanes cross |
| GridRouter.RouteLeads | schematic/icglue_hier_drawio.py:729-736 | the drawn points start at s and end at t |
| GridRouter.Search | schematic/icglue_hier_drawio.py:720-757 | the same between two crossings of a given grid, and the search ends |
| GridRouter.SegHits | schematic/icglue_hier_drawio.py:643-656 | true exactly when more than 1e-6 of the segment lies strictly inside some box |
| GridPaths.EdgeKeyIgnoresDirection | schematic/icglue_hier_drawio.py:659-660 | an edge has one congestion key from either end: its ends, the lexicographically smaller first |
| GridRouter.Probe | schematic/icglue_hier_drawio.py:739-755 | an entry is pushed exactly for a free step to the neighbouring lane, at the step's full price |
| GridRouter.Expand | schematic/icglue_hier_drawio.py:738-756 | expanding a state pushes all its free successors and nothing else |
| GridRouter.Reconstruct | schematic/icglue_hier_drawio.py:729-736 | following predecessors ends at the start and spells the recorded path |
| GridRouter.PathIsWalk | schematic/icglue_hier_drawio.py:745-755 | every grid path is a walk over (x, y, direction) states at the same cost |
| GridRouter.WalkIsPath | schematic/icglue_hier_drawio.py:745-755 | every walk over states is a grid path at the same cost |
| LeastCost.WalkIsCovered | schematic/icglue_hier_drawio.py:724-756 | whatever walk leaves the start, settled states and heap account for it at no more than its cost |
| LeastCost.ExpandKeepsInvariant | schematic/icglue_hier_drawio.py:727-756 | settling the cheapest entry keeps the search invariant |
| LeastCost.GoalCostsAtLeast | schematic/icglue_hier_drawio.py:727-736 | until the goal is settled every walk to it costs at least the cheapest waiting entry |
| GridRouter.WalkIsCheapestRoute | schematic/icglue_hier_drawio.py:729-736 | the first goal entry popped stands for a cheapest route |
| GridRouter.NoRoute | schematic/icglue_hier_drawio.py:757 | an exhausted heap means no route exists |
| IsotonicRegression.Isotonic | schematic/icglue_hier_drawio.py:1304-1316 | the pooled means are at least as close, in squares, as every nondecreasing sequence |
| IsotonicRegression.Pool | schematic/icglue_hier_drawio.py:1305-1311 | blocks cover the items, their means do not fall, and every block prefix averages at least the block mean |
| IsotonicRegression.PoolLast | schematic/icglue_hier_drawio.py:1308-1311 | pooling falling neighbours ends with rising means and heavy prefixes |
| IsotonicRegression.PoolingKeepsBlock | schematic/icglue_hier_drawio.py:1308-1311 | pooling a falling pair keeps every prefix at or above the mean |
| MonotoneFit.FitIsClosest | schematic/icglue_hier_drawio.py:1296-1302 | the fit is the only closest monotone sequence, by a margin of the squared distance to it |
| MonotoneFit.ClampedFitIsClosest | schematic/icglue_hier_drawio.py:1288-1302 | inside bounds the clamped fit is the only closest monotone sequence |
| PortPlacement.Settle | schematic/icglue_hier_drawio.py:1319-1330 | for all bounds: a row short enough is shifted by the least amount, any other spread evenly; the 1e-6 tolerance makes no difference |
| PortPlacement.PlacementIsSettled | schematic/icglue_hier_drawio.py:1319-1330 | for every fit: the row with its gaps shifted by the least amount that brings it inside, or points at equal distance from lo to hi |
| PortPlacement.PlacementIsInside | schematic/icglue_hier_drawio.py:1318-1330 | for lo <= hi the placement is inside [lo, hi] and in order, with the minimum gap whenever the gaps fit |
| PortPlacement.ClosestIsClampedFit | schematic/icglue_hier_drawio.py:1288-1302 | a row keeps the documented promise exactly when it is the clamped fit and the gaps fit |
| PortPlacement.ClosestIff | schematic/icglue_hier_drawio.py:1288-1330 | the placement keeps the documented promise if and only if KeepsPromise holds |
| PortPlacement.ShiftingIsNotClosest | schematic/icglue_hier_drawio.py:1319-1329 | desired (-2, 3) in [0, 10] is shifted to (0, 5), which is not closest |
| PortPlacement.AssignMonotone | schematic/icglue_hier_drawio.py:1288-1330 | the least-squares fit, settled as above, for every input; for non-negative gaps bounds, order, gap and the exact condition of the promise |
| Layering.WeighNets | schematic/icglue_hier_drawio.py:148-157 | the weight of a pair is the number of driver-sink pin pairs over all nets, and pairs stand in the order in which the nets first meet them |
| Layering.Orient | schematic/icglue_hier_drawio.py:158-166 | every connected pair gets exactly one direction: that of more connections, or of the first met |
| Layering.Relax | schematic/icglue_hier_drawio.py:167-173 | without a cycle each layer is the longest incoming path; every edge rises if and only if there is no cycle |
| Layering.LayerOf | schematic/icglue_hier_drawio.py:145-173 | the nets leave one orientation, in which ties go to the pair met first; under it each layer is the longest incoming path if there is no cycle, and layers rise along every edge exactly then |
| Layering.OrientationIsUnique | schematic/icglue_hier_drawio.py:158-166 | weights and insertion order leave no choice of directions |
| Layering.WeightsCount | schematic/icglue_hier_drawio.py:148-157 | the dictionary built net by net counts the connections of every pair |
| Layering.ConnectionsAreMeetings | schematic/icglue_hier_drawio.py:148-157 | the connections of a pair are the net, driver and sink positions at which it is met |
| Layering.OrderIsFirstMet | schematic/icglue_hier_drawio.py:148-157 | of two pairs in the dictionary the one in front has the earlier first position |
| Layering.OrientationIsChosen | schematic/icglue_hier_drawio.py:158-166 | what the dictionary decides is what the nets decide: more connections, or met first |
| Layering.ChosenIsOrientation | schematic/icglue_hier_drawio.py:158-166 | and the other way round |
| Layering.RoundCovers | schematic/icglue_hier_drawio.py:168-172 | one in-place round accounts for walks that are one edge longer |
| Layering.AcyclicLayers | schematic/icglue_hier_drawio.py:167-173 | n + 1 rounds see every walk of an acyclic relation |
| Layering.RisingIsAcyclic | schematic/icglue_hier_drawio.py:167-173 | layers that rise along every edge rule out cycles |
| Subword.ChooseLane | templates/default/rf/static/host-cpp/regfile_contrib.cpp:62-90 | the first, hence a widest, aligned sub-word that covers the mask and overwrites no keep bit; None only if there is none |
| Subword.StrobeCoversLane | test/resources/apb_stim/apb_stim.h:47-52 | the byte strobes of a sub-word address enable exactly its lanes of that word |
| Subword.WholeWordStrobeIff | test/resources/apb_stim/apb_stim.h:47-52 | a whole-word write enables all lanes of the word exactly at aligned addresses |
| RegfileDevice.WholeWordWritesIff | test/resources/apb_stim/apb_stim.h:47-52 | over byte lanes all whole-word writes at an address take full effect if and only if it is aligned |
| Subword.FittingMerge | templates/default/rf/static/host-cpp/regfile_contrib.cpp:75-82 | writing a fitting sub-word is the masked write on every masked or used bit |
| RegfileDevice.RegfileDev.WriteBySimple | templates/default/rf/static/host-cpp/regfile_contrib.cpp:42-56 | the masked write on every masked or used bit, other words untouched |
| RegfileDevice.RegfileDev.WriteBySubword | templates/default/rf/static/host-cpp/regfile_contrib.cpp:62-99 | the same through byte lanes, for whole-word addresses |
| RegfileDevice.MaskedOnlyIsApply | templates/default/rf/static/host-cpp/regfile_contrib.cpp:42-99 | such a write refines the plain masked memory for readers who rely on no unused bit |
| RegfileDevice.RegfileDev.RfdevRead | templates/default/rf/static/host-cpp/regfile_contrib.cpp:111-115 | any device answers with its view, and reading changes no used bit |
| RegfileDevice.RegfileDev.RfdevWrite | templates/default/rf/static/host-cpp/regfile_contrib.h:35-41 | any device's view becomes that of the plain masked write on used bits |
| RegfileDevice.RegfileDev.RfdevWriteSequence | templates/default/rf/static/host-cpp/regfile_contrib.cpp:31-36 | the writes take effect in order |
| RegfileDevice.RegfileDev.WriteByBitcache | templates/default/rf/static/host-cpp/regfile_contrib.cpp:117-148 | merging, flushing and holding back a write are all the plain masked write to a reader |
| RegfileDevice.MergeHeldWrite | templates/default/rf/static/host-cpp/regfile_contrib.cpp:124-132 | two disjoint writes to one word equal one write with both masks |
| RegfileDevice.RegfileDev.WriteByWordcache | templates/default/rf/static/host-cpp/regfile_contrib.cpp:197-211 | queueing a write, and flushing the full queue, is the plain masked write to a reader |
| RegfileDevice.RegfileDev.Enqueue | templates/default/rf/static/host-cpp/regfile_contrib.cpp:204-209 | the four parallel arrays hold one more pending write, at the end |
| RegfileDevice.RegfileDev.CacheFlush | templates/default/rf/static/host-cpp/regfile_contrib.cpp:161-169 | nothing is pending afterwards and readers see no difference |
| RegfileDevice.RegfileDev.CacheEnable | templates/default/rf/static/host-cpp/regfile_contrib.cpp:150-153 | readers see no difference |
| RegfileDevice.RegfileDev.CacheDisable | templates/default/rf/static/host-cpp/regfile_contrib.cpp:218-222 | a disabled cache holds nothing back and readers see no difference |
| RegfileDevice.RegfileDev.OverBitcache | templates/default/rf/static/host-cpp/regfile_contrib.cpp:105-109 | a new bit cache shows the memory below it |
| RegfileDevice.RegfileDev.OverWordcache | templates/default/rf/static/host-cpp/regfile_contrib.cpp:172-181 | a new word cache shows the memory below it |
| RegfileRuns.Run | templates/default/rf/static/host-cpp/regfile_contrib.cpp:31-232 | over every run of reads, writes and cache switches, any stack answers as plain masked memory does on the bits that no write of the run calls unused |
| RegfileRuns.AnswersInOrder | templates/default/rf/static/host-cpp/regfile_contrib.cpp:31-232 | plain memory gives one answer per read: what the operations before it have left at its address |
| RegfileRuns.LastWriteWins | templates/default/rf/static/host-cpp/regfile_contrib.cpp:42-56 | the last write to some bits decides what they are after the run |
| RegfileRuns.SparedBitsStay | templates/default/rf/static/host-cpp/regfile_contrib.cpp:42-56 | bits that no write of the run masks stay as they were |
| MaskedMemory.WrittenBits | templates/default/rf/static/host-cpp/regfile_contrib.cpp:42-56 | a write sets the masked bits of its word to those of the value and changes nothing else |
| MaskedMemory.AgreeIff | templates/default/rf/static/host-cpp/regfile_contrib.cpp:42-56 | two words agree exactly if they have the same bits wherever no bit is unused |
| MaskedMemory.ApplyAllKeepsSame | templates/default/rf/static/host-cpp/regfile_contrib.cpp:31-36 | write sequences respect agreement modulo unused bits |
| RegfileFields.MaskIsTheField | templates/default/rf/static/host-cpp/regfile_contrib.cpp:313-332 | the mask in wrapping 32-bit arithmetic is exactly bits lsb..msb |
| RegfileFields.DownOfPlace | templates/default/rf/static/host-cpp/regfile_contrib.cpp:313-332 | shifting a placed value back leaves its low bits, as many as the field is wide |
| RegfileFields.PartsAfter | templates/default/rf/static/host-cpp/regfile_contrib.cpp:313-324 | a masked write sets its own part, leaves disjoint used parts and other words alone |
| RegfileFields.WriteField | templates/default/rf/static/host-cpp/regfile_contrib.cpp:313-324 | through any stack the field reads the truncated value and every disjoint field keeps its value |
| RegfileFields.ReadField | templates/default/rf/static/host-cpp/regfile_contrib.cpp:325-332 | returns the field of the word the device shows, and changes no used bit |
| Forest.LinkClosesCycleIff | lib/ig_lib.c:189-213 | the child is the top above the parent exactly when linking it would close a cycle |
| Forest.LinkElsewhereKeepsForest | lib/ig_lib.c:215-276 | any other link keeps every climb finite |
| Forest.RankedHasNoCycle | lib/ig_lib.c:737-803 | the termination measure of the climb rules out cycles |
| HierarchyDb.LibDb.AddModule | lib/ig_lib.c:119-148 | a new name adds a module, a known one changes nothing |
| HierarchyDb.LibDb.GenHierarchy | lib/ig_lib.c:737-803 | the walk ends and yields the path from the top to the start point |
| HierarchyDb.LibDb.CheckCycle | lib/ig_lib.c:189-213 | true exactly when the child is the top module above the parent |
| HierarchyDb.LibDb.AddInstance | lib/ig_lib.c:215-276 | adds the link exactly if the name is new, the parent is no resource, and the type is a resource or has that name and does not lie above the parent; nothing that was there is replaced; the forest stays |
| HierarchyDb.PathStartsAtRoot | lib/ig_lib.c:189-213 | the walk from a plain module starts at the default instance of its top module |
| MergeTree.MergeHierarchyList | lib/ig_lib.c:618-734 | the procedure computes the merge function, of which the lemmas on merged trees speak |
| MergeTree.JoinLevel | lib/ig_lib.c:627-679 | joins the heads and collects the tails, or fails exactly when heads differ |
| MergeTree.TakeGroup | lib/ig_lib.c:693-724 | splits off the first path with all that merge with it, keeping order |
| MergeTree.MergeSucceedsIff | lib/ig_lib.c:618-734 | merging succeeds exactly when there are paths and all start at one object |
| MergeProperties.TreeIsPrefixes | lib/ig_lib.c:618-734 | the object paths of the tree are exactly the nonempty prefixes of the inputs |
| MergeAttributes.NodesAreJoins | lib/ig_lib.c:656-674 | without conflicting names a node's record is the least upper bound over all paths through it |
| MergeAttributes.OrderDoesNotMatter | lib/ig_lib.c:618-734 | direction, explicit and invert do not depend on the order of the list |
| MergeAttributes.JoinIsUnique | lib/ig_lib.c:661-674 | least upper bounds are unique |
| TreeShape.DatabasePathOk | lib/ig_lib.c:737-803 | every path of the database alternates modules and instances along its links and ends explicit |
| TreeShape.MergedTreeOk | lib/ig_lib.c:618-734 | the merged tree follows the links and its leaves are explicit, conflicting names or not |
| MergeNodes.NodeFlags | lib/ig_lib.c:656-674 | a node is only explicit, forced or driving upwards if some path's record for it is |
| MergeNodes.NodeOnPath | lib/ig_lib.c:656-674 | every record of a path is joined into some node, which is explicit or drives upwards with it |
| MergeNodes.NodePassesOn | lib/ig_lib.c:661-668 | with one driving path, an instance drives upwards exactly if some node for its module below does |
| MergeNodes.TwinChildren | lib/ig_lib.c:708-717 | two children for one object come from two names for it |
| MergeNodes.SiblingsDiffer | lib/ig_lib.c:708-717 | without conflicting names siblings are distinct |
| Reduce.HtreeReduce | lib/ig_lib.c:948-972 | stops at the first chain node that is explicit or has several children; a root with several children is freed and returned |
| Reduce.ExplicitNodesStay | lib/ig_lib.c:948-972 | no explicit node is discarded |
| Reduce.ReducedRootIsModule | lib/ig_lib.c:948-972 | the descent ends at a module, or at an instance with its module under several names |
| Reduce.PlaceOfRoot | lib/ig_lib.c:948-972 | the reduced root is the lowest module containing all end points, or they all lie in one object right below that has two names |
| Reduce.LowestCommonModule | lib/ig_lib.c:948-972 | without conflicting names it is the lowest module containing all end points |
| Builder.Traversal.CreateForSignal | lib/ig_lib.c:994-1108 | creates the node's declaration, port or pin and passes down its name; an error exactly when the identifier is taken |
| Builder.Traversal.CreateForParameter | lib/ig_lib.c:1132-1235 | creates the node's parameter or adjustment and passes down its name |
| Builder.Traversal.Visit | lib/ig_lib.c:980-992 | the traversal creates all objects of the tree or reports an error |
| Builder.FreshAreDistinct | lib/ig_lib.c:1035-1072 | objects created without error have distinct identifiers |
| Builder.AllFreshIff | lib/ig_lib.c:1035-1072 | all objects are new exactly if no identifier is taken before and none occurs twice |
| Generation.EveryNodeEmits | lib/ig_lib.c:994-1108 | every node of the tree gets an object |
| Generation.MergedIsNamed | lib/ig_lib.c:681-689 | merging gives every node a name, conflicting names or not |
| Generation.EmittedByNode | lib/ig_lib.c:980-1235 | every created object is that of a tree node, and the objects of the node's children are created too |
| Generation.StripsOnlyDirSuffixIff | lib/ig_lib.c:1409-1441 | nothing but a direction suffix is stripped if and only if the name is short, has no underscore before its last letter, or ends in a direction letter |
| Generation.StripsOtherLetters | lib/ig_lib.c:1409-1441 | "data_q" becomes "data" |
| Generation.SuffixRoundTrip | lib/ig_lib.c:1378-1441 | stripping gives back every name but the empty one from its pin or port name |
| SignalNet.ChildIsWired | lib/ig_lib.c:1008-1012 | a pin's connection is the name in the module above, a port's name is the pin of the instance above |
| SignalNet.NetIsConnected | lib/ig_lib.c:980-1108 | every generated object is connected to the root declaration |
| Connections.CreatedIsReducible | lib/ig_lib.c:1035-1072 | when all objects can be created, the tree starts at a module |
| Connections.AllReached | lib/ig_lib.c:414-520 | each end point gets an object |
| Nets.RootIsPlaced | lib/ig_lib.c:414-520 | the root contains all end points, and is the lowest such module unless they lie in one instance right below whose end point start points name differently |
| MergeNodes.ExplicitNode | lib/ig_lib.c:618-734 | at the end of every explicit path there is an explicit node |
| Connections.EndPointEmits | lib/ig_lib.c:414-446 | every end point's module or instance gets an object, whatever the names |
| Nets.SignalIsOneNet | lib/ig_lib.c:414-520 | every created signal is one net: all end points are connected to the declaration in the module that is their place |
| ConnectionEngine.Connector.Hierarchies | lib/ig_lib.c:421-446 | the paths to all end points, the last one first |
| ConnectionEngine.Connector.LowestTree | lib/ig_lib.c:461-482 | merging and reducing yield the tree the lemmas speak of, the freed node included |
| ConnectionEngine.Connector.Connection | lib/ig_lib.c:414-520 | exact conditions, on tables and start points, of success, failure and use of a freed tree; every created signal is one net that leads away from its source; if start points agree on names and force only given ones, it consists of exactly the objects of Created.IsExact; all signals created before stay signals |
| ConnectionEngine.Connector.CreateParameter | lib/ig_lib.c:522-615 | the same conditions for a parameter; every end point elaborates to the root's value, which is the default; if start points agree, parameters and adjustments are exactly those of Created.IsExact, named at each end point as given there |
| ConnectionEngine.SignalsStayApart | lib/ig_lib.c:994-1108 | of all signals created so far, no two have one name in a module or at an instance, except a declaration and a port of which one is forced |
| TopForks.ForksIff | lib/ig_lib.c:948-972 | the merged tree branches above the top module if and only if the first start point is at a top module and another one names it differently |
| TopForks.ReducedIff | lib/ig_lib.c:448-482 | a tree is found if and only if all end points lie below one top module and the first start point does not name it differently from another one there |
| EdgeCases.TwoNamesForTop | lib/ig_lib.c:948-972 | start points "x" and "y" at the top module end in a freed tree |
| Parameters.ChildTakesValue | lib/ig_lib.c:1149-1232 | a node's parameter or adjustment takes the value of the one above |
| Parameters.ParameterElaborates | lib/ig_lib.c:1118-1235 | for every override of the root's value all generated objects elaborate to it |
| Nets.ParameterReachesAll | lib/ig_lib.c:522-615 | the same from the end points, for every created parameter: a parameter with the default value in the module that is their place, an object at each end point |
| Directions.UpExactlyAboveSource | lib/ig_lib.c:661-668 | with one source, a node is an output exactly when the source's path runs through it, otherwise an input |
| Chains.PassesIffRunsThrough | lib/ig_lib.c:737-803 | a path passes a tree node exactly if it runs through the node's object |
| Chains.InstanceAndModule | lib/ig_lib.c:737-803 | a path runs through a default instance exactly if it runs through its module |
| Directions.DirectedSignal | lib/ig_lib.c:994-1108 | if start points agree on names, created ports lead out of exactly the modules the source's path runs through; each pin of a module's instance has that module's port, and every pin name that is not forced at that pin ends in the suffix of the direction |
| Directions.SignalLeads | lib/ig_lib.c:994-1108 | whatever the names, ports lead out only of modules the source's path runs through and out of each such module through some port; every pin of a module's instance is a port of the module, and a name that is not forced has the suffix of that port's direction |
| Created.NodeDir | lib/ig_lib.c:661-671 | a node is bidirectional if a bidirectional end point lies below it or both an upward and a downward one do, else an output if an upward one does, else an input |
| Created.NodeInversion | lib/ig_lib.c:671-674 | a pin is inverted exactly if some start point inverts the signal at its end point |
| Created.RootIsLowest | lib/ig_lib.c:948-972 | the tree ends at the lowest module around all end points by the tables |
| Created.CreatedIsExact | lib/ig_lib.c:980-1235 | the created objects are exactly one declaration or parameter in the lowest module, one port or parameter per module and one pin or adjustment per instance between it and the end points, each with the name, direction, connection, value and inversion that tables and start points determine |
| Labels.NodeLabel | lib/ig_lib.c:656-660 | of the names and force flags that paths give an object, its node takes the last met on a level, which is the first or the last in the list by turns |
| Labels.LabelsOfTails | lib/ig_lib.c:676-678 | every level meets them in the opposite order |
| Labels.NodeDefault | lib/ig_lib.c:681-689 | a node that no path names takes the name handed down: the signal's at the top, below it that of the node above, without its suffix if that is forced |
| Names.LabelsOfStarts | lib/ig_lib.c:737-803 | the names met on the paths are those the start points give for the object's end point, the last start point's first |
| Names.NodeIsNamed | lib/ig_lib.c:618-734 | if start points agree, instances take the first and modules the last name given for their end point |
| Objects.RunsOnWay | lib/ig_lib.c:737-803 | the path to a start point runs through exactly what is on the way from the top to its end point by the tables |
| Objects.NodeBase | lib/ig_lib.c:681-691 | every node has the base name of its end point: the name given, or that of the nearest named module around it without the suffix if forced, or the name of the signal |
| Objects.UnnamedIsSignal | lib/ig_lib.c:681-691 | when no start point gives a name, every base name is that of the signal |
| Generation.SuffixLetters | lib/ig_lib.c:1378-1407 | suffixes are an underscore and s, i, o or b, capital exactly after names with a capital and no small letter |
| Names.ObjectsAreNamed | lib/ig_lib.c:994-1108 | if start points agree, every object of a named end point has that name, verbatim if the deciding flag is set; in any case every name not forced has the suffix of its kind |
| Names.VerbatimIsForced | lib/ig_lib.c:656-660 | a name is only kept where some start point of that end point forces it |
| Names.KeptVerbatimIff | lib/ig_lib.h:81 | the name given is that of the object if and only if the deciding start point forces it |
| Names.ConsistentIff | lib/ig_lib.c:656-660 | no object has two names if and only if no two start points name one end point differently |
| Names.SignalsMeetByForce | lib/ig_lib.c:1015-1088 | objects of two signals with one owner and one name are a declaration and a port, one of them forced |
| EdgeCases.ForcedNameIsLost | lib/ig_lib.c:656-660 | forced "x" and unforced "x" at the top module declare "x_s" |
| EdgeCases.ForcedNamesMeet | lib/ig_lib.c:1060-1088 | two signals that force "x" at one module give it a port and a declaration of that name |
| EdgeCases.LoopBackIsDeclaredAbove | lib/ig_lib.c:711-717 | a signal from module a, under the name x, to module a, under the name y, belongs to the module above |
| RegisterFields.GetValue | templates/default/rf/static/py/regfile_generics/regfile.py:129-143 | fails exactly for unknown names; otherwise holds the placed fields and nothing else, in whatever order |
| RegisterFields.DictRoundTrip | templates/default/rf/static/py/regfile_generics/regfile.py:121-143 | taking a composed value apart gives each field its value cut to its width, 0 if not given |
| RegisterFields.ValueRoundTrip | templates/default/rf/static/py/regfile_generics/regfile.py:121-143 | composing what was taken apart keeps exactly the bits of fields |
| RegisterFields.OverlapBreaksRoundTrip | templates/default/rf/static/py/regfile_generics/regfile.py:121-143 | with overlapping fields some dictionary does not come back |
| RegisterFields.GotBit | templates/default/rf/static/py/regfile_generics/regfile.py:429-444 | which bits get_field and the truncation keep |
| RegisterFields.WriteValue | templates/default/rf/static/py/regfile_generics/regfile.py:182-199 | a written dictionary stands for its writable fields, other names are ignored |
| PyDevice.ChooseLane | templates/default/rf/static/py/regfile_generics/regfile_device.py:182-210 | for every power-of-two word size the first, hence a widest, fitting sub-word; None only if there is none |
| PyDevice.LaneIsMasked | templates/default/rf/static/py/regfile_generics/regfile_device.py:195-208 | writing a fitting sub-word is the masked write on every masked or kept bit |
| PyDevice.RegfileDev.RfdevWrite | templates/default/rf/static/py/regfile_generics/regfile_device.py:99-221 | either device changes the masked bits only, as far as bits must be kept, and no other word |
| PyDevice.RegfileDev.ReadwriteBlock | templates/default/rf/static/py/regfile_generics/regfile_device.py:64-73 | a written block is held word by word, a read block is the words, other words untouched |
| DebugDevice.RegfileDevSubwordDebug.GetValue | templates/default/rf/static/py/regfile_generics/regfile_device.py:239-251 | the word is the bytes at its address, lowest first |
| DebugDevice.RegfileDevSubwordDebug.WriteSubword | templates/default/rf/static/py/regfile_generics/regfile_device.py:263-269 | which bytes are stored where, and that it fails for too long values and for byte indices beyond the word |
| DebugDevice.WorksIffFourBytes | templates/default/rf/static/py/regfile_generics/regfile_device.py:239-269 | every sub-word write succeeds and reads back as the old word with that lane replaced if and only if words have four bytes |
| DebugDevice.FourByteWritesWork | templates/default/rf/static/py/regfile_generics/regfile_device.py:263-269 | in four-byte words every lane write reads back |
| DebugDevice.EightByteWriteLosesByteFour | templates/default/rf/static/py/regfile_generics/regfile_device.py:263-269 | writing 1 << 32 to an eight-byte word reads back with byte 4 zero |
| DebugDevice.ShortWordFails | templates/default/rf/static/py/regfile_generics/regfile_device.py:263-269 | with shorter words the write at the second word fails |
| RegisterEntry.RegfileEntry.SetValue | templates/default/rf/static/py/regfile_generics/regfile.py:424-426 | new desired, mirrored and device word; mirrored and device agree afterwards if and only if desired agreed outside the mask |
| RegisterEntry.RegfileEntry.GetValue | templates/default/rf/static/py/regfile_generics/regfile.py:412-422 | a read makes desired and mirrored the device's word |
| RegisterEntry.RegfileEntry.SetField | templates/default/rf/static/py/regfile_generics/regfile.py:311-321 | only the field's bits of the desired value change |
| RegisterEntry.RegfileEntry.Update | templates/default/rf/static/py/regfile_generics/regfile.py:387-390 | agreement holds afterwards, whatever happened before, on the desired value |
| RegisterEntry.RegfileEntry.WriteField | templates/default/rf/static/py/regfile_generics/regfile.py:91-99 | a field write keeps agreement if and only if nothing else was set and not written |
| RegisterEntry.AgreesIff | templates/default/rf/static/py/regfile_generics/regfile.py:258-261 | agreement after a masked write is agreement of desired value and device outside the mask |
| RegisterEntry.MaskedWriteAfterSet | templates/default/rf/static/py/regfile_generics/regfile.py:258-261 | a concrete masked write after a set elsewhere that breaks agreement |
| RegisterEntry.StepAgreesIff | templates/default/rf/static/py/regfile_generics/regfile.py:258-261 | from agreement, an operation keeps agreement if and only if it is no masked write while desired and mirrored differ outside its mask |
| RegisterEntry.RunAgreesIff | templates/default/rf/static/py/regfile_generics/regfile.py:346-426 | agreement holds throughout a run if and only if every operation of it is clean in that sense, which the operations before it decide |
| RegisterRuns.Do | templates/default/rf/static/py/regfile_generics/regfile.py:346-426 | on the writable bits one operation does to entry and device what it does to a plain register, from any state |
| RegisterRuns.Run | templates/default/rf/static/py/regfile_generics/regfile.py:346-426 | every run whatever refines the plain register of desired, mirrored and held value; mirrored and device agree at the end exactly if they do there |
| RegisterEntry.PlainStepMeans | templates/default/rf/static/py/regfile_generics/regfile.py:346-426 | bit by bit, what an operation does to desired, mirrored and held value |
| RegisterRuns.CleanRun | templates/default/rf/static/py/regfile_generics/regfile.py:346-426 | a run of clean operations from agreement ends in agreement |
| RegisterRuns.WriteDict | templates/default/rf/static/py/regfile_generics/regfile.py:182-199 | every writable field given reads its truncated value from the device, every other one 0 |
| ThreadQueues.ThreadQueue.Init | test/resources/stimc/stimc.c:343-349 | an empty queue with its sentinel in a buffer of 16 |
| ThreadQueues.ThreadQueue.Enqueue | test/resources/stimc/stimc.c:358-372 | the thread is last, the sentinel behind it, the buffer large enough |
| ThreadQueues.ThreadQueue.EnqueueAll | test/resources/stimc/stimc.c:374-393 | the other queue's threads follow in order, sentinel and room kept |
| ThreadQueues.ThreadQueue.Clear | test/resources/stimc/stimc.c:395-399 | empty, the buffer kept |
| Scheduling.Scheduler.TriggerEvent | test/resources/stimc/stimc.c:467-475 | moves exactly the current waiters to the main queue, in order |
| Scheduling.Scheduler.WaitFor | test/resources/stimc/stimc.c:454-465 | the running thread joins the event's queue at the end |
| Scheduling.Scheduler.RunThreads | test/resources/stimc/stimc.c:411-437 | the nested loops over main and shadow queue compute the state machine's whole run, and end; everything woken before has then run, in order |
| Scheduling.Scheduler.RunBatch | test/resources/stimc/stimc.c:424-431 | every entry of the batch up to the sentinel takes one step |
| Scheduling.Scheduler.CheckSetup | test/resources/stimc/stimc.c:401-409 | initialises both queues once, without effect on the abstract state |
| Scheduling.Scheduler.CreateEvent | test/resources/stimc/stimc.c:439-446 | one more event without waiters, at any time |
| Scheduling.Scheduler.RegisterThread | test/resources/stimc/stimc.c:205-229 | one more thread with a pending simulator callback, at any time |
| Scheduling.Scheduler.Accept | test/resources/stimc/stimc.c:191-203 | an expired delay moves its thread to the main queue; a value change wakes all waiters of every event it triggers, in the order of the triggers, and nobody else |
| Scheduling.Scheduler.OnCallback | test/resources/stimc/stimc.c:191-203 | each simulator callback is a step of a run in the sense of the next rows, and the threads it wakes have run in order when it is over |
| SchedulerProperties.StepKeepsPlaces | test/resources/stimc/stimc.c:411-475 | a step never changes in how many places a thread is |
| SchedulerProperties.RunAllRunsEverything | test/resources/stimc/stimc.c:411-437 | everything woken has run, first and in order, when the loop ends |
| SchedulerProperties.GrowthKeeps | test/resources/stimc/stimc.c:205-229 | a new thread is in one place, all others stay where they are |
| SchedulerProperties.ReachableStates | test/resources/stimc/stimc.c:411-475 | in every reachable state, within the loop too, with threads and events created on the way and threads doing anything with the events there are, each thread is in exactly one of an event queue, the main queue, the rest of the batch, a timer or finished, and threads run in the order of their wake-ups |
| SchedulerProperties.StepMoves | test/resources/stimc/stimc.c:411-437 | every step of the loop is a move of such a trace |
| SchedulerProperties.RunIsTrace | test/resources/stimc/stimc.c:411-437 | a sequence of callbacks and creations passes only through such states |
| SchedulerProperties.NoLostWakeups | test/resources/stimc/stimc.c:411-475 | after every callback of a run nothing is queued, threads ran exactly as often and in the order they were woken, and among them are all threads that any earlier callback woke |
| SchedulerProperties.TriggersWake | test/resources/stimc/stimc.c:467-475 | several triggers empty exactly the triggered events and queue their waiters in the order of the triggers |
| SchedulerProperties.WaitersAreWoken | test/resources/stimc/stimc.c:467-475 | every waiter of a triggered event is among the woken, behind those of earlier triggers |
| SchedulerProperties.StepEffect | test/resources/stimc/stimc.c:411-475 | a step runs the first thread: all its triggers take effect, and it is then last in its event, in the timers or in finished, as its stop says |
| SchedulerProperties.EnterEffect | test/resources/stimc/stimc.c:191-203 | what a callback wakes before the loop starts |
| SchedulerProperties.WokenBySliceRun | test/resources/stimc/stimc.c:411-475 | whoever a running thread wakes has run, in order, when the loop ends |
| SchedulerProperties.WokenByCallbackRun | test/resources/stimc/stimc.c:191-203 | whoever a callback wakes has run, in order, when it is over |
| SchedulerProperties.TriggeredThreadsRunNext | test/resources/stimc/stimc.c:467-475 | wherever a trigger happens, what was queued runs first, then exactly the waiters of that moment, then what is woken later |
| SchedulerModel.StepDecreases | test/resources/stimc/stimc.c:411-437 | every step uses up a slice or a queue entry |
| Gf2.RemainderIsUnique | test/tests/example.crc/testcase.cpp:46-72 | a polynomial has one remainder of lower degree |
| Gf2.SameRemainderIff | test/tests/example.crc/testcase.cpp:46-72 | remainders are equal exactly when the difference is divisible |
| Crc.CalcCrc | test/tests/example.crc/testcase.cpp:46-86 | for every message, width and polynomial the register is (init x^n + M x^W) mod G, read reversed when refout is set, with nothing above W bits; dividend and generator are given by the bits of init, message bytes and polynomial |
| Crc.ReadByte | test/tests/example.crc/testcase.cpp:52-69 | eight turns of the inner loop append the byte's bits, in the order that refin asks for, to the dividend |
| Crc.MessageExponents | test/tests/example.crc/testcase.cpp:52-69 | exponent k of M is bit k % 8 of byte n - 1 - k / 8, or bit 7 - k % 8 with refin |
| Crc.DividendExponents | test/tests/example.crc/testcase.cpp:46-69 | the dividend is the start value at the exponents from 8 n on, plus the message shifted by W |
| Crc.StepKeepsRemainder | test/tests/example.crc/testcase.cpp:54-68 | one turn keeps the register the remainder of what was read |
| Crc.StaleBitsNeverMatter | test/tests/example.crc/testcase.cpp:54-57 | bits above W never influence the low W bits |
| Crc.RefinReversesBytes | test/tests/example.crc/testcase.cpp:58-68 | refin is per-byte bit reversal of the message |
| Crc.Reflect | test/tests/example.crc/testcase.cpp:76-84 | the loop reverses the low W bits |
| Crc.ReflectionIsInvolution | test/tests/example.crc/testcase.cpp:76-84 | reversing twice gives the register back |
| Crc.CrcIsUnique | test/tests/example.crc/testcase.cpp:46-86 | no other word meets the specification |
| Crc.UndetectedErrors | test/tests/example.crc/testcase.cpp:46-86 | messages of one length share a CRC exactly when the generator divides their difference |

## Left out

- Subtyping: Dafny traits are not used, so the C++ class hierarchy of register devices, and likewise the two Python devices, is one class whose methods choose by kind.
- RegfileDevice.RegfileDev.RfdevWrite: a stack over a byte-lane back end requires word-aligned addresses, since a whole-word write takes full effect exactly there (`RegfileDevice.WholeWordWritesIff`); unused masks may vary, but a bit that some write calls unused is one no reader may rely on.
- RegfileDevice.RegfileDev.WriteBySubword: word-aligned addresses only, for the same reason.
- RegfileRuns.Run: the hardware behind the bus is a memory; registers that change on their own are not modelled.
- RegfileFields.WriteField: fields consist of used bits, as unused bits are those of no field (templates/default/rf/template.icgt.host.cpp:69).
- RegfileFields.ReadField: likewise for fields of used bits.
- GridRouter.AStarGrid: floats are real numbers; the lanes are strictly increasing, as `_grid_coords` builds them, and congestion is not negative; the binary heap is a sequence from which a least tuple is removed.
- GridRouter.Search: callers' negotiation over several wires, and the straight line drawn when no route exists, are not modelled.
- PortPlacement.AssignMonotone: floats are real numbers; for a negative gap, which no caller passes, only the placement itself is stated.
- Layering.WeighNets: clock and reset nets are filtered before, so they are not in its input.
- ConnectionEngine.Connector.Connection: the exact objects are stated for start points that agree on names and force only names they give (the Tcl commands never force any other, lib/ig_tcl.c:1180-1212); when they name one end point differently, which of the names an object has and which of several ports leads out is not stated; what follows the use of a freed tree is not modelled.
- Generation.GenId: object identifiers are triples of kind, owner's name and own name, while the source joins them with '#', so names containing '#' could collide there.
- ConnectionEngine.Connector.CreateParameter: the exact objects are stated under the same condition; what follows the use of a freed tree is not modelled.
- DebugDevice.RegfileDevSubwordDebug: values are given by their bytes, memory never written reads as 0 instead of a random byte, and interactive input is not modelled.
- Memory management and reference counts of the database, logging and warnings, and the clean-up after failed creations.
- ThreadQueues.ThreadQueue: the buffer is a sequence, and growing means the intended number of elements; the byte count passed to realloc is not modelled.
- Scheduling.Scheduler: within one callback threads are finite scripts of slices, and callbacks do not interrupt each other; simulator time, value access and event deletion are not modelled.
- Crc.CalcCrc: widths 1 to 31; words are their 32 bits; the length is not limited to 255, so the source's range is included.
- BitSets.Bits: Python integers are non-negative; an all-ones mask appears as a set that contains the word's bits.
- RegisterEntry.RegfileEntry: reset() and reset values, warnings, and reads that find the hardware changed are not modelled.
- RegisterFields.GetValue: field construction from text and attribute access by name are not modelled.
- The Tcl command layer, templates, simulator bindings, drawing output, label sizes, legends and the iterative ordering heuristics of the schematic.
