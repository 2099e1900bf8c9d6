# gfg frame graph: a Dafny model

This project models the frame-graph compiler of gfg. A frame graph is a
set of named render passes. Each pass lists the render targets it samples
and the ones it writes.

`FrameGraph::finalize` in `include/frameGraph/frameGraph.h` compiles such a
graph in four steps:
1. It drops the render-target nodes it built the last time.
2. It builds one render-target node per declared output. The target's
   writer is the first pass in key order that declares it, and its readers
   are the passes that sample it.
3. It orders the graph. It walks back from the end nodes (`findEndNodes`,
   `_recursePushBack`), reverses that walk and keeps the first copy of each
   name.
4. It gives every output an image. It counts the uses of each target along
   the order. When a target's count is 0, its image has the right format,
   and the image's height and width equal the pass's width and height (the
   compare is transposed, see Findings), its image is handed on; otherwise
   a new image `"<name>_img"` is created.

`main.cpp` holds an older prototype of the same compiler. There, passes
and targets are a single `Node` type told apart by the strings
`"renderPass"` and `"renderTarget"`. `allocateImages` plays the part of
`finalize`, and it hands on images by name only.

Both `std::map`s are Dafny `map`s. Their iteration order is the strict
lexicographic order of `KeyOrder.SortedKeys`. A C++ exception
(`std::out_of_range` from `.at`, `std::bad_variant_access` from `std::get`,
`std::runtime_error`) becomes a `Failure` value. The state is whatever the
exception left behind.

## Modules and files

| File | Module | What it holds |
|---|---|---|
| `errors.dfy` | `Errors` | `Failure`, `Option`, `Result` |
| `ordering.dfy` | `KeyOrder` | the key order of `std::map<std::string, …>`, its least element and the sorted key list |
| `counts.dfy` | `UseCounts` | `std::map<std::string, int32_t>` use counts: `operator[]++` and `.at()--` |
| `formats.dfy` | `Formats` | `FrameGraphFormat`, `isDepth` |
| `nodes.dfy` | `Nodes` | the node types of `frameGraph.h`, end nodes, the dependency graph |
| `execorder.dfy` | `ExecOrder` | the generic walk, reverse and dedup of `findExecutionOrder` (shared by both cores), and the in-place reverse and remove-repeats loops |
| `generate.dfy` | `Generate` | `generateImages` of `frameGraph.h` as functions |
| `allocate.dfy` | `Allocate` | the counting, search and allocation loops of `finalize` as functions |
| `finalize.dfy` | `Finalize` | `finalize` as a whole, and why running it twice is the same as running it once |
| `framegraph.dfy` | `Graph` | class `FrameGraph` of `frameGraph.h`, with the loops proved against the functions |
| `prototype.dfy` | `Prototype` | the `Node` of `main.cpp`, its `generateImages`, `findEndNodes`, `findExecutionOrder` and `findRenderTargetThatIsNotBeingUsed` as functions |
| `proto_allocate.dfy` | `ProtoAllocate` | `allocateImages` of `main.cpp` as functions |
| `proto_graph.dfy` | `ProtoGraph` | class `FrameGraph` of `main.cpp`, with the loops proved against the functions |

Ideas the modules rely on:
- **Termination.** `_recursePushBack` has no cycle check, and it runs
  without end on a cycle that an end node reaches
  (`Finalize.SelfSampleDiverges`). The model requires the whole
  dependency graph to be acyclic (`Orderable`, `Terminates`) and carries a
  ghost rank that decreases along dependencies. That is stronger than the
  source needs: a cycle that no end node reaches is never walked
  (`Finalize.UnreachedCycle`), and such graphs are left out.
  `ExecutionOrderAnyRank` shows the order does not depend on which rank is
  picked.
- **Counts.** The allocation proofs maintain `UseCounts.CountsMatch`. Every
  count equals the target's remaining uses along the order, or is 1 for a
  target whose image was handed on.

## Model

| member | source | states |
|---|---|---|
| Formats.IsDepth | include/frameGraph/frameGraph.h:304-313 | true exactly for the three depth/stencil formats, never for UNDEFINED or MAX_ENUM |
| Nodes.PassesOnly | include/frameGraph/frameGraph.h:448-458 | the nodes kept by the erase loop are exactly the render passes, with the same values |
| Nodes.DepGraph | include/frameGraph/frameGraph.h:583-603 | one entry per node: a pass descends into its inputs, a target into its writer |
| Nodes.IsEnd | include/frameGraph/frameGraph.h:563-577 | definition: an end node is a target with no readers or a pass with no outputs |
| Nodes.EndNodes | include/frameGraph/frameGraph.h:557-580 | definition: the end nodes in key order, as `findEndNodes` lists them |
| KeyOrder.SortedKeysSpec | include/frameGraph/frameGraph.h:562 | the map iteration order is strictly sorted and lists exactly the keys |
| KeyOrder.LeastSpec | include/frameGraph/frameGraph.h:611 | the first key in iteration order of a nonempty set is in it and below every other member |
| KeyOrder.SortedKeysUnique | include/frameGraph/frameGraph.h:557-580 | a strictly sorted list of a set's members is that set's iteration order |
| UseCounts.Bump | include/frameGraph/frameGraph.h:485-492 | definition: `imageUseCount[n]++` for each name in turn |
| UseCounts.Drop | include/frameGraph/frameGraph.h:534-541 | definition: `imageUseCount.at(n)--` for each name in turn, out_of_range at the first missing key |
| UseCounts.CountsMatch | include/frameGraph/frameGraph.h:496-542 | the invariant of the allocation loop: every remaining use has a count, and each count is its target's uses still to come, or 1 for a target whose image was handed on |
| UseCounts.BumpSpec | include/frameGraph/frameGraph.h:485-492 | `operator[]++` creates exactly the missing keys and adds each name's number of occurrences |
| UseCounts.DropSpec | include/frameGraph/frameGraph.h:534-541 | `.at()--` succeeds iff every name is a key; it keeps the keys and subtracts occurrences; otherwise it throws out_of_range on a name that is not a key |
| UseCounts.DropMatches | include/frameGraph/frameGraph.h:534-541 | retiring a pass's uses from counts that match the remaining uses never throws, and what is left still matches |
| UseCounts.DonorMatches | include/frameGraph/frameGraph.h:527-528 | a count-0 target has no remaining use, so raising its count to 1 keeps the counts matching |
| UseCounts.CountPositive | include/frameGraph/frameGraph.h:487 | a name occurs a positive number of times iff it is in the list |
| ExecOrder.Walk | include/frameGraph/frameGraph.h:583-603 | definition: `_recursePushBack(name)` appends the name, then the walk from each of its dependencies in turn |
| ExecOrder.WalkDeps | include/frameGraph/frameGraph.h:588-601 | definition: the walks from the first `i` dependencies of a name, one after another |
| ExecOrder.WalkFrom | include/frameGraph/frameGraph.h:406-411 | definition: the vector after `_recursePushBack` has run from each end node in turn |
| ExecOrder.Order | include/frameGraph/frameGraph.h:404-421 | definition: the execution order is the first-occurrence dedup of the reversed walk |
| ExecOrder.RankedOn | include/frameGraph/frameGraph.h:583-603 | definition: a rank that decreases along every step of the walk within a set of names the walk does not leave |
| ExecOrder.Reverse | include/frameGraph/frameGraph.h:413 | the reversal has the same length and mirrored elements |
| ExecOrder.Dedup | include/frameGraph/frameGraph.h:414-419 | the remove_if with a `seen` set keeps no repeat, and keeps every element it was given |
| ExecOrder.DedupFirstOccurrence | include/frameGraph/frameGraph.h:414-419 | remove_if with `seen` keeps the first occurrence of each name, in the original order |
| ExecOrder.WalkFromShape | include/frameGraph/frameGraph.h:583-603 | the walk from the end nodes lists each node before all its dependencies, and stays inside the graph |
| ExecOrder.WalkRankFree | include/frameGraph/frameGraph.h:583-603 | the recursive walk does not depend on the rank used to prove that it terminates |
| ExecOrder.ExecutionOrderValid | include/frameGraph/frameGraph.h:404-421 | the execution order has no repeats, holds exactly the nodes the walk reached, and puts every dependency before its node |
| ExecOrder.ExecutionOrderReach | include/frameGraph/frameGraph.h:404-421 | the order holds every end node, is closed under dependencies, and lies inside every dependency-closed set holding the end nodes |
| ExecOrder.ReverseInPlace | include/frameGraph/frameGraph.h:413 | `std::reverse` on the array leaves the reversal of its old contents |
| ExecOrder.RemoveRepeats | include/frameGraph/frameGraph.h:414-419 | remove_if then erase leaves the first-occurrence dedup of the old contents as the array's prefix |
| ExecOrder.ReverseAndRemoveRepeats | include/frameGraph/frameGraph.h:412-420 | copying the walk into a vector, reversing it and removing repeats gives the dedup of the reversed walk |
| Generate.CollectWriters | include/frameGraph/frameGraph.h:637-649 | definition: the writer loop over the passes in turn |
| Generate.Writers | include/frameGraph/frameGraph.h:637-649 | definition: the writer loop over the passes in key order |
| Generate.AddWriter | include/frameGraph/frameGraph.h:640-647 | one pass claims exactly the outputs nobody has claimed yet and leaves earlier claims alone |
| Generate.CollectWritersSpec | include/frameGraph/frameGraph.h:637-649 | exactly the declared outputs get a target, whose writer is the first pass in key order declaring it |
| Generate.FirstInKeyOrder | include/frameGraph/frameGraph.h:637-649 | the first declarer in key order is the least declaring key |
| Generate.WritersAsDeclared | include/frameGraph/frameGraph.h:637-649 | the writer loop makes a target exactly for names with a declarer, written by its least declarer |
| Generate.AddReader | include/frameGraph/frameGraph.h:656-659 | definition: `images.at(in).readers.push_back(name)` for each input in turn, out_of_range at the first missing target |
| Generate.CollectReaders | include/frameGraph/frameGraph.h:653-660 | definition: the reader loop over the passes in turn, stopping at the first exception |
| Generate.ReadersOf | include/frameGraph/frameGraph.h:653-660 | reference definition of a target's readers: each pass in key order, once per input naming it |
| Generate.ReadersOfHas | include/frameGraph/frameGraph.h:656-659 | a pass that samples a name is among that name's readers |
| Generate.AddReaderSpec | include/frameGraph/frameGraph.h:656-659 | one pass's inputs append it once per occurrence; it throws exactly on an input with no target, naming it |
| Generate.CollectReadersSpec | include/frameGraph/frameGraph.h:653-660 | the reader loop throws exactly on a dangling input; otherwise each target gains its readers in key order |
| Generate.GenerateTargets | include/frameGraph/frameGraph.h:630-660 | definition: the writer loop, then the reader loop, over the passes in key order |
| Generate.Generated | include/frameGraph/frameGraph.h:630-668 | definition: `m_nodes` after `generateImages`, the targets copied over the passes by name, or the exception |
| Generate.GeneratedChecked | include/frameGraph/frameGraph.h:664-667 | corrected definition: as `Generated`, but a target named like a pass is refused |
| Generate.GenerateTargetsSpec | include/frameGraph/frameGraph.h:630-668 | generateImages throws out_of_range iff some pass samples a name no pass outputs, and then names such an input; otherwise it builds the declared targets |
| Generate.AsNodes | include/frameGraph/frameGraph.h:664-667 | the copied nodes are the targets, key for key |
| Generate.TargetKeys | include/frameGraph/frameGraph.h:630-660 | the generated targets are exactly the declared output names, and the only exception is out_of_range |
| Generate.GeneratedDropsPass | include/frameGraph/frameGraph.h:664-667 | as written, a pass named like a declared output is replaced by that target in `m_nodes` |
| Generate.GeneratedCheckedOk | include/frameGraph/frameGraph.h:630-668 | the checked generation succeeds iff no input dangles and no pass is named like an output |
| Generate.GeneratedCheckedKeepsPasses | include/frameGraph/frameGraph.h:664-667 | when the checked generation succeeds it equals the generation as written and keeps every pass unchanged |
| Generate.GeneratedCheckedRefuses | include/frameGraph/frameGraph.h:664-667 | the checked generation refuses a name collision only where the generation as written would replace a pass |
| Allocate.CountPass | include/frameGraph/frameGraph.h:484-492 | definition: `imageUseCount[n]++` for a pass's outputs, then its inputs |
| Allocate.CountUses | include/frameGraph/frameGraph.h:479-494 | definition: the counting loop over the order, `m_nodes.at` throwing on a name that is not a node |
| Allocate.FreshImage | include/frameGraph/frameGraph.h:513-522 | definition: the image `<o>_img` with the output's format and the pass's extent |
| Allocate.AssignOutput | include/frameGraph/frameGraph.h:507-529 | definition: one output iteration: `m_nodes.at`, `std::get`, the search, then a fresh image or the donor's image with the donor's count bumped, or the exception |
| Allocate.AssignOutputs | include/frameGraph/frameGraph.h:505-530 | definition: the output loop of a pass, stopping at the first exception |
| Allocate.Retire | include/frameGraph/frameGraph.h:534-541 | definition: `imageUseCount.at(n)--` over the names, or the exception |
| Allocate.ProcessPass | include/frameGraph/frameGraph.h:501-541 | definition: assign the outputs, then retire the outputs, then the inputs |
| Allocate.AllocateStep | include/frameGraph/frameGraph.h:498-542 | definition: one name of the allocation loop: `m_nodes.at(name)`, and a pass is processed |
| Allocate.AllocateOrder | include/frameGraph/frameGraph.h:496-542 | definition: the allocation loop over the order, stopping at the first exception |
| Allocate.Scan | include/frameGraph/frameGraph.h:611-625 | a found name is one of the keys, has count 0, has an image and fits |
| Allocate.FindUnused | include/frameGraph/frameGraph.h:607-626 | a non-empty result is a count-0 target whose image exists and fits the pass and format |
| Allocate.ScanFirstFit | include/frameGraph/frameGraph.h:611-625 | the search is first-fit along the keys and throws at the first count-0 key it cannot inspect |
| Allocate.FindUnusedFirstFit | include/frameGraph/frameGraph.h:607-626 | every key before the returned one (in key order) has nonzero count or an image that does not fit |
| Allocate.FindUnusedNoneFits | include/frameGraph/frameGraph.h:625 | `""` means no count-0 target fits, unless the fitting target is itself named `""` |
| Allocate.FindUnusedThrows | include/frameGraph/frameGraph.h:615-617 | an exception names the first count-0 key that is not a target or whose image is missing |
| Allocate.CountPassSpec | include/frameGraph/frameGraph.h:484-492 | counting a pass adds one per output and per input occurrence |
| Allocate.CountUsesSpec | include/frameGraph/frameGraph.h:479-494 | the counting loop succeeds iff every name of the order is a node; each count is that target's occurrences among the uses of the passes of the order |
| Allocate.CountsMatchInitially | include/frameGraph/frameGraph.h:479-494 | the counting loop starts the allocation loop with counts matching all uses |
| Allocate.CountsNonNegative | include/frameGraph/frameGraph.h:465 | a count that matches the remaining uses is never negative |
| Allocate.OwnTargetsInUse | include/frameGraph/frameGraph.h:505-530 | while its outputs are assigned, every target a pass uses has count at least 1, so it is never its own donor |
| Allocate.AssignOutputCounts | include/frameGraph/frameGraph.h:505-530 | assigning an output keeps the passes and the count invariant; the counts are unchanged or one count-0 donor moves to 1 |
| Allocate.AssignOutputsCounts | include/frameGraph/frameGraph.h:505-530 | the output loop of a pass keeps the count invariant and the passes |
| Allocate.RetireCounts | include/frameGraph/frameGraph.h:534-541 | retiring a pass's uses cannot throw; it keeps the invariant for what remains and changes no node or image |
| Allocate.ProcessPassCounts | include/frameGraph/frameGraph.h:501-541 | processing one pass consumes exactly its uses from the counts |
| Allocate.AllocateStepCounts | include/frameGraph/frameGraph.h:496-542 | one name of the allocation loop consumes the uses it contributed |
| Allocate.AllocateOrderCounts | include/frameGraph/frameGraph.h:496-542 | after the passes of a prefix of the order, the counts match the uses of the passes still to come |
| Allocate.AllocateOrderFinalCounts | include/frameGraph/frameGraph.h:479-542 | a run without exception ends with every count 0, or 1 for a donor, so no count goes negative |
| Allocate.AssignOutputKeepsDonor | include/frameGraph/frameGraph.h:507-529 | an output assignment leaves a count of 1 at 1, and the search never returns a target whose count is 1 |
| Allocate.AssignOutputsKeepsDonor | include/frameGraph/frameGraph.h:505-530 | a pass's output loop leaves a count of 1 at 1 |
| Allocate.RetireKeepsDonor | include/frameGraph/frameGraph.h:534-541 | retiring matched uses that do not name a donor leaves it a donor |
| Allocate.ProcessPassKeepsDonor | include/frameGraph/frameGraph.h:501-541 | processing a pass keeps a donor a donor for the uses still to come |
| Allocate.AllocateStepKeepsDonor | include/frameGraph/frameGraph.h:496-542 | one name of the allocation loop keeps a donor a donor |
| Allocate.AllocateOrderKeepsDonor | include/frameGraph/frameGraph.h:496-542 | once a target has handed its image on, its count stays 1 to the end of the loop, so the search never returns it again and it hands its image on only once |
| Allocate.AssignOutputUsable | include/frameGraph/frameGraph.h:507-529 | an output assignment keeps every target whose image exists in that state, and leaves the assigned target with an image that exists |
| Allocate.AssignOutputsUsable | include/frameGraph/frameGraph.h:505-530 | a pass's output loop, when it does not throw, leaves each of its outputs with an image that exists |
| Allocate.AssignOutputCompletes | include/frameGraph/frameGraph.h:505-530 | when the image of every count-0 target exists, the search cannot throw, and the assignment keeps that so |
| Allocate.AssignOutputsCompletes | include/frameGraph/frameGraph.h:505-530 | a pass's output loop over targets does not throw and keeps every count-0 target's image existing |
| Allocate.RetireCompletes | include/frameGraph/frameGraph.h:534-541 | retiring matched uses of targets with images cannot throw and keeps every count-0 target's image existing |
| Allocate.ProcessPassCompletes | include/frameGraph/frameGraph.h:501-541 | a pass whose outputs are targets and whose inputs have images is processed without an exception and leaves each of its outputs with an image |
| Allocate.InputWrittenBefore | include/frameGraph/frameGraph.h:583-603 | along an order that lists dependencies first, the pass writing a sampled target comes before the pass sampling it |
| Allocate.AllocateStepCompletes | include/frameGraph/frameGraph.h:496-542 | one name of the allocation loop keeps a run free of exceptions, with every count-0 target and every output so far having an image |
| Allocate.AllocateOrderCompletes | include/frameGraph/frameGraph.h:496-542 | along the whole order the loop never throws, every count-0 target and every output written so far has an image, and the counts match the uses still to come |
| Allocate.AllocateCompletes | include/frameGraph/frameGraph.h:479-542 | on a graph whose pass outputs are targets and whose sampled targets are written by a pass, along an order that lists dependencies first, the counting and allocation loops run to the end without an exception |
| Allocate.AssignOutputImages | include/frameGraph/frameGraph.h:510-524 | assigning an output writes at most the image of its `_img` name and keeps the passes |
| Allocate.AssignOutputsImages | include/frameGraph/frameGraph.h:505-530 | a pass's output loop writes only the `_img` images of its outputs |
| Allocate.AllocateStepImages | include/frameGraph/frameGraph.h:496-542 | one name of the allocation loop writes only its own outputs' `_img` images |
| Allocate.AllocateOrderImages | include/frameGraph/frameGraph.h:496-542 | the allocation loop keeps the passes, removes no image, and writes only `ImageName(o)` for outputs `o` of passes of the order |
| Allocate.ImagesGrowTrans | include/frameGraph/frameGraph.h:523 | writing images at `s` and then at `t` writes them at `s + t` |
| Allocate.ImageNamesBound | include/frameGraph/frameGraph.h:513 | there are no more `_img` names than output names |
| Allocate.FreshImagesBound | include/frameGraph/frameGraph.h:496-542 | a run creates at most one new image per distinct output name |
| Allocate.AssignOutputIntended | include/frameGraph/frameGraph.h:618 | with the intended compare, an assigned target gets an image of its declared format and its pass's extent, fresh or handed on |
| Allocate.TransposedKeys | include/frameGraph/frameGraph.h:611 | the counterexample state iterates `X` before `Z` |
| Allocate.TransposedReuse | include/frameGraph/frameGraph.h:618 | as written, a 200x100 pass gets the 100x200 image `X_img`; with the intended compare it gets a new 200x100 `Z_img` |
| Finalize.Orderable | include/frameGraph/frameGraph.h:404-421 | definition: the dependency graph is closed and acyclic, so the walk ends from every node |
| Finalize.ExecutionOrder | include/frameGraph/frameGraph.h:404-421 | definition: `findExecutionOrder`, the order of the walk from the end nodes |
| Finalize.Terminates | include/frameGraph/frameGraph.h:459-461 | the precondition of the model: the regenerated graph is orderable |
| Finalize.FinalizeSpec | include/frameGraph/frameGraph.h:446-543 | definition: erase the targets, regenerate them, then order, count and allocate, or the exception of `generateImages` |
| Finalize.AllocateGraph | include/frameGraph/frameGraph.h:461-542 | definition: the order of the generated graph, the counting loop and the allocation loop, with the first exception |
| Finalize.SelfSampleCycles | include/frameGraph/frameGraph.h:583-603 | a pass that samples a target only it writes makes the regenerated graph cyclic, so `Terminates` fails |
| Finalize.SelfSampleDiverges | include/frameGraph/frameGraph.h:583-603 | when also a pass with no outputs samples that target, it is an end node, the walk from it reaches the cycle, and no set of names holding it bounds the recursion, so `_recursePushBack` does not end |
| Finalize.NoEndNodes | include/frameGraph/frameGraph.h:557-580 | when every pass outputs something and every output is sampled, the regenerated graph has no end node, so the walk starts from no name |
| Finalize.UnreachedCycle | include/frameGraph/frameGraph.h:404-421 | for one pass sampling the target it outputs, `Terminates` fails, yet there is no end node, so the source never enters the cycle |
| Finalize.EndNodesInGraph | include/frameGraph/frameGraph.h:557-580 | every end node is a node of the dependency graph |
| Finalize.ExecutionOrderAnyRank | include/frameGraph/frameGraph.h:404-421 | the execution order is the walk-reverse-dedup for any rank that shows termination |
| Finalize.ScanTwin | include/frameGraph/frameGraph.h:611-625 | the search reads only the images of targets |
| Finalize.FindUnusedTwin | include/frameGraph/frameGraph.h:607-626 | two image maps that agree on the targets' images give the same search result |
| Finalize.TwinAgree | include/frameGraph/frameGraph.h:617 | two runs related by `Twin` agree on every target's image |
| Finalize.FreshTwin | include/frameGraph/frameGraph.h:510-524 | the fresh-image branch keeps two related runs related |
| Finalize.ReuseTwin | include/frameGraph/frameGraph.h:525-529 | the hand-on branch keeps two related runs related |
| Finalize.AssignOutputTwin | include/frameGraph/frameGraph.h:505-530 | one output assignment keeps two related runs related |
| Finalize.AssignOutputsTwin | include/frameGraph/frameGraph.h:505-530 | a pass's output loop keeps two related runs related |
| Finalize.RetireTwin | include/frameGraph/frameGraph.h:534-541 | the decrements keep two related runs related |
| Finalize.AllocateStepTwin | include/frameGraph/frameGraph.h:496-542 | one name of the allocation loop keeps two related runs related |
| Finalize.AllocateOrderTwin | include/frameGraph/frameGraph.h:496-542 | the allocation loop reads no image except those it wrote itself, or the one named `""` |
| Finalize.PassesOnlyOfSame | include/frameGraph/frameGraph.h:448-458 | graphs whose passes agree erase to the same graph |
| Finalize.PassesOnlyOverTargets | include/frameGraph/frameGraph.h:448-458 | erasing the copied targets gives back the passes |
| Finalize.GeneratedKeepsPasses | include/frameGraph/frameGraph.h:630-668 | without a name collision, generation keeps every pass, and its targets have no image name yet |
| Finalize.AllocateKeepsPasses | include/frameGraph/frameGraph.h:461-542 | the allocation keeps every pass |
| Finalize.TwinSettles | include/frameGraph/frameGraph.h:496-542 | a run started from the images the first run left ends where the first run ended |
| Finalize.AllocateOrderSettles | include/frameGraph/frameGraph.h:496-542 | a second allocation loop, started from the images the first one left, repeats the first exactly |
| Finalize.AllocateAgain | include/frameGraph/frameGraph.h:461-542 | allocating the same graph again, from the images the first allocation left, gives the same outcome |
| Finalize.FinalizeIdempotent | include/frameGraph/frameGraph.h:446-543 | finalize twice equals finalize once, with or without an exception, when no pass shares a name with a target |
| Finalize.GeneratedWellFormed | include/frameGraph/frameGraph.h:630-668 | without a name collision, every output of a pass of the regenerated graph is a target, and every sampled target's writer is a pass that outputs it |
| Finalize.FinalizeFails | include/frameGraph/frameGraph.h:446-626 | without a name collision, finalize throws exactly when some pass samples a name no pass outputs, and the exception is then `std::out_of_range` naming such an input; nothing in the counting or allocation loops throws |
| Finalize.OutputNamesDeclared | include/frameGraph/frameGraph.h:505 | every output name of the order is declared by some pass |
| Finalize.GeneratedPassesFrom | include/frameGraph/frameGraph.h:664-667 | every pass of the generated graph comes unchanged from the input graph |
| Finalize.FinalizeImages | include/frameGraph/frameGraph.h:446-543 | `m_images` is never cleared; the only images added or replaced are `o + "_img"` for outputs `o` that some pass declares |
| Graph.FrameGraph.constructor | include/frameGraph/frameGraph.h:672-673 | both maps start empty |
| Graph.FrameGraph.CreateRenderPass | include/frameGraph/frameGraph.h:430-436 | the name maps to a new empty pass of extent 0, replacing any node of that name; images are untouched |
| Graph.FrameGraph.Input | include/frameGraph/frameGraph.h:360-364 | appends a sampled definition of the name with format UNDEFINED; nothing else changes |
| Graph.FrameGraph.Output | include/frameGraph/frameGraph.h:365-369 | appends an output definition with its format, which defaults to UNDEFINED; nothing else changes |
| Graph.FrameGraph.SetExtent | include/frameGraph/frameGraph.h:370-375 | sets the pass's width and height; nothing else changes |
| Graph.FrameGraph.EraseTargets | include/frameGraph/frameGraph.h:448-458 | the nodes become exactly the passes |
| Graph.FrameGraph.GenerateImages | include/frameGraph/frameGraph.h:630-668 | on success the nodes are the passes plus the generated targets; on an exception nothing changed |
| Graph.FrameGraph.Finalize | include/frameGraph/frameGraph.h:446-543 | the new nodes, images and exception are those of the finalize function, with the extent compare as written |
| Graph.EraseTargetLoop | include/frameGraph/frameGraph.h:448-458 | the erase loop leaves exactly the passes |
| Graph.CollectWriterLoop | include/frameGraph/frameGraph.h:637-649 | the nested writer loop computes the writer map |
| Graph.CollectReaderLoop | include/frameGraph/frameGraph.h:653-660 | the nested reader loop computes the reader lists, or the exception |
| Graph.CopyTargetLoop | include/frameGraph/frameGraph.h:664-667 | the copy loop overrides the nodes with the targets |
| Graph.FindEndNodes | include/frameGraph/frameGraph.h:557-580 | the loop lists the end nodes in key order |
| Graph.RecursePushBack | include/frameGraph/frameGraph.h:583-603 | appends the walk from the name to the order |
| Graph.PushBackDeps | include/frameGraph/frameGraph.h:591-594 | the loop over a pass's inputs appends their walks in turn |
| Graph.FindExecutionOrder | include/frameGraph/frameGraph.h:404-421 | computes the execution order: walk, in-place reverse, in-place remove of repeats |
| Graph.FindImageThatIsNotBeingUsed | include/frameGraph/frameGraph.h:607-626 | the loop computes the search with the transposed compare as written (image height against pass width, image width against pass height), exception included |
| Graph.IncrementAll | include/frameGraph/frameGraph.h:485-492 | the `++` loop computes the counts |
| Graph.DecrementAll | include/frameGraph/frameGraph.h:534-541 | the `.at()--` loop computes the counts, or the exception |
| Graph.CountImageUses | include/frameGraph/frameGraph.h:479-494 | the counting loop computes the counts, or out_of_range for a name that is not a node |
| Graph.AssignOneOutput | include/frameGraph/frameGraph.h:507-529 | one output iteration with the compare as written: fresh image, hand-on, or exception |
| Graph.AssignOutputLoop | include/frameGraph/frameGraph.h:505-530 | the output loop of a pass, with the compare as written, which stops at the first exception |
| Graph.RetireAll | include/frameGraph/frameGraph.h:534-541 | one decrement loop of a pass |
| Graph.ProcessOnePass | include/frameGraph/frameGraph.h:501-541 | one pass of the allocation loop, with the compare as written |
| Graph.AllocateLoop | include/frameGraph/frameGraph.h:496-542 | the allocation loop over the order, with the compare as written, which stops at the first exception |
| Prototype.AddWriter | main.cpp:127-136 | definition: a target for each output of one node that no earlier node output |
| Prototype.CollectWriters | main.cpp:125-137 | definition: the writer loop over the nodes in turn |
| Prototype.AddReader | main.cpp:141-144 | definition: `images.at(in).outputNodes.push_back(name)` for each input node in turn, out_of_range at the first missing target |
| Prototype.CollectReaders | main.cpp:139-145 | definition: the reader loop over the nodes in turn, stopping at the first exception |
| Prototype.GenerateTargets | main.cpp:118-145 | definition: the writer loop, then the reader loop, over the nodes in key order |
| Prototype.Generated | main.cpp:118-153 | definition: `nodes` after `generateImages`, the targets copied over the nodes by name, or the exception |
| Prototype.EndNodes | main.cpp:63-72 | definition: the nodes with no output nodes, in key order |
| Prototype.ExecutionOrder | main.cpp:84-101 | definition: `findExecutionOrder`, the order of the walk from the end nodes |
| Prototype.AddWriterSpec | main.cpp:127-136 | one node claims exactly its unclaimed outputs as `"renderTarget"` nodes whose input node is that node |
| Prototype.CollectWritersSpec | main.cpp:125-137 | exactly the output names get a target, whose only input node is the first node in key order outputting it |
| Prototype.AddReaderSpec | main.cpp:141-144 | a node's inputs append it once per occurrence; it throws out_of_range exactly on an input with no target |
| Prototype.CollectReadersSpec | main.cpp:139-145 | the reader loop throws exactly on a dangling input, else appends each target's readers in key order |
| Prototype.FirstInKeyOrder | main.cpp:125-137 | the first node in key order that outputs a name is the least node outputting it |
| Prototype.GenerateTargetsSpec | main.cpp:118-153 | generateImages throws iff some node inputs a name no node outputs, naming such an input; otherwise each target has the first writer as input node and one output-node entry per reading occurrence |
| Prototype.EndNodesSpec | main.cpp:63-72 | end nodes are sorted and duplicate-free, and are exactly the nodes with no output nodes |
| Prototype.DepGraph | main.cpp:75-83 | one entry per node; its dependencies are its input nodes |
| Prototype.ExecutionOrderAnyRank | main.cpp:84-101 | the order is the walk-reverse-dedup for any rank that shows termination |
| Prototype.ExecutionOrderSpec | main.cpp:84-101 | the order has no repeats, names only nodes, includes every end node, and puts every input node before its consumer |
| Prototype.ScanZero | main.cpp:108-115 | a non-empty result is one of the keys, with count 0 |
| Prototype.FirstUnused | main.cpp:106-116 | a non-empty result is a key with count 0 |
| Prototype.ScanZeroSpec | main.cpp:108-115 | `""` with every count nonzero, or the first key whose count is 0 |
| Prototype.FirstZeroIsLeast | main.cpp:106-116 | the first zero-count key in key order is the least zero-count key |
| Prototype.FirstUnusedSpec | main.cpp:106-116 | `""` when no count is 0, otherwise the least zero-count key; no format or extent is compared |
| ProtoAllocate.AssignOutput | main.cpp:213-226 | definition: one output iteration: `nodes.at(o)`, the search, then `<o>_img` or the donor's image with the donor's count bumped, or the exception |
| ProtoAllocate.AssignOutputs | main.cpp:211-227 | definition: the output loop of a pass, stopping at the first exception |
| ProtoAllocate.Retire | main.cpp:230-239 | definition: `renderTargetUseCount.at(n)--` over the names, or the exception |
| ProtoAllocate.ProcessPass | main.cpp:207-239 | definition: assign the output nodes, then retire the output nodes, then the input nodes |
| ProtoAllocate.AllocateStep | main.cpp:204-240 | definition: one name of the allocation loop: `nodes.at(name)`, and a `"renderPass"` node is processed |
| ProtoAllocate.AllocateOrder | main.cpp:204-241 | definition: the allocation loop over the order, stopping at the first exception |
| ProtoAllocate.CountPass | main.cpp:193-200 | definition: `[]++` for a pass's output nodes, then its input nodes |
| ProtoAllocate.CountUses | main.cpp:188-202 | definition: the counting loop over the order, `nodes.at` throwing on a name that is not a node |
| ProtoAllocate.Terminates | main.cpp:169-171 | the precondition of the model: the regenerated graph is orderable |
| ProtoAllocate.AllocateImages | main.cpp:156-242 | definition: erase the targets, regenerate them, then order, count and allocate, with the first exception |
| ProtoAllocate.Erase | main.cpp:158-168 | exactly the nodes whose type is not `"renderTarget"` are kept, with the same values |
| ProtoAllocate.PassUsesConcat | main.cpp:188-202 | the uses along two orders concatenate |
| ProtoAllocate.CountPassSpec | main.cpp:191-200 | counting a pass adds one per output and input occurrence, creating missing keys |
| ProtoAllocate.CountUsesSpec | main.cpp:188-202 | the counting loop succeeds iff every name is a node; each count is that name's occurrences among the uses of the `"renderPass"` nodes of the order |
| ProtoAllocate.AssignOutputChoice | main.cpp:211-226 | `"<o>_img"` when no count is 0; otherwise the least zero-count target's imageResource is copied and its count goes from 0 to 1 |
| ProtoAllocate.AssignOutputRuns | main.cpp:211-226 | on a closed graph, one output assignment does not throw and keeps the run invariant |
| ProtoAllocate.AssignOutputsRuns | main.cpp:211-227 | the output loop of a pass keeps the run invariant |
| ProtoAllocate.ProcessPassRuns | main.cpp:207-239 | a pass is processed without throwing and consumes exactly its uses |
| ProtoAllocate.AllocateStepRuns | main.cpp:204-240 | one name of the allocation loop keeps the run invariant for what remains |
| ProtoAllocate.AllocateOrderRuns | main.cpp:204-241 | along the order the loop never throws, changes only imageResource, and consumes exactly the uses of the passes |
| ProtoAllocate.ReadersOfIn | main.cpp:139-145 | every reader added to a target is a node |
| ProtoAllocate.GeneratedClosed | main.cpp:118-153 | the regenerated graph links only to its own nodes, and its targets are the generated ones |
| ProtoAllocate.AllocateRuns | main.cpp:171-241 | with no dangling input, counting and allocation run from start to end without exception |
| ProtoAllocate.PassUsesIn | main.cpp:188-202 | every use of a pass on a closed graph is a node |
| ProtoAllocate.FinalCounts | main.cpp:204-241 | at the end every count is 0, or 1 for a donor |
| ProtoAllocate.AllocateImagesFails | main.cpp:156-242 | allocateImages throws iff some non-target node inputs a name nothing outputs; the exception is out_of_range naming such an input |
| ProtoAllocate.AllocateImagesTargets | main.cpp:156-242 | afterwards the graph is the regenerated one up to imageResource, and every target's input node is its least writer |
| ProtoGraph.FrameGraph.constructor | main.cpp:291-292 | both maps start empty |
| ProtoGraph.FrameGraph.InsertNode | main.cpp:51-60 | throws "Already exists" and changes nothing on a present name; otherwise adds a node with that name and type and empty lists |
| ProtoGraph.FrameGraph.InsertOutputNode | main.cpp:36-40 | appends one output node; nothing else changes |
| ProtoGraph.FrameGraph.InsertInputNode | main.cpp:41-45 | appends one input node; nothing else changes |
| ProtoGraph.FrameGraph.SetOutputs | main.cpp:18-25 | appends all the names, in order, to the output nodes |
| ProtoGraph.FrameGraph.SetInputs | main.cpp:27-34 | appends all the names, in order, to the input nodes |
| ProtoGraph.FrameGraph.CreateRenderPass | main.cpp:259-262 | insertNode with type `"renderPass"` |
| ProtoGraph.FrameGraph.CreateRenderPassWith | main.cpp:264-281 | a new pass whose lists are `ins + ins` and `outs + outs`, with `ins` empty by default, or "Already exists" with nothing changed |
| ProtoGraph.FrameGraph.GenerateImages | main.cpp:118-153 | on success the nodes are the old ones overridden by the generated targets; on an exception nothing changed |
| ProtoGraph.FrameGraph.AllocateImages | main.cpp:156-242 | the new nodes and the exception are those of the allocateImages function; `m_images` is untouched |
| ProtoGraph.EraseRenderTargets | main.cpp:158-168 | the erase loop computes the erasure |
| ProtoGraph.CollectWriterLoop | main.cpp:125-137 | the nested writer loop computes the writer map |
| ProtoGraph.CollectReaderLoop | main.cpp:139-145 | the nested reader loop computes the readers, or the exception |
| ProtoGraph.CopyTargetLoop | main.cpp:149-152 | the copy loop overrides the nodes with the targets |
| ProtoGraph.FindEndNodes | main.cpp:63-72 | the loop computes the end nodes |
| ProtoGraph.RecursePushBack | main.cpp:75-83 | appends the walk from the name to the order |
| ProtoGraph.FindExecutionOrder | main.cpp:84-101 | computes the execution order: walk, in-place reverse, in-place remove of repeats |
| ProtoGraph.FindRenderTargetThatIsNotBeingUsed | main.cpp:106-116 | the loop computes the least zero-count key, or `""` |
| ProtoGraph.IncrementAll | main.cpp:193-200 | the `[]++` loop computes the counts |
| ProtoGraph.DecrementAll | main.cpp:230-239 | the `.at()--` loop computes the counts, or the exception |
| ProtoGraph.CountTargetUses | main.cpp:188-202 | the counting loop computes the counts, or out_of_range for a name that is not a node |
| ProtoGraph.AssignOneOutput | main.cpp:213-226 | one output iteration: new `_img` name, a copied donor name, or an exception |
| ProtoGraph.AssignOutputLoop | main.cpp:211-227 | the output loop of a pass, which stops at the first exception |
| ProtoGraph.RetireAll | main.cpp:230-239 | one decrement loop of a pass |
| ProtoGraph.ProcessOnePass | main.cpp:207-239 | one pass of the allocation loop |
| ProtoGraph.AllocateLoop | main.cpp:204-241 | the allocation loop over the order, which stops at the first exception |

## Left out

- Executors, the OpenGL and Vulkan back ends, shaders and windowing are not part of this model, and neither is `openGLGraph.h`.
- `ExecutorBase`'s resize rule is not part of this model. That rule replaces an extent whose 32-bit area is 0 by the window size.
- The `_print` lambdas and all `spdlog` output are left out because they only log. The `_print` inside the allocation loop calls `std::get<RenderTargetNode>` on every count key, so it could throw only on a key that is not a target. Under the hypotheses of `Finalize.FinalizeFails`, every key is a target (`Allocate.OutputsAreTargets`, `Allocate.InputsWritten`).
- `getImages` and `getNodes` are left out: they are plain accessors of the two maps.
- The numeric values of `FrameGraphFormat` are left out. The core compares formats only for equality.
- Both `std::map<std::string, int32_t>` counts are unbounded integers. A count would need more than 2^31 uses of one target to wrap, so the model does not capture `int32_t` overflow.
- Graph.FrameGraph.Input, Graph.FrameGraph.Output, Graph.FrameGraph.SetExtent: the C++ builders act on the `RenderPassNode &` that `createRenderPass` returns. The model names the pass by its key instead. It therefore requires that key to be a pass, which is what the reference points to. The same holds for ProtoGraph.FrameGraph.InsertOutputNode, ProtoGraph.FrameGraph.InsertInputNode, ProtoGraph.FrameGraph.SetOutputs and ProtoGraph.FrameGraph.SetInputs.
- A reference into `m_nodes` kept across a later `createRenderPass` is not modelled. Nor is any aliasing between such references.
- Graph.FrameGraph.GenerateImages: requires every node to be a pass, so the `std::bad_variant_access` that `std::get<RenderPassNode>` would throw on a target node is left out. The only caller, `finalize`, erases the targets first.
- Graph.FrameGraph.Finalize: requires `Terminates`, meaning the whole regenerated graph is acyclic. The source has no cycle check. On a cycle that an end node reaches, `_recursePushBack` recurses until the stack runs out (`Finalize.SelfSampleDiverges`), and that is not modelled.
- ProtoGraph.FrameGraph.AllocateImages: requires `Terminates` for the same reason.
- Graph.FindExecutionOrder requires an acyclic graph for the same reason, and so does ProtoGraph.FindExecutionOrder. Both therefore also exclude graphs whose cycles no end node reaches, on which the source returns.
- Graph.FrameGraph.Finalize, Finalize.FinalizeSpec, Finalize.FinalizeFails and Finalize.FinalizeIdempotent also exclude graphs with a cycle that no end node reaches, although the source returns on them. The walk never enters such a cycle, so its passes are left out of the order and their outputs get no image (`Finalize.UnreachedCycle`, `Finalize.NoEndNodes`). The same holds for ProtoGraph.FrameGraph.AllocateImages and ProtoAllocate.AllocateImages.
- Finalize.FinalizeFails assumes that no pass is named like one of the targets. With such a collision the overwritten pass writes nothing. A target that only it declared can then reach count 0 with image name `""`, and the search can throw `std::out_of_range` on it. That case is not characterised.
- Finalize.FinalizeIdempotent assumes that no pass is named like one of the targets. Otherwise `nodes[n] = i` in `generateImages` overwrites that pass (see Findings), and a second run sees a different graph.
- The `assert(!N.writer.empty())` in `_recursePushBack` is not modelled. Every generated target has a writer that is a node of the graph.
- The loops over `std::map` entries are modelled as loops over the sorted keys of a map value. The class then reassigns the map. The C++ erases while iterating in place, and that in-place iteration is not captured.
- `_findImageThatIsNotBeingUsed` and `findRenderTargetThatIsNotBeingUsed` return `""` both for "nothing found" and for a target named `""`. The model keeps that ambiguity, as written: see `Allocate.FindUnusedNoneFits` and `Prototype.ScanZeroSpec`.
- `m_images` of `main.cpp` is a field of the class, but no member reads or writes it.
- The `type` field of the prototype's `Node` is named `kind` in the model, because `type` is a Dafny keyword.
- The two-list `createRenderPass` of `main.cpp` puts each name into the lists twice: once through `setInputs`/`setOutputs` and once through its own loops. The model keeps this as written, and the counting lemmas count every occurrence.
- The scenario at the end of `main.cpp` and the unit tests are not restated as lemmas.
- Graph.FindImageThatIsNotBeingUsed and the class `Graph.FrameGraph` use the compare as written. The evidently intended compare is stated only in `Allocate`, where every function and lemma takes the compare as a parameter (see Findings).

## Findings

| source | as written | input that shows it | evidently intended | confidence | as-written member | corrected member |
|---|---|---|---|---|---|---|
| include/frameGraph/frameGraph.h:618 | the fit test compares `(I.format, I.height, I.width)` with `(def.format, node.width, node.height)`, i.e. the image height against the pass width | an unused 100x200 image `X_img` for target `X`, and a 200x100 pass writing `Z` in the same format: `Z` receives `X_img` | compare `I.width` with `node.width` and `I.height` with `node.height`, so that a handed-on image has the pass's extent | not executed | Allocate.TransposedReuse | Allocate.AssignOutputIntended |
| include/frameGraph/frameGraph.h:664-667 | `m_nodes[n] = i` copies each target over whatever node has its name, also a render pass | a pass `Q` and a pass `P` declaring the output `Q`: after `generateImages` the pass `Q` is gone and `Q` is the target written by `P` | a target named like a pass is refused, so no pass is lost | low, not executed | Generate.GeneratedDropsPass | Generate.GeneratedCheckedKeepsPasses |
