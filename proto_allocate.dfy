/**
 * `FrameGraph::allocateImages` of `main.cpp`: erase the render-target
 * nodes, regenerate them, count the uses of every target along the
 * execution order in a local `std::map<std::string, int32_t>`, then walk
 * the order again giving each output of each `"renderPass"` node either a
 * fresh image name `"<output>_img"` or the image of the least target whose
 * count is 0, and retiring the pass's uses.
 *
 * Every step is a function on an `Alloc` state; a C++ exception is kept in
 * `failure` and stops everything after it.
 */
module ProtoAllocate {
  import opened Errors
  import opened KeyOrder
  import opened UseCounts
  import opened Prototype
  import ExecOrder
  import Allocate

  /** The first loop of `allocateImages`: every `"renderTarget"` node is erased. */
  function Erase(nodes: Nodes): (r: Nodes)
    ensures forall k :: k in r <==> k in nodes && nodes[k].kind != RenderTargetKind
    ensures forall k | k in r :: r[k] == nodes[k]
  {
    map k | k in nodes && nodes[k].kind != RenderTargetKind :: nodes[k]
  }

  /** `nodes`, the local `renderTargetUseCount`, and the exception if one was thrown. */
  datatype Alloc = Alloc(nodes: Nodes, counts: Counts, failure: Option<Failure>)

  /**
   * One iteration of the output loop: `nodes.at(o)`, then the search; a
   * fresh image name when it returns `""`, otherwise the donor's image name,
   * and the donor's count is bumped.
   */
  function AssignOutput(a: Alloc, o: string): Alloc
  {
    if a.failure.Some? then a
    else if o !in a.nodes then a.(failure := Some(OutOfRange(o)))
    else
      var d := FirstUnused(a.counts);
      if d == "" then
        a.(nodes := a.nodes[o := a.nodes[o].(imageResource := Allocate.ImageName(o))])
      else if d !in a.nodes then a.(failure := Some(OutOfRange(d)))
      else
        a.(nodes := a.nodes[o := a.nodes[o].(imageResource := a.nodes[d].imageResource)],
           counts := a.counts[d := a.counts[d] + 1])
  }

  /** The output loop of one pass. */
  function AssignOutputs(a: Alloc, outs: seq<string>): Alloc
  {
    if outs == [] then a
    else AssignOutput(AssignOutputs(a, outs[..|outs| - 1]), outs[|outs| - 1])
  }

  /** `renderTargetUseCount.at(n)--` over `names`. */
  function Retire(a: Alloc, names: seq<string>): Alloc
  {
    if a.failure.Some? then a
    else
      match Drop(a.counts, names)
      case Err(e) => a.(failure := Some(e))
      case Ok(c) => a.(counts := c)
  }

  /** One pass: assign its output nodes, then retire its output and input nodes. */
  function ProcessPass(a: Alloc, n: Node): Alloc
  {
    Retire(Retire(AssignOutputs(a, n.outputNodes), n.outputNodes), n.inputNodes)
  }

  /** One name of the allocation loop: `nodes.at(name)`, and `"renderPass"` nodes are processed. */
  function AllocateStep(a: Alloc, name: string): Alloc
  {
    if a.failure.Some? then a
    else if name !in a.nodes then a.(failure := Some(OutOfRange(name)))
    else if a.nodes[name].kind == RenderPassKind then ProcessPass(a, a.nodes[name])
    else a
  }

  /** The allocation loop over the execution order. */
  function AllocateOrder(a: Alloc, order: seq<string>): Alloc
  {
    if order == [] then a
    else AllocateStep(AllocateOrder(a, order[..|order| - 1]), order[|order| - 1])
  }

  /** The names a pass adds to the counts: its output nodes, then its input nodes. */
  function Uses(n: Node): seq<string>
  {
    n.outputNodes + n.inputNodes
  }

  /** The uses of the `"renderPass"` nodes of `order`, in turn. */
  function PassUses(nodes: Nodes, order: seq<string>): seq<string>
  {
    if order == [] then []
    else
      var name := order[|order| - 1];
      PassUses(nodes, order[..|order| - 1])
        + (if name in nodes && nodes[name].kind == RenderPassKind then Uses(nodes[name]) else [])
  }

  /** The counting loop's body for one pass. */
  function CountPass(c: Counts, n: Node): Counts
  {
    Bump(Bump(c, n.outputNodes), n.inputNodes)
  }

  /** The counting loop over the execution order; `nodes.at(name)` throws on a missing name. */
  function CountUses(nodes: Nodes, order: seq<string>): Result<Counts>
  {
    if order == [] then Ok(map[])
    else
      match CountUses(nodes, order[..|order| - 1])
      case Err(e) => Err(e)
      case Ok(c) =>
        var name := order[|order| - 1];
        if name !in nodes then Err(OutOfRange(name))
        else if nodes[name].kind == RenderPassKind then Ok(CountPass(c, nodes[name]))
        else Ok(c)
  }

  /** `nodes` when `allocateImages` returns or throws, and the exception. */
  datatype Outcome = Outcome(nodes: Nodes, failure: Option<Failure>)

  /**
   * The regenerated graph is orderable, so the walk of `findExecutionOrder`
   * ends.  The source checks for no cycle.  Its walk starts only at the end
   * nodes, so it also ends on a graph whose cycles no end node reaches;
   * this predicate rules such graphs out as well.
   */
  ghost predicate Terminates(nodes: Nodes)
  {
    Generated(Erase(nodes)).Ok? ==> Orderable(Generated(Erase(nodes)).value)
  }

  /** `allocateImages`. */
  ghost function AllocateImages(nodes: Nodes): Outcome
    requires Terminates(nodes)
  {
    var e := Erase(nodes);
    match Generated(e)
    case Err(x) => Outcome(e, Some(x))
    case Ok(g) =>
      var order := ExecutionOrder(g);
      match CountUses(g, order)
      case Err(x) => Outcome(g, Some(x))
      case Ok(c) =>
        var r := AllocateOrder(Alloc(g, c, None), order);
        Outcome(r.nodes, r.failure)
  }

  // ---------------------------------------------------------------------
  // Counting
  // ---------------------------------------------------------------------

  /** One more name at the end of the order adds that pass's uses, if it is a pass. */
  lemma PassUsesSnoc(nodes: Nodes, s: seq<string>, x: string)
    ensures PassUses(nodes, s + [x]) == PassUses(nodes, s) + (if x in nodes && nodes[x].kind == RenderPassKind then Uses(nodes[x]) else [])
  {
    assert (s + [x])[..|s + [x]| - 1] == s;
  }

  lemma PassUsesConcatStep(nodes: Nodes, p: seq<string>, q: seq<string>, x: string)
    requires PassUses(nodes, p + q) == PassUses(nodes, p) + PassUses(nodes, q)
    ensures PassUses(nodes, p + (q + [x])) == PassUses(nodes, p) + PassUses(nodes, q + [x])
  {
    ExecOrder.ConcatAssoc(p, q, [x]);
    PassUsesSnoc(nodes, p + q, x);
    PassUsesSnoc(nodes, q, x);
    ExecOrder.ConcatAssoc(PassUses(nodes, p), PassUses(nodes, q), if x in nodes && nodes[x].kind == RenderPassKind then Uses(nodes[x]) else []);
  }

  lemma {:induction false} PassUsesConcat(nodes: Nodes, p: seq<string>, q: seq<string>)
    ensures PassUses(nodes, p + q) == PassUses(nodes, p) + PassUses(nodes, q)
    decreases |q|
  {
    if q == [] {
      assert p + q == p;
    } else {
      var q' := q[..|q| - 1];
      var x := q[|q| - 1];
      assert q == q' + [x];
      PassUsesConcat(nodes, p, q');
      PassUsesConcatStep(nodes, p, q', x);
    }
  }

  /** Counting one pass adds one for each of its uses. */
  lemma CountPassSpec(c: Counts, n: Node)
    ensures forall x :: x in CountPass(c, n) <==> x in c || x in Uses(n)
    ensures forall t :: Get(CountPass(c, n), t) == Get(c, t) + Count(Uses(n), t)
  {
    BumpSpec(c, n.outputNodes);
    BumpSpec(Bump(c, n.outputNodes), n.inputNodes);
    forall t ensures Get(CountPass(c, n), t) == Get(c, t) + Count(Uses(n), t) {
      CountConcat(n.outputNodes, n.inputNodes, t);
    }
  }

  /**
   * The counting loop succeeds exactly when every name of the order is a
   * node, and then each count is the number of occurrences of its name
   * among the uses of the passes of the order.
   */
  lemma {:induction false} CountUsesSpec(nodes: Nodes, order: seq<string>)
    ensures CountUses(nodes, order).Ok? <==> forall x | x in order :: x in nodes
    ensures CountUses(nodes, order).Ok? ==>
      forall n :: n in CountUses(nodes, order).value <==> n in PassUses(nodes, order)
    ensures CountUses(nodes, order).Ok? ==>
      forall t :: Get(CountUses(nodes, order).value, t) == Count(PassUses(nodes, order), t)
  {
    if order != [] {
      var pre := order[..|order| - 1];
      var name := order[|order| - 1];
      CountUsesSpec(nodes, pre);
      assert forall x :: x in order <==> x in pre || x == name by {
        assert order == pre + [name];
      }
      var r := CountUses(nodes, order);
      if r.Ok? {
        var c := CountUses(nodes, pre).value;
        var extra := if nodes[name].kind == RenderPassKind then Uses(nodes[name]) else [];
        assert PassUses(nodes, order) == PassUses(nodes, pre) + extra;
        if nodes[name].kind == RenderPassKind {
          CountPassSpec(c, nodes[name]);
        }
        forall t ensures Get(r.value, t) == Count(PassUses(nodes, order), t) {
          CountConcat(PassUses(nodes, pre), extra, t);
        }
        forall n ensures n in r.value <==> n in PassUses(nodes, order) {
          assert n in PassUses(nodes, order) <==> n in PassUses(nodes, pre) || n in extra;
        }
      }
    }
  }

  // ---------------------------------------------------------------------
  // One output
  // ---------------------------------------------------------------------

  /**
   * An output gets `"<o>_img"` when no count is 0 (or the least zero-count
   * name is `""`); otherwise it gets the image name of the least target
   * whose count is 0, and that target's count goes from 0 to 1.
   */
  lemma AssignOutputChoice(a: Alloc, o: string)
    requires a.failure.None? && o in a.nodes
    requires forall k | k in a.counts :: k in a.nodes
    ensures var r := AssignOutput(a, o);
      ZeroKeys(a.counts) == {} || Least(ZeroKeys(a.counts)) == "" ==>
        r == a.(nodes := a.nodes[o := a.nodes[o].(imageResource := o + "_img")])
    ensures var r := AssignOutput(a, o);
      ZeroKeys(a.counts) != {} && Least(ZeroKeys(a.counts)) != "" ==>
        var d := Least(ZeroKeys(a.counts));
        d in a.nodes && a.counts[d] == 0 && r.failure.None?
        && r.nodes == a.nodes[o := a.nodes[o].(imageResource := a.nodes[d].imageResource)]
        && r.counts == a.counts[d := 1]
  {
    FirstUnusedSpec(a.counts);
    if ZeroKeys(a.counts) != {} {
      LeastSpec(ZeroKeys(a.counts));
    }
  }

  /** Two node maps that differ at most in image names. */
  ghost predicate SameLinks(n1: Nodes, n2: Nodes)
  {
    n1.Keys == n2.Keys
    && forall k | k in n1 :: n1[k] == n2[k].(imageResource := n1[k].imageResource)
  }

  /** Every name a node links to, as input or output, is a node. */
  ghost predicate Closed(nodes: Nodes)
  {
    forall k, n | k in nodes && (n in nodes[k].inputNodes || n in nodes[k].outputNodes) :: n in nodes
  }

  /**
   * During the allocation loop over a closed graph `g`, with `rest` the
   * uses not yet retired: nothing has thrown, only image names have
   * changed, the counts match the remaining uses and name only nodes.
   */
  ghost predicate Running(a: Alloc, g: Nodes, rest: seq<string>)
  {
    a.failure.None? && SameLinks(a.nodes, g) && CountsMatch(a.counts, rest)
    && forall k | k in a.counts :: k in g
  }

  /** An output that is a node is assigned without throwing, and the loop keeps running. */
  lemma AssignOutputRuns(a: Alloc, g: Nodes, rest: seq<string>, o: string)
    requires Running(a, g, rest) && o in g
    ensures Running(AssignOutput(a, o), g, rest)
  {
    var d := FirstUnused(a.counts);
    FirstUnusedSpec(a.counts);
    if d != "" {
      LeastSpec(ZeroKeys(a.counts));
      DonorMatches(a.counts, rest, d);
    }
  }

  lemma {:induction false} AssignOutputsRuns(a: Alloc, g: Nodes, rest: seq<string>, outs: seq<string>)
    requires Running(a, g, rest) && forall o | o in outs :: o in g
    ensures Running(AssignOutputs(a, outs), g, rest)
  {
    if outs != [] {
      AssignOutputsRuns(a, g, rest, outs[..|outs| - 1]);
      AssignOutputRuns(AssignOutputs(a, outs[..|outs| - 1]), g, rest, outs[|outs| - 1]);
    }
  }

  /** A pass of a closed graph is processed without throwing and consumes exactly its uses. */
  lemma ProcessPassRuns(a: Alloc, g: Nodes, rest: seq<string>, n: Node)
    requires Running(a, g, Uses(n) + rest)
    requires forall o | o in n.outputNodes :: o in g
    ensures Running(ProcessPass(a, n), g, rest)
  {
    var b := AssignOutputs(a, n.outputNodes);
    AssignOutputsRuns(a, g, Uses(n) + rest, n.outputNodes);
    assert Uses(n) + rest == n.outputNodes + (n.inputNodes + rest);
    DropMatches(b.counts, n.outputNodes, n.inputNodes + rest);
    var c := Retire(b, n.outputNodes);
    DropSpec(b.counts, n.outputNodes);
    DropMatches(c.counts, n.inputNodes, rest);
    DropSpec(c.counts, n.inputNodes);
  }

  lemma AllocateStepRuns(a: Alloc, g: Nodes, rest: seq<string>, x: string)
    requires Closed(g) && x in g && Running(a, g, PassUses(g, [x]) + rest)
    ensures Running(AllocateStep(a, x), g, rest)
  {
    assert [x][..0] == [];
    assert PassUses(g, [x]) == [] + (if g[x].kind == RenderPassKind then Uses(g[x]) else []);
    if g[x].kind == RenderPassKind {
      var n := a.nodes[x];
      assert n.outputNodes == g[x].outputNodes && n.inputNodes == g[x].inputNodes;
      assert PassUses(g, [x]) + rest == Uses(n) + rest;
      assert Closed(g) ==> forall o | o in n.outputNodes :: o in g;
      ProcessPassRuns(a, g, rest, n);
    } else {
      assert PassUses(g, [x]) + rest == rest;
    }
  }

  /** The uses of an order, split before its last name. */
  lemma PassUsesSplitLast(g: Nodes, order: seq<string>, rest: seq<string>)
    requires order != []
    ensures PassUses(g, order) + rest
      == PassUses(g, order[..|order| - 1]) + (PassUses(g, [order[|order| - 1]]) + rest)
  {
    var pre := order[..|order| - 1];
    var x := order[|order| - 1];
    assert order == pre + [x];
    PassUsesConcat(g, pre, [x]);
  }

  /**
   * Along an order of names of a closed graph, the allocation loop never
   * throws, changes only image names, and retires exactly the uses of the
   * passes of the order, keeping the counts matching what remains.
   */
  lemma {:induction false} AllocateOrderRuns(a: Alloc, g: Nodes, order: seq<string>, rest: seq<string>)
    requires Closed(g) && (forall x | x in order :: x in g)
    requires Running(a, g, PassUses(g, order) + rest)
    ensures Running(AllocateOrder(a, order), g, rest)
  {
    if order != [] {
      var pre := order[..|order| - 1];
      var x := order[|order| - 1];
      PassUsesSplitLast(g, order, rest);
      assert x in g && forall y | y in pre :: y in g by {
        assert forall y | y in pre :: y in order;
      }
      AllocateOrderRuns(a, g, pre, PassUses(g, [x]) + rest);
      AllocateStepRuns(AllocateOrder(a, pre), g, rest, x);
      assert AllocateOrder(a, order) == AllocateStep(AllocateOrder(a, pre), x);
    } else {
      assert PassUses(g, order) + rest == rest;
    }
  }

  // ---------------------------------------------------------------------
  // The whole of allocateImages
  // ---------------------------------------------------------------------

  lemma {:induction false} ReadersOfIn(nodes: Nodes, ks: seq<string>, o: string)
    requires NodeKeys(nodes, ks)
    ensures forall x | x in ReadersOf(nodes, ks, o) :: x in ks
  {
    if ks != [] {
      var pre := ks[..|ks| - 1];
      ReadersOfIn(nodes, pre, o);
      forall x | x in ReadersOf(nodes, ks, o) ensures x in ks {
        if x in ReadersOf(nodes, pre, o) {
          var i :| 0 <= i < |pre| && pre[i] == x;
          assert ks[i] == x;
        }
      }
    }
  }

  /** The regenerated graph links only to its own nodes, and its targets are the generated ones. */
  lemma GeneratedClosed(e: Nodes)
    requires forall k | k in e :: e[k].kind != RenderTargetKind
    requires Generated(e).Ok?
    ensures Closed(Generated(e).value)
    ensures forall k | k in Generated(e).value && Generated(e).value[k].kind == RenderTargetKind ::
              k in GenerateTargets(e).value
  {
    GenerateTargetsSpec(e);
    var t := GenerateTargets(e).value;
    var g := Generated(e).value;
    var ks := SortedKeys(e.Keys);
    SortedKeysSpec(e.Keys);
    forall k, n | k in g && (n in g[k].inputNodes || n in g[k].outputNodes) ensures n in g {
      if k in t {
        var d := Declarers(e, k);
        LeastSpec(d);
        ReadersOfIn(e, ks, k);
      } else {
        assert k in e && g[k] == e[k];
        if n in e[k].outputNodes {
          assert k in Declarers(e, n);
        }
      }
    }
  }

  /**
   * `allocateImages` throws exactly when some input of a node that is not a
   * render target names nothing those nodes output, and then it is
   * `std::out_of_range` from `generateImages` naming such an input: no
   * `.at` of the counting and allocation loops can throw.
   */
  lemma AllocateImagesFails(nodes: Nodes)
    requires Terminates(nodes)
    ensures AllocateImages(nodes).failure.None? <==> NoDanglingInput(Erase(nodes))
    ensures AllocateImages(nodes).failure.Some? ==>
      AllocateImages(nodes).failure.value.OutOfRange?
      && DanglingInput(Erase(nodes), AllocateImages(nodes).failure.value.key)
  {
    var e := Erase(nodes);
    GenerateTargetsSpec(e);
    if Generated(e).Ok? {
      AllocateRuns(nodes);
    }
  }

  /**
   * After `allocateImages` the graph is the regenerated one with image
   * names filled in: a render-target node left afterwards is one
   * `generateImages` built for an output name, and no target from before
   * survives.
   */
  lemma AllocateImagesTargets(nodes: Nodes)
    requires Terminates(nodes) && NoDanglingInput(Erase(nodes))
    ensures Generated(Erase(nodes)).Ok?
    ensures SameLinks(AllocateImages(nodes).nodes, Generated(Erase(nodes)).value)
    ensures forall k | k in AllocateImages(nodes).nodes && AllocateImages(nodes).nodes[k].kind == RenderTargetKind ::
      var d := Declarers(Erase(nodes), k);
      d != {} && AllocateImages(nodes).nodes[k].inputNodes == [Least(d)]
  {
    var e := Erase(nodes);
    GenerateTargetsSpec(e);
    AllocateRuns(nodes);
    GeneratedClosed(e);
  }

  /** With no dangling input, the allocation loop of `allocateImages` runs from start to end. */
  lemma AllocateRuns(nodes: Nodes)
    requires Terminates(nodes) && Generated(Erase(nodes)).Ok?
    ensures var g := Generated(Erase(nodes)).value;
      CountUses(g, ExecutionOrder(g)).Ok?
      && Running(AllocateOrder(Alloc(g, CountUses(g, ExecutionOrder(g)).value, None), ExecutionOrder(g)), g, [])
  {
    var e := Erase(nodes);
    var g := Generated(e).value;
    GeneratedClosed(e);
    var order := ExecutionOrder(g);
    OrderInGraph(g);
    CountsStartRunning(g, order);
    assert PassUses(g, order) + [] == PassUses(g, order);
    AllocateOrderRuns(Alloc(g, CountUses(g, order).value, None), g, order, []);
  }

  /** Every name of the execution order is a node. */
  lemma OrderInGraph(g: Nodes)
    requires Orderable(g)
    ensures forall x | x in ExecutionOrder(g) :: x in g
  {
    ExecutionOrderSpec(g);
  }

  /** On a closed graph, counting along an order of nodes starts the allocation loop running. */
  lemma CountsStartRunning(g: Nodes, order: seq<string>)
    requires Closed(g) && forall x | x in order :: x in g
    ensures CountUses(g, order).Ok? && Running(Alloc(g, CountUses(g, order).value, None), g, PassUses(g, order))
  {
    CountUsesSpec(g, order);
    var c := CountUses(g, order).value;
    forall t | t in c ensures c[t] == Count(PassUses(g, order), t) {
      assert Get(c, t) == c[t];
    }
    forall k | k in c ensures k in g {
      PassUsesIn(g, order, k);
    }
  }

  /** The uses of the passes of an order of a closed graph are nodes. */
  lemma {:induction false} PassUsesIn(g: Nodes, order: seq<string>, k: string)
    requires Closed(g) && k in PassUses(g, order)
    ensures k in g
  {
    var pre := order[..|order| - 1];
    var x := order[|order| - 1];
    if k in PassUses(g, pre) {
      PassUsesIn(g, pre, k);
    }
  }

  /**
   * At the end of the allocation loop every count is 0, or 1 for a target
   * that handed its image on: no count is ever negative.
   */
  lemma FinalCounts(a: Alloc, g: Nodes, order: seq<string>)
    requires Closed(g) && (forall x | x in order :: x in g)
    requires Running(a, g, PassUses(g, order))
    ensures forall t | t in AllocateOrder(a, order).counts ::
      AllocateOrder(a, order).counts[t] == 0 || AllocateOrder(a, order).counts[t] == 1
  {
    assert PassUses(g, order) + [] == PassUses(g, order);
    AllocateOrderRuns(a, g, order, []);
  }

  // ---------------------------------------------------------------------
  // The loops one step at a time
  // ---------------------------------------------------------------------

  /** Once `nodes.at` has thrown in the counting loop, the later names are not visited. */
  lemma {:induction false} CountUsesStops(nodes: Nodes, order: seq<string>, i: int)
    requires 0 <= i <= |order| && CountUses(nodes, order[..i]).Err?
    ensures CountUses(nodes, order) == CountUses(nodes, order[..i])
  {
    if i < |order| {
      assert order[..|order| - 1][..i] == order[..i];
      CountUsesStops(nodes, order[..|order| - 1], i);
    } else {
      assert order[..i] == order;
    }
  }

  lemma {:induction false} AssignOutputsStops(a: Alloc, outs: seq<string>, i: int)
    requires 0 <= i <= |outs| && AssignOutputs(a, outs[..i]).failure.Some?
    ensures AssignOutputs(a, outs) == AssignOutputs(a, outs[..i])
  {
    if i < |outs| {
      assert outs[..|outs| - 1][..i] == outs[..i];
      AssignOutputsStops(a, outs[..|outs| - 1], i);
    } else {
      assert outs[..i] == outs;
    }
  }

  lemma {:induction false} AllocateOrderStops(a: Alloc, order: seq<string>, i: int)
    requires 0 <= i <= |order| && AllocateOrder(a, order[..i]).failure.Some?
    ensures AllocateOrder(a, order) == AllocateOrder(a, order[..i])
  {
    if i < |order| {
      assert order[..|order| - 1][..i] == order[..i];
      AllocateOrderStops(a, order[..|order| - 1], i);
    } else {
      assert order[..i] == order;
    }
  }

  lemma AllocateOrderStep(a: Alloc, order: seq<string>, i: int)
    requires 0 <= i < |order|
    ensures AllocateOrder(a, order[..i + 1]) == AllocateStep(AllocateOrder(a, order[..i]), order[i])
  {
    assert order[..i + 1][..i] == order[..i];
  }

  lemma AssignOutputsStep(a: Alloc, outs: seq<string>, i: int)
    requires 0 <= i < |outs|
    ensures AssignOutputs(a, outs[..i + 1]) == AssignOutput(AssignOutputs(a, outs[..i]), outs[i])
  {
    assert outs[..i + 1][..i] == outs[..i];
  }
}
