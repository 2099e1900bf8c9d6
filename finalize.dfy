/**
 * `FrameGraph::finalize` of `include/frameGraph/frameGraph.h` as a whole:
 * erase the render-target nodes, regenerate them, order the graph, count
 * the uses and allocate the images.  The main results hold as long as no
 * pass shares its name with a render target: finalizing twice is the same
 * as finalizing once, and the only exception finalizing raises is the one
 * `generateImages` throws on an input that no pass outputs.
 */
module Finalize {
  import opened Errors
  import opened Formats
  import opened KeyOrder
  import opened UseCounts
  import opened Nodes
  import opened Generate
  import opened Allocate
  import ExecOrder

  /** The node and image maps `finalize` leaves, and the exception it threw, if any. */
  datatype Outcome = Outcome(nodes: Nodes, images: Images, failure: Option<Failure>)

  /**
   * The dependency graph is closed and acyclic, so `_recursePushBack`
   * terminates from every node.  The source needs less: a cycle that no end
   * node reaches is never walked (`UnreachedCycle`).
   */
  ghost predicate Orderable(nodes: Nodes)
  {
    ExecOrder.Acyclic(DepGraph(nodes))
  }

  lemma EndNodesInGraph(nodes: Nodes)
    ensures forall e | e in EndNodes(nodes) :: e in DepGraph(nodes)
  {
    SortedKeysSpec(set k | k in nodes && IsEnd(nodes[k]));
  }

  /** `findExecutionOrder`: walk back from the end nodes, reverse, drop the repeats. */
  ghost function ExecutionOrder(nodes: Nodes): seq<string>
    requires Orderable(nodes)
  {
    EndNodesInGraph(nodes);
    var rank :| ExecOrder.Ranked(DepGraph(nodes), rank);
    ExecOrder.Order(DepGraph(nodes), rank, EndNodes(nodes))
  }

  /** The execution order does not depend on the rank that witnesses acyclicity. */
  lemma ExecutionOrderAnyRank(nodes: Nodes, rank: map<string, nat>)
    requires ExecOrder.Ranked(DepGraph(nodes), rank)
    ensures Orderable(nodes)
    ensures forall e | e in EndNodes(nodes) :: e in DepGraph(nodes)
    ensures ExecutionOrder(nodes) == ExecOrder.Order(DepGraph(nodes), rank, EndNodes(nodes))
  {
    EndNodesInGraph(nodes);
    var g := DepGraph(nodes);
    var ends := EndNodes(nodes);
    forall r1 | ExecOrder.Ranked(g, r1)
      ensures ExecOrder.Order(g, r1, ends) == ExecOrder.Order(g, rank, ends)
    {
      ExecOrder.WalkFromRankFree(g, r1, rank, ends);
    }
  }

  /**
   * The regenerated graph is orderable, so `finalize` runs into no endless
   * recursion.  This also rules out graphs on which the recursion ends
   * although they have a cycle, one that no end node reaches.
   */
  ghost predicate Terminates(nodes: Nodes)
  {
    var p := PassesOnly(nodes);
    Generated(p).Ok? ==> Orderable(Generated(p).value)
  }

  /**
   * A pass that samples a target it alone writes makes the regenerated
   * graph cyclic: the pass depends on the target and the target on its
   * writer, so `Terminates` rules the graph out.  Whether `_recursePushBack`
   * enters the cycle depends on whether an end node reaches it
   * (`SelfSampleDiverges`, `UnreachedCycle`).
   */
  lemma SelfSampleCycles(nodes: Nodes, p: string, x: string)
    requires p in nodes && nodes[p].Pass? && x in Names(nodes[p].pass.inputs)
    requires Declarers(PassesOnly(nodes), x) == {p} && Declarers(PassesOnly(nodes), p) == {}
    requires Generated(PassesOnly(nodes)).Ok?
    ensures !Terminates(nodes)
  {
    var ps := PassesOnly(nodes);
    GenerateTargetsSpec(ps);
    var t := GenerateTargets(ps).value;
    LeastSpec({p});
    assert x in t && t[x].writer == p;
    assert p !in t;
    var g := DepGraph(Generated(ps).value);
    assert x in g[p] && p in g[x];
  }

  /**
   * The cycle of `SelfSampleCycles` reached from an end node: a pass `q`
   * with no outputs also samples `x`.  The walk from `q` descends to `x`,
   * from `x` to its writer `p` and from `p` back to `x`, and no set of
   * names closed under that descent and holding `q` can be ranked, so
   * `_recursePushBack` recurses without end.
   */
  lemma SelfSampleDiverges(nodes: Nodes, p: string, q: string, x: string)
    requires p in nodes && nodes[p].Pass? && x in Names(nodes[p].pass.inputs)
    requires q in nodes && nodes[q].Pass? && x in Names(nodes[q].pass.inputs) && |nodes[q].pass.outputs| == 0
    requires Declarers(PassesOnly(nodes), x) == {p}
    requires Declarers(PassesOnly(nodes), p) == {} && Declarers(PassesOnly(nodes), q) == {}
    requires Generated(PassesOnly(nodes)).Ok?
    ensures var g := Generated(PassesOnly(nodes)).value;
      q in EndNodes(g) && p in g && x in g
      && x in DepGraph(g)[q] && p in DepGraph(g)[x] && x in DepGraph(g)[p]
    ensures var g := Generated(PassesOnly(nodes)).value;
      forall rank, s | q in s :: !ExecOrder.RankedOn(DepGraph(g), rank, s)
  {
    var ps := PassesOnly(nodes);
    GenerateTargetsSpec(ps);
    var t := GenerateTargets(ps).value;
    LeastSpec({p});
    assert x in t && t[x].writer == p;
    assert p !in t && q !in t;
    var gn := Generated(ps).value;
    SortedKeysMembers(set k | k in gn && IsEnd(gn[k]));
    var g := DepGraph(gn);
    assert x in g[q] && x in g[p] && p in g[x];
  }

  /**
   * When every pass outputs something and every output is sampled, the
   * regenerated graph has no end node: `findExecutionOrder` walks from no
   * name, so no cycle of the graph is entered.
   */
  lemma NoEndNodes(nodes: Nodes)
    requires Generated(PassesOnly(nodes)).Ok?
    requires forall k | k in nodes && nodes[k].Pass? :: |nodes[k].pass.outputs| > 0
    requires forall k, o | k in nodes && nodes[k].Pass? && o in Names(nodes[k].pass.outputs) ::
      exists j :: j in nodes && nodes[j].Pass? && o in Names(nodes[j].pass.inputs)
    ensures EndNodes(Generated(PassesOnly(nodes)).value) == []
  {
    var ps := PassesOnly(nodes);
    GenerateTargetsSpec(ps);
    var t := GenerateTargets(ps).value;
    var gn := Generated(ps).value;
    var ks := SortedKeys(ps.Keys);
    SortedKeysMembers(ps.Keys);
    forall k | k in gn ensures !IsEnd(gn[k]) {
      if k in t {
        var d :| d in Declarers(ps, k);
        var j :| j in nodes && nodes[j].Pass? && k in Names(nodes[j].pass.inputs);
        ReadersOfHas(ps, ks, k, j);
      }
    }
    assert (set k | k in gn && IsEnd(gn[k])) == {};
  }

  /** The graph of `UnreachedCycle` is generated without exception: `x` has the one declarer `p`. */
  lemma SelfSamplerGenerated(nodes: Nodes, p: string, x: string)
    requires p != x
    requires nodes == map[p := Pass(RenderPassNode(p, [RenderTargetDefinition(x, UNDEFINED)],
                                                   [RenderTargetDefinition(x, UNDEFINED)], 0, 0))]
    ensures Declarers(PassesOnly(nodes), x) == {p} && Declarers(PassesOnly(nodes), p) == {}
    ensures Generated(PassesOnly(nodes)).Ok?
  {
    var ps := PassesOnly(nodes);
    assert ps == nodes;
    assert Names(nodes[p].pass.outputs) == [x];
    assert Names(nodes[p].pass.inputs) == [x];
    assert Declarers(ps, x) == {p};
    GenerateTargetsSpec(ps);
  }

  /**
   * A single pass `p` that samples the target `x` it outputs: `Terminates`
   * fails, yet the regenerated graph has no end node, so the source never
   * enters the cycle.  The model leaves such graphs out.
   */
  lemma UnreachedCycle(nodes: Nodes, p: string, x: string)
    requires p != x
    requires nodes == map[p := Pass(RenderPassNode(p, [RenderTargetDefinition(x, UNDEFINED)],
                                                   [RenderTargetDefinition(x, UNDEFINED)], 0, 0))]
    ensures Generated(PassesOnly(nodes)).Ok?
    ensures EndNodes(Generated(PassesOnly(nodes)).value) == []
    ensures !Terminates(nodes)
  {
    SelfSamplerGenerated(nodes, p, x);
    assert Names(nodes[p].pass.inputs) == [x] && Names(nodes[p].pass.outputs) == [x];
    SelfSampleCycles(nodes, p, x);
    NoEndNodes(nodes);
  }

  /** What `finalize` does, with the search compare `mode`. */
  ghost function FinalizeSpec(mode: ExtentCompare, nodes: Nodes, images: Images): Outcome
    requires Terminates(nodes)
  {
    var p := PassesOnly(nodes);
    match Generated(p)
    case Err(e) => Outcome(p, images, Some(e))
    case Ok(g) => AllocateGraph(mode, g, images)
  }

  /** The rest of `finalize` once `generateImages` has produced the graph `g`. */
  ghost function AllocateGraph(mode: ExtentCompare, g: Nodes, images: Images): Outcome
    requires Orderable(g)
  {
    var order := ExecutionOrder(g);
    match CountUses(g, order)
    case Err(e) => Outcome(g, images, Some(e))
    case Ok(c) =>
      var r := AllocateOrder(mode, Alloc(g, images, c, None), order);
      Outcome(r.nodes, r.images, r.failure)
  }

  // ---------------------------------------------------------------------
  // Two runs that differ only in images the run does not read
  // ---------------------------------------------------------------------

  /** `x` and `y` agree on the image of every target of `nodes`. */
  ghost predicate AgreeOnTargets(nodes: Nodes, x: Images, y: Images)
  {
    forall t | t in nodes && nodes[t].Target? ::
      var n := nodes[t].target.imageResource.name;
      (n in x <==> n in y) && (n in x ==> x[n] == y[n])
  }

  /** The search only reads the images of targets. */
  lemma {:induction false} ScanTwin(mode: ExtentCompare, nodes: Nodes, x: Images, y: Images, counts: Counts,
                                    pass: RenderPassNode, def: RenderTargetDefinition, ks: seq<string>)
    requires AgreeOnTargets(nodes, x, y)
    ensures Scan(mode, nodes, x, counts, pass, def, ks) == Scan(mode, nodes, y, counts, pass, def, ks)
  {
    if ks != [] {
      ScanTwin(mode, nodes, x, y, counts, pass, def, ks[1..]);
    }
  }

  lemma FindUnusedTwin(mode: ExtentCompare, nodes: Nodes, x: Images, y: Images, counts: Counts,
                        pass: RenderPassNode, def: RenderTargetDefinition)
    requires AgreeOnTargets(nodes, x, y)
    ensures FindUnused(mode, nodes, x, counts, pass, def) == FindUnused(mode, nodes, y, counts, pass, def)
  {
    ScanTwin(mode, nodes, x, y, counts, pass, def, SortedKeys(counts.Keys));
  }

  /**
   * Two allocation runs in lock step: the same nodes, counts and exception;
   * their images are their starting images `ia` and `ib` overwritten by the
   * same writes `d`; every target's image is `""` or written by the run;
   * and the starting images agree at `""`, which no write creates.
   */
  ghost predicate Twin(a: Alloc, b: Alloc, ia: Images, ib: Images, d: Images)
  {
    a.nodes == b.nodes && a.counts == b.counts && a.failure == b.failure
    && a.images == ia + d && b.images == ib + d
    && "" !in d
    && ("" in ia <==> "" in ib) && ("" in ia ==> ia[""] == ib[""])
    && forall t | t in a.nodes && a.nodes[t].Target? ::
         a.nodes[t].target.imageResource.name == "" || a.nodes[t].target.imageResource.name in d
  }

  lemma TwinAgree(a: Alloc, b: Alloc, ia: Images, ib: Images, d: Images)
    requires Twin(a, b, ia, ib, d)
    ensures AgreeOnTargets(a.nodes, a.images, b.images)
  {
  }

  /** The fresh-image branch writes one image, never the one named `""`. */
  lemma FreshTwin(a: Alloc, b: Alloc, ia: Images, ib: Images, d: Images,
                  pass: RenderPassNode, def: RenderTargetDefinition) returns (d': Images)
    requires Twin(a, b, ia, ib, d)
    requires def.name in a.nodes && a.nodes[def.name].Target?
    ensures var img := FreshImage(pass, def);
      var t := a.nodes[def.name].target;
      var n := a.nodes[def.name := Target(t.(imageResource := RenderTargetDefinition(img.name, def.format)))];
      Twin(a.(nodes := n, images := a.images[img.name := img]),
           b.(nodes := n, images := b.images[img.name := img]), ia, ib, d')
  {
    var img := FreshImage(pass, def);
    d' := d[img.name := img];
    assert img.name != "" by {
      assert |img.name| == |def.name| + 4;
    }
    assert a.images[img.name := img] == ia + d';
    assert b.images[img.name := img] == ib + d';
  }

  /** The reuse branch shares an image name the run wrote, or `""`. */
  lemma ReuseTwin(a: Alloc, b: Alloc, ia: Images, ib: Images, d: Images, def: RenderTargetDefinition, r: string)
    requires Twin(a, b, ia, ib, d)
    requires def.name in a.nodes && a.nodes[def.name].Target?
    requires r in a.nodes && a.nodes[r].Target? && r in a.counts
    ensures var t := a.nodes[def.name].target;
      var shared := a.nodes[r].target.imageResource.name;
      var n := a.nodes[def.name := Target(t.(imageResource := t.imageResource.(name := shared)))];
      var c := a.counts[r := a.counts[r] + 1];
      Twin(a.(nodes := n, counts := c), b.(nodes := n, counts := c), ia, ib, d)
  {
  }

  lemma AssignOutputTwin(mode: ExtentCompare, a: Alloc, b: Alloc, ia: Images, ib: Images, d: Images,
                         pass: RenderPassNode, def: RenderTargetDefinition) returns (d': Images)
    requires Twin(a, b, ia, ib, d)
    ensures Twin(AssignOutput(mode, a, pass, def), AssignOutput(mode, b, pass, def), ia, ib, d')
  {
    d' := d;
    if a.failure.None? && def.name in a.nodes && a.nodes[def.name].Target? {
      TwinAgree(a, b, ia, ib, d);
      FindUnusedTwin(mode, a.nodes, a.images, b.images, a.counts, pass, def);
      var f := FindUnused(mode, a.nodes, a.images, a.counts, pass, def);
      if f.Ok? && f.value == "" {
        d' := FreshTwin(a, b, ia, ib, d, pass, def);
      } else if f.Ok? {
        ReuseTwin(a, b, ia, ib, d, def, f.value);
      }
    }
  }

  lemma {:induction false} AssignOutputsTwin(mode: ExtentCompare, a: Alloc, b: Alloc, ia: Images, ib: Images,
                                             d: Images, pass: RenderPassNode,
                                             outs: seq<RenderTargetDefinition>) returns (d': Images)
    requires Twin(a, b, ia, ib, d)
    ensures Twin(AssignOutputs(mode, a, pass, outs), AssignOutputs(mode, b, pass, outs), ia, ib, d')
  {
    if outs == [] {
      d' := d;
    } else {
      var e := AssignOutputsTwin(mode, a, b, ia, ib, d, pass, outs[..|outs| - 1]);
      d' := AssignOutputTwin(mode, AssignOutputs(mode, a, pass, outs[..|outs| - 1]),
                             AssignOutputs(mode, b, pass, outs[..|outs| - 1]), ia, ib, e, pass, outs[|outs| - 1]);
    }
  }

  lemma RetireTwin(a: Alloc, b: Alloc, ia: Images, ib: Images, d: Images, names: seq<string>)
    requires Twin(a, b, ia, ib, d)
    ensures Twin(Retire(a, names), Retire(b, names), ia, ib, d)
  {
  }

  lemma AllocateStepTwin(mode: ExtentCompare, a: Alloc, b: Alloc, ia: Images, ib: Images, d: Images,
                         x: string) returns (d': Images)
    requires Twin(a, b, ia, ib, d)
    ensures Twin(AllocateStep(mode, a, x), AllocateStep(mode, b, x), ia, ib, d')
  {
    d' := d;
    if a.failure.None? && x in a.nodes && a.nodes[x].Pass? {
      var pass := a.nodes[x].pass;
      d' := AssignOutputsTwin(mode, a, b, ia, ib, d, pass, pass.outputs);
      var a1 := AssignOutputs(mode, a, pass, pass.outputs);
      var b1 := AssignOutputs(mode, b, pass, pass.outputs);
      RetireTwin(a1, b1, ia, ib, d', Names(pass.outputs));
      RetireTwin(Retire(a1, Names(pass.outputs)), Retire(b1, Names(pass.outputs)), ia, ib, d', Names(pass.inputs));
    }
  }

  /** The allocation loop reads no image but those it wrote, or the one named `""`. */
  lemma {:induction false} AllocateOrderTwin(mode: ExtentCompare, a: Alloc, b: Alloc, ia: Images, ib: Images,
                                             d: Images, order: seq<string>) returns (d': Images)
    requires Twin(a, b, ia, ib, d)
    ensures Twin(AllocateOrder(mode, a, order), AllocateOrder(mode, b, order), ia, ib, d')
  {
    if order == [] {
      d' := d;
    } else {
      var e := AllocateOrderTwin(mode, a, b, ia, ib, d, order[..|order| - 1]);
      d' := AllocateStepTwin(mode, AllocateOrder(mode, a, order[..|order| - 1]),
                             AllocateOrder(mode, b, order[..|order| - 1]), ia, ib, e, order[|order| - 1]);
    }
  }

  // ---------------------------------------------------------------------
  // Finalizing twice
  // ---------------------------------------------------------------------

  /** No render pass has the name of a render target some pass declares. */
  ghost predicate NoCollision(nodes: Nodes)
  {
    forall k | k in nodes && nodes[k].Pass? :: Declarers(PassesOnly(nodes), k) == {}
  }

  lemma PassesOnlyOfSame(n1: Nodes, n2: Nodes)
    requires SamePasses(n1, n2)
    ensures PassesOnly(n1) == PassesOnly(n2)
  {
  }

  lemma PassesOnlyOverTargets(p: Nodes, t: Targets)
    requires AllPasses(p) && forall k | k in p :: k !in t
    ensures PassesOnly(p + AsNodes(t)) == p
  {
  }

  /** Without a collision, generation keeps every pass and creates targets with no image yet. */
  lemma GeneratedKeepsPasses(nodes: Nodes)
    requires NoCollision(nodes) && Generated(PassesOnly(nodes)).Ok?
    ensures PassesOnly(Generated(PassesOnly(nodes)).value) == PassesOnly(nodes)
    ensures var g := Generated(PassesOnly(nodes)).value;
      forall t | t in g && g[t].Target? :: g[t].target.imageResource.name == ""
  {
    var p := PassesOnly(nodes);
    GenerateTargetsSpec(p);
    var t := GenerateTargets(p).value;
    forall k | k in p ensures k !in t {
      assert Declarers(p, k) == {};
    }
    PassesOnlyOverTargets(p, t);
  }

  /** The allocation keeps every pass. */
  lemma AllocateKeepsPasses(mode: ExtentCompare, g: Nodes, images: Images)
    requires Orderable(g)
    ensures PassesOnly(AllocateGraph(mode, g, images).nodes) == PassesOnly(g)
  {
    var order := ExecutionOrder(g);
    if CountUses(g, order).Ok? {
      var a := Alloc(g, images, CountUses(g, order).value, None);
      AllocateOrderImages(mode, a, order);
      PassesOnlyOfSame(g, AllocateOrder(mode, a, order).nodes);
    }
  }

  lemma WriteTwice(x: Images, d: Images)
    ensures (x + d) + d == x + d
  {
  }

  /** A run that starts from the images a first run left ends where the first run ended. */
  lemma TwinSettles(a: Alloc, b: Alloc, ia: Images, d: Images)
    requires Twin(a, b, ia, a.images, d)
    ensures b == a
  {
    WriteTwice(ia, d);
  }

  /** A second allocation loop, from the images the first left, repeats the first exactly. */
  lemma AllocateOrderSettles(mode: ExtentCompare, g: Nodes, images: Images, c: Counts, order: seq<string>)
    requires forall t | t in g && g[t].Target? :: g[t].target.imageResource.name == ""
    ensures var r1 := AllocateOrder(mode, Alloc(g, images, c, None), order);
      AllocateOrder(mode, Alloc(g, r1.images, c, None), order) == r1
  {
    var a := Alloc(g, images, c, None);
    var r1 := AllocateOrder(mode, a, order);
    var d1 := AllocateOrderTwin(mode, a, a, images, images, map[], order);
    assert r1.images == images + d1;
    var b := Alloc(g, r1.images, c, None);
    assert Twin(a, b, images, r1.images, map[]);
    var d2 := AllocateOrderTwin(mode, a, b, images, r1.images, map[], order);
    TwinSettles(r1, AllocateOrder(mode, b, order), images, d2);
  }

  /** The allocation reads no image of its own targets before it writes it. */
  lemma AllocateAgain(mode: ExtentCompare, g: Nodes, images: Images)
    requires Orderable(g)
    requires forall t | t in g && g[t].Target? :: g[t].target.imageResource.name == ""
    ensures AllocateGraph(mode, g, AllocateGraph(mode, g, images).images) == AllocateGraph(mode, g, images)
  {
    var order := ExecutionOrder(g);
    if CountUses(g, order).Ok? {
      AllocateOrderSettles(mode, g, images, CountUses(g, order).value, order);
    }
  }

  /**
   * `finalize` is idempotent: it erases the targets it created, regenerates
   * the same ones, and the images it allocated the first time are the ones
   * it allocates again, exception or not.
   */
  lemma FinalizeIdempotent(mode: ExtentCompare, nodes: Nodes, images: Images)
    requires NoCollision(nodes) && Terminates(nodes)
    ensures var r := FinalizeSpec(mode, nodes, images);
      Terminates(r.nodes) && FinalizeSpec(mode, r.nodes, r.images) == r
  {
    var p := PassesOnly(nodes);
    if Generated(p).Ok? {
      var g := Generated(p).value;
      GeneratedKeepsPasses(nodes);
      AllocateKeepsPasses(mode, g, images);
      AllocateAgain(mode, g, images);
      var r := AllocateGraph(mode, g, images);
      assert FinalizeSpec(mode, nodes, images) == r;
      assert PassesOnly(r.nodes) == p;
      assert FinalizeSpec(mode, r.nodes, r.images) == AllocateGraph(mode, g, r.images);
    } else {
      assert PassesOnly(p) == p;
    }
  }

  // ---------------------------------------------------------------------
  // When finalize throws
  // ---------------------------------------------------------------------

  /**
   * Without a collision, the regenerated graph gives every pass output a
   * target, and every target a pass samples has as its writer a pass that
   * outputs it.
   */
  lemma GeneratedWellFormed(nodes: Nodes)
    requires NoCollision(nodes) && Generated(PassesOnly(nodes)).Ok?
    ensures OutputsAreTargets(Generated(PassesOnly(nodes)).value)
    ensures InputsWritten(Generated(PassesOnly(nodes)).value)
  {
    var p := PassesOnly(nodes);
    GenerateTargetsSpec(p);
    GeneratedPassesFrom(p);
    var t := GenerateTargets(p).value;
    var g := Generated(p).value;
    assert g == p + AsNodes(t);
    forall k, o | k in g && g[k].Pass? && o in Names(g[k].pass.outputs) ensures o in g && g[o].Target? {
      assert k in Declarers(p, o);
    }
    forall k, n | k in g && g[k].Pass? && n in Names(g[k].pass.inputs)
      ensures n in g && g[n].Target? && DeclaresAt(g, g[n].target.writer, n)
    {
      var w := Least(Declarers(p, n));
      LeastSpec(Declarers(p, n));
      assert Declarers(p, w) == {};
      assert w !in t;
    }
  }

  /**
   * Without a collision, `finalize` throws exactly when some pass samples a
   * name no pass outputs, and then it is `std::out_of_range` from
   * `generateImages` naming such an input: the searches, `std::get` and
   * `.at` calls of the counting and allocation loops never throw.
   */
  lemma FinalizeFails(mode: ExtentCompare, nodes: Nodes, images: Images)
    requires NoCollision(nodes) && Terminates(nodes)
    ensures FinalizeSpec(mode, nodes, images).failure.None? <==> NoDanglingInput(PassesOnly(nodes))
    ensures FinalizeSpec(mode, nodes, images).failure.Some? ==>
      FinalizeSpec(mode, nodes, images).failure.value.OutOfRange?
      && DanglingInput(PassesOnly(nodes), FinalizeSpec(mode, nodes, images).failure.value.key)
  {
    var p := PassesOnly(nodes);
    GenerateTargetsSpec(p);
    if Generated(p).Ok? {
      var g := Generated(p).value;
      GeneratedWellFormed(nodes);
      var rank :| ExecOrder.Ranked(DepGraph(g), rank);
      ExecutionOrderAnyRank(g, rank);
      ExecOrder.ExecutionOrderValid(DepGraph(g), rank, EndNodes(g));
      AllocateCompletes(mode, g, images, ExecutionOrder(g));
    }
  }

  // ---------------------------------------------------------------------
  // m_images
  // ---------------------------------------------------------------------

  lemma {:induction false} OutputNamesDeclared(g: Nodes, order: seq<string>)
    ensures forall o | o in OutputNames(g, order) :: exists k :: k in g && g[k].Pass? && o in Names(g[k].pass.outputs)
  {
    if order != [] {
      OutputNamesDeclared(g, order[..|order| - 1]);
    }
  }

  /** The passes of the generated graph are passes of the graph it came from. */
  lemma GeneratedPassesFrom(p: Nodes)
    requires AllPasses(p) && Generated(p).Ok?
    ensures var g := Generated(p).value;
      forall k | k in g && g[k].Pass? :: k in p && g[k] == p[k]
  {
    var t := GenerateTargets(p).value;
    assert Generated(p).value == p + AsNodes(t);
  }

  /**
   * `m_images` is never cleared: `finalize` keeps every image it had, and
   * the only images it adds or replaces are `o + "_img"` for outputs `o`
   * some render pass declares.
   */
  lemma FinalizeImages(mode: ExtentCompare, nodes: Nodes, images: Images)
    requires Terminates(nodes)
    ensures var r := FinalizeSpec(mode, nodes, images);
      forall x | x in images :: x in r.images
    ensures var r := FinalizeSpec(mode, nodes, images);
      forall x | x in r.images && (x !in images || r.images[x] != images[x]) ::
        exists o :: x == ImageName(o) && Declarers(PassesOnly(nodes), o) != {}
  {
    var p := PassesOnly(nodes);
    if Generated(p).Ok? {
      var g := Generated(p).value;
      var order := ExecutionOrder(g);
      if CountUses(g, order).Ok? {
        var a := Alloc(g, images, CountUses(g, order).value, None);
        var r := AllocateOrder(mode, a, order);
        AllocateOrderImages(mode, a, order);
        OutputNamesDeclared(g, order);
        GeneratedPassesFrom(p);
        forall x | x in r.images && (x !in images || r.images[x] != images[x])
          ensures exists o :: x == ImageName(o) && Declarers(p, o) != {}
        {
          var o :| o in OutputNames(g, order) && x == ImageName(o);
          var k :| k in g && g[k].Pass? && o in Names(g[k].pass.outputs);
          assert DeclaresAt(p, k, o);
          assert k in Declarers(p, o);
        }
        assert FinalizeSpec(mode, nodes, images).images == r.images;
      }
    }
  }
}
