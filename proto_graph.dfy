/**
 * `struct FrameGraph` of `main.cpp`.
 *
 * The class holds `nodes` and the unused `m_images`, and has the members
 * that change `nodes`: the `Node` builder calls, `insertNode`, both
 * `createRenderPass` overloads, `generateImages` and `allocateImages`.  The
 * `Node &` the C++ members return is a reference into `nodes`; here the
 * builder calls take the node's key instead.  The read-only scans and the
 * loops of `allocateImages` are methods over the maps' values, each proved
 * against the functions of `Prototype` and `ProtoAllocate`.
 */
module ProtoGraph {
  import opened Errors
  import opened KeyOrder
  import opened UseCounts
  import opened Prototype
  import opened ProtoAllocate
  import ExecOrder
  import FG = Nodes

  /** `FrameGraph::Image`, the element type of `m_images`. */
  datatype Image = Image(name: string, width: FG.U32, height: FG.U32)

  class FrameGraph {
    var nodes: Nodes
    /** `m_images`: no member of the prototype reads or writes it. */
    var images: map<string, Image>

    constructor()
      ensures nodes == map[] && images == map[]
    {
      nodes := map[];
      images := map[];
    }

    /** `insertNode`: throws `"Already exists"` on a present name, else adds a fresh node. */
    method InsertNode(name: string, kind: string) returns (failure: Option<Failure>)
      modifies this
      ensures name in old(nodes) ==> failure == Some(RuntimeError("Already exists")) && nodes == old(nodes)
      ensures name !in old(nodes) ==> failure.None? && nodes == old(nodes)[name := NewNode(name, kind)]
      ensures images == old(images)
    {
      if name in nodes {
        return Some(RuntimeError("Already exists"));
      }
      nodes := nodes[name := NewNode(name, kind)];
      failure := None;
    }

    /** `Node::insertOutputNode`. */
    method InsertOutputNode(key: string, nodeName: string)
      requires key in nodes
      modifies this
      ensures nodes == old(nodes)[key := old(nodes)[key].(outputNodes := old(nodes)[key].outputNodes + [nodeName])]
      ensures images == old(images)
    {
      var n := nodes[key];
      nodes := nodes[key := n.(outputNodes := n.outputNodes + [nodeName])];
    }

    /** `Node::insertInputNode`. */
    method InsertInputNode(key: string, nodeName: string)
      requires key in nodes
      modifies this
      ensures nodes == old(nodes)[key := old(nodes)[key].(inputNodes := old(nodes)[key].inputNodes + [nodeName])]
      ensures images == old(images)
    {
      var n := nodes[key];
      nodes := nodes[key := n.(inputNodes := n.inputNodes + [nodeName])];
    }

    /** `Node::setOutputs`: appends every name in turn; nothing is replaced. */
    method SetOutputs(key: string, outputTargets: seq<string>)
      requires key in nodes
      modifies this
      ensures nodes == old(nodes)[key := old(nodes)[key].(outputNodes := old(nodes)[key].outputNodes + outputTargets)]
      ensures images == old(images)
    {
      ghost var n0 := nodes[key];
      assert n0.outputNodes + outputTargets[..0] == n0.outputNodes;
      SameNode(nodes, key);
      var i := 0;
      while i < |outputTargets|
        invariant 0 <= i <= |outputTargets|
        invariant nodes == old(nodes)[key := n0.(outputNodes := n0.outputNodes + outputTargets[..i])]
        invariant images == old(images)
      {
        AppendOne(n0.outputNodes, outputTargets, i);
        AppendStep(old(nodes), key, n0.(outputNodes := n0.outputNodes + outputTargets[..i]),
          n0.(outputNodes := n0.outputNodes + outputTargets[..i + 1]));
        InsertOutputNode(key, outputTargets[i]);
        i := i + 1;
      }
      assert outputTargets[..i] == outputTargets;
    }

    /** `Node::setInputs`: appends every name in turn; nothing is replaced. */
    method SetInputs(key: string, inputTargets: seq<string>)
      requires key in nodes
      modifies this
      ensures nodes == old(nodes)[key := old(nodes)[key].(inputNodes := old(nodes)[key].inputNodes + inputTargets)]
      ensures images == old(images)
    {
      ghost var n0 := nodes[key];
      assert n0.inputNodes + inputTargets[..0] == n0.inputNodes;
      SameNode(nodes, key);
      var i := 0;
      while i < |inputTargets|
        invariant 0 <= i <= |inputTargets|
        invariant nodes == old(nodes)[key := n0.(inputNodes := n0.inputNodes + inputTargets[..i])]
        invariant images == old(images)
      {
        AppendOne(n0.inputNodes, inputTargets, i);
        AppendStep(old(nodes), key, n0.(inputNodes := n0.inputNodes + inputTargets[..i]),
          n0.(inputNodes := n0.inputNodes + inputTargets[..i + 1]));
        InsertInputNode(key, inputTargets[i]);
        i := i + 1;
      }
      assert inputTargets[..i] == inputTargets;
    }

    /** `createRenderPass(name)`: `insertNode(name, "renderPass")`. */
    method CreateRenderPass(name: string) returns (failure: Option<Failure>)
      modifies this
      ensures name in old(nodes) ==> failure == Some(RuntimeError("Already exists")) && nodes == old(nodes)
      ensures name !in old(nodes) ==> failure.None? && nodes == old(nodes)[name := NewNode(name, RenderPassKind)]
      ensures images == old(images)
    {
      failure := InsertNode(name, RenderPassKind);
    }

    /**
     * `createRenderPass(name, outputTargets, inputTargets)`: `setInputs` and
     * `setOutputs`, then the same names appended once more by the explicit
     * loops, so every list ends up twice over.  `inputTargets` defaults to
     * the empty list.
     */
    method CreateRenderPassWith(name: string, outputTargets: seq<string>, inputTargets: seq<string> := [])
      returns (failure: Option<Failure>)
      modifies this
      ensures name in old(nodes) ==> failure == Some(RuntimeError("Already exists")) && nodes == old(nodes)
      ensures name !in old(nodes) ==> failure.None? && nodes == old(nodes)[name :=
        Node(name, RenderPassKind, inputTargets + inputTargets, outputTargets + outputTargets, "")]
      ensures images == old(images)
    {
      failure := InsertNode(name, RenderPassKind);
      if failure.Some? {
        return;
      }
      ghost var n0 := NewNode(name, RenderPassKind);
      SetInputs(name, inputTargets);
      ghost var b := n0.(inputNodes := [] + inputTargets);
      AppendStep(old(nodes), name, n0, b);
      SetOutputs(name, outputTargets);
      AppendStep(old(nodes), name, b, b.(outputNodes := [] + outputTargets));
      ghost var n1 := nodes[name];
      ghost var mid := nodes;
      assert n1.outputNodes + outputTargets[..0] == n1.outputNodes;
      SameNode(nodes, name);
      var i := 0;
      while i < |outputTargets|
        invariant 0 <= i <= |outputTargets|
        invariant nodes == mid[name := n1.(outputNodes := n1.outputNodes + outputTargets[..i])]
        invariant images == old(images)
      {
        AppendOne(n1.outputNodes, outputTargets, i);
        AppendStep(mid, name, n1.(outputNodes := n1.outputNodes + outputTargets[..i]),
          n1.(outputNodes := n1.outputNodes + outputTargets[..i + 1]));
        InsertOutputNode(name, outputTargets[i]);
        i := i + 1;
      }
      assert outputTargets[..i] == outputTargets;
      AppendStep(old(nodes), name, n1, n1.(outputNodes := n1.outputNodes + outputTargets));
      ghost var n2 := nodes[name];
      ghost var mid2 := nodes;
      assert n2.inputNodes + inputTargets[..0] == n2.inputNodes;
      SameNode(nodes, name);
      var j := 0;
      while j < |inputTargets|
        invariant 0 <= j <= |inputTargets|
        invariant nodes == mid2[name := n2.(inputNodes := n2.inputNodes + inputTargets[..j])]
        invariant images == old(images)
      {
        AppendOne(n2.inputNodes, inputTargets, j);
        AppendStep(mid2, name, n2.(inputNodes := n2.inputNodes + inputTargets[..j]),
          n2.(inputNodes := n2.inputNodes + inputTargets[..j + 1]));
        InsertInputNode(name, inputTargets[j]);
        j := j + 1;
      }
      assert inputTargets[..j] == inputTargets;
      AppendStep(old(nodes), name, n2, n2.(inputNodes := n2.inputNodes + inputTargets));
      assert [] + inputTargets == inputTargets && [] + outputTargets == outputTargets;
    }

    /**
     * `generateImages`: one `"renderTarget"` node per output name, copied
     * into `nodes`; `images.at` throws on an input nobody outputs, and then
     * `nodes` is as it was.
     */
    method GenerateImages() returns (failure: Option<Failure>)
      modifies this
      ensures images == old(images)
      ensures Generated(old(nodes)).Ok? ==> failure.None? && nodes == Generated(old(nodes)).value
      ensures Generated(old(nodes)).Err? ==> failure == Some(Generated(old(nodes)).error) && nodes == old(nodes)
    {
      var ks := SortedKeys(nodes.Keys);
      SortedKeysSpec(nodes.Keys);
      var w := CollectWriterLoop(nodes, ks);
      var t := CollectReaderLoop(nodes, ks, w);
      if t.Err? {
        return Some(t.error);
      }
      var n := CopyTargetLoop(nodes, t.value);
      nodes := n;
      failure := None;
    }

    /**
     * `allocateImages`: erase the targets, regenerate them, order the graph,
     * count the uses along the order and assign the images along it.
     */
    method AllocateImages() returns (failure: Option<Failure>)
      requires Terminates(nodes)
      modifies this
      ensures Outcome(nodes, failure) == ProtoAllocate.AllocateImages(old(nodes))
      ensures images == old(images)
    {
      var e := EraseRenderTargets(nodes);
      nodes := e;
      failure := GenerateImages();
      if failure.Some? {
        return;
      }
      var order := FindExecutionOrder(nodes);
      var counts := CountTargetUses(nodes, order);
      if counts.Err? {
        return Some(counts.error);
      }
      var r := AllocateLoop(Alloc(nodes, counts.value, None), order);
      nodes := r.nodes;
      failure := r.failure;
    }
  }

  // ---------------------------------------------------------------------
  // The loops over the maps
  // ---------------------------------------------------------------------

  /** The erase loop of `allocateImages`: walks the keys in order and erases each render target. */
  method EraseRenderTargets(nodes: Nodes) returns (n: Nodes)
    ensures n == Erase(nodes)
  {
    n := nodes;
    var ks := SortedKeys(nodes.Keys);
    SortedKeysMembers(nodes.Keys);
    var i := 0;
    while i < |ks|
      invariant 0 <= i <= |ks|
      invariant n.Keys <= nodes.Keys
      invariant forall k | k in n :: n[k] == nodes[k]
      invariant forall k | k in nodes && nodes[k].kind != RenderTargetKind :: k in n
      invariant forall j | 0 <= j < i :: ks[j] !in n || n[ks[j]].kind != RenderTargetKind
    {
      var name := ks[i];
      if name in n && n[name].kind == RenderTargetKind {
        n := n - {name};
      }
      i := i + 1;
    }
    forall k | k in n ensures n[k].kind != RenderTargetKind {
      var j :| 0 <= j < |ks| && ks[j] == k;
    }
    EraseExt(nodes, n);
  }

  /** The first loop of `generateImages`: the input node of each target is the first node outputting it. */
  method CollectWriterLoop(nodes: Nodes, ks: seq<string>) returns (acc: Targets)
    requires NodeKeys(nodes, ks)
    ensures acc == CollectWriters(nodes, ks)
  {
    acc := map[];
    var i := 0;
    while i < |ks|
      invariant 0 <= i <= |ks|
      invariant acc == CollectWriters(nodes, ks[..i])
    {
      var name := ks[i];
      assert ks[..i + 1][..i] == ks[..i];
      var outs := nodes[name].outputNodes;
      ghost var before := acc;
      var j := 0;
      while j < |outs|
        invariant 0 <= j <= |outs|
        invariant acc == AddWriter(before, name, outs[..j])
      {
        assert outs[..j + 1][..j] == outs[..j];
        var o := outs[j];
        if o !in acc {
          acc := acc[o := NewTarget(o, name)];
        }
        j := j + 1;
      }
      assert outs[..j] == outs;
      i := i + 1;
    }
    assert ks[..i] == ks;
  }

  /** The second loop of `generateImages`: each node is added to the output nodes of each of its inputs. */
  method CollectReaderLoop(nodes: Nodes, ks: seq<string>, w: Targets) returns (r: Result<Targets>)
    requires NodeKeys(nodes, ks)
    ensures r == CollectReaders(Ok(w), nodes, ks)
  {
    var acc := w;
    var i := 0;
    while i < |ks|
      invariant 0 <= i <= |ks|
      invariant CollectReaders(Ok(w), nodes, ks[..i]) == Ok(acc)
    {
      var name := ks[i];
      assert ks[..i + 1][..i] == ks[..i];
      var ins := nodes[name].inputNodes;
      ghost var before := acc;
      var j := 0;
      while j < |ins|
        invariant 0 <= j <= |ins|
        invariant AddReader(Ok(before), name, ins[..j]) == Ok(acc)
      {
        assert ins[..j + 1][..j] == ins[..j];
        var n := ins[j];
        if n !in acc {
          AddReaderStops(Ok(before), name, ins, j + 1);
          CollectReadersStops(Ok(w), nodes, ks, i + 1);
          return Err(OutOfRange(n));
        }
        acc := acc[n := acc[n].(outputNodes := acc[n].outputNodes + [name])];
        j := j + 1;
      }
      assert ins[..j] == ins;
      i := i + 1;
    }
    assert ks[..i] == ks;
    r := Ok(acc);
  }

  /** The last loop of `generateImages`: `nodes[n] = i` for every target, in key order. */
  method CopyTargetLoop(nodes: Nodes, t: Targets) returns (n: Nodes)
    ensures n == nodes + t
  {
    n := nodes;
    var ks := SortedKeys(t.Keys);
    SortedKeysMembers(t.Keys);
    var i := 0;
    while i < |ks|
      invariant 0 <= i <= |ks|
      invariant forall k :: k in n <==> k in nodes || k in ks[..i]
      invariant forall k | k in n :: n[k] == if k in ks[..i] then t[k] else nodes[k]
    {
      assert ks[..i + 1] == ks[..i] + [ks[i]];
      n := n[ks[i] := t[ks[i]]];
      i := i + 1;
    }
    assert ks[..i] == ks;
    OverrideExt(nodes, t, n);
  }

  /** `findEndNodes`: the nodes with no output nodes, in key order. */
  method FindEndNodes(nodes: Nodes) returns (ends: seq<string>)
    ensures ends == EndNodes(nodes)
  {
    var ks := SortedKeys(nodes.Keys);
    SortedKeysSpec(nodes.Keys);
    ghost var endSet := set k | k in nodes && |nodes[k].outputNodes| == 0;
    ends := [];
    var i := 0;
    while i < |ks|
      invariant 0 <= i <= |ks|
      invariant StrictlySorted(ends)
      invariant forall x :: x in ends <==> x in endSet && x in ks[..i]
    {
      var name := ks[i];
      assert ks[..i + 1] == ks[..i] + [name];
      if |nodes[name].outputNodes| == 0 {
        SortedAppend(ends, ks, i);
        ends := ends + [name];
      }
      i := i + 1;
    }
    assert ks[..i] == ks;
    SortedKeysUnique(ends, endSet);
  }

  /** `_recursePushBack`: push `name`, then walk into each of its input nodes. */
  method RecursePushBack(nodes: Nodes, name: string, order: seq<string>, ghost rank: map<string, nat>)
    returns (r: seq<string>)
    requires ExecOrder.Ranked(DepGraph(nodes), rank) && name in nodes
    ensures r == order + ExecOrder.Walk(DepGraph(nodes), rank, name)
    decreases rank[name]
  {
    ghost var g := DepGraph(nodes);
    var ins := nodes[name].inputNodes;
    r := order + [name];
    var i := 0;
    while i < |ins|
      invariant 0 <= i <= |ins|
      invariant r == order + [name] + ExecOrder.WalkDeps(g, rank, name, i)
    {
      var d := ins[i];
      ExecOrder.WalkDepsStep(g, rank, name, i);
      ExecOrder.ConcatAssoc(order + [name], ExecOrder.WalkDeps(g, rank, name, i), ExecOrder.Walk(g, rank, d));
      r := RecursePushBack(nodes, d, r, rank);
      i := i + 1;
    }
    ExecOrder.ConcatAssoc(order, [name], ExecOrder.WalkDeps(g, rank, name, i));
  }

  /** `findExecutionOrder`: walk from every end node, reverse in place, drop repeats in place. */
  method FindExecutionOrder(nodes: Nodes) returns (order: seq<string>)
    requires Orderable(nodes)
    ensures order == ExecutionOrder(nodes)
  {
    var ends := FindEndNodes(nodes);
    ghost var g := DepGraph(nodes);
    ghost var rank :| ExecOrder.Ranked(g, rank);
    EndNodesInGraph(nodes);
    var walk := [];
    var i := 0;
    while i < |ends|
      invariant 0 <= i <= |ends|
      invariant walk == ExecOrder.WalkFrom(g, rank, ends[..i])
    {
      assert ends[..i + 1][..i] == ends[..i];
      walk := RecursePushBack(nodes, ends[i], walk, rank);
      i := i + 1;
    }
    assert ends[..i] == ends;
    order := ExecOrder.ReverseAndRemoveRepeats(walk);
    ExecutionOrderAnyRank(nodes, rank);
  }

  /** `findRenderTargetThatIsNotBeingUsed`: the first name in key order whose count is 0, or `""`. */
  method FindRenderTargetThatIsNotBeingUsed(counts: Counts) returns (r: string)
    ensures r == FirstUnused(counts)
  {
    var ks := SortedKeys(counts.Keys);
    SortedKeysSpec(counts.Keys);
    var i := 0;
    while i < |ks|
      invariant 0 <= i <= |ks|
      invariant ScanZero(counts, ks) == ScanZero(counts, ks[i..])
    {
      assert ks[i..][1..] == ks[i + 1..];
      if counts[ks[i]] == 0 {
        return ks[i];
      }
      i := i + 1;
    }
    return "";
  }

  /** `renderTargetUseCount[n]++` for each name in turn. */
  method IncrementAll(c: Counts, names: seq<string>) returns (r: Counts)
    ensures r == Bump(c, names)
  {
    r := c;
    var j := 0;
    while j < |names|
      invariant 0 <= j <= |names|
      invariant r == Bump(c, names[..j])
    {
      BumpStep(c, names, j);
      r := r[names[j] := Get(r, names[j]) + 1];
      j := j + 1;
    }
    assert names[..j] == names;
  }

  /** `renderTargetUseCount.at(n)--` for each name in turn. */
  method DecrementAll(c: Counts, names: seq<string>) returns (r: Result<Counts>)
    ensures r == Drop(c, names)
  {
    var acc := c;
    var j := 0;
    while j < |names|
      invariant 0 <= j <= |names|
      invariant Drop(c, names[..j]) == Ok(acc)
    {
      DropStep(c, names, j);
      var n := names[j];
      if n !in acc {
        DropStops(c, names, j + 1);
        return Err(OutOfRange(n));
      }
      acc := acc[n := acc[n] - 1];
      j := j + 1;
    }
    assert names[..j] == names;
    r := Ok(acc);
  }

  /** The counting loop of `allocateImages`. */
  method CountTargetUses(nodes: Nodes, order: seq<string>) returns (r: Result<Counts>)
    ensures r == CountUses(nodes, order)
  {
    var c: Counts := map[];
    var i := 0;
    while i < |order|
      invariant 0 <= i <= |order|
      invariant CountUses(nodes, order[..i]) == Ok(c)
    {
      assert order[..i + 1][..i] == order[..i];
      var name := order[i];
      if name !in nodes {
        CountUsesStops(nodes, order, i + 1);
        return Err(OutOfRange(name));
      }
      if nodes[name].kind == RenderPassKind {
        c := IncrementAll(c, nodes[name].outputNodes);
        c := IncrementAll(c, nodes[name].inputNodes);
      }
      i := i + 1;
    }
    assert order[..i] == order;
    r := Ok(c);
  }

  /** One iteration of the output loop of `allocateImages`. */
  method AssignOneOutput(a: Alloc, outputName: string) returns (r: Alloc)
    requires a.failure.None?
    ensures r == AssignOutput(a, outputName)
  {
    if outputName !in a.nodes {
      return a.(failure := Some(OutOfRange(outputName)));
    }
    var out := a.nodes[outputName];
    var unused := FindRenderTargetThatIsNotBeingUsed(a.counts);
    if unused == "" {
      r := a.(nodes := a.nodes[outputName := out.(imageResource := outputName + "_img")]);
    } else {
      if unused !in a.nodes {
        return a.(failure := Some(OutOfRange(unused)));
      }
      r := a.(nodes := a.nodes[outputName := out.(imageResource := a.nodes[unused].imageResource)],
              counts := a.counts[unused := a.counts[unused] + 1]);
    }
  }

  /** The output loop of one pass of `allocateImages`. */
  method AssignOutputLoop(a: Alloc, outs: seq<string>) returns (r: Alloc)
    requires a.failure.None?
    ensures r == AssignOutputs(a, outs)
  {
    r := a;
    var i := 0;
    while i < |outs|
      invariant 0 <= i <= |outs|
      invariant r == AssignOutputs(a, outs[..i]) && r.failure.None?
    {
      AssignOutputsStep(a, outs, i);
      r := AssignOneOutput(r, outs[i]);
      if r.failure.Some? {
        AssignOutputsStops(a, outs, i + 1);
        return;
      }
      i := i + 1;
    }
    assert outs[..i] == outs;
  }

  /** A decrement loop of `allocateImages` over the output or input nodes of a pass. */
  method RetireAll(a: Alloc, names: seq<string>) returns (r: Alloc)
    requires a.failure.None?
    ensures r == Retire(a, names)
  {
    var c := DecrementAll(a.counts, names);
    if c.Err? {
      r := a.(failure := Some(c.error));
    } else {
      r := a.(counts := c.value);
    }
  }

  /** One pass of the allocation loop: assign its outputs, then retire its output and input nodes. */
  method ProcessOnePass(a: Alloc, n: Node) returns (r: Alloc)
    requires a.failure.None?
    ensures r == ProcessPass(a, n)
  {
    r := AssignOutputLoop(a, n.outputNodes);
    if r.failure.None? {
      r := RetireAll(r, n.outputNodes);
      if r.failure.None? {
        r := RetireAll(r, n.inputNodes);
      }
    }
  }

  /** The allocation loop of `allocateImages` over the execution order. */
  method AllocateLoop(a: Alloc, order: seq<string>) returns (r: Alloc)
    requires a.failure.None?
    ensures r == AllocateOrder(a, order)
  {
    r := a;
    var i := 0;
    while i < |order|
      invariant 0 <= i <= |order|
      invariant r == AllocateOrder(a, order[..i]) && r.failure.None?
    {
      AllocateOrderStep(a, order, i);
      var name := order[i];
      if name !in r.nodes {
        r := r.(failure := Some(OutOfRange(name)));
        AllocateOrderStops(a, order, i + 1);
        return;
      }
      if r.nodes[name].kind == RenderPassKind {
        r := ProcessOnePass(r, r.nodes[name]);
        if r.failure.Some? {
          AllocateOrderStops(a, order, i + 1);
          return;
        }
      }
      i := i + 1;
    }
    assert order[..i] == order;
  }

  // ---------------------------------------------------------------------
  // Helpers
  // ---------------------------------------------------------------------

  /** Appending one more name of `names` to `prefix`. */
  lemma AppendOne(prefix: seq<string>, names: seq<string>, i: int)
    requires 0 <= i < |names|
    ensures prefix + names[..i + 1] == (prefix + names[..i]) + [names[i]]
  {
    assert names[..i + 1] == names[..i] + [names[i]];
  }

  /** Replacing a node twice is replacing it once. */
  lemma AppendStep(m: Nodes, key: string, v: Node, w: Node)
    ensures m[key := v][key := w] == m[key := w]
  {
  }

  /** Writing back a node's own value changes nothing. */
  lemma SameNode(m: Nodes, key: string)
    requires key in m
    ensures m[key := m[key]] == m
  {
  }

  lemma EraseExt(n0: Nodes, n: Nodes)
    requires n.Keys <= n0.Keys && forall k | k in n :: n[k] == n0[k] && n[k].kind != RenderTargetKind
    requires forall k | k in n0 && n0[k].kind != RenderTargetKind :: k in n
    ensures n == Erase(n0)
  {
  }

  lemma OverrideExt(n0: Nodes, t: Targets, n: Nodes)
    requires forall k :: k in n <==> k in n0 || k in t
    requires forall k | k in n :: n[k] == if k in t then t[k] else n0[k]
    ensures n == n0 + t
  {
  }
}
