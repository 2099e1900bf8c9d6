/**
 * `struct FrameGraph` of `include/frameGraph/frameGraph.h`.
 *
 * The class `FrameGraph` holds `m_nodes` and `m_images` and has the members
 * that change them.  The `const` members and the loops of `finalize` that
 * only read the maps are methods over the maps' values; the allocation loop
 * works on an `Alloc` value holding `m_nodes`, `m_images` and the local
 * `imageUseCount`, which `finalize` writes back.  Each method follows the
 * loops of its C++ counterpart and is proved against the functions of the
 * modules `Generate`, `Allocate` and `Finalize`.  The search uses the
 * extent compare as written (`AsWritten`), which tests the image's height
 * against the pass's width and its width against the pass's height; the
 * evidently intended compare is `Intended` in `Allocate`.
 *
 * `RenderPassNode &` handed out by `createRenderPass` is a reference into
 * `m_nodes`; here the builder methods take the pass's key instead.  A C++
 * exception is a returned `Failure`, with the maps as the exception left
 * them.
 */
module Graph {
  import opened Errors
  import opened Formats
  import opened KeyOrder
  import opened UseCounts
  import opened Nodes
  import opened Generate
  import opened Allocate
  import opened Finalize
  import ExecOrder

  class FrameGraph {
    var nodes: Nodes
    var images: Images

    constructor()
      ensures nodes == map[] && images == map[]
    {
      nodes := map[];
      images := map[];
    }

    /** `createRenderPass`: a pass with no targets and extent 0, replacing any node of that name. */
    method CreateRenderPass(name: string)
      modifies this
      ensures nodes == old(nodes)[name := Pass(RenderPassNode(name, [], [], 0, 0))]
      ensures images == old(images)
    {
      nodes := nodes[name := Pass(RenderPassNode(name, [], [], 0, 0))];
    }

    /** `RenderPassNode::input`: samples `name`; the definition pushed has no format. */
    method Input(key: string, name: string)
      requires key in nodes && nodes[key].Pass?
      modifies this
      ensures nodes == old(nodes)[key := Pass(old(nodes)[key].pass.(
        inputs := old(nodes)[key].pass.inputs + [RenderTargetDefinition(name, UNDEFINED)]))]
      ensures images == old(images)
    {
      var p := nodes[key].pass;
      nodes := nodes[key := Pass(p.(inputs := p.inputs + [RenderTargetDefinition(name, UNDEFINED)]))];
    }

    /** `RenderPassNode::output`: writes `name` in `format`, which defaults to `UNDEFINED`. */
    method Output(key: string, name: string, format: FrameGraphFormat := UNDEFINED)
      requires key in nodes && nodes[key].Pass?
      modifies this
      ensures nodes == old(nodes)[key := Pass(old(nodes)[key].pass.(
        outputs := old(nodes)[key].pass.outputs + [RenderTargetDefinition(name, format)]))]
      ensures images == old(images)
    {
      var p := nodes[key].pass;
      nodes := nodes[key := Pass(p.(outputs := p.outputs + [RenderTargetDefinition(name, format)]))];
    }

    /** `RenderPassNode::setExtent`. */
    method SetExtent(key: string, width: U32, height: U32)
      requires key in nodes && nodes[key].Pass?
      modifies this
      ensures nodes == old(nodes)[key := Pass(old(nodes)[key].pass.(width := width, height := height))]
      ensures images == old(images)
    {
      var p := nodes[key].pass;
      nodes := nodes[key := Pass(p.(width := width, height := height))];
    }

    /** The first loop of `finalize`: erase every render-target node. */
    method EraseTargets()
      modifies this
      ensures nodes == PassesOnly(old(nodes))
      ensures images == old(images)
    {
      var n := EraseTargetLoop(nodes);
      nodes := n;
    }

    /**
     * `generateImages`: one render-target node per declared output, copied
     * into `m_nodes`.  It is only called once the targets are erased, so
     * every node is a pass; `images.at` throws on an input nobody declares,
     * and then `m_nodes` is as it was.
     */
    method GenerateImages() returns (failure: Option<Failure>)
      requires AllPasses(nodes)
      modifies this
      ensures images == old(images)
      ensures Generated(old(nodes)).Ok? ==> failure.None? && nodes == Generated(old(nodes)).value
      ensures Generated(old(nodes)).Err? ==> failure == Some(Generated(old(nodes)).error) && nodes == old(nodes)
    {
      var ks := SortedKeys(nodes.Keys);
      SortedKeysSpec(nodes.Keys);
      var w := CollectWriterLoop(nodes, ks);
      var t := CollectReaderLoop(nodes, ks, w);
      if t.Err? {
        return Some(t.error);
      }
      var n := CopyTargetLoop(nodes, t.value);
      nodes := n;
      failure := None;
    }

    /**
     * `finalize`: erase the targets, regenerate them, order the graph, count
     * the uses along the order and allocate the images along it.
     */
    method Finalize() returns (failure: Option<Failure>)
      requires Terminates(nodes)
      modifies this
      ensures Outcome(nodes, images, failure) == FinalizeSpec(AsWritten, old(nodes), old(images))
    {
      EraseTargets();
      failure := GenerateImages();
      if failure.Some? {
        return;
      }
      var order := FindExecutionOrder(nodes);
      var counts := CountImageUses(nodes, order);
      if counts.Err? {
        return Some(counts.error);
      }
      var r := AllocateLoop(Alloc(nodes, images, counts.value, None), order);
      nodes := r.nodes;
      images := r.images;
      failure := r.failure;
    }
  }

  // ---------------------------------------------------------------------
  // The loops of `finalize` and `generateImages` over the maps
  // ---------------------------------------------------------------------

  /** The erase loop: walks the keys in order and erases each target. */
  method EraseTargetLoop(nodes: Nodes) returns (n: Nodes)
    ensures n == PassesOnly(nodes)
  {
    n := nodes;
    var ks := SortedKeys(nodes.Keys);
    SortedKeysMembers(nodes.Keys);
    var i := 0;
    while i < |ks|
      invariant 0 <= i <= |ks|
      invariant n.Keys <= nodes.Keys
      invariant forall k | k in n :: n[k] == nodes[k]
      invariant forall k | k in nodes && nodes[k].Pass? :: k in n
      invariant forall j | 0 <= j < i :: ks[j] !in n || n[ks[j]].Pass?
    {
      var name := ks[i];
      if name in n && n[name].Target? {
        n := n - {name};
      }
      i := i + 1;
    }
    forall k | k in n ensures n[k].Pass? {
      var j :| 0 <= j < |ks| && ks[j] == k;
    }
    PassesOnlyExt(nodes, n);
  }

  /** The first loop of `generateImages`: the writer of each output is the first pass declaring it. */
  method CollectWriterLoop(nodes: Nodes, ks: seq<string>) returns (acc: Targets)
    requires PassKeys(nodes, ks)
    ensures acc == CollectWriters(nodes, ks)
  {
    acc := map[];
    var i := 0;
    while i < |ks|
      invariant 0 <= i <= |ks|
      invariant acc == CollectWriters(nodes, ks[..i])
    {
      var name := ks[i];
      assert ks[..i + 1][..i] == ks[..i];
      var outs := nodes[name].pass.outputs;
      ghost var before := acc;
      var j := 0;
      while j < |outs|
        invariant 0 <= j <= |outs|
        invariant acc == AddWriter(before, name, outs[..j])
      {
        assert outs[..j + 1][..j] == outs[..j];
        var o := outs[j].name;
        if o !in acc {
          acc := acc[o := NewTarget(o, name)];
        }
        j := j + 1;
      }
      assert outs[..j] == outs;
      i := i + 1;
    }
    assert ks[..i] == ks;
  }

  /** The second loop of `generateImages`: each pass becomes a reader of each of its inputs. */
  method CollectReaderLoop(nodes: Nodes, ks: seq<string>, w: Targets) returns (r: Result<Targets>)
    requires PassKeys(nodes, ks)
    ensures r == CollectReaders(Ok(w), nodes, ks)
  {
    var acc := w;
    var i := 0;
    while i < |ks|
      invariant 0 <= i <= |ks|
      invariant CollectReaders(Ok(w), nodes, ks[..i]) == Ok(acc)
    {
      var name := ks[i];
      assert ks[..i + 1][..i] == ks[..i];
      var ins := nodes[name].pass.inputs;
      ghost var before := acc;
      var j := 0;
      while j < |ins|
        invariant 0 <= j <= |ins|
        invariant AddReader(Ok(before), name, ins[..j]) == Ok(acc)
      {
        assert ins[..j + 1][..j] == ins[..j];
        var n := ins[j].name;
        if n !in acc {
          AddReaderStops(Ok(before), name, ins, j + 1);
          CollectReadersStops(Ok(w), nodes, ks, i + 1);
          return Err(OutOfRange(n));
        }
        acc := acc[n := acc[n].(readers := acc[n].readers + [name])];
        j := j + 1;
      }
      assert ins[..j] == ins;
      i := i + 1;
    }
    assert ks[..i] == ks;
    r := Ok(acc);
  }

  /** The last loop of `generateImages`: `m_nodes[n] = i` for every target, in key order. */
  method CopyTargetLoop(nodes: Nodes, t: Targets) returns (n: Nodes)
    ensures n == nodes + AsNodes(t)
  {
    n := nodes;
    var ks := SortedKeys(t.Keys);
    SortedKeysMembers(t.Keys);
    var i := 0;
    while i < |ks|
      invariant 0 <= i <= |ks|
      invariant forall k :: k in n <==> k in nodes || k in ks[..i]
      invariant forall k | k in n :: n[k] == if k in ks[..i] then Target(t[k]) else nodes[k]
    {
      assert ks[..i + 1] == ks[..i] + [ks[i]];
      n := n[ks[i] := Target(t[ks[i]])];
      i := i + 1;
    }
    assert ks[..i] == ks;
    OverrideExt(nodes, t, n);
  }

  /** `findEndNodes`: the end nodes in key order. */
  method FindEndNodes(nodes: Nodes) returns (ends: seq<string>)
    ensures ends == EndNodes(nodes)
  {
    var ks := SortedKeys(nodes.Keys);
    SortedKeysSpec(nodes.Keys);
    ghost var endSet := set k | k in nodes && IsEnd(nodes[k]);
    ends := [];
    var i := 0;
    while i < |ks|
      invariant 0 <= i <= |ks|
      invariant StrictlySorted(ends)
      invariant forall x :: x in ends <==> x in endSet && x in ks[..i]
    {
      var name := ks[i];
      assert ks[..i + 1] == ks[..i] + [name];
      if IsEnd(nodes[name]) {
        SortedAppend(ends, ks, i);
        ends := ends + [name];
      }
      i := i + 1;
    }
    assert ks[..i] == ks;
    SortedKeysUnique(ends, endSet);
  }

  /** `_recursePushBack`: push `name`, then walk into the inputs of a pass or the writer of a target. */
  method RecursePushBack(nodes: Nodes, name: string, order: seq<string>, ghost rank: map<string, nat>)
    returns (r: seq<string>)
    requires ExecOrder.Ranked(DepGraph(nodes), rank) && name in nodes
    ensures r == order + ExecOrder.Walk(DepGraph(nodes), rank, name)
    decreases rank[name], 1
  {
    r := PushBackDeps(nodes, name, order + [name], rank);
  }

  /** The loop of `_recursePushBack` over what `name` depends on. */
  method PushBackDeps(nodes: Nodes, name: string, order: seq<string>, ghost rank: map<string, nat>)
    returns (r: seq<string>)
    requires ExecOrder.Ranked(DepGraph(nodes), rank) && name in nodes
    ensures r == order + ExecOrder.WalkDeps(DepGraph(nodes), rank, name, |Deps(nodes[name])|)
    decreases rank[name], 0
  {
    ghost var g := DepGraph(nodes);
    var n := nodes[name];
    var deps: seq<string>;
    if n.Pass? {
      deps := seq(|n.pass.inputs|, j requires 0 <= j < |n.pass.inputs| => n.pass.inputs[j].name);
    } else {
      deps := [n.target.writer];
    }
    assert deps == g[name];
    r := order;
    var i := 0;
    while i < |deps|
      invariant 0 <= i <= |deps|
      invariant r == order + ExecOrder.WalkDeps(g, rank, name, i)
    {
      var d := deps[i];
      ExecOrder.WalkDepsStep(g, rank, name, i);
      ExecOrder.ConcatAssoc(order, ExecOrder.WalkDeps(g, rank, name, i), ExecOrder.Walk(g, rank, d));
      r := RecursePushBack(nodes, d, r, rank);
      i := i + 1;
    }
  }

  /** `findExecutionOrder`: walk from every end node, reverse in place, drop repeats in place. */
  method FindExecutionOrder(nodes: Nodes) returns (order: seq<string>)
    requires Orderable(nodes)
    ensures order == ExecutionOrder(nodes)
  {
    var ends := FindEndNodes(nodes);
    ghost var g := DepGraph(nodes);
    ghost var rank :| ExecOrder.Ranked(g, rank);
    EndNodesInGraph(nodes);
    var walk := [];
    var i := 0;
    while i < |ends|
      invariant 0 <= i <= |ends|
      invariant walk == ExecOrder.WalkFrom(g, rank, ends[..i])
    {
      assert ends[..i + 1][..i] == ends[..i];
      walk := RecursePushBack(nodes, ends[i], walk, rank);
      i := i + 1;
    }
    assert ends[..i] == ends;
    order := ExecOrder.ReverseAndRemoveRepeats(walk);
    ExecutionOrderAnyRank(nodes, rank);
  }

  /** `_findImageThatIsNotBeingUsed`, comparing the image's height with the pass's width and its width with the pass's height. */
  method FindImageThatIsNotBeingUsed(nodes: Nodes, images: Images, counts: Counts,
                                     pass: RenderPassNode, def: RenderTargetDefinition)
    returns (r: Result<string>)
    ensures r == FindUnused(AsWritten, nodes, images, counts, pass, def)
  {
    var ks := SortedKeys(counts.Keys);
    SortedKeysSpec(counts.Keys);
    var i := 0;
    while i < |ks|
      invariant 0 <= i <= |ks|
      invariant Scan(AsWritten, nodes, images, counts, pass, def, ks)
             == Scan(AsWritten, nodes, images, counts, pass, def, ks[i..])
    {
      var name := ks[i];
      assert ks[i..][1..] == ks[i + 1..];
      if counts[name] == 0 {
        if !(name in nodes && nodes[name].Target?) || nodes[name].target.imageResource.name !in images {
          return Err(SearchFailure(nodes, name));
        }
        var img := images[nodes[name].target.imageResource.name];
        if img.format == def.format && img.height == pass.width && img.width == pass.height {
          return Ok(name);
        }
      }
      i := i + 1;
    }
    return Ok("");
  }

  /** `imageUseCount[n.name]++` for each definition in turn. */
  method IncrementAll(c: Counts, defs: seq<RenderTargetDefinition>) returns (r: Counts)
    ensures r == Bump(c, Names(defs))
  {
    ghost var names := Names(defs);
    r := c;
    var j := 0;
    while j < |defs|
      invariant 0 <= j <= |defs|
      invariant r == Bump(c, names[..j])
    {
      BumpStep(c, names, j);
      var n := defs[j].name;
      r := r[n := Get(r, n) + 1];
      j := j + 1;
    }
    assert names[..j] == names;
  }

  /** `imageUseCount.at(n.name)--` for each definition in turn. */
  method DecrementAll(c: Counts, defs: seq<RenderTargetDefinition>) returns (r: Result<Counts>)
    ensures r == Drop(c, Names(defs))
  {
    ghost var names := Names(defs);
    var acc := c;
    var j := 0;
    while j < |defs|
      invariant 0 <= j <= |defs|
      invariant Drop(c, names[..j]) == Ok(acc)
    {
      DropStep(c, names, j);
      var n := defs[j].name;
      if n !in acc {
        DropStops(c, names, j + 1);
        return Err(OutOfRange(n));
      }
      acc := acc[n := acc[n] - 1];
      j := j + 1;
    }
    assert names[..j] == names;
    r := Ok(acc);
  }

  /** The counting loop of `finalize`. */
  method CountImageUses(nodes: Nodes, order: seq<string>) returns (r: Result<Counts>)
    ensures r == CountUses(nodes, order)
  {
    var c: Counts := map[];
    var i := 0;
    while i < |order|
      invariant 0 <= i <= |order|
      invariant CountUses(nodes, order[..i]) == Ok(c)
    {
      assert order[..i + 1][..i] == order[..i];
      var name := order[i];
      if name !in nodes {
        CountUsesStops(nodes, order, i + 1);
        return Err(OutOfRange(name));
      }
      if nodes[name].Pass? {
        c := IncrementAll(c, nodes[name].pass.outputs);
        c := IncrementAll(c, nodes[name].pass.inputs);
      }
      i := i + 1;
    }
    assert order[..i] == order;
    r := Ok(c);
  }

  /** One iteration of the output loop of the allocation loop. */
  method AssignOneOutput(a: Alloc, pass: RenderPassNode, def: RenderTargetDefinition) returns (r: Alloc)
    requires a.failure.None?
    ensures r == AssignOutput(AsWritten, a, pass, def)
  {
    if def.name !in a.nodes {
      return a.(failure := Some(OutOfRange(def.name)));
    }
    if !a.nodes[def.name].Target? {
      return a.(failure := Some(BadVariantAccess(def.name)));
    }
    var t := a.nodes[def.name].target;
    var found := FindImageThatIsNotBeingUsed(a.nodes, a.images, a.counts, pass, def);
    if found.Err? {
      return a.(failure := Some(found.error));
    }
    if found.value == "" {
      var imageName := def.name + "_img";
      var img := ImageDefinition(imageName, def.format, pass.width, pass.height, true);
      r := a.(nodes := a.nodes[def.name := Target(t.(imageResource := RenderTargetDefinition(imageName, def.format)))],
              images := a.images[imageName := img]);
    } else {
      var shared := a.nodes[found.value].target.imageResource.name;
      r := a.(nodes := a.nodes[def.name := Target(t.(imageResource := t.imageResource.(name := shared)))],
              counts := a.counts[found.value := a.counts[found.value] + 1]);
    }
  }

  /** The output loop of one pass of the allocation loop. */
  method AssignOutputLoop(a: Alloc, pass: RenderPassNode) returns (r: Alloc)
    requires a.failure.None?
    ensures r == AssignOutputs(AsWritten, a, pass, pass.outputs)
  {
    var outs := pass.outputs;
    r := a;
    var i := 0;
    while i < |outs|
      invariant 0 <= i <= |outs|
      invariant r == AssignOutputs(AsWritten, a, pass, outs[..i]) && r.failure.None?
    {
      AssignOutputsStep(AsWritten, a, pass, outs, i);
      r := AssignOneOutput(r, pass, outs[i]);
      if r.failure.Some? {
        AssignOutputsStops(AsWritten, a, pass, outs, i + 1);
        return;
      }
      i := i + 1;
    }
    assert outs[..i] == outs;
  }

  /** The decrement loop `imageUseCount.at(n)--` over a list of a pass. */
  method RetireAll(a: Alloc, defs: seq<RenderTargetDefinition>) returns (r: Alloc)
    requires a.failure.None?
    ensures r == Retire(a, Names(defs))
  {
    var c := DecrementAll(a.counts, defs);
    if c.Err? {
      r := a.(failure := Some(c.error));
    } else {
      r := a.(counts := c.value);
    }
  }

  /** One pass of the allocation loop: its outputs are assigned, then its uses retired. */
  method ProcessOnePass(a: Alloc, pass: RenderPassNode) returns (r: Alloc)
    requires a.failure.None?
    ensures r == ProcessPass(AsWritten, a, pass)
  {
    r := AssignOutputLoop(a, pass);
    if r.failure.None? {
      r := RetireAll(r, pass.outputs);
      if r.failure.None? {
        r := RetireAll(r, pass.inputs);
      }
    }
  }

  /** The allocation loop of `finalize` over the execution order. */
  method AllocateLoop(a: Alloc, order: seq<string>) returns (r: Alloc)
    requires a.failure.None?
    ensures r == AllocateOrder(AsWritten, a, order)
  {
    r := a;
    var i := 0;
    while i < |order|
      invariant 0 <= i <= |order|
      invariant r == AllocateOrder(AsWritten, a, order[..i]) && r.failure.None?
    {
      AllocateOrderStep(AsWritten, a, order, i);
      var name := order[i];
      if name !in r.nodes {
        r := r.(failure := Some(OutOfRange(name)));
        AllocateOrderStops(AsWritten, a, order, i + 1);
        return;
      }
      if r.nodes[name].Pass? {
        r := ProcessOnePass(r, r.nodes[name].pass);
        if r.failure.Some? {
          AllocateOrderStops(AsWritten, a, order, i + 1);
          return;
        }
      }
      i := i + 1;
    }
    assert order[..i] == order;
  }

  // ---------------------------------------------------------------------
  // Helpers
  // ---------------------------------------------------------------------

  lemma PassesOnlyExt(n0: Nodes, n: Nodes)
    requires n.Keys <= n0.Keys && forall k | k in n :: n[k] == n0[k] && n[k].Pass?
    requires forall k | k in n0 && n0[k].Pass? :: k in n
    ensures n == PassesOnly(n0)
  {
  }

  lemma OverrideExt(n0: Nodes, t: Targets, n: Nodes)
    requires forall k :: k in n <==> k in n0 || k in t
    requires forall k | k in n :: n[k] == if k in t then Target(t[k]) else n0[k]
    ensures n == n0 + AsNodes(t)
  {
  }
}
