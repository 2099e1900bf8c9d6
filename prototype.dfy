/**
 * The single-file prototype of `main.cpp`: nodes tagged by a type string
 * (`"renderPass"` or `"renderTarget"`), linked by name through their
 * `inputNodes` and `outputNodes`, with `imageResource` the name of the image
 * a target is given.
 *
 * This module holds the node model, what `generateImages` builds, the end
 * nodes and execution order, and the search for an unused render target.
 * The allocation loop is in `ProtoAllocate`, the imperative class in
 * `ProtoGraph`.
 */
module Prototype {
  import opened Errors
  import opened KeyOrder
  import opened UseCounts
  import ExecOrder
  import Generate

  /** `struct Node`; `kind` is the C++ member `type`. */
  datatype Node = Node(
    name: string,
    kind: string,
    inputNodes: seq<string>,
    outputNodes: seq<string>,
    imageResource: string)

  /** `FrameGraph::nodes`. */
  type Nodes = map<string, Node>

  const RenderPassKind := "renderPass"
  const RenderTargetKind := "renderTarget"

  /** The node `insertNode` adds: named and typed, with empty lists and no image. */
  function NewNode(name: string, kind: string): Node
  {
    Node(name, kind, [], [], "")
  }

  // ---------------------------------------------------------------------
  // generateImages
  // ---------------------------------------------------------------------

  /** The local `std::map<std::string, Node> images`. */
  type Targets = map<string, Node>

  /** The render target `images[o]` gets when `writer` is the first node to output `o`. */
  function NewTarget(o: string, writer: string): Node
  {
    Node(o, RenderTargetKind, [writer], [], "")
  }

  /** Every name of `ks` is a node. */
  ghost predicate NodeKeys(nodes: Nodes, ks: seq<string>)
  {
    forall k | k in ks :: k in nodes
  }

  /** The first loop's body for one node: a target for each output nobody output before. */
  function AddWriter(acc: Targets, writer: string, outs: seq<string>): Targets
  {
    if outs == [] then acc
    else
      var a := AddWriter(acc, writer, outs[..|outs| - 1]);
      var o := outs[|outs| - 1];
      if o in a then a else a[o := NewTarget(o, writer)]
  }

  /** The first loop of `generateImages`, over the nodes `ks` in turn. */
  function CollectWriters(nodes: Nodes, ks: seq<string>): Targets
    requires NodeKeys(nodes, ks)
  {
    if ks == [] then map[]
    else
      var k := ks[|ks| - 1];
      AddWriter(CollectWriters(nodes, ks[..|ks| - 1]), k, nodes[k].outputNodes)
  }

  /** The second loop's body for one node: `images.at(in).outputNodes.push_back(reader)`. */
  function AddReader(acc: Result<Targets>, reader: string, ins: seq<string>): Result<Targets>
  {
    if ins == [] then acc
    else
      match AddReader(acc, reader, ins[..|ins| - 1])
      case Err(e) => Err(e)
      case Ok(a) =>
        var n := ins[|ins| - 1];
        if n in a then Ok(a[n := a[n].(outputNodes := a[n].outputNodes + [reader])])
        else Err(OutOfRange(n))
  }

  /** The second loop of `generateImages`, over the nodes `ks` in turn. */
  function CollectReaders(acc: Result<Targets>, nodes: Nodes, ks: seq<string>): Result<Targets>
    requires NodeKeys(nodes, ks)
  {
    if ks == [] then acc
    else
      var k := ks[|ks| - 1];
      AddReader(CollectReaders(acc, nodes, ks[..|ks| - 1]), k, nodes[k].inputNodes)
  }

  /** The targets `generateImages` builds, visiting the nodes in key order. */
  function GenerateTargets(nodes: Nodes): Result<Targets>
  {
    var ks := SortedKeys(nodes.Keys);
    SortedKeysSpec(nodes.Keys);
    CollectReaders(Ok(CollectWriters(nodes, ks)), nodes, ks)
  }

  /** `nodes` after `generateImages`: the targets copied over the nodes by name. */
  function Generated(nodes: Nodes): Result<Nodes>
  {
    match GenerateTargets(nodes)
    case Err(e) => Err(e)
    case Ok(t) => Ok(nodes + t)
  }

  /** The nodes listing `o` among their output nodes. */
  function Declarers(nodes: Nodes, o: string): set<string>
  {
    set k | k in nodes && o in nodes[k].outputNodes
  }

  /** The readers of `o`: each node of `ks` in turn, once per input naming `o`. */
  function ReadersOf(nodes: Nodes, ks: seq<string>, o: string): seq<string>
    requires NodeKeys(nodes, ks)
  {
    if ks == [] then []
    else
      var k := ks[|ks| - 1];
      ReadersOf(nodes, ks[..|ks| - 1], o) + Generate.Repeat(k, Count(nodes[k].inputNodes, o))
  }

  /** Every input node names something some node outputs. */
  ghost predicate NoDanglingInput(nodes: Nodes)
  {
    forall k, n | k in nodes && n in nodes[k].inputNodes :: Declarers(nodes, n) != {}
  }

  /** `n` is an input of some node and an output of none. */
  ghost predicate DanglingInput(nodes: Nodes, n: string)
  {
    Declarers(nodes, n) == {} && exists k :: k in nodes && n in nodes[k].inputNodes
  }

  /**
   * One `"renderTarget"` node per output name: its input node is the least
   * node outputting it, its output nodes are the readers in key order, and
   * it has no image yet.
   */
  ghost predicate TargetsAsDeclared(nodes: Nodes, t: Targets)
  {
    SortedKeysSpec(nodes.Keys);
    (forall o :: o in t <==> Declarers(nodes, o) != {})
    && forall o | o in t ::
         t[o] == Node(o, RenderTargetKind, [Least(Declarers(nodes, o))],
                      ReadersOf(nodes, SortedKeys(nodes.Keys), o), "")
  }

  /** `ks[i]` outputs `o` and no node before it in `ks` does. */
  ghost predicate FirstWriterAt(nodes: Nodes, ks: seq<string>, o: string, i: int)
  {
    0 <= i < |ks| && ks[i] in nodes && o in nodes[ks[i]].outputNodes
    && forall j :: 0 <= j < i ==> !(ks[j] in nodes && o in nodes[ks[j]].outputNodes)
  }

  /** One node's outputs: exactly the new names get a target, written by that node. */
  lemma {:induction false} AddWriterSpec(acc: Targets, writer: string, outs: seq<string>)
    ensures forall o :: o in AddWriter(acc, writer, outs) <==> o in acc || o in outs
    ensures forall o | o in acc :: AddWriter(acc, writer, outs)[o] == acc[o]
    ensures forall o | o in AddWriter(acc, writer, outs) && o !in acc ::
              AddWriter(acc, writer, outs)[o] == NewTarget(o, writer)
  {
    if outs != [] {
      var pre := outs[..|outs| - 1];
      assert outs == pre + [outs[|outs| - 1]];
      AddWriterSpec(acc, writer, pre);
    }
  }

  /** The writer of each target is the first node of `ks` outputting it. */
  lemma {:induction false} CollectWritersSpec(nodes: Nodes, ks: seq<string>)
    requires NodeKeys(nodes, ks)
    ensures forall o :: o in CollectWriters(nodes, ks) <==> exists k :: k in ks && o in nodes[k].outputNodes
    ensures forall o | o in CollectWriters(nodes, ks) ::
      exists i :: FirstWriterAt(nodes, ks, o, i) && CollectWriters(nodes, ks)[o] == NewTarget(o, ks[i])
  {
    if ks != [] {
      var pre := ks[..|ks| - 1];
      var k := ks[|ks| - 1];
      CollectWritersSpec(nodes, pre);
      var a := CollectWriters(nodes, pre);
      AddWriterSpec(a, k, nodes[k].outputNodes);
      var w := CollectWriters(nodes, ks);
      assert forall x :: x in ks <==> x in pre || x == k by {
        assert ks == pre + [k];
      }
      forall o | o in w
        ensures exists i :: FirstWriterAt(nodes, ks, o, i) && w[o] == NewTarget(o, ks[i])
      {
        if o in a {
          var i :| FirstWriterAt(nodes, pre, o, i) && a[o] == NewTarget(o, pre[i]);
          assert FirstWriterAt(nodes, ks, o, i) by {
            forall j | 0 <= j <= i ensures ks[j] == pre[j] { }
          }
        } else {
          var i := |ks| - 1;
          assert FirstWriterAt(nodes, ks, o, i) by {
            forall j | 0 <= j < i ensures !(ks[j] in nodes && o in nodes[ks[j]].outputNodes) {
              assert ks[j] == pre[j] && pre[j] in pre;
            }
          }
        }
      }
    }
  }

  /** Once the reader loop has thrown, it passes the exception on. */
  lemma {:induction false} AddReaderErr(e: Failure, reader: string, ins: seq<string>)
    ensures AddReader(Err(e), reader, ins) == Err(e)
  {
    if ins != [] {
      AddReaderErr(e, reader, ins[..|ins| - 1]);
    }
  }

  /** Adding one node as a reader: it throws exactly on an input that has no target. */
  lemma {:induction false} AddReaderSpec(a: Targets, reader: string, ins: seq<string>)
    ensures var r := AddReader(Ok(a), reader, ins);
      r.Ok? <==> forall n | n in ins :: n in a
    ensures var r := AddReader(Ok(a), reader, ins);
      r.Ok? ==> (r.value.Keys == a.Keys
        && forall o | o in a ::
             r.value[o] == a[o].(outputNodes := a[o].outputNodes + Generate.Repeat(reader, Count(ins, o))))
    ensures var r := AddReader(Ok(a), reader, ins);
      r.Err? ==> r.error.OutOfRange? && r.error.key in ins && r.error.key !in a
  {
    if ins == [] {
      forall o | o in a ensures a[o] == a[o].(outputNodes := a[o].outputNodes + Generate.Repeat(reader, 0)) {
        assert a[o].outputNodes + Generate.Repeat(reader, 0) == a[o].outputNodes;
      }
    } else {
      var pre := ins[..|ins| - 1];
      var n := ins[|ins| - 1];
      AddReaderSpec(a, reader, pre);
      assert ins == pre + [n];
      var r := AddReader(Ok(a), reader, ins);
      if r.Ok? {
        forall o | o in a
          ensures r.value[o] == a[o].(outputNodes := a[o].outputNodes + Generate.Repeat(reader, Count(ins, o)))
        {
          CountConcat(pre, [n], o);
          assert Count([n], o) == if n == o then 1 else 0 by {
            assert [n][..0] == [];
          }
          if o == n {
            assert Generate.Repeat(reader, Count(pre, o)) + [reader]
                == Generate.Repeat(reader, Count(ins, o));
          }
        }
      }
    }
  }

  /** The reader loop over the nodes `ks` either throws on a dangling input or appends `ReadersOf`. */
  lemma {:induction false} CollectReadersSpec(a: Targets, nodes: Nodes, ks: seq<string>)
    requires NodeKeys(nodes, ks)
    ensures var r := CollectReaders(Ok(a), nodes, ks);
      r.Ok? <==> forall k, n | k in ks && n in nodes[k].inputNodes :: n in a
    ensures var r := CollectReaders(Ok(a), nodes, ks);
      r.Ok? ==> (r.value.Keys == a.Keys
        && forall o | o in a ::
             r.value[o] == a[o].(outputNodes := a[o].outputNodes + ReadersOf(nodes, ks, o)))
    ensures var r := CollectReaders(Ok(a), nodes, ks);
      r.Err? ==> (r.error.OutOfRange? && r.error.key !in a
        && exists k :: k in ks && r.error.key in nodes[k].inputNodes)
  {
    if ks == [] {
      forall o | o in a ensures a[o] == a[o].(outputNodes := a[o].outputNodes + ReadersOf(nodes, ks, o)) {
        assert a[o].outputNodes + [] == a[o].outputNodes;
      }
    } else {
      var pre := ks[..|ks| - 1];
      var k := ks[|ks| - 1];
      CollectReadersSpec(a, nodes, pre);
      var m := CollectReaders(Ok(a), nodes, pre);
      var r := CollectReaders(Ok(a), nodes, ks);
      assert forall x :: x in ks <==> x in pre || x == k by {
        assert ks == pre + [k];
      }
      if m.Err? {
        AddReaderErr(m.error, k, nodes[k].inputNodes);
      } else {
        AddReaderSpec(m.value, k, nodes[k].inputNodes);
        if r.Ok? {
          forall o | o in a ensures r.value[o] == a[o].(outputNodes := a[o].outputNodes + ReadersOf(nodes, ks, o)) {
            assert a[o].outputNodes + ReadersOf(nodes, pre, o) + Generate.Repeat(k, Count(nodes[k].inputNodes, o))
                == a[o].outputNodes + ReadersOf(nodes, ks, o);
          }
        }
      }
    }
  }

  /** In key order, the first node outputting `o` is the least one. */
  lemma FirstInKeyOrder(nodes: Nodes, o: string, i: int)
    requires FirstWriterAt(nodes, SortedKeys(nodes.Keys), o, i)
    ensures SortedKeys(nodes.Keys)[i] in Declarers(nodes, o)
    ensures SortedKeys(nodes.Keys)[i] == Least(Declarers(nodes, o))
  {
    var ks := SortedKeys(nodes.Keys);
    SortedKeysSpec(nodes.Keys);
    var d := Declarers(nodes, o);
    assert ks[i] in d;
    var w := Least(d);
    LeastSpec(d);
    assert ks[i] == w by {
      if ks[i] != w {
        assert w in ks;
        var j :| 0 <= j < |ks| && ks[j] == w;
        assert Less(w, ks[i]);
        LessAsymmetric(w, ks[i]);
      }
    }
  }

  /**
   * `generateImages` throws `std::out_of_range` exactly when some input
   * names nothing any node outputs, and then names such an input; otherwise
   * it builds one target per output name, as `TargetsAsDeclared` says.
   */
  lemma GenerateTargetsSpec(nodes: Nodes)
    ensures GenerateTargets(nodes).Ok? <==> NoDanglingInput(nodes)
    ensures GenerateTargets(nodes).Ok? ==> TargetsAsDeclared(nodes, GenerateTargets(nodes).value)
    ensures GenerateTargets(nodes).Err? ==>
      GenerateTargets(nodes).error.OutOfRange? && DanglingInput(nodes, GenerateTargets(nodes).error.key)
  {
    var ks := SortedKeys(nodes.Keys);
    SortedKeysSpec(nodes.Keys);
    var w := CollectWriters(nodes, ks);
    CollectWritersSpec(nodes, ks);
    forall o ensures o in w <==> Declarers(nodes, o) != {} {
      if Declarers(nodes, o) != {} {
        var k :| k in Declarers(nodes, o);
        assert k in ks;
      }
      if o in w {
        var k :| k in ks && o in nodes[k].outputNodes;
        assert k in Declarers(nodes, o);
      }
    }
    CollectReadersSpec(w, nodes, ks);
    var r := GenerateTargets(nodes);
    if r.Ok? {
      forall o | o in r.value
        ensures r.value[o] == Node(o, RenderTargetKind, [Least(Declarers(nodes, o))], ReadersOf(nodes, ks, o), "")
      {
        var i :| FirstWriterAt(nodes, ks, o, i) && w[o] == NewTarget(o, ks[i]);
        FirstInKeyOrder(nodes, o, i);
        assert [] + ReadersOf(nodes, ks, o) == ReadersOf(nodes, ks, o);
      }
    } else {
      var k :| k in ks && r.error.key in nodes[k].inputNodes;
    }
  }

  /** Once `images.at` has thrown for one node, its later inputs are not visited. */
  lemma {:induction false} AddReaderStops(acc: Result<Targets>, reader: string, ins: seq<string>, i: int)
    requires 0 <= i <= |ins| && AddReader(acc, reader, ins[..i]).Err?
    ensures AddReader(acc, reader, ins) == AddReader(acc, reader, ins[..i])
  {
    if i < |ins| {
      assert ins[..|ins| - 1][..i] == ins[..i];
      AddReaderStops(acc, reader, ins[..|ins| - 1], i);
    } else {
      assert ins[..i] == ins;
    }
  }

  /** Once `images.at` has thrown, the later nodes are not visited. */
  lemma {:induction false} CollectReadersStops(acc: Result<Targets>, nodes: Nodes, ks: seq<string>, i: int)
    requires NodeKeys(nodes, ks) && 0 <= i <= |ks|
    requires CollectReaders(acc, nodes, ks[..i]).Err?
    ensures CollectReaders(acc, nodes, ks) == CollectReaders(acc, nodes, ks[..i])
  {
    if i < |ks| {
      var pre := ks[..|ks| - 1];
      assert pre[..i] == ks[..i];
      CollectReadersStops(acc, nodes, pre, i);
      AddReaderErr(CollectReaders(acc, nodes, pre).error, ks[|ks| - 1], nodes[ks[|ks| - 1]].inputNodes);
    } else {
      assert ks[..i] == ks;
    }
  }

  // ---------------------------------------------------------------------
  // findEndNodes, _recursePushBack, findExecutionOrder
  // ---------------------------------------------------------------------

  /** The nodes with no output nodes, in the order `findEndNodes` lists them. */
  function EndNodes(nodes: Nodes): seq<string>
  {
    SortedKeys(set k | k in nodes && |nodes[k].outputNodes| == 0)
  }

  /** The end nodes are exactly the nodes with no output nodes, once each, in key order. */
  lemma EndNodesSpec(nodes: Nodes)
    ensures StrictlySorted(EndNodes(nodes)) && ExecOrder.NoDup(EndNodes(nodes))
    ensures forall k :: k in EndNodes(nodes) <==> k in nodes && nodes[k].outputNodes == []
  {
    var s := set k | k in nodes && |nodes[k].outputNodes| == 0;
    SortedKeysSpec(s);
    forall i, j | 0 <= i < j < |EndNodes(nodes)| ensures EndNodes(nodes)[i] != EndNodes(nodes)[j] {
      SortedDistinct(EndNodes(nodes), i, j);
    }
  }

  /** `_recursePushBack` descends into the input nodes. */
  function DepGraph(nodes: Nodes): (g: ExecOrder.Graph)
    ensures g.Keys == nodes.Keys
    ensures forall k | k in nodes :: g[k] == nodes[k].inputNodes
  {
    map k | k in nodes :: nodes[k].inputNodes
  }

  /** Every input node is a node and the input links have no cycle, so the walk ends from every node. */
  ghost predicate Orderable(nodes: Nodes)
  {
    ExecOrder.Acyclic(DepGraph(nodes))
  }

  lemma EndNodesInGraph(nodes: Nodes)
    ensures forall e | e in EndNodes(nodes) :: e in DepGraph(nodes)
  {
    EndNodesSpec(nodes);
  }

  /** What `findExecutionOrder` returns. */
  ghost function ExecutionOrder(nodes: Nodes): seq<string>
    requires Orderable(nodes)
  {
    EndNodesInGraph(nodes);
    var rank :| ExecOrder.Ranked(DepGraph(nodes), rank);
    ExecOrder.Order(DepGraph(nodes), rank, EndNodes(nodes))
  }

  /** Any rank witnessing acyclicity gives the same order. */
  lemma ExecutionOrderAnyRank(nodes: Nodes, rank: map<string, nat>)
    requires ExecOrder.Ranked(DepGraph(nodes), rank)
    ensures Orderable(nodes)
    ensures forall e | e in EndNodes(nodes) :: e in DepGraph(nodes)
    ensures ExecutionOrder(nodes) == ExecOrder.Order(DepGraph(nodes), rank, EndNodes(nodes))
  {
    var g := DepGraph(nodes);
    EndNodesInGraph(nodes);
    forall r1 | ExecOrder.Ranked(g, r1)
      ensures ExecOrder.Order(g, r1, EndNodes(nodes)) == ExecOrder.Order(g, rank, EndNodes(nodes))
    {
      ExecOrder.WalkFromRankFree(g, r1, rank, EndNodes(nodes));
    }
  }

  /**
   * The execution order lists each name once, only names of nodes, every
   * end node, and every input node of a listed node before that node.
   */
  lemma ExecutionOrderSpec(nodes: Nodes)
    requires Orderable(nodes)
    ensures ExecOrder.NoDup(ExecutionOrder(nodes))
    ensures forall x | x in ExecutionOrder(nodes) :: x in nodes
    ensures forall k | k in nodes && nodes[k].outputNodes == [] :: k in ExecutionOrder(nodes)
    ensures forall i, d | 0 <= i < |ExecutionOrder(nodes)| && d in nodes[ExecutionOrder(nodes)[i]].inputNodes ::
              d in ExecutionOrder(nodes)[..i]
  {
    var g := DepGraph(nodes);
    var rank :| ExecOrder.Ranked(g, rank);
    ExecutionOrderAnyRank(nodes, rank);
    ExecOrder.ExecutionOrderValid(g, rank, EndNodes(nodes));
    ExecOrder.ExecutionOrderReach(g, rank, EndNodes(nodes));
    EndNodesSpec(nodes);
  }

  // ---------------------------------------------------------------------
  // findRenderTargetThatIsNotBeingUsed
  // ---------------------------------------------------------------------

  /** The names whose count is 0. */
  function ZeroKeys(counts: Counts): set<string>
  {
    set k | k in counts && counts[k] == 0
  }

  /** The first name of `ks` whose count is 0, or `""`. */
  function ScanZero(counts: Counts, ks: seq<string>): (r: string)
    requires forall k | k in ks :: k in counts
    ensures r == "" || (r in ks && counts[r] == 0)
  {
    if ks == [] then ""
    else if counts[ks[0]] == 0 then ks[0]
    else ScanZero(counts, ks[1..])
  }

  /** `findRenderTargetThatIsNotBeingUsed`: the scan over the counts in key order. */
  function FirstUnused(counts: Counts): (r: string)
    ensures r == "" || (r in counts && counts[r] == 0)
  {
    SortedKeysSpec(counts.Keys);
    ScanZero(counts, SortedKeys(counts.Keys))
  }

  /** The scan returns `""` when no count of `ks` is 0, and otherwise the first name of `ks` whose count is 0. */
  lemma {:induction false} ScanZeroSpec(counts: Counts, ks: seq<string>)
    requires forall k | k in ks :: k in counts
    ensures (ScanZero(counts, ks) == "" && forall i | 0 <= i < |ks| :: counts[ks[i]] != 0)
      || exists p :: 0 <= p < |ks| && ks[p] == ScanZero(counts, ks) && counts[ks[p]] == 0
           && forall j | 0 <= j < p :: counts[ks[j]] != 0
  {
    if ks != [] && counts[ks[0]] != 0 {
      ScanZeroSpec(counts, ks[1..]);
      var r := ScanZero(counts, ks);
      if exists p :: 0 <= p < |ks[1..]| && ks[1..][p] == r && counts[ks[1..][p]] == 0
           && forall j | 0 <= j < p :: counts[ks[1..][j]] != 0 {
        var p :| 0 <= p < |ks[1..]| && ks[1..][p] == r && counts[ks[1..][p]] == 0
          && forall j | 0 <= j < p :: counts[ks[1..][j]] != 0;
        assert ks[p + 1] == r;
        forall j | 0 <= j < p + 1 ensures counts[ks[j]] != 0 {
          if j > 0 { assert ks[j] == ks[1..][j - 1]; }
        }
      } else {
        forall i | 0 <= i < |ks| ensures counts[ks[i]] != 0 {
          if i > 0 { assert ks[i] == ks[1..][i - 1]; }
        }
      }
    }
  }

  /** Along sorted keys, the first name whose count is 0 is the least such name. */
  lemma FirstZeroIsLeast(counts: Counts, ks: seq<string>, p: int)
    requires StrictlySorted(ks) && forall k :: k in ks <==> k in counts
    requires 0 <= p < |ks| && counts[ks[p]] == 0 && forall j | 0 <= j < p :: counts[ks[j]] != 0
    ensures ZeroKeys(counts) != {} && ks[p] == Least(ZeroKeys(counts))
  {
    var z := ZeroKeys(counts);
    assert ks[p] in z;
    var m := Least(z);
    LeastSpec(z);
    var q :| 0 <= q < |ks| && ks[q] == m;
    if ks[p] != m {
      assert Less(m, ks[p]);
      assert q > p;
      assert Less(ks[p], ks[q]);
      LessAsymmetric(m, ks[p]);
    }
  }

  /**
   * The search returns the least name whose count is 0, or `""` when no
   * count is 0; a least such name `""` is returned too, and the caller
   * cannot tell it apart.  No format or extent is compared.
   */
  lemma FirstUnusedSpec(counts: Counts)
    ensures ZeroKeys(counts) == {} ==> FirstUnused(counts) == ""
    ensures ZeroKeys(counts) != {} ==> FirstUnused(counts) == Least(ZeroKeys(counts))
  {
    var ks := SortedKeys(counts.Keys);
    SortedKeysSpec(counts.Keys);
    ScanZeroSpec(counts, ks);
    var r := FirstUnused(counts);
    if exists p :: 0 <= p < |ks| && ks[p] == r && counts[ks[p]] == 0 && forall j | 0 <= j < p :: counts[ks[j]] != 0 {
      var p :| 0 <= p < |ks| && ks[p] == r && counts[ks[p]] == 0 && forall j | 0 <= j < p :: counts[ks[j]] != 0;
      FirstZeroIsLeast(counts, ks, p);
    }
  }
}
