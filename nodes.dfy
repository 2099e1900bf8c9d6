/**
 * The node model of `include/frameGraph/frameGraph.h`: render passes,
 * render targets, the `node_v` variant over the two, image definitions,
 * and the graph views the execution-order resolver works on.
 */
module Nodes {
  import opened Formats
  import opened KeyOrder
  import ExecOrder

  /** `uint32_t`. */
  type U32 = x: int | 0 <= x < 0x1_0000_0000

  /** A named render target with its format (`RenderTargetDefinition`). */
  datatype RenderTargetDefinition = RenderTargetDefinition(name: string, format: FrameGraphFormat)

  /** A physical image (`ImageDefinition`); `resizable` defaults to true. */
  datatype ImageDefinition = ImageDefinition(
    name: string, format: FrameGraphFormat, width: U32, height: U32, resizable: bool)

  /**
   * `RenderPassNode`: `inputs` are `inputSampledRenderTargets`, `outputs`
   * are `outputRenderTargets`; an extent of 0 means the swapchain's size.
   */
  datatype RenderPassNode = RenderPassNode(
    name: string,
    inputs: seq<RenderTargetDefinition>,
    outputs: seq<RenderTargetDefinition>,
    width: U32,
    height: U32)

  /** `RenderTargetNode`: the pass writing the target, the passes reading it, its image. */
  datatype RenderTargetNode = RenderTargetNode(
    name: string,
    writer: string,
    readers: seq<string>,
    imageResource: RenderTargetDefinition)

  /** `node_v = std::variant<RenderPassNode, RenderTargetNode>`. */
  datatype Node = Pass(pass: RenderPassNode) | Target(target: RenderTargetNode)

  /** `m_nodes`. */
  type Nodes = map<string, Node>

  /** `m_images`. */
  type Images = map<string, ImageDefinition>

  /** The names of a list of render target definitions. */
  function Names(defs: seq<RenderTargetDefinition>): (r: seq<string>)
    ensures |r| == |defs|
    ensures forall i :: 0 <= i < |defs| ==> r[i] == defs[i].name
  {
    seq(|defs|, i requires 0 <= i < |defs| => defs[i].name)
  }

  /** Every node is a render pass, as after `finalize` erases the targets. */
  ghost predicate AllPasses(nodes: Nodes)
  {
    forall k | k in nodes :: nodes[k].Pass?
  }

  /** What the first loop of `finalize` leaves: the render passes. */
  function PassesOnly(nodes: Nodes): (r: Nodes)
    ensures AllPasses(r)
    ensures forall k :: k in r <==> k in nodes && nodes[k].Pass?
    ensures forall k | k in r :: r[k] == nodes[k]
  {
    map k | k in nodes && nodes[k].Pass? :: nodes[k]
  }

  /** Where `_recursePushBack` descends from a node: a pass's inputs, a target's writer. */
  function Deps(n: Node): seq<string>
  {
    match n
    case Pass(p) => Names(p.inputs)
    case Target(t) => [t.writer]
  }

  function DepGraph(nodes: Nodes): (g: ExecOrder.Graph)
    ensures g.Keys == nodes.Keys
    ensures forall k | k in nodes :: g[k] == Deps(nodes[k])
  {
    map k | k in nodes :: Deps(nodes[k])
  }

  /** An end node: a target nobody reads, or a pass with no outputs. */
  predicate IsEnd(n: Node)
  {
    match n
    case Target(t) => |t.readers| == 0
    case Pass(p) => |p.outputs| == 0
  }

  /** The end nodes, in the order `findEndNodes` lists them. */
  function EndNodes(nodes: Nodes): seq<string>
  {
    SortedKeys(set k | k in nodes && IsEnd(nodes[k]))
  }
}
