/**
 * The image-aliasing half of `FrameGraph::finalize` in
 * `include/frameGraph/frameGraph.h`: the use counts, the first-fit search
 * for an image nobody uses any more, and the per-pass allocation loop.
 *
 * Every operation is a function on an `Alloc` state.  A C++ exception is a
 * `failure`; once it is set no later step changes anything, which is the
 * state the exception leaves behind in `m_nodes` and `m_images`.
 *
 * The search compares `(I.format, I.height, I.width)` with
 * `(def.format, node.width, node.height)`: the extent is transposed.  The
 * functions take an `ExtentCompare` so that the compare as written and the
 * evidently intended one can both be stated and proved about.
 */
module Allocate {
  import opened Errors
  import opened Formats
  import opened KeyOrder
  import opened UseCounts
  import opened Nodes
  import ExecOrder
  import Generate

  datatype ExtentCompare = AsWritten | Intended

  /** The test the search applies to the image of a candidate target. */
  predicate Fits(mode: ExtentCompare, img: ImageDefinition, format: FrameGraphFormat, width: U32, height: U32)
  {
    match mode
    case AsWritten => img.format == format && img.height == width && img.width == height
    case Intended => img.format == format && img.width == width && img.height == height
  }

  /** A name the search can inspect without throwing: a target whose image exists. */
  predicate Usable(nodes: Nodes, images: Images, name: string)
  {
    name in nodes && nodes[name].Target? && nodes[name].target.imageResource.name in images
  }

  function ImageOf(nodes: Nodes, images: Images, name: string): ImageDefinition
    requires Usable(nodes, images, name)
  {
    images[nodes[name].target.imageResource.name]
  }

  /** The exception the search raises on an unusable name with count 0. */
  function SearchFailure(nodes: Nodes, name: string): Failure
  {
    if name !in nodes then OutOfRange(name)
    else if !nodes[name].Target? then BadVariantAccess(name)
    else OutOfRange(nodes[name].target.imageResource.name)
  }

  /** The search passes over `k`: its count is not 0, or its image does not fit. */
  ghost predicate Skipped(mode: ExtentCompare, nodes: Nodes, images: Images, counts: Counts,
                          pass: RenderPassNode, def: RenderTargetDefinition, k: string)
  {
    Get(counts, k) == 0 ==>
      Usable(nodes, images, k) && !Fits(mode, ImageOf(nodes, images, k), def.format, pass.width, pass.height)
  }

  /** The search loop of `_findImageThatIsNotBeingUsed` over the count keys `ks`. */
  function Scan(mode: ExtentCompare, nodes: Nodes, images: Images, counts: Counts,
                pass: RenderPassNode, def: RenderTargetDefinition, ks: seq<string>): (r: Result<Option<string>>)
    ensures r.Ok? && r.value.Some? ==>
      r.value.value in ks && Get(counts, r.value.value) == 0 && Usable(nodes, images, r.value.value)
      && Fits(mode, ImageOf(nodes, images, r.value.value), def.format, pass.width, pass.height)
  {
    if ks == [] then Ok(None)
    else
      var name := ks[0];
      if Get(counts, name) != 0 then Scan(mode, nodes, images, counts, pass, def, ks[1..])
      else if !Usable(nodes, images, name) then Err(SearchFailure(nodes, name))
      else if Fits(mode, ImageOf(nodes, images, name), def.format, pass.width, pass.height) then Ok(Some(name))
      else Scan(mode, nodes, images, counts, pass, def, ks[1..])
  }

  /** `_findImageThatIsNotBeingUsed`: the first fitting target with count 0, or `""`. */
  function FindUnused(mode: ExtentCompare, nodes: Nodes, images: Images, counts: Counts,
                      pass: RenderPassNode, def: RenderTargetDefinition): (r: Result<string>)
    ensures r.Ok? && r.value != "" ==>
      r.value in counts && counts[r.value] == 0 && Usable(nodes, images, r.value)
      && Fits(mode, ImageOf(nodes, images, r.value), def.format, pass.width, pass.height)
  {
    SortedKeysSpec(counts.Keys);
    match Scan(mode, nodes, images, counts, pass, def, SortedKeys(counts.Keys))
    case Err(e) => Err(e)
    case Ok(None) => Ok("")
    case Ok(Some(n)) => Ok(n)
  }

  /** The search is first-fit along `ks`. */
  lemma {:induction false} ScanFirstFit(mode: ExtentCompare, nodes: Nodes, images: Images, counts: Counts,
                                        pass: RenderPassNode, def: RenderTargetDefinition, ks: seq<string>)
    ensures var r := Scan(mode, nodes, images, counts, pass, def, ks);
      r == Ok(None) ==> forall j | 0 <= j < |ks| :: Skipped(mode, nodes, images, counts, pass, def, ks[j])
    ensures var r := Scan(mode, nodes, images, counts, pass, def, ks);
      r.Ok? && r.value.Some? ==> (exists p :: 0 <= p < |ks| && ks[p] == r.value.value
                                              && forall j | 0 <= j < p :: Skipped(mode, nodes, images, counts, pass, def, ks[j]))
    ensures var r := Scan(mode, nodes, images, counts, pass, def, ks);
      r.Err? ==> (exists p :: 0 <= p < |ks| && Get(counts, ks[p]) == 0 && !Usable(nodes, images, ks[p])
                              && r.error == SearchFailure(nodes, ks[p])
                              && forall j | 0 <= j < p :: Skipped(mode, nodes, images, counts, pass, def, ks[j]))
  {
    if ks != [] {
      var name := ks[0];
      var tail := ks[1..];
      ScanFirstFit(mode, nodes, images, counts, pass, def, tail);
      var r := Scan(mode, nodes, images, counts, pass, def, ks);
      var s := Scan(mode, nodes, images, counts, pass, def, tail);
      if Get(counts, name) != 0 || (Usable(nodes, images, name)
          && !Fits(mode, ImageOf(nodes, images, name), def.format, pass.width, pass.height)) {
        assert r == s;
        assert Skipped(mode, nodes, images, counts, pass, def, ks[0]);
        if r.Ok? && r.value.Some? {
          var p :| 0 <= p < |tail| && tail[p] == r.value.value
            && forall j | 0 <= j < p :: Skipped(mode, nodes, images, counts, pass, def, tail[j]);
          assert ks[p + 1] == r.value.value;
          forall j | 0 <= j < p + 1 ensures Skipped(mode, nodes, images, counts, pass, def, ks[j]) {
            if j > 0 { assert ks[j] == tail[j - 1]; }
          }
        } else if r.Err? {
          var p :| 0 <= p < |tail| && Get(counts, tail[p]) == 0 && !Usable(nodes, images, tail[p])
            && r.error == SearchFailure(nodes, tail[p])
            && forall j | 0 <= j < p :: Skipped(mode, nodes, images, counts, pass, def, tail[j]);
          assert ks[p + 1] == tail[p];
          forall j | 0 <= j < p + 1 ensures Skipped(mode, nodes, images, counts, pass, def, ks[j]) {
            if j > 0 { assert ks[j] == tail[j - 1]; }
          }
        } else {
          forall j | 0 <= j < |ks| ensures Skipped(mode, nodes, images, counts, pass, def, ks[j]) {
            if j > 0 { assert ks[j] == tail[j - 1]; }
          }
        }
      }
    }
  }

  /** A target `_findImageThatIsNotBeingUsed` returns is preceded, in key order, only by skipped keys. */
  lemma FindUnusedFirstFit(mode: ExtentCompare, nodes: Nodes, images: Images, counts: Counts,
                           pass: RenderPassNode, def: RenderTargetDefinition)
    requires FindUnused(mode, nodes, images, counts, pass, def).Ok?
    requires FindUnused(mode, nodes, images, counts, pass, def).value != ""
    ensures forall k | k in counts && Less(k, FindUnused(mode, nodes, images, counts, pass, def).value) ::
      Skipped(mode, nodes, images, counts, pass, def, k)
  {
    var ks := SortedKeys(counts.Keys);
    SortedKeysSpec(counts.Keys);
    ScanFirstFit(mode, nodes, images, counts, pass, def, ks);
    var s := Scan(mode, nodes, images, counts, pass, def, ks);
    var p :| 0 <= p < |ks| && ks[p] == s.value.value
      && forall j | 0 <= j < p :: Skipped(mode, nodes, images, counts, pass, def, ks[j]);
    SkippedBelow(mode, nodes, images, counts, pass, def, ks, p);
  }

  /**
   * `""` from `_findImageThatIsNotBeingUsed` means that no count-0 target
   * fits, or that the fitting target is itself named `""`.
   */
  lemma FindUnusedNoneFits(mode: ExtentCompare, nodes: Nodes, images: Images, counts: Counts,
                           pass: RenderPassNode, def: RenderTargetDefinition)
    requires FindUnused(mode, nodes, images, counts, pass, def) == Ok("")
    ensures (forall k | k in counts :: Skipped(mode, nodes, images, counts, pass, def, k))
      || ("" in counts && counts[""] == 0 && Usable(nodes, images, "")
          && Fits(mode, ImageOf(nodes, images, ""), def.format, pass.width, pass.height))
  {
    var ks := SortedKeys(counts.Keys);
    SortedKeysSpec(counts.Keys);
    ScanFirstFit(mode, nodes, images, counts, pass, def, ks);
    var s := Scan(mode, nodes, images, counts, pass, def, ks);
    if s == Ok(None) {
      forall k | k in counts ensures Skipped(mode, nodes, images, counts, pass, def, k) {
        assert k in ks;
      }
    }
  }

  /** `_findImageThatIsNotBeingUsed` throws on the first count-0 key in key order it cannot inspect. */
  lemma FindUnusedThrows(mode: ExtentCompare, nodes: Nodes, images: Images, counts: Counts,
                         pass: RenderPassNode, def: RenderTargetDefinition)
    requires FindUnused(mode, nodes, images, counts, pass, def).Err?
    ensures exists k :: k in counts && counts[k] == 0 && !Usable(nodes, images, k)
                     && FindUnused(mode, nodes, images, counts, pass, def).error == SearchFailure(nodes, k)
                     && forall j | j in counts && Less(j, k) :: Skipped(mode, nodes, images, counts, pass, def, j)
  {
    var ks := SortedKeys(counts.Keys);
    SortedKeysSpec(counts.Keys);
    ScanFirstFit(mode, nodes, images, counts, pass, def, ks);
    var s := Scan(mode, nodes, images, counts, pass, def, ks);
    var p :| 0 <= p < |ks| && Get(counts, ks[p]) == 0 && !Usable(nodes, images, ks[p])
      && s.error == SearchFailure(nodes, ks[p])
      && forall j | 0 <= j < p :: Skipped(mode, nodes, images, counts, pass, def, ks[j]);
    SkippedBelow(mode, nodes, images, counts, pass, def, ks, p);
  }

  /** Along the sorted count keys, skipping every key before `ks[p]` skips every smaller key. */
  lemma SkippedBelow(mode: ExtentCompare, nodes: Nodes, images: Images, counts: Counts,
                     pass: RenderPassNode, def: RenderTargetDefinition, ks: seq<string>, p: int)
    requires StrictlySorted(ks) && 0 <= p < |ks| && forall k :: k in ks <==> k in counts
    requires forall j | 0 <= j < p :: Skipped(mode, nodes, images, counts, pass, def, ks[j])
    ensures forall k | k in counts && Less(k, ks[p]) :: Skipped(mode, nodes, images, counts, pass, def, k)
  {
    forall k | k in counts && Less(k, ks[p]) ensures Skipped(mode, nodes, images, counts, pass, def, k) {
      var j :| 0 <= j < |ks| && ks[j] == k;
      LessIrreflexive(k);
      if j > p {
        LessAsymmetric(k, ks[p]);
      }
    }
  }

  /** `m_nodes`, `m_images`, `imageUseCount`, and the exception if one was thrown. */
  datatype Alloc = Alloc(nodes: Nodes, images: Images, counts: Counts, failure: Option<Failure>)

  /** The image `fmt::format("{}_img", name)` a fresh allocation creates. */
  function ImageName(name: string): string
  {
    name + "_img"
  }

  /** The image definition a fresh allocation for a pass creates. */
  function FreshImage(pass: RenderPassNode, def: RenderTargetDefinition): ImageDefinition
  {
    ImageDefinition(ImageName(def.name), def.format, pass.width, pass.height, true)
  }

  /**
   * One iteration of the output loop: a fresh image, or the image of the
   * target the search returned, whose count is then bumped.  In the reuse
   * branch only the image name is copied; the format stays as it was.
   */
  function AssignOutput(mode: ExtentCompare, a: Alloc, pass: RenderPassNode, def: RenderTargetDefinition): Alloc
  {
    if a.failure.Some? then a
    else if def.name !in a.nodes then a.(failure := Some(OutOfRange(def.name)))
    else if !a.nodes[def.name].Target? then a.(failure := Some(BadVariantAccess(def.name)))
    else
      var t := a.nodes[def.name].target;
      match FindUnused(mode, a.nodes, a.images, a.counts, pass, def)
      case Err(e) => a.(failure := Some(e))
      case Ok(d) =>
        if d == "" then
          var img := FreshImage(pass, def);
          a.(nodes := a.nodes[def.name := Target(t.(imageResource := RenderTargetDefinition(img.name, def.format)))],
             images := a.images[img.name := img])
        else
          var shared := a.nodes[d].target.imageResource.name;
          a.(nodes := a.nodes[def.name := Target(t.(imageResource := t.imageResource.(name := shared)))],
             counts := a.counts[d := a.counts[d] + 1])
  }

  /** The output loop of one pass. */
  function AssignOutputs(mode: ExtentCompare, a: Alloc, pass: RenderPassNode, outs: seq<RenderTargetDefinition>): Alloc
  {
    if outs == [] then a
    else AssignOutput(mode, AssignOutputs(mode, a, pass, outs[..|outs| - 1]), pass, outs[|outs| - 1])
  }

  /** `imageUseCount.at(n)--` over `names`. */
  function Retire(a: Alloc, names: seq<string>): Alloc
  {
    if a.failure.Some? then a
    else
      match Drop(a.counts, names)
      case Err(e) => a.(failure := Some(e))
      case Ok(c) => a.(counts := c)
  }

  /** One pass of the allocation loop: assign its outputs, then retire its outputs and inputs. */
  function ProcessPass(mode: ExtentCompare, a: Alloc, pass: RenderPassNode): Alloc
  {
    Retire(Retire(AssignOutputs(mode, a, pass, pass.outputs), Names(pass.outputs)), Names(pass.inputs))
  }

  /** One name of the allocation loop: `m_nodes.at(name)`, and passes are processed. */
  function AllocateStep(mode: ExtentCompare, a: Alloc, name: string): Alloc
  {
    if a.failure.Some? then a
    else if name !in a.nodes then a.(failure := Some(OutOfRange(name)))
    else if a.nodes[name].Pass? then ProcessPass(mode, a, a.nodes[name].pass)
    else a
  }

  /** The allocation loop over the execution order. */
  function AllocateOrder(mode: ExtentCompare, a: Alloc, order: seq<string>): Alloc
  {
    if order == [] then a
    else AllocateStep(mode, AllocateOrder(mode, a, order[..|order| - 1]), order[|order| - 1])
  }

  /** The names a pass adds to the counts: its outputs, then its inputs. */
  function Uses(pass: RenderPassNode): seq<string>
  {
    Names(pass.outputs) + Names(pass.inputs)
  }

  /** The uses of the passes of `order`, in turn; other names add nothing. */
  function PassUses(nodes: Nodes, order: seq<string>): seq<string>
  {
    if order == [] then []
    else
      var name := order[|order| - 1];
      PassUses(nodes, order[..|order| - 1])
        + (if name in nodes && nodes[name].Pass? then Uses(nodes[name].pass) else [])
  }

  /** The counting loop's body for one pass: `imageUseCount[n]++` for its outputs, then its inputs. */
  function CountPass(c: Counts, pass: RenderPassNode): Counts
  {
    Bump(Bump(c, Names(pass.outputs)), Names(pass.inputs))
  }

  /** The counting loop of `finalize` over the execution order. */
  function CountUses(nodes: Nodes, order: seq<string>): Result<Counts>
  {
    if order == [] then Ok(map[])
    else
      match CountUses(nodes, order[..|order| - 1])
      case Err(e) => Err(e)
      case Ok(c) =>
        var name := order[|order| - 1];
        if name !in nodes then Err(OutOfRange(name))
        else if nodes[name].Pass? then Ok(CountPass(c, nodes[name].pass))
        else Ok(c)
  }

  // ---------------------------------------------------------------------
  // Use counts
  // ---------------------------------------------------------------------

  /** One more name at the end of the order adds that pass's uses, if it is a pass. */
  lemma PassUsesSnoc(nodes: Nodes, s: seq<string>, x: string)
    ensures PassUses(nodes, s + [x]) == PassUses(nodes, s) + (if x in nodes && nodes[x].Pass? then Uses(nodes[x].pass) else [])
  {
    assert (s + [x])[..|s + [x]| - 1] == s;
  }

  lemma PassUsesConcatStep(nodes: Nodes, p: seq<string>, q: seq<string>, x: string)
    requires PassUses(nodes, p + q) == PassUses(nodes, p) + PassUses(nodes, q)
    ensures PassUses(nodes, p + (q + [x])) == PassUses(nodes, p) + PassUses(nodes, q + [x])
  {
    ExecOrder.ConcatAssoc(p, q, [x]);
    PassUsesSnoc(nodes, p + q, x);
    PassUsesSnoc(nodes, q, x);
    ExecOrder.ConcatAssoc(PassUses(nodes, p), PassUses(nodes, q), if x in nodes && nodes[x].Pass? then Uses(nodes[x].pass) else []);
  }

  lemma {:induction false} PassUsesConcat(nodes: Nodes, p: seq<string>, q: seq<string>)
    ensures PassUses(nodes, p + q) == PassUses(nodes, p) + PassUses(nodes, q)
    decreases |q|
  {
    if q == [] {
      assert p + q == p;
    } else {
      var q' := q[..|q| - 1];
      var x := q[|q| - 1];
      assert q == q' + [x];
      PassUsesConcat(nodes, p, q');
      PassUsesConcatStep(nodes, p, q', x);
    }
  }

  /** Counting one pass adds one for each of its uses. */
  lemma CountPassSpec(c: Counts, pass: RenderPassNode)
    ensures forall n :: n in CountPass(c, pass) <==> n in c || n in Uses(pass)
    ensures forall t :: Get(CountPass(c, pass), t) == Get(c, t) + Count(Uses(pass), t)
  {
    BumpSpec(c, Names(pass.outputs));
    BumpSpec(Bump(c, Names(pass.outputs)), Names(pass.inputs));
    forall t ensures Get(CountPass(c, pass), t) == Get(c, t) + Count(Uses(pass), t) {
      CountConcat(Names(pass.outputs), Names(pass.inputs), t);
    }
  }

  /**
   * The counting loop succeeds when every name of the order is a node, and
   * then the count of each target is the number of its occurrences among the
   * outputs and inputs of the passes of the order.
   */
  lemma {:induction false} CountUsesSpec(nodes: Nodes, order: seq<string>)
    ensures CountUses(nodes, order).Ok? <==> forall x | x in order :: x in nodes
    ensures CountUses(nodes, order).Ok? ==>
      forall n :: n in CountUses(nodes, order).value <==> n in PassUses(nodes, order)
    ensures CountUses(nodes, order).Ok? ==>
      forall t :: Get(CountUses(nodes, order).value, t) == Count(PassUses(nodes, order), t)
  {
    if order != [] {
      var pre := order[..|order| - 1];
      var name := order[|order| - 1];
      CountUsesSpec(nodes, pre);
      assert forall x :: x in order <==> x in pre || x == name by {
        assert order == pre + [name];
      }
      var r := CountUses(nodes, order);
      if r.Ok? {
        var c := CountUses(nodes, pre).value;
        var extra := if nodes[name].Pass? then Uses(nodes[name].pass) else [];
        assert PassUses(nodes, order) == PassUses(nodes, pre) + extra;
        if nodes[name].Pass? {
          CountPassSpec(c, nodes[name].pass);
        }
        forall t ensures Get(r.value, t) == Count(PassUses(nodes, order), t) {
          CountConcat(PassUses(nodes, pre), extra, t);
        }
        forall n ensures n in r.value <==> n in PassUses(nodes, order) {
          assert n in PassUses(nodes, order) <==> n in PassUses(nodes, pre) || n in extra;
        }
      }
    }
  }

  /** The counting loop starts the allocation loop in a matching state. */
  lemma CountsMatchInitially(nodes: Nodes, order: seq<string>)
    requires CountUses(nodes, order).Ok?
    ensures CountsMatch(CountUses(nodes, order).value, PassUses(nodes, order))
  {
    CountUsesSpec(nodes, order);
    var c := CountUses(nodes, order).value;
    forall t | t in c ensures c[t] == Count(PassUses(nodes, order), t) {
      assert Get(c, t) == c[t];
    }
  }

  /** Counts are never negative while they match. */
  lemma CountsNonNegative(counts: Counts, rest: seq<string>)
    requires CountsMatch(counts, rest)
    ensures forall t | t in counts :: counts[t] >= 0
  {
  }

  /** Two node maps with the same passes under the same keys. */
  ghost predicate SamePasses(n1: Nodes, n2: Nodes)
  {
    n1.Keys == n2.Keys
    && forall k | k in n1 :: (n1[k].Pass? <==> n2[k].Pass?) && (n1[k].Pass? ==> n1[k] == n2[k])
  }

  lemma {:induction false} PassUsesSamePasses(n1: Nodes, n2: Nodes, order: seq<string>)
    requires SamePasses(n1, n2)
    ensures PassUses(n1, order) == PassUses(n2, order)
  {
    if order != [] {
      PassUsesSamePasses(n1, n2, order[..|order| - 1]);
    }
  }

  /**
   * While a pass's outputs are assigned, every target it writes or samples
   * is in use: its count is at least 1, so it is never its own donor.
   */
  lemma OwnTargetsInUse(counts: Counts, pass: RenderPassNode, rest: seq<string>)
    requires CountsMatch(counts, Uses(pass) + rest)
    ensures forall t | t in Uses(pass) :: t in counts && counts[t] >= 1
  {
    forall t | t in Uses(pass) ensures t in counts && counts[t] >= 1 {
      CountConcat(Uses(pass), rest, t);
      CountPositive(Uses(pass), t);
    }
  }

  /** One output assignment keeps the counts matching and the passes in place. */
  lemma AssignOutputCounts(mode: ExtentCompare, a: Alloc, pass: RenderPassNode,
                           def: RenderTargetDefinition, rest: seq<string>)
    requires a.failure.None? && CountsMatch(a.counts, rest)
    ensures var r := AssignOutput(mode, a, pass, def);
      CountsMatch(r.counts, rest) && SamePasses(a.nodes, r.nodes)
    ensures var r := AssignOutput(mode, a, pass, def);
      r.counts == a.counts
      || exists d :: d in a.counts && a.counts[d] == 0 && r.counts == a.counts[d := 1]
  {
    var r := AssignOutput(mode, a, pass, def);
    if def.name in a.nodes && a.nodes[def.name].Target? {
      var f := FindUnused(mode, a.nodes, a.images, a.counts, pass, def);
      if f.Ok? && f.value != "" {
        var d := f.value;
        assert r.counts == a.counts[d := 1];
        assert Count(rest, d) == 0;
      }
    }
  }

  lemma {:induction false} AssignOutputsCounts(mode: ExtentCompare, a: Alloc, pass: RenderPassNode,
                                               outs: seq<RenderTargetDefinition>, rest: seq<string>)
    requires a.failure.None? && CountsMatch(a.counts, rest)
    ensures var r := AssignOutputs(mode, a, pass, outs);
      CountsMatch(r.counts, rest) && SamePasses(a.nodes, r.nodes)
  {
    if outs != [] {
      var b := AssignOutputs(mode, a, pass, outs[..|outs| - 1]);
      AssignOutputsCounts(mode, a, pass, outs[..|outs| - 1], rest);
      if b.failure.None? {
        AssignOutputCounts(mode, b, pass, outs[|outs| - 1], rest);
      }
    }
  }

  /** Retiring a prefix of the remaining uses keeps the counts matching and cannot throw. */
  lemma RetireCounts(a: Alloc, names: seq<string>, rest: seq<string>)
    requires a.failure.None? && CountsMatch(a.counts, names + rest)
    ensures Retire(a, names).failure.None?
    ensures CountsMatch(Retire(a, names).counts, rest)
    ensures Retire(a, names).nodes == a.nodes && Retire(a, names).images == a.images
  {
    DropMatches(a.counts, names, rest);
  }

  /** Processing one pass consumes exactly its uses from the counts. */
  lemma ProcessPassCounts(mode: ExtentCompare, a: Alloc, pass: RenderPassNode, rest: seq<string>)
    requires a.failure.None? && CountsMatch(a.counts, Uses(pass) + rest)
    ensures var r := ProcessPass(mode, a, pass);
      r.failure.Some? || (CountsMatch(r.counts, rest) && SamePasses(a.nodes, r.nodes))
  {
    var outs := Names(pass.outputs);
    var ins := Names(pass.inputs);
    var b := AssignOutputs(mode, a, pass, pass.outputs);
    AssignOutputsCounts(mode, a, pass, pass.outputs, Uses(pass) + rest);
    if b.failure.None? {
      assert Uses(pass) + rest == outs + (ins + rest);
      RetireCounts(b, outs, ins + rest);
      RetireCounts(Retire(b, outs), ins, rest);
    }
  }

  /** One name of the allocation loop consumes the uses it adds, if it is a pass. */
  lemma AllocateStepCounts(mode: ExtentCompare, b: Alloc, nodes: Nodes, x: string, q: seq<string>)
    requires b.failure.None? && SamePasses(nodes, b.nodes)
    requires CountsMatch(b.counts, PassUses(nodes, [x] + q))
    ensures var r := AllocateStep(mode, b, x);
      r.failure.Some? || (CountsMatch(r.counts, PassUses(nodes, q)) && SamePasses(nodes, r.nodes))
  {
    var u := PassUses(nodes, q);
    PassUsesConcat(nodes, [x], q);
    assert PassUses(nodes, [x]) == (if x in nodes && nodes[x].Pass? then Uses(nodes[x].pass) else []) by {
      assert [x][..0] == [];
    }
    if x in b.nodes && b.nodes[x].Pass? {
      var pass := b.nodes[x].pass;
      assert b.nodes[x] == nodes[x];
      assert PassUses(nodes, [x] + q) == Uses(pass) + u;
      ProcessPassCounts(mode, b, pass, u);
      assert AllocateStep(mode, b, x) == ProcessPass(mode, b, pass);
    } else if x in b.nodes {
      assert PassUses(nodes, [x] + q) == u;
      assert AllocateStep(mode, b, x) == b;
    }
  }

  /**
   * The count invariant of the allocation loop: after the passes of `p`,
   * the counts match the uses of the passes still to come in `q`.
   */
  lemma {:induction false} AllocateOrderCounts(mode: ExtentCompare, a: Alloc, nodes: Nodes,
                                               p: seq<string>, q: seq<string>)
    requires a.failure.None? && SamePasses(nodes, a.nodes)
    requires CountsMatch(a.counts, PassUses(nodes, p + q))
    ensures var r := AllocateOrder(mode, a, p);
      r.failure.Some? || (CountsMatch(r.counts, PassUses(nodes, q)) && SamePasses(nodes, r.nodes))
    decreases |p|
  {
    if p != [] {
      var pre := p[..|p| - 1];
      var x := p[|p| - 1];
      assert pre + ([x] + q) == p + q;
      AllocateOrderCounts(mode, a, nodes, pre, [x] + q);
      var b := AllocateOrder(mode, a, pre);
      if b.failure.None? {
        AllocateStepCounts(mode, b, nodes, x, q);
      }
    } else {
      assert p + q == q;
    }
  }

  /**
   * Over a whole run that does not throw, no count goes negative and every
   * target's count ends at 0, or at 1 when it handed its image on.  When a
   * run cannot throw is `AllocateCompletes`.  That a donor hands its image
   * on only once is `AllocateOrderKeepsDonor`.
   */
  lemma AllocateOrderFinalCounts(mode: ExtentCompare, a: Alloc, order: seq<string>)
    requires a.failure.None? && CountUses(a.nodes, order) == Ok(a.counts)
    ensures var r := AllocateOrder(mode, a, order);
      r.failure.None? ==> forall t | t in r.counts :: r.counts[t] == 0 || r.counts[t] == 1
  {
    CountsMatchInitially(a.nodes, order);
    assert order + [] == order;
    AllocateOrderCounts(mode, a, a.nodes, order, []);
  }

  /**
   * A donor: its image was handed on, so its count is 1 and none of the
   * remaining uses names it.
   */
  ghost predicate Donor(counts: Counts, rest: seq<string>, t: string)
  {
    t in counts && counts[t] == 1 && Count(rest, t) == 0
  }

  /**
   * An output assignment leaves a count of 1 alone, and the search never
   * returns a target whose count is 1, so a donor is not handed on again.
   */
  lemma AssignOutputKeepsDonor(mode: ExtentCompare, a: Alloc, pass: RenderPassNode,
                               def: RenderTargetDefinition, t: string)
    requires t in a.counts && a.counts[t] == 1
    ensures var r := AssignOutput(mode, a, pass, def); t in r.counts && r.counts[t] == 1
    ensures t != "" ==> FindUnused(mode, a.nodes, a.images, a.counts, pass, def) != Ok(t)
  {
  }

  lemma {:induction false} AssignOutputsKeepsDonor(mode: ExtentCompare, a: Alloc, pass: RenderPassNode,
                                                   outs: seq<RenderTargetDefinition>, t: string)
    requires t in a.counts && a.counts[t] == 1
    ensures var r := AssignOutputs(mode, a, pass, outs); t in r.counts && r.counts[t] == 1
  {
    if outs != [] {
      AssignOutputsKeepsDonor(mode, a, pass, outs[..|outs| - 1], t);
      AssignOutputKeepsDonor(mode, AssignOutputs(mode, a, pass, outs[..|outs| - 1]), pass, outs[|outs| - 1], t);
    }
  }

  /** Retiring matched uses that do not name a donor leaves it a donor. */
  lemma RetireKeepsDonor(a: Alloc, names: seq<string>, rest: seq<string>, t: string)
    requires a.failure.None? && CountsMatch(a.counts, names + rest) && Donor(a.counts, names + rest, t)
    ensures Retire(a, names).failure.None? && Donor(Retire(a, names).counts, rest, t)
  {
    DropMatches(a.counts, names, rest);
    DropSpec(a.counts, names);
    CountConcat(names, rest, t);
  }

  lemma ProcessPassKeepsDonor(mode: ExtentCompare, a: Alloc, pass: RenderPassNode, rest: seq<string>, t: string)
    requires a.failure.None? && CountsMatch(a.counts, Uses(pass) + rest) && Donor(a.counts, Uses(pass) + rest, t)
    ensures var r := ProcessPass(mode, a, pass); r.failure.Some? || Donor(r.counts, rest, t)
  {
    var outs := Names(pass.outputs);
    var ins := Names(pass.inputs);
    var b := AssignOutputs(mode, a, pass, pass.outputs);
    AssignOutputsCounts(mode, a, pass, pass.outputs, Uses(pass) + rest);
    AssignOutputsKeepsDonor(mode, a, pass, pass.outputs, t);
    if b.failure.None? {
      assert Uses(pass) + rest == outs + (ins + rest);
      RetireCounts(b, outs, ins + rest);
      RetireKeepsDonor(b, outs, ins + rest, t);
      RetireKeepsDonor(Retire(b, outs), ins, rest, t);
    }
  }

  /** The uses of an order that starts with `x`: those of `x`, then those of the rest. */
  lemma PassUsesCons(nodes: Nodes, x: string, q: seq<string>)
    ensures PassUses(nodes, [x] + q)
      == (if x in nodes && nodes[x].Pass? then Uses(nodes[x].pass) else []) + PassUses(nodes, q)
  {
    PassUsesConcat(nodes, [x], q);
    assert [] + [x] == [x];
    PassUsesSnoc(nodes, [], x);
  }

  lemma AllocateStepKeepsDonor(mode: ExtentCompare, b: Alloc, nodes: Nodes, x: string, q: seq<string>, t: string)
    requires b.failure.None? && SamePasses(nodes, b.nodes)
    requires CountsMatch(b.counts, PassUses(nodes, [x] + q)) && Donor(b.counts, PassUses(nodes, [x] + q), t)
    ensures var r := AllocateStep(mode, b, x); r.failure.Some? || Donor(r.counts, PassUses(nodes, q), t)
  {
    var u := PassUses(nodes, q);
    PassUsesCons(nodes, x, q);
    if x in b.nodes && b.nodes[x].Pass? {
      var pass := b.nodes[x].pass;
      assert b.nodes[x] == nodes[x];
      assert PassUses(nodes, [x] + q) == Uses(pass) + u;
      ProcessPassKeepsDonor(mode, b, pass, u, t);
      assert AllocateStep(mode, b, x) == ProcessPass(mode, b, pass);
    } else if x in b.nodes {
      assert PassUses(nodes, [x] + q) == [] + u == u;
      assert AllocateStep(mode, b, x) == b;
    }
  }

  /**
   * A donor stays a donor for the rest of the allocation loop: its count
   * stays 1, so `_findImageThatIsNotBeingUsed` never returns it again and
   * no image is handed on twice by the same target.
   */
  lemma {:induction false} AllocateOrderKeepsDonor(mode: ExtentCompare, a: Alloc, nodes: Nodes,
                                                   p: seq<string>, q: seq<string>, t: string)
    requires a.failure.None? && SamePasses(nodes, a.nodes)
    requires CountsMatch(a.counts, PassUses(nodes, p + q)) && Donor(a.counts, PassUses(nodes, p + q), t)
    ensures var r := AllocateOrder(mode, a, p); r.failure.Some? || Donor(r.counts, PassUses(nodes, q), t)
    decreases |p|
  {
    if p != [] {
      var pre := p[..|p| - 1];
      var x := p[|p| - 1];
      assert pre + ([x] + q) == p + q;
      PassUsesConcat(nodes, pre, [x] + q);
      CountConcat(PassUses(nodes, pre), PassUses(nodes, [x] + q), t);
      AllocateOrderCounts(mode, a, nodes, pre, [x] + q);
      AllocateOrderKeepsDonor(mode, a, nodes, pre, [x] + q, t);
      var b := AllocateOrder(mode, a, pre);
      if b.failure.None? {
        AllocateStepKeepsDonor(mode, b, nodes, x, q, t);
      }
    } else {
      assert p + q == q;
    }
  }

  // ---------------------------------------------------------------------
  // Images and passes
  // ---------------------------------------------------------------------

  /** The image names fresh allocations for the outputs `outs` create. */
  function ImageNames(outs: set<string>): set<string>
  {
    set o | o in outs :: ImageName(o)
  }

  /** The output names of the passes of `order`. */
  function OutputNames(nodes: Nodes, order: seq<string>): set<string>
  {
    if order == [] then {}
    else
      var x := order[|order| - 1];
      OutputNames(nodes, order[..|order| - 1])
        + (if x in nodes && nodes[x].Pass? then set o | o in Names(nodes[x].pass.outputs) else {})
  }

  /** `after` keeps every image of `before` and differs from it only at images of `outs`. */
  ghost predicate ImagesGrowAt(before: Images, after: Images, outs: set<string>)
  {
    (forall x | x in before :: x in after)
    && forall x | x in after && (x !in before || after[x] != before[x]) :: x in ImageNames(outs)
  }

  lemma ImagesGrowTrans(x: Images, y: Images, z: Images, s: set<string>, t: set<string>)
    requires ImagesGrowAt(x, y, s) && ImagesGrowAt(y, z, t)
    ensures ImagesGrowAt(x, z, s + t)
  {
    forall k | k in z && (k !in x || z[k] != x[k]) ensures k in ImageNames(s + t) {
      if k in y && (k !in x || y[k] != x[k]) {
        var o :| o in s && k == ImageName(o);
        assert o in s + t;
      } else {
        var o :| o in t && k == ImageName(o);
        assert o in s + t;
      }
    }
  }

  lemma AssignOutputImages(mode: ExtentCompare, a: Alloc, pass: RenderPassNode, def: RenderTargetDefinition)
    ensures ImagesGrowAt(a.images, AssignOutput(mode, a, pass, def).images, {def.name})
    ensures SamePasses(a.nodes, AssignOutput(mode, a, pass, def).nodes)
  {
    assert ImageName(def.name) in ImageNames({def.name});
  }

  lemma {:induction false} AssignOutputsImages(mode: ExtentCompare, a: Alloc, pass: RenderPassNode,
                                               outs: seq<RenderTargetDefinition>)
    ensures ImagesGrowAt(a.images, AssignOutputs(mode, a, pass, outs).images, set o | o in Names(outs))
    ensures SamePasses(a.nodes, AssignOutputs(mode, a, pass, outs).nodes)
  {
    if outs != [] {
      var pre := outs[..|outs| - 1];
      var last := outs[|outs| - 1];
      AssignOutputsImages(mode, a, pass, pre);
      var b := AssignOutputs(mode, a, pass, pre);
      AssignOutputImages(mode, b, pass, last);
      ImagesGrowTrans(a.images, b.images, AssignOutputs(mode, a, pass, outs).images,
                      set o | o in Names(pre), {last.name});
      assert Names(outs) == Names(pre) + [last.name];
      assert (set o | o in Names(pre)) + {last.name} == set o | o in Names(outs);
    } else {
      assert ImageNames({}) == {};
    }
  }

  lemma AllocateStepImages(mode: ExtentCompare, b: Alloc, x: string)
    ensures ImagesGrowAt(b.images, AllocateStep(mode, b, x).images,
                         if x in b.nodes && b.nodes[x].Pass? then set o | o in Names(b.nodes[x].pass.outputs) else {})
    ensures SamePasses(b.nodes, AllocateStep(mode, b, x).nodes)
  {
    if b.failure.None? && x in b.nodes && b.nodes[x].Pass? {
      var pass := b.nodes[x].pass;
      AssignOutputsImages(mode, b, pass, pass.outputs);
      assert AllocateStep(mode, b, x) == ProcessPass(mode, b, pass);
    }
  }

  /**
   * The allocation loop keeps the passes, never removes an image, and
   * creates or overwrites only the images `ImageName(o)` of outputs `o` of
   * passes of the order: a pass with no outputs allocates nothing.
   */
  lemma {:induction false} AllocateOrderImages(mode: ExtentCompare, a: Alloc, order: seq<string>)
    ensures ImagesGrowAt(a.images, AllocateOrder(mode, a, order).images, OutputNames(a.nodes, order))
    ensures SamePasses(a.nodes, AllocateOrder(mode, a, order).nodes)
  {
    if order != [] {
      var pre := order[..|order| - 1];
      var x := order[|order| - 1];
      AllocateOrderImages(mode, a, pre);
      var b := AllocateOrder(mode, a, pre);
      AllocateStepImages(mode, b, x);
      var own := if x in b.nodes && b.nodes[x].Pass? then set o | o in Names(b.nodes[x].pass.outputs) else {};
      ImagesGrowTrans(a.images, b.images, AllocateOrder(mode, a, order).images, OutputNames(a.nodes, pre), own);
      assert OutputNames(a.nodes, pre) + own == OutputNames(a.nodes, order);
    } else {
      assert ImageNames({}) == {};
    }
  }

  lemma {:induction false} ImageNamesBound(outs: set<string>)
    ensures |ImageNames(outs)| <= |outs|
    decreases |outs|
  {
    if outs != {} {
      var o :| o in outs;
      ImageNamesBound(outs - {o});
      assert ImageNames(outs) == ImageNames(outs - {o}) + {ImageName(o)};
    } else {
      assert ImageNames(outs) == {};
    }
  }

  /** The allocation loop creates at most one image per distinct output name of the order. */
  lemma FreshImagesBound(mode: ExtentCompare, a: Alloc, order: seq<string>)
    ensures var r := AllocateOrder(mode, a, order);
      |r.images.Keys - a.images.Keys| <= |OutputNames(a.nodes, order)|
  {
    var r := AllocateOrder(mode, a, order);
    AllocateOrderImages(mode, a, order);
    assert r.images.Keys - a.images.Keys <= ImageNames(OutputNames(a.nodes, order));
    ImageNamesBound(OutputNames(a.nodes, order));
    SubsetCard(r.images.Keys - a.images.Keys, ImageNames(OutputNames(a.nodes, order)));
  }

  lemma {:induction false} SubsetCard(s: set<string>, t: set<string>)
    requires s <= t
    ensures |s| <= |t|
    decreases |t|
  {
    if s != {} {
      var x :| x in s;
      SubsetCard(s - {x}, t - {x});
    }
  }

  /**
   * With the intended compare, every assigned target gets an image of its
   * own declared format and of its pass's extent, fresh or handed on.
   */
  lemma AssignOutputIntended(a: Alloc, pass: RenderPassNode, def: RenderTargetDefinition)
    requires a.failure.None?
    ensures var r := AssignOutput(Intended, a, pass, def);
      r.failure.None? ==>
        def.name in r.nodes && r.nodes[def.name].Target?
        && r.nodes[def.name].target.imageResource.name in r.images
        && var img := r.images[r.nodes[def.name].target.imageResource.name];
           img.format == def.format && img.width == pass.width && img.height == pass.height
  {
  }

  /**
   * The state in which the transposed compare goes wrong: target `X` of a
   * 100x200 pass is retired with its image `X_img`, and a 200x100 pass `C`
   * is about to write `Z` in the same format.
   */
  function TransposedState(): Alloc
  {
    Alloc(
      map["X" := Target(RenderTargetNode("X", "A", ["B"], RenderTargetDefinition("X_img", R8G8B8A8_UNORM))),
          "Z" := Target(RenderTargetNode("Z", "C", [], RenderTargetDefinition("", UNDEFINED)))],
      map["X_img" := ImageDefinition("X_img", R8G8B8A8_UNORM, 100, 200, true)],
      map["X" := 0, "Z" := 1],
      None)
  }

  function TransposedPass(): RenderPassNode
  {
    RenderPassNode("C", [], [RenderTargetDefinition("Z", R8G8B8A8_UNORM)], 200, 100)
  }

  lemma TransposedKeys()
    ensures SortedKeys(TransposedState().counts.Keys) == ["X", "Z"]
  {
    assert Less("X", "Z");
    SortedKeysUnique(["X", "Z"], TransposedState().counts.Keys);
  }

  /**
   * As written, `Z` of the 200x100 pass is given the 100x200 image `X_img`;
   * with the intended compare it gets a fresh 200x100 image `Z_img`.
   */
  lemma TransposedReuse()
    ensures var r := AssignOutput(AsWritten, TransposedState(), TransposedPass(), TransposedPass().outputs[0]);
      r.failure.None? && r.nodes["Z"].target.imageResource.name == "X_img"
      && r.images["X_img"].width == 100 && r.images["X_img"].height == 200
    ensures var r := AssignOutput(Intended, TransposedState(), TransposedPass(), TransposedPass().outputs[0]);
      r.failure.None? && r.nodes["Z"].target.imageResource.name == "Z_img"
      && r.images["Z_img"] == ImageDefinition("Z_img", R8G8B8A8_UNORM, 200, 100, true)
  {
    TransposedKeys();
    var a := TransposedState();
    var pass := TransposedPass();
    var def := pass.outputs[0];
    assert Scan(AsWritten, a.nodes, a.images, a.counts, pass, def, ["X", "Z"]) == Ok(Some("X"));
    assert Scan(Intended, a.nodes, a.images, a.counts, pass, def, ["X", "Z"]) == Ok(None) by {
      assert ["X", "Z"][1..] == ["Z"];
      assert ["Z"][1..] == [];
    }
    assert ImageName("Z") == "Z_img";
  }

  // ---------------------------------------------------------------------
  // A thrown exception ends the loops
  // ---------------------------------------------------------------------

  lemma {:induction false} CountUsesStops(nodes: Nodes, order: seq<string>, i: int)
    requires 0 <= i <= |order| && CountUses(nodes, order[..i]).Err?
    ensures CountUses(nodes, order) == CountUses(nodes, order[..i])
  {
    if i < |order| {
      assert order[..|order| - 1][..i] == order[..i];
      CountUsesStops(nodes, order[..|order| - 1], i);
    } else {
      assert order[..i] == order;
    }
  }

  lemma {:induction false} AssignOutputsStops(mode: ExtentCompare, a: Alloc, pass: RenderPassNode,
                                              outs: seq<RenderTargetDefinition>, i: int)
    requires 0 <= i <= |outs| && AssignOutputs(mode, a, pass, outs[..i]).failure.Some?
    ensures AssignOutputs(mode, a, pass, outs) == AssignOutputs(mode, a, pass, outs[..i])
  {
    if i < |outs| {
      assert outs[..|outs| - 1][..i] == outs[..i];
      AssignOutputsStops(mode, a, pass, outs[..|outs| - 1], i);
    } else {
      assert outs[..i] == outs;
    }
  }

  lemma {:induction false} AllocateOrderStops(mode: ExtentCompare, a: Alloc, order: seq<string>, i: int)
    requires 0 <= i <= |order| && AllocateOrder(mode, a, order[..i]).failure.Some?
    ensures AllocateOrder(mode, a, order) == AllocateOrder(mode, a, order[..i])
  {
    if i < |order| {
      assert order[..|order| - 1][..i] == order[..i];
      AllocateOrderStops(mode, a, order[..|order| - 1], i);
    } else {
      assert order[..i] == order;
    }
  }

  /** One more name of the allocation loop. */
  lemma AllocateOrderStep(mode: ExtentCompare, a: Alloc, order: seq<string>, i: int)
    requires 0 <= i < |order|
    ensures AllocateOrder(mode, a, order[..i + 1]) == AllocateStep(mode, AllocateOrder(mode, a, order[..i]), order[i])
  {
    assert order[..i + 1][..i] == order[..i];
  }

  /** One more output of a pass. */
  lemma AssignOutputsStep(mode: ExtentCompare, a: Alloc, pass: RenderPassNode, outs: seq<RenderTargetDefinition>, i: int)
    requires 0 <= i < |outs|
    ensures AssignOutputs(mode, a, pass, outs[..i + 1]) == AssignOutput(mode, AssignOutputs(mode, a, pass, outs[..i]), pass, outs[i])
  {
    assert outs[..i + 1][..i] == outs[..i];
  }

  // ---------------------------------------------------------------------
  // A run over a well-formed graph does not throw
  // ---------------------------------------------------------------------

  /** Every target whose count is 0 can be inspected by the search. */
  ghost predicate ZeroUsable(a: Alloc)
  {
    forall k | k in a.counts && a.counts[k] == 0 :: Usable(a.nodes, a.images, k)
  }

  /** Every output of a pass of `g` is a render target of `g`. */
  ghost predicate OutputsAreTargets(g: Nodes)
  {
    forall k, o | k in g && g[k].Pass? && o in Names(g[k].pass.outputs) :: o in g && g[o].Target?
  }

  /** Every input of a pass of `g` is a render target whose writer is a pass outputting it. */
  ghost predicate InputsWritten(g: Nodes)
  {
    forall k, n | k in g && g[k].Pass? && n in Names(g[k].pass.inputs) ::
      n in g && g[n].Target? && Generate.DeclaresAt(g, g[n].target.writer, n)
  }

  /** Every output of a pass of `pre` has an image. */
  ghost predicate OutputsUsable(a: Alloc, g: Nodes, pre: seq<string>)
  {
    forall o | o in OutputNames(g, pre) :: Usable(a.nodes, a.images, o)
  }

  /** An output assignment keeps every usable name usable, and makes the assigned one usable. */
  lemma AssignOutputUsable(mode: ExtentCompare, a: Alloc, pass: RenderPassNode, def: RenderTargetDefinition)
    ensures var r := AssignOutput(mode, a, pass, def);
      forall k | Usable(a.nodes, a.images, k) :: Usable(r.nodes, r.images, k)
    ensures var r := AssignOutput(mode, a, pass, def);
      a.failure.None? && r.failure.None? ==> Usable(r.nodes, r.images, def.name)
  {
  }

  lemma {:induction false} AssignOutputsUsable(mode: ExtentCompare, a: Alloc, pass: RenderPassNode,
                                               outs: seq<RenderTargetDefinition>)
    ensures var r := AssignOutputs(mode, a, pass, outs);
      forall k | Usable(a.nodes, a.images, k) :: Usable(r.nodes, r.images, k)
    ensures var r := AssignOutputs(mode, a, pass, outs);
      a.failure.None? && r.failure.None? ==> forall o | o in Names(outs) :: Usable(r.nodes, r.images, o)
  {
    if outs != [] {
      var pre := outs[..|outs| - 1];
      var last := outs[|outs| - 1];
      assert Names(outs) == Names(pre) + [last.name];
      AssignOutputsUsable(mode, a, pass, pre);
      AssignOutputUsable(mode, AssignOutputs(mode, a, pass, pre), pass, last);
    }
  }

  /**
   * When every count-0 target can be inspected, the search does not throw,
   * and the assignment keeps every count-0 target inspectable.
   */
  lemma AssignOutputCompletes(mode: ExtentCompare, a: Alloc, pass: RenderPassNode, def: RenderTargetDefinition)
    requires a.failure.None? && ZeroUsable(a)
    requires def.name in a.nodes && a.nodes[def.name].Target?
    ensures var r := AssignOutput(mode, a, pass, def); r.failure.None? && ZeroUsable(r)
  {
    if FindUnused(mode, a.nodes, a.images, a.counts, pass, def).Err? {
      FindUnusedThrows(mode, a.nodes, a.images, a.counts, pass, def);
      assert false;
    }
    AssignOutputUsable(mode, a, pass, def);
  }

  lemma {:induction false} AssignOutputsCompletes(mode: ExtentCompare, a: Alloc, pass: RenderPassNode,
                                                  outs: seq<RenderTargetDefinition>)
    requires a.failure.None? && ZeroUsable(a)
    requires forall o | o in Names(outs) :: o in a.nodes && a.nodes[o].Target?
    ensures var r := AssignOutputs(mode, a, pass, outs); r.failure.None? && ZeroUsable(r)
  {
    if outs != [] {
      var pre := outs[..|outs| - 1];
      var last := outs[|outs| - 1];
      assert Names(outs) == Names(pre) + [last.name];
      AssignOutputsCompletes(mode, a, pass, pre);
      AssignOutputsImages(mode, a, pass, pre);
      AssignOutputCompletes(mode, AssignOutputs(mode, a, pass, pre), pass, last);
    }
  }

  /** Retiring matched uses of inspectable targets keeps every count-0 target inspectable. */
  lemma RetireCompletes(a: Alloc, names: seq<string>, rest: seq<string>)
    requires a.failure.None? && CountsMatch(a.counts, names + rest) && ZeroUsable(a)
    requires forall n | n in names :: Usable(a.nodes, a.images, n)
    ensures Retire(a, names).failure.None? && ZeroUsable(Retire(a, names))
  {
    RetireCounts(a, names, rest);
    DropSpec(a.counts, names);
    var r := Retire(a, names);
    forall k | k in r.counts && r.counts[k] == 0 ensures Usable(r.nodes, r.images, k) {
      CountPositive(names, k);
    }
  }

  /**
   * A pass whose outputs are targets and whose inputs already have images
   * is processed without throwing, and leaves each of its outputs with an
   * image.
   */
  lemma ProcessPassCompletes(mode: ExtentCompare, a: Alloc, pass: RenderPassNode, rest: seq<string>)
    requires a.failure.None? && CountsMatch(a.counts, Uses(pass) + rest) && ZeroUsable(a)
    requires forall o | o in Names(pass.outputs) :: o in a.nodes && a.nodes[o].Target?
    requires forall n | n in Names(pass.inputs) :: Usable(a.nodes, a.images, n)
    ensures var r := ProcessPass(mode, a, pass); r.failure.None? && ZeroUsable(r)
    ensures var r := ProcessPass(mode, a, pass);
      forall k | Usable(a.nodes, a.images, k) :: Usable(r.nodes, r.images, k)
    ensures var r := ProcessPass(mode, a, pass);
      forall o | o in Names(pass.outputs) :: Usable(r.nodes, r.images, o)
  {
    var outs := Names(pass.outputs);
    var ins := Names(pass.inputs);
    var b := AssignOutputs(mode, a, pass, pass.outputs);
    AssignOutputsCompletes(mode, a, pass, pass.outputs);
    AssignOutputsUsable(mode, a, pass, pass.outputs);
    AssignOutputsCounts(mode, a, pass, pass.outputs, Uses(pass) + rest);
    assert Uses(pass) + rest == outs + (ins + rest);
    RetireCounts(b, outs, ins + rest);
    RetireCompletes(b, outs, ins + rest);
    var c := Retire(b, outs);
    RetireCounts(c, ins, rest);
    RetireCompletes(c, ins, rest);
  }

  /** An output of the pass at `s[i]` is an output name of `s`. */
  lemma {:induction false} OutputNamesHas(g: Nodes, s: seq<string>, i: int, o: string)
    requires 0 <= i < |s| && s[i] in g && g[s[i]].Pass? && o in Names(g[s[i]].pass.outputs)
    ensures o in OutputNames(g, s)
  {
    if i < |s| - 1 {
      assert s[..|s| - 1][i] == s[i];
      OutputNamesHas(g, s[..|s| - 1], i, o);
    }
  }

  /** One more name of the order adds the outputs of that name's pass, if it is one. */
  lemma OutputNamesStep(g: Nodes, order: seq<string>, i: int)
    requires 0 <= i < |order|
    ensures OutputNames(g, order[..i + 1]) == OutputNames(g, order[..i])
      + (if order[i] in g && g[order[i]].Pass? then set o | o in Names(g[order[i]].pass.outputs) else {})
  {
    assert order[..i + 1][..i] == order[..i];
  }

  /**
   * A graph the allocation loop can run over along `order`: pass outputs are
   * targets, sampled targets are written by a pass, and the order lists the
   * nodes with every dependency first.
   */
  ghost predicate Schedulable(g: Nodes, order: seq<string>)
  {
    OutputsAreTargets(g) && InputsWritten(g)
    && ExecOrder.InGraph(DepGraph(g), order) && ExecOrder.DepsBefore(DepGraph(g), order)
  }

  /**
   * Along an order that lists dependencies first, the writer of a target
   * a pass samples comes before the target, which comes before the pass.
   */
  lemma InputWrittenBefore(g: Nodes, order: seq<string>, i: int, n: string)
    requires Schedulable(g, order)
    requires 0 <= i < |order| && order[i] in g && g[order[i]].Pass?
    requires n in Names(g[order[i]].pass.inputs)
    ensures n in OutputNames(g, order[..i])
  {
    var dg := DepGraph(g);
    assert n in dg[order[i]];
    assert n in order[..i];
    var j :| 0 <= j < i && order[j] == n;
    var w := g[n].target.writer;
    assert w in dg[order[j]];
    assert w in order[..j];
    var m :| 0 <= m < j && order[m] == w;
    assert order[..i][m] == w;
    OutputNamesHas(g, order[..i], m, n);
  }

  /** The uses still to come from the pass at `order[i]` on. */
  lemma PassUsesAt(g: Nodes, order: seq<string>, i: int)
    requires 0 <= i < |order| && order[i] in g && g[order[i]].Pass?
    ensures PassUses(g, order[i..]) == Uses(g[order[i]].pass) + PassUses(g, order[i + 1..])
  {
    assert order[i..] == [order[i]] + order[i + 1..];
    PassUsesCons(g, order[i], order[i + 1..]);
  }

  /**
   * What the allocation loop needs of a `Schedulable` order: its names are
   * nodes, pass outputs are targets, and each input of a pass is an output
   * of a pass earlier in the order.
   */
  ghost predicate Prepared(g: Nodes, order: seq<string>)
  {
    OutputsAreTargets(g)
    && (forall i | 0 <= i < |order| :: order[i] in g)
    && forall i, n | 0 <= i < |order| && order[i] in g && g[order[i]].Pass? && n in Names(g[order[i]].pass.inputs) ::
         n in OutputNames(g, order[..i])
  }

  lemma SchedulablePrepared(g: Nodes, order: seq<string>)
    requires Schedulable(g, order)
    ensures Prepared(g, order)
  {
    forall i, n | 0 <= i < |order| && order[i] in g && g[order[i]].Pass? && n in Names(g[order[i]].pass.inputs)
      ensures n in OutputNames(g, order[..i])
    {
      InputWrittenBefore(g, order, i, n);
    }
  }

  /** Every input of the pass at `order[i]` has an image when the pass is reached. */
  lemma InputsUsableAt(b: Alloc, g: Nodes, order: seq<string>, i: int)
    requires Prepared(g, order) && 0 <= i < |order| && order[i] in g && g[order[i]].Pass?
    requires OutputsUsable(b, g, order[..i])
    ensures forall n | n in Names(g[order[i]].pass.inputs) :: Usable(b.nodes, b.images, n)
  {
  }

  /** The outputs of a pass of `g` are targets of any node map with the same passes. */
  lemma OutputsTargetsIn(b: Alloc, g: Nodes, x: string)
    requires OutputsAreTargets(g) && SamePasses(g, b.nodes) && x in g && g[x].Pass?
    ensures forall o | o in Names(g[x].pass.outputs) :: o in b.nodes && b.nodes[o].Target?
  {
  }

  /** Usable names stay usable, and the outputs of `order[i]` become usable. */
  lemma OutputsUsableStep(b: Alloc, r: Alloc, g: Nodes, order: seq<string>, i: int)
    requires 0 <= i < |order| && order[i] in g && g[order[i]].Pass?
    requires OutputsUsable(b, g, order[..i])
    requires forall k | Usable(b.nodes, b.images, k) :: Usable(r.nodes, r.images, k)
    requires forall o | o in Names(g[order[i]].pass.outputs) :: Usable(r.nodes, r.images, o)
    ensures OutputsUsable(r, g, order[..i + 1])
  {
    OutputNamesStep(g, order, i);
  }

  /**
   * The state of a run that cannot throw after the first `i` names of
   * the order: no exception, every count-0 target and every output written
   * so far has an image, and the counts match the uses still to come.
   */
  ghost predicate Completing(r: Alloc, g: Nodes, order: seq<string>, i: int)
    requires 0 <= i <= |order|
  {
    r.failure.None? && SamePasses(g, r.nodes) && ZeroUsable(r) && OutputsUsable(r, g, order[..i])
    && CountsMatch(r.counts, PassUses(g, order[i..]))
  }

  /** A pass of the order finds its inputs with images already, and gives its outputs theirs. */
  lemma PassStepCompletes(mode: ExtentCompare, b: Alloc, g: Nodes, order: seq<string>, i: int)
    requires Prepared(g, order) && 0 <= i < |order| && Completing(b, g, order, i)
    requires g[order[i]].Pass?
    ensures var r := ProcessPass(mode, b, g[order[i]].pass);
      r.failure.None? && ZeroUsable(r) && OutputsUsable(r, g, order[..i + 1])
  {
    var pass := g[order[i]].pass;
    PassUsesAt(g, order, i);
    InputsUsableAt(b, g, order, i);
    OutputsTargetsIn(b, g, order[i]);
    ProcessPassCompletes(mode, b, pass, PassUses(g, order[i + 1..]));
    OutputsUsableStep(b, ProcessPass(mode, b, pass), g, order, i);
  }

  lemma PassStepCompleting(mode: ExtentCompare, b: Alloc, g: Nodes, order: seq<string>, i: int)
    requires Prepared(g, order) && 0 <= i < |order| && Completing(b, g, order, i)
    requires g[order[i]].Pass?
    ensures Completing(AllocateStep(mode, b, order[i]), g, order, i + 1)
  {
    var x := order[i];
    assert order[i..] == [x] + order[i + 1..];
    AllocateStepCounts(mode, b, g, x, order[i + 1..]);
    assert b.nodes[x] == g[x];
    PassStepCompletes(mode, b, g, order, i);
    assert AllocateStep(mode, b, x) == ProcessPass(mode, b, g[x].pass);
  }

  /** A target of the order changes nothing. */
  lemma TargetStepCompleting(mode: ExtentCompare, b: Alloc, g: Nodes, order: seq<string>, i: int)
    requires 0 <= i < |order| && Completing(b, g, order, i)
    requires order[i] in g && !g[order[i]].Pass?
    ensures Completing(AllocateStep(mode, b, order[i]), g, order, i + 1)
  {
    var x := order[i];
    assert order[i..] == [x] + order[i + 1..];
    AllocateStepCounts(mode, b, g, x, order[i + 1..]);
    OutputNamesStep(g, order, i);
    assert AllocateStep(mode, b, x) == b;
  }

  lemma AllocateStepCompletes(mode: ExtentCompare, b: Alloc, g: Nodes, order: seq<string>, i: int)
    requires Prepared(g, order) && 0 <= i < |order| && Completing(b, g, order, i)
    ensures Completing(AllocateStep(mode, b, order[i]), g, order, i + 1)
  {
    if g[order[i]].Pass? {
      PassStepCompleting(mode, b, g, order, i);
    } else {
      TargetStepCompleting(mode, b, g, order, i);
    }
  }

  /** The run starts `Completing`: nothing is written yet. */
  lemma StartCompleting(mode: ExtentCompare, a: Alloc, g: Nodes, order: seq<string>)
    requires a.failure.None? && SamePasses(g, a.nodes) && ZeroUsable(a)
    requires CountsMatch(a.counts, PassUses(g, order))
    ensures Completing(AllocateOrder(mode, a, order[..0]), g, order, 0)
  {
    assert order[..0] == [];
    assert order[0..] == order;
  }

  /** The run stays `Completing` along the whole order. */
  lemma {:induction false} AllocateOrderCompletes(mode: ExtentCompare, a: Alloc, g: Nodes,
                                                  order: seq<string>, i: int)
    requires Prepared(g, order) && 0 <= i <= |order|
    requires a.failure.None? && SamePasses(g, a.nodes) && ZeroUsable(a)
    requires CountsMatch(a.counts, PassUses(g, order))
    ensures Completing(AllocateOrder(mode, a, order[..i]), g, order, i)
    decreases i
  {
    if i == 0 {
      StartCompleting(mode, a, g, order);
    } else {
      AllocateOrderCompletes(mode, a, g, order, i - 1);
      AllocateOrderStep(mode, a, order, i - 1);
      AllocateStepCompletes(mode, AllocateOrder(mode, a, order[..i - 1]), g, order, i - 1);
    }
  }

  /**
   * On a graph whose pass outputs are targets and whose sampled targets
   * are written by a pass, along an order of its nodes that lists
   * dependencies first, the counting loop and the allocation loop both run
   * to the end without throwing.
   */
  lemma AllocateCompletes(mode: ExtentCompare, g: Nodes, images: Images, order: seq<string>)
    requires Schedulable(g, order)
    ensures CountUses(g, order).Ok?
    ensures AllocateOrder(mode, Alloc(g, images, CountUses(g, order).value, None), order).failure.None?
  {
    assert forall x | x in order :: x in g;
    CountUsesSpec(g, order);
    CountsMatchInitially(g, order);
    var c := CountUses(g, order).value;
    forall k | k in c ensures c[k] != 0 {
      CountPositive(PassUses(g, order), k);
      assert Get(c, k) == c[k];
    }
    SchedulablePrepared(g, order);
    AllocateOrderCompletes(mode, Alloc(g, images, c, None), g, order, |order|);
    assert order[..|order|] == order;
  }
}
