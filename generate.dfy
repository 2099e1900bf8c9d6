/**
 * `FrameGraph::generateImages` of `include/frameGraph/frameGraph.h`: one
 * render-target node per declared output name, whose writer is the first
 * pass (in key order) declaring it and whose readers are the passes sampling
 * it, listed once per input occurrence in key order.
 */
module Generate {
  import opened Errors
  import opened Formats
  import opened KeyOrder
  import opened UseCounts
  import opened Nodes

  /** The local `std::map<std::string, RenderTargetNode> images`. */
  type Targets = map<string, RenderTargetNode>

  /** The target `images[o]` value-initialises and names: no readers, no image yet. */
  function NewTarget(name: string, writer: string): RenderTargetNode
  {
    RenderTargetNode(name, writer, [], RenderTargetDefinition("", UNDEFINED))
  }

  /** `p` lists `o` among its output render targets. */
  predicate Declares(p: RenderPassNode, o: string)
  {
    o in Names(p.outputs)
  }

  /** `k` is a pass of `passes` declaring `o`. */
  predicate DeclaresAt(passes: Nodes, k: string, o: string)
  {
    k in passes && passes[k].Pass? && Declares(passes[k].pass, o)
  }

  /** The passes declaring `o` as an output. */
  function Declarers(passes: Nodes, o: string): set<string>
  {
    set k | k in passes && DeclaresAt(passes, k, o)
  }

  /** `x`, `n` times. */
  function Repeat(x: string, n: nat): (r: seq<string>)
    ensures |r| == n
    ensures forall i :: 0 <= i < n ==> r[i] == x
  {
    seq(n, _ => x)
  }

  /** Every key of `ks` names a pass of `passes`. */
  ghost predicate PassKeys(passes: Nodes, ks: seq<string>)
  {
    forall k | k in ks :: k in passes && passes[k].Pass?
  }

  /** The first loop's body for one pass: claim each output nobody has claimed yet. */
  function AddWriter(acc: Targets, writer: string, outs: seq<RenderTargetDefinition>): (r: Targets)
    ensures forall o :: o in r <==> o in acc || o in Names(outs)
    ensures forall o | o in acc :: r[o] == acc[o]
    ensures forall o | o in r && o !in acc :: r[o] == NewTarget(o, writer)
    decreases |outs|
  {
    if outs == [] then acc
    else
      var a := AddWriter(acc, writer, outs[..|outs| - 1]);
      var o := outs[|outs| - 1].name;
      assert Names(outs) == Names(outs[..|outs| - 1]) + [o];
      if o in a then a else a[o := NewTarget(o, writer)]
  }

  /** The first loop of `generateImages`, over the passes `ks` in turn. */
  function CollectWriters(passes: Nodes, ks: seq<string>): Targets
    requires PassKeys(passes, ks)
  {
    if ks == [] then map[]
    else
      var k := ks[|ks| - 1];
      AddWriter(CollectWriters(passes, ks[..|ks| - 1]), k, passes[k].pass.outputs)
  }

  /** The second loop's body for one pass: `images.at(in).readers.push_back(reader)`. */
  function AddReader(acc: Result<Targets>, reader: string, ins: seq<RenderTargetDefinition>): Result<Targets>
    decreases |ins|
  {
    if ins == [] then acc
    else
      match AddReader(acc, reader, ins[..|ins| - 1])
      case Err(e) => Err(e)
      case Ok(a) =>
        var n := ins[|ins| - 1].name;
        if n in a then Ok(a[n := a[n].(readers := a[n].readers + [reader])])
        else Err(OutOfRange(n))
  }

  /** The second loop of `generateImages`, over the passes `ks` in turn. */
  function CollectReaders(acc: Result<Targets>, passes: Nodes, ks: seq<string>): Result<Targets>
    requires PassKeys(passes, ks)
  {
    if ks == [] then acc
    else
      var k := ks[|ks| - 1];
      AddReader(CollectReaders(acc, passes, ks[..|ks| - 1]), k, passes[k].pass.inputs)
  }

  /** The targets the first loop of `generateImages` creates, visiting the passes in key order. */
  function Writers(passes: Nodes): Targets
    requires AllPasses(passes)
  {
    SortedKeysSpec(passes.Keys);
    CollectWriters(passes, SortedKeys(passes.Keys))
  }

  /** The render-target nodes `generateImages` builds from a graph of passes. */
  function GenerateTargets(passes: Nodes): Result<Targets>
    requires AllPasses(passes)
  {
    SortedKeysSpec(passes.Keys);
    CollectReaders(Ok(Writers(passes)), passes, SortedKeys(passes.Keys))
  }

  /** The targets as nodes, for `m_nodes[n] = i`. */
  function AsNodes(t: Targets): (r: Nodes)
    ensures r.Keys == t.Keys
    ensures forall k | k in t :: r[k] == Target(t[k])
  {
    map k | k in t :: Target(t[k])
  }

  /** `m_nodes` after `generateImages`: the targets copied over the passes. */
  function Generated(passes: Nodes): Result<Nodes>
    requires AllPasses(passes)
  {
    match GenerateTargets(passes)
    case Err(e) => Err(e)
    case Ok(t) => Ok(passes + AsNodes(t))
  }

  /** The readers of `o`: each pass of `ks` in turn, once per input naming `o`. */
  function ReadersOf(passes: Nodes, ks: seq<string>, o: string): seq<string>
    requires PassKeys(passes, ks)
  {
    if ks == [] then []
    else
      var k := ks[|ks| - 1];
      ReadersOf(passes, ks[..|ks| - 1], o) + Repeat(k, Count(Names(passes[k].pass.inputs), o))
  }

  /** Some pass of `ks` declares `o`. */
  ghost predicate DeclaredIn(passes: Nodes, ks: seq<string>, o: string)
  {
    exists k :: k in ks && DeclaresAt(passes, k, o)
  }

  /** `ks[i]` declares `o` and no pass before it in `ks` does. */
  ghost predicate FirstDeclarerAt(passes: Nodes, ks: seq<string>, o: string, i: int)
  {
    0 <= i < |ks| && DeclaresAt(passes, ks[i], o)
    && forall j :: 0 <= j < i ==> !DeclaresAt(passes, ks[j], o)
  }

  /** A first declarer in `pre` stays the first declarer when `k` is appended. */
  lemma FirstDeclarerExtend(passes: Nodes, pre: seq<string>, k: string, o: string, i: int)
    requires FirstDeclarerAt(passes, pre, o, i)
    ensures FirstDeclarerAt(passes, pre + [k], o, i) && (pre + [k])[i] == pre[i]
  {
    var ks := pre + [k];
    forall j | 0 <= j <= i ensures ks[j] == pre[j] { }
  }

  /** When no pass of `pre` declares `o`, an appended declarer `k` is the first. */
  lemma FirstDeclarerLast(passes: Nodes, pre: seq<string>, k: string, o: string)
    requires !DeclaredIn(passes, pre, o) && DeclaresAt(passes, k, o)
    ensures FirstDeclarerAt(passes, pre + [k], o, |pre|) && (pre + [k])[|pre|] == k
  {
    var ks := pre + [k];
    forall j | 0 <= j < |pre| ensures !DeclaresAt(passes, ks[j], o) {
      assert ks[j] == pre[j] && pre[j] in pre;
    }
  }

  /**
   * The writer of each target is the first pass of `ks` declaring it, and
   * exactly the declared names get a target.
   */
  lemma {:induction false} CollectWritersSpec(passes: Nodes, ks: seq<string>)
    requires PassKeys(passes, ks)
    ensures forall o :: o in CollectWriters(passes, ks) <==> DeclaredIn(passes, ks, o)
    ensures forall o | o in CollectWriters(passes, ks) ::
      exists i :: FirstDeclarerAt(passes, ks, o, i) && CollectWriters(passes, ks)[o] == NewTarget(o, ks[i])
  {
    if ks != [] {
      var pre := ks[..|ks| - 1];
      var k := ks[|ks| - 1];
      assert ks == pre + [k];
      CollectWritersSpec(passes, pre);
      var a := CollectWriters(passes, pre);
      var w := CollectWriters(passes, ks);
      assert w == AddWriter(a, k, passes[k].pass.outputs);
      assert forall x :: x in ks <==> x in pre || x == k;
      forall o | o in w
        ensures exists i :: FirstDeclarerAt(passes, ks, o, i) && w[o] == NewTarget(o, ks[i])
      {
        if o in a {
          var i :| FirstDeclarerAt(passes, pre, o, i) && a[o] == NewTarget(o, pre[i]);
          FirstDeclarerExtend(passes, pre, k, o, i);
        } else {
          FirstDeclarerLast(passes, pre, k, o);
        }
      }
    }
  }

  /** Once the reader loop has thrown, it passes the exception on. */
  lemma {:induction false} AddReaderErr(e: Failure, reader: string, ins: seq<RenderTargetDefinition>)
    ensures AddReader(Err(e), reader, ins) == Err(e)
    decreases |ins|
  {
    if ins != [] {
      AddReaderErr(e, reader, ins[..|ins| - 1]);
    }
  }

  /** Appending one more reader to the target `n` adds one occurrence of `n` to the reader counts. */
  lemma AddReaderOkStep(a: Targets, reader: string, names: seq<string>, n: string, b: Targets)
    requires b.Keys == a.Keys
    requires forall o | o in a :: b[o] == a[o].(readers := a[o].readers + Repeat(reader, Count(names, o)))
    requires n in b
    ensures var c := b[n := b[n].(readers := b[n].readers + [reader])];
      c.Keys == a.Keys
      && forall o | o in a :: c[o] == a[o].(readers := a[o].readers + Repeat(reader, Count(names + [n], o)))
  {
    var c := b[n := b[n].(readers := b[n].readers + [reader])];
    forall o | o in a
      ensures c[o] == a[o].(readers := a[o].readers + Repeat(reader, Count(names + [n], o)))
    {
      CountConcat(names, [n], o);
      assert Count([n], o) == if n == o then 1 else 0 by {
        assert [n][..0] == [];
      }
      if o == n {
        assert Repeat(reader, Count(names, o)) + [reader] == Repeat(reader, Count(names + [n], o));
      }
    }
  }

  /** Adding one pass as a reader: it throws exactly on an input that has no target. */
  lemma {:induction false} AddReaderSpec(a: Targets, reader: string, ins: seq<RenderTargetDefinition>)
    ensures var r := AddReader(Ok(a), reader, ins);
      r.Ok? <==> forall n | n in Names(ins) :: n in a
    ensures var r := AddReader(Ok(a), reader, ins);
      r.Ok? ==> (r.value.Keys == a.Keys
        && forall o | o in a ::
             r.value[o] == a[o].(readers := a[o].readers + Repeat(reader, Count(Names(ins), o))))
    ensures var r := AddReader(Ok(a), reader, ins);
      r.Err? ==> r.error.OutOfRange? && r.error.key in Names(ins) && r.error.key !in a
    decreases |ins|
  {
    if ins == [] {
      forall o | o in a ensures a[o] == a[o].(readers := a[o].readers + Repeat(reader, 0)) {
        assert a[o].readers + Repeat(reader, 0) == a[o].readers;
      }
    } else {
      var pre := ins[..|ins| - 1];
      var n := ins[|ins| - 1].name;
      AddReaderSpec(a, reader, pre);
      assert Names(ins) == Names(pre) + [n];
      var m := AddReader(Ok(a), reader, pre);
      if m.Ok? && n in m.value {
        AddReaderOkStep(a, reader, Names(pre), n, m.value);
      }
    }
  }

  /** The reader loop over passes `ks` either throws on a dangling input or appends `ReadersOf`. */
  lemma {:induction false} CollectReadersSpec(a: Targets, passes: Nodes, ks: seq<string>)
    requires PassKeys(passes, ks)
    ensures var r := CollectReaders(Ok(a), passes, ks);
      r.Ok? <==> forall k, n | k in ks && n in Names(passes[k].pass.inputs) :: n in a
    ensures var r := CollectReaders(Ok(a), passes, ks);
      r.Ok? ==> (r.value.Keys == a.Keys
        && forall o | o in a ::
             r.value[o] == a[o].(readers := a[o].readers + ReadersOf(passes, ks, o)))
    ensures var r := CollectReaders(Ok(a), passes, ks);
      r.Err? ==> (r.error.OutOfRange? && r.error.key !in a
        && exists k :: k in ks && r.error.key in Names(passes[k].pass.inputs))
  {
    if ks == [] {
      forall o | o in a ensures a[o] == a[o].(readers := a[o].readers + ReadersOf(passes, ks, o)) {
        assert a[o].readers + [] == a[o].readers;
      }
    } else {
      var pre := ks[..|ks| - 1];
      var k := ks[|ks| - 1];
      CollectReadersSpec(a, passes, pre);
      var m := CollectReaders(Ok(a), passes, pre);
      var r := CollectReaders(Ok(a), passes, ks);
      assert forall x :: x in ks <==> x in pre || x == k by {
        assert ks == pre + [k];
      }
      if m.Err? {
        AddReaderErr(m.error, k, passes[k].pass.inputs);
      } else {
        AddReaderSpec(m.value, k, passes[k].pass.inputs);
        if r.Ok? {
          forall o | o in a ensures r.value[o] == a[o].(readers := a[o].readers + ReadersOf(passes, ks, o)) {
            assert a[o].readers + ReadersOf(passes, pre, o) + Repeat(k, Count(Names(passes[k].pass.inputs), o))
                == a[o].readers + ReadersOf(passes, ks, o);
          }
        }
      }
    }
  }

  /** In key order, the first declarer of `o` is the least key declaring it. */
  lemma FirstInKeyOrder(passes: Nodes, o: string, i: int)
    requires AllPasses(passes)
    requires FirstDeclarerAt(passes, SortedKeys(passes.Keys), o, i)
    ensures SortedKeys(passes.Keys)[i] in Declarers(passes, o)
    ensures SortedKeys(passes.Keys)[i] == Least(Declarers(passes, o))
  {
    var ks := SortedKeys(passes.Keys);
    SortedKeysSpec(passes.Keys);
    var d := Declarers(passes, o);
    assert ks[i] in d;
    var w := Least(d);
    LeastSpec(d);
    assert ks[i] == w by {
      if ks[i] != w {
        assert w in ks;
        var j :| 0 <= j < |ks| && ks[j] == w;
        assert Less(w, ks[i]);
        LessAsymmetric(w, ks[i]);
      }
    }
  }

  /** No pass samples a name that no pass outputs. */
  ghost predicate NoDanglingInput(passes: Nodes)
    requires AllPasses(passes)
  {
    forall k, n | k in passes && n in Names(passes[k].pass.inputs) :: Declarers(passes, n) != {}
  }

  /** `n` is sampled by some pass and output by none. */
  ghost predicate DanglingInput(passes: Nodes, n: string)
    requires AllPasses(passes)
  {
    Declarers(passes, n) == {} && exists k :: k in passes && n in Names(passes[k].pass.inputs)
  }

  /**
   * One target per declared output name, written by the least declaring
   * pass, read by `ReadersOf` in key order, with no image yet.
   */
  ghost predicate TargetsAsDeclared(passes: Nodes, t: Targets)
    requires AllPasses(passes)
  {
    SortedKeysSpec(passes.Keys);
    (forall o :: o in t <==> Declarers(passes, o) != {})
    && forall o | o in t ::
         t[o] == RenderTargetNode(o, Least(Declarers(passes, o)),
                                  ReadersOf(passes, SortedKeys(passes.Keys), o),
                                  RenderTargetDefinition("", UNDEFINED))
  }

  /** The first loop creates one target per declared name, written by its least declarer. */
  lemma WritersAsDeclared(passes: Nodes)
    requires AllPasses(passes)
    ensures forall o :: o in Writers(passes) <==> Declarers(passes, o) != {}
    ensures forall o | o in Writers(passes) :: Writers(passes)[o] == NewTarget(o, Least(Declarers(passes, o)))
  {
    var ks := SortedKeys(passes.Keys);
    SortedKeysSpec(passes.Keys);
    CollectWritersSpec(passes, ks);
    var w := Writers(passes);
    assert w == CollectWriters(passes, ks);
    forall o ensures o in w <==> Declarers(passes, o) != {} {
      if Declarers(passes, o) != {} {
        var k :| k in Declarers(passes, o);
        assert k in ks && DeclaresAt(passes, k, o);
        assert DeclaredIn(passes, ks, o);
      }
      if o in w {
        assert DeclaredIn(passes, ks, o);
        var k :| k in ks && DeclaresAt(passes, k, o);
        assert k in Declarers(passes, o);
      }
    }
    forall o | o in w ensures w[o] == NewTarget(o, Least(Declarers(passes, o))) {
      var i :| FirstDeclarerAt(passes, ks, o, i) && w[o] == NewTarget(o, ks[i]);
      FirstInKeyOrder(passes, o, i);
    }
  }

  /**
   * `generateImages` throws exactly when some pass samples a name no pass
   * outputs, and then names such an input; otherwise it builds the
   * declared targets.
   */
  lemma GenerateTargetsSpec(passes: Nodes)
    requires AllPasses(passes)
    ensures GenerateTargets(passes).Ok? <==> NoDanglingInput(passes)
    ensures GenerateTargets(passes).Ok? ==> TargetsAsDeclared(passes, GenerateTargets(passes).value)
    ensures GenerateTargets(passes).Err? ==>
      GenerateTargets(passes).error.OutOfRange?
      && DanglingInput(passes, GenerateTargets(passes).error.key)
  {
    var ks := SortedKeys(passes.Keys);
    SortedKeysSpec(passes.Keys);
    var w := Writers(passes);
    WritersAsDeclared(passes);
    CollectReadersSpec(w, passes, ks);
    var r := GenerateTargets(passes);
    if r.Ok? {
      forall o | o in r.value
        ensures r.value[o] == RenderTargetNode(o, Least(Declarers(passes, o)),
                                               ReadersOf(passes, ks, o),
                                               RenderTargetDefinition("", UNDEFINED))
      {
        assert [] + ReadersOf(passes, ks, o) == ReadersOf(passes, ks, o);
      }
    }
  }

  /** A pass of `ks` that samples `o` is among the readers of `o`. */
  lemma {:induction false} ReadersOfHas(passes: Nodes, ks: seq<string>, o: string, k: string)
    requires PassKeys(passes, ks) && k in ks && o in Names(passes[k].pass.inputs)
    ensures k in ReadersOf(passes, ks, o)
  {
    var pre := ks[..|ks| - 1];
    var last := ks[|ks| - 1];
    if k == last {
      CountPositive(Names(passes[k].pass.inputs), o);
      assert Repeat(k, Count(Names(passes[k].pass.inputs), o))[0] == k;
    } else {
      assert k in pre by { assert ks == pre + [last]; }
      ReadersOfHas(passes, pre, o, k);
    }
  }

  /** Once `images.at` has thrown for one pass, its later inputs are not visited. */
  lemma {:induction false} AddReaderStops(acc: Result<Targets>, reader: string, ins: seq<RenderTargetDefinition>, i: int)
    requires 0 <= i <= |ins| && AddReader(acc, reader, ins[..i]).Err?
    ensures AddReader(acc, reader, ins) == AddReader(acc, reader, ins[..i])
  {
    if i < |ins| {
      assert ins[..|ins| - 1][..i] == ins[..i];
      AddReaderStops(acc, reader, ins[..|ins| - 1], i);
    } else {
      assert ins[..i] == ins;
    }
  }

  /** Once `images.at` has thrown, the later passes are not visited. */
  lemma {:induction false} CollectReadersStops(acc: Result<Targets>, passes: Nodes, ks: seq<string>, i: int)
    requires PassKeys(passes, ks) && 0 <= i <= |ks|
    requires CollectReaders(acc, passes, ks[..i]).Err?
    ensures CollectReaders(acc, passes, ks) == CollectReaders(acc, passes, ks[..i])
  {
    if i < |ks| {
      var pre := ks[..|ks| - 1];
      assert pre[..i] == ks[..i];
      CollectReadersStops(acc, passes, pre, i);
      AddReaderErr(CollectReaders(acc, passes, pre).error, ks[|ks| - 1], passes[ks[|ks| - 1]].pass.inputs);
    } else {
      assert ks[..i] == ks;
    }
  }

  // ---------------------------------------------------------------------
  // A pass named like an output

  /**
   * As written: `m_nodes[n] = i` overwrites a pass whose name is also an
   * output name, so the generated graph has lost that pass.
   */
  lemma GeneratedDropsPass(passes: Nodes, q: string)
    requires AllPasses(passes) && NoDanglingInput(passes)
    requires q in passes && Declarers(passes, q) != {}
    ensures Generated(passes).Ok? && q in Generated(passes).value
    ensures Generated(passes).value[q].Target? && Generated(passes).value[q] != passes[q]
  {
    GenerateTargetsSpec(passes);
  }

  /**
   * Target generation that refuses a target named like a pass, with the
   * message `insertNode` uses for a name that is already present.
   */
  function GeneratedChecked(passes: Nodes): Result<Nodes>
    requires AllPasses(passes)
  {
    match GenerateTargets(passes)
    case Err(e) => Err(e)
    case Ok(t) =>
      if t.Keys * passes.Keys != {} then Err(RuntimeError("Already exists"))
      else Ok(passes + AsNodes(t))
  }

  /** The keys of the generated targets are exactly the declared names. */
  lemma TargetKeys(passes: Nodes)
    requires AllPasses(passes)
    ensures GenerateTargets(passes).Ok? <==> NoDanglingInput(passes)
    ensures GenerateTargets(passes).Ok? ==>
      forall o :: o in GenerateTargets(passes).value <==> Declarers(passes, o) != {}
    ensures GenerateTargets(passes).Err? ==> GenerateTargets(passes).error.OutOfRange?
  {
    GenerateTargetsSpec(passes);
  }

  /**
   * The checked generation succeeds exactly when no input dangles and no
   * pass is named like an output.
   */
  lemma GeneratedCheckedOk(passes: Nodes)
    requires AllPasses(passes)
    ensures GeneratedChecked(passes).Ok?
      <==> NoDanglingInput(passes) && forall k | k in passes :: Declarers(passes, k) == {}
  {
    TargetKeys(passes);
    if GenerateTargets(passes).Ok? {
      var t := GenerateTargets(passes).value;
      if t.Keys * passes.Keys != {} {
        var k :| k in t.Keys * passes.Keys;
        assert Declarers(passes, k) != {};
      } else {
        forall k | k in passes ensures Declarers(passes, k) == {} {
          assert k !in t.Keys * passes.Keys;
        }
      }
    }
  }

  /** When it succeeds, the checked generation is `Generated` and keeps every pass unchanged. */
  lemma GeneratedCheckedKeepsPasses(passes: Nodes)
    requires AllPasses(passes) && GeneratedChecked(passes).Ok?
    ensures GeneratedChecked(passes) == Generated(passes)
    ensures forall k | k in passes :: k in GeneratedChecked(passes).value && GeneratedChecked(passes).value[k] == passes[k]
  {
    var t := GenerateTargets(passes).value;
    assert t.Keys * passes.Keys == {};
    forall k | k in passes ensures k !in t {
      assert k !in t.Keys * passes.Keys;
    }
  }

  /** The checked generation refuses a collision exactly where `Generated` drops a pass. */
  lemma GeneratedCheckedRefuses(passes: Nodes)
    requires AllPasses(passes) && GeneratedChecked(passes) == Err(RuntimeError("Already exists"))
    ensures Generated(passes).Ok? && exists k :: k in passes && Generated(passes).value[k] != passes[k]
  {
    TargetKeys(passes);
    var t := GenerateTargets(passes).value;
    var k :| k in t.Keys * passes.Keys;
    assert Generated(passes).value[k] == Target(t[k]);
  }
}
