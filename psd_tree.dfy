/**
  `LayerTree`: what `createLayersHierarchy` builds from a well-nested
  record list.

  A document's layers are described here by a forest in file order (bottom
  layer first).  A group is stored as its end marker, its children and its
  folder record, in that order; `EncodeAll` produces that record list.  The
  theorem `BuildWellNested` says that the builder returns the root whose
  children are exactly the forest's nodes, in file order, at every depth.
 */
module LayerTree {
  import opened Wrappers
  import opened Layers
  import opened PsdReader

  datatype RecordTree =
    | Item(layer: Layer)
    | Folder(begin: Layer, kids: seq<RecordTree>, end: Layer)

  /** Leaves are neither markers nor folders; a folder opens with a folder record and closes with an end marker. */
  predicate WellNested(t: RecordTree) {
    match t
    case Item(l) => !IsLayerGroupEnd(l) && !IsLayerGroupBegin(l)
    case Folder(b, kids, e) =>
      IsLayerGroupBegin(b) && !IsLayerGroupEnd(b) && IsLayerGroupEnd(e) &&
      forall i :: 0 <= i < |kids| ==> WellNested(kids[i])
  }

  predicate AllWellNested(ts: seq<RecordTree>) {
    forall i :: 0 <= i < |ts| ==> WellNested(ts[i])
  }

  /** The records of a subtree, in file order. */
  function Encode(t: RecordTree): seq<Layer> {
    match t
    case Item(l) => [l]
    case Folder(b, kids, e) => [e] + EncodeAll(kids) + [b]
  }

  function EncodeAll(ts: seq<RecordTree>): seq<Layer> {
    if ts == [] then [] else EncodeAll(ts[..|ts| - 1]) + Encode(ts[|ts| - 1])
  }

  /** The records of a subtree in the order the builder visits them (reverse file order). */
  function Proc(t: RecordTree): seq<Layer> {
    match t
    case Item(l) => [l]
    case Folder(b, kids, e) => [b] + ProcAll(kids) + [e]
  }

  function ProcAll(ts: seq<RecordTree>): seq<Layer> {
    if ts == [] then [] else Proc(ts[|ts| - 1]) + ProcAll(ts[..|ts| - 1])
  }

  /** The node a subtree should become. */
  function ToNode(t: RecordTree): PsdLayer {
    match t
    case Item(l) => ToPsdLayer(l)
    case Folder(b, kids, e) => GroupNode(b).(children := Nodes(ToNodes(kids)))
  }

  function ToNodes(ts: seq<RecordTree>): seq<PsdLayer> {
    if ts == [] then [] else ToNodes(ts[..|ts| - 1]) + [ToNode(ts[|ts| - 1])]
  }

  /** Adds `xs` after a node's existing children. */
  function AppendAll(node: PsdLayer, xs: seq<PsdLayer>): PsdLayer {
    node.(children := Nodes(Kids(node) + xs))
  }

  lemma {:induction false} ReverseEncode(t: RecordTree)
    ensures Reverse(Encode(t)) == Proc(t)
    decreases t, 1
  {
    match t
    case Item(l) =>
    case Folder(b, kids, e) =>
      ReverseEncodeAll(kids);
      calc {
        Reverse(Encode(t));
        Reverse([e] + EncodeAll(kids) + [b]);
        { ReverseConcat([e] + EncodeAll(kids), [b]); }
        Reverse([b]) + Reverse([e] + EncodeAll(kids));
        { ReverseConcat([e], EncodeAll(kids)); }
        [b] + (ProcAll(kids) + [e]);
        { assert [b] + (ProcAll(kids) + [e]) == [b] + ProcAll(kids) + [e]; }
        Proc(t);
      }
  }

  lemma {:induction false} ReverseEncodeAll(ts: seq<RecordTree>)
    ensures Reverse(EncodeAll(ts)) == ProcAll(ts)
    decreases ts, 0
  {
    if ts != [] {
      var init, last := ts[..|ts| - 1], ts[|ts| - 1];
      ReverseEncodeAll(init);
      ReverseEncode(last);
      ReverseConcat(EncodeAll(init), Encode(last));
    }
  }

  /** The top of a non-empty stack, extended with `xs`. */
  function Extend(stack: seq<PsdLayer>, xs: seq<PsdLayer>): seq<PsdLayer>
    requires |stack| > 0
  {
    stack[..|stack| - 1] + [AppendAll(stack[|stack| - 1], xs)]
  }

  lemma ExtendTwice(stack: seq<PsdLayer>, xs: seq<PsdLayer>, ys: seq<PsdLayer>)
    requires |stack| > 0
    ensures Extend(Extend(stack, xs), ys) == Extend(stack, xs + ys)
  {
    var top := stack[|stack| - 1];
    assert Kids(top) + xs + ys == Kids(top) + (xs + ys);
  }

  lemma StepLeaf(stack: seq<PsdLayer>, l: Layer)
    requires |stack| > 0 && !IsLayerGroupEnd(l) && !IsLayerGroupBegin(l)
    ensures Run(Open(stack), [l]) == Open(Extend(stack, [ToPsdLayer(l)]))
  {
  }

  lemma StepBegin(stack: seq<PsdLayer>, b: Layer)
    requires |stack| > 0 && !IsLayerGroupEnd(b) && IsLayerGroupBegin(b)
    ensures Run(Open(stack), [b]) == Open(stack + [GroupNode(b)])
  {
  }

  lemma StepEnd(stack: seq<PsdLayer>, node: PsdLayer, e: Layer)
    requires |stack| > 0 && IsLayerGroupEnd(e)
    ensures Run(Open(stack + [node]), [e]) == Open(Extend(stack, [ReverseChildren(node)]))
  {
    var s := stack + [node];
    assert s[..|s| - 2] == stack[..|stack| - 1];
    assert s[|s| - 2] == stack[|stack| - 1];
  }

  /** A group filled with its children's nodes (in visiting order) closes into the group's node. */
  lemma CloseGroup(b: Layer, kids: seq<RecordTree>, e: Layer)
    ensures ReverseChildren(AppendAll(GroupNode(b), Reverse(ToNodes(kids)))) == ToNode(Folder(b, kids, e))
  {
    assert Kids(GroupNode(b)) + Reverse(ToNodes(kids)) == Reverse(ToNodes(kids));
    ReverseReverse(ToNodes(kids));
  }

  /** Visiting one well-nested subtree appends its node to the current group. */
  lemma {:induction false} RunProc(stack: seq<PsdLayer>, t: RecordTree)
    requires |stack| > 0 && stack[|stack| - 1].children.Nodes?
    requires WellNested(t)
    ensures Run(Open(stack), Proc(t)) == Open(Extend(stack, [ToNode(t)]))
    decreases t, 1
  {
    match t
    case Item(l) =>
      StepLeaf(stack, l);
    case Folder(b, kids, e) =>
      var inner := stack + [GroupNode(b)];
      var filled := AppendAll(GroupNode(b), Reverse(ToNodes(kids)));
      assert Extend(inner, Reverse(ToNodes(kids))) == stack + [filled];
      calc {
        Run(Open(stack), Proc(t));
        { RunConcat(Open(stack), [b] + ProcAll(kids), [e]); }
        Run(Run(Open(stack), [b] + ProcAll(kids)), [e]);
        { RunConcat(Open(stack), [b], ProcAll(kids)); StepBegin(stack, b); }
        Run(Run(Open(inner), ProcAll(kids)), [e]);
        { RunProcAll(inner, kids); }
        Run(Open(stack + [filled]), [e]);
        { StepEnd(stack, filled, e); CloseGroup(b, kids, e); }
        Open(Extend(stack, [ToNode(t)]));
      }
  }

  /** Visiting a well-nested forest appends its nodes, in reverse file order, to the current group. */
  lemma {:induction false} RunProcAll(stack: seq<PsdLayer>, ts: seq<RecordTree>)
    requires |stack| > 0 && stack[|stack| - 1].children.Nodes?
    requires AllWellNested(ts)
    ensures Run(Open(stack), ProcAll(ts)) == Open(Extend(stack, Reverse(ToNodes(ts))))
    decreases ts, 0
  {
    var top := stack[|stack| - 1];
    if ts == [] {
      assert Kids(top) + [] == Kids(top);
      assert Extend(stack, []) == stack;
    } else {
      var init, last := ts[..|ts| - 1], ts[|ts| - 1];
      assert AllWellNested(init) by {
        forall i | 0 <= i < |init| ensures WellNested(init[i]) {
          assert init[i] == ts[i];
        }
      }
      var stack' := Extend(stack, [ToNode(last)]);
      calc {
        Run(Open(stack), ProcAll(ts));
        { RunConcat(Open(stack), Proc(last), ProcAll(init)); }
        Run(Run(Open(stack), Proc(last)), ProcAll(init));
        { RunProc(stack, last); }
        Run(Open(stack'), ProcAll(init));
        { RunProcAll(stack', init); }
        Open(Extend(stack', Reverse(ToNodes(init))));
        { ExtendTwice(stack, [ToNode(last)], Reverse(ToNodes(init))); }
        Open(Extend(stack, [ToNode(last)] + Reverse(ToNodes(init))));
        { assert ToNodes(ts) == ToNodes(init) + [ToNode(last)];
          ReverseConcat(ToNodes(init), [ToNode(last)]);
          assert Reverse([ToNode(last)]) == [ToNode(last)]; }
        Open(Extend(stack, Reverse(ToNodes(ts))));
      }
    }
  }

  /**
    For a document whose records encode a well-nested forest, the builder
    succeeds and returns the root with the forest's nodes as children, in
    file order, groups holding their own children in file order.
   */
  lemma BuildWellNested(file: PsdFile, rootName: string, forest: seq<RecordTree>)
    requires file.layers == EncodeAll(forest)
    requires AllWellNested(forest)
    ensures Build(file, rootName) == Success(Root(file, rootName).(children := Nodes(ToNodes(forest))))
  {
    var root := Root(file, rootName);
    var filled := AppendAll(root, Reverse(ToNodes(forest)));
    calc {
      Run(Init(file, rootName), Reverse(file.layers));
      { ReverseEncodeAll(forest); }
      Run(Open([root]), ProcAll(forest));
      { RunProcAll([root], forest); }
      Open(Extend([root], Reverse(ToNodes(forest))));
      { assert Extend([root], Reverse(ToNodes(forest))) == [filled]; }
      Open([filled]);
    }
    assert Kids(root) + Reverse(ToNodes(forest)) == Reverse(ToNodes(forest));
    ReverseReverse(ToNodes(forest));
  }
}
