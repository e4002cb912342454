/**
  `PsdReader`: turns the flat list of layer records into a tree of
  `PsdLayer` nodes, and selects the layers whose pixels are extracted.

  The records are stored bottom-up: a group appears as its end marker, its
  children, and finally the group record itself.  The builder walks the
  records in reverse order with a stack of open groups whose bottom is a
  synthetic root.

  In the source a group node is appended to its parent's child list when
  its begin record is met and then filled through the reference on the
  stack.  Here nodes are values: the stack holds each open group with the
  children it has so far, and a group is appended to its parent when it is
  popped.  While a group is open its parent receives nothing else, so the
  group lands at the same position; groups still open at the end are
  appended, unreversed, by `Collapse`.
 */
module PsdReader {
  import opened Wrappers
  import opened CSharpInt
  import opened Geometry
  import opened Rectangles
  import opened Colors
  import opened Strings
  import opened Layers
  import opened PsdUtility
  import BitmapUtility

  /** A node's child list, or the null a leaf has. */
  datatype Children = Null | Nodes(list: seq<PsdLayer>)

  /** A node of the layer tree; `children` is null for a leaf. */
  datatype PsdLayer = PsdLayer(
    name: string,
    position: Point,
    size: Size,
    visible: bool,
    isTextLayer: bool,
    fontName: Option<string>,
    fontSize: real,
    text: Option<string>,
    justification: int,
    fillColor: Color,
    children: Children)

  /** `List<T>.Reverse`. */
  function Reverse<T>(s: seq<T>): (r: seq<T>)
    ensures |r| == |s|
    ensures forall i :: 0 <= i < |s| ==> r[i] == s[|s| - 1 - i]
  {
    if s == [] then [] else Reverse(s[1..]) + [s[0]]
  }

  lemma ReverseReverse<T>(s: seq<T>)
    ensures Reverse(Reverse(s)) == s
  {
  }

  lemma ReverseConcat<T>(a: seq<T>, b: seq<T>)
    ensures Reverse(a + b) == Reverse(b) + Reverse(a)
  {
  }

  const LayerSetEnd: string := "</Layer set>"
  const LayerGroupEnd: string := "</Layer group>"
  const CopyName: string := " copy"

  /** `isLayerGroupEnd`: the marker record that closes a group. */
  predicate IsLayerGroupEnd(layer: Layer) {
    Contains(layer.name, LayerSetEnd) || Contains(layer.name, LayerGroupEnd) ||
    (layer.name == CopyName && layer.rect.height == 0)
  }

  /** `isLayerGroupBegin`: the folder record of a group. */
  predicate IsLayerGroupBegin(layer: Layer) {
    layer.isFolder
  }

  /** `canExtract`: the layer has four channels of pixel data worth writing. */
  predicate CanExtract(layer: Layer) {
    !layer.isPixelDataIrrelevant && |layer.channels| == 4 && !layer.isTextLayer
  }

  /** The group-end test, stated with marker positions instead of `Contains`. */
  lemma GroupEndByPosition(layer: Layer)
    ensures IsLayerGroupEnd(layer) <==>
      (exists i :: OccursAt(layer.name, LayerSetEnd, i)) ||
      (exists i :: OccursAt(layer.name, LayerGroupEnd, i)) ||
      (layer.name == CopyName && layer.rect.height == 0)
  {
    ContainsAt(layer.name, LayerSetEnd);
    ContainsAt(layer.name, LayerGroupEnd);
  }

  /** `toPsdLayer`: a leaf carrying the record's rectangle and text attributes. */
  function ToPsdLayer(layer: Layer): (node: PsdLayer)
    ensures node.children.Null?
    ensures node.size == Size(layer.rect.width, layer.rect.height)
    ensures node.position == Point(layer.rect.x, layer.rect.y)
  {
    PsdLayer(layer.name, Point(layer.rect.x, layer.rect.y), Size(layer.rect.width, layer.rect.height),
             layer.visible, layer.isTextLayer, layer.fontName, layer.fontSize, layer.text,
             layer.justification, layer.fillColor, Null)
  }

  /** The node a group-begin record opens: name and visibility, an empty child list, other fields default. */
  function GroupNode(layer: Layer): PsdLayer {
    PsdLayer(layer.name, EmptyPoint, EmptySize, layer.visible, false, None, 0.0, None, 0, Colors.Empty, Nodes([]))
  }

  /** The synthetic root: the document's file name and size, an empty child list. */
  function Root(file: PsdFile, rootName: string): PsdLayer {
    PsdLayer(rootName, EmptyPoint, Size(file.width, file.height), false, false, None, 0.0, None, 0, Colors.Empty, Nodes([]))
  }

  function Kids(node: PsdLayer): seq<PsdLayer> {
    if node.children.Nodes? then node.children.list else []
  }

  /** `children.Add(child)`. */
  function Append(node: PsdLayer, child: PsdLayer): PsdLayer {
    node.(children := Nodes(Kids(node) + [child]))
  }

  /** `children.Reverse()`. */
  function ReverseChildren(node: PsdLayer): PsdLayer {
    node.(children := Nodes(Reverse(Kids(node))))
  }

  /**
    The builder's state: the stack of open nodes (root at index 0), or the
    root alone once an unmatched group-end has popped it, or the failure of
    `Peek` on the empty stack.
   */
  datatype BuildState = Open(stack: seq<PsdLayer>) | RootClosed(root: PsdLayer) | PeekFailed

  datatype HierarchyError = EmptyStack

  function Init(file: PsdFile, rootName: string): BuildState {
    Open([Root(file, rootName)])
  }

  /** A group-end record: reverse the top's children and pop it into its parent. */
  function Pop(stack: seq<PsdLayer>): BuildState
    requires |stack| > 0
  {
    var closed := ReverseChildren(stack[|stack| - 1]);
    if |stack| == 1 then RootClosed(closed)
    else Open(stack[..|stack| - 2] + [Append(stack[|stack| - 2], closed)])
  }

  /** One iteration of the loop over the reversed records. */
  function Step(st: BuildState, layer: Layer): BuildState {
    match st
    case Open(stack) =>
      if |stack| == 0 then PeekFailed
      else if IsLayerGroupEnd(layer) then Pop(stack)
      else if IsLayerGroupBegin(layer) then Open(stack + [GroupNode(layer)])
      else Open(stack[..|stack| - 1] + [Append(stack[|stack| - 1], ToPsdLayer(layer))])
    case RootClosed(_) => PeekFailed
    case PeekFailed => PeekFailed
  }

  function Run(st: BuildState, layers: seq<Layer>): BuildState
    decreases |layers|
  {
    if layers == [] then st else Run(Step(st, layers[0]), layers[1..])
  }

  /** Appends every still-open group, as it is, to its parent. */
  function Collapse(stack: seq<PsdLayer>): PsdLayer
    requires |stack| > 0
    decreases |stack|
  {
    if |stack| == 1 then stack[0]
    else Collapse(stack[..|stack| - 2] + [Append(stack[|stack| - 2], stack[|stack| - 1])])
  }

  /** After the loop: the root's children are reversed once more. */
  function Finish(st: BuildState): Result<PsdLayer, HierarchyError> {
    match st
    case Open(stack) => if |stack| == 0 then Failure(EmptyStack) else Success(ReverseChildren(Collapse(stack)))
    case RootClosed(root) => Success(ReverseChildren(root))
    case PeekFailed => Failure(EmptyStack)
  }

  /** The tree `createLayersHierarchy` returns, or the exception it throws. */
  function Build(file: PsdFile, rootName: string): Result<PsdLayer, HierarchyError> {
    Finish(Run(Init(file, rootName), Reverse(file.layers)))
  }

  lemma {:induction false} RunSnoc(st: BuildState, layers: seq<Layer>, layer: Layer)
    ensures Run(st, layers + [layer]) == Step(Run(st, layers), layer)
    decreases |layers|
  {
    if layers == [] {
      assert Run(Step(st, layer), []) == Step(st, layer);
    } else {
      assert (layers + [layer])[1..] == layers[1..] + [layer];
      RunSnoc(Step(st, layers[0]), layers[1..], layer);
    }
  }

  lemma {:induction false} RunConcat(st: BuildState, a: seq<Layer>, b: seq<Layer>)
    ensures Run(st, a + b) == Run(Run(st, a), b)
    decreases |a|
  {
    if a == [] {
      assert a + b == b;
    } else {
      assert (a + b)[1..] == a[1..] + b;
      RunConcat(Step(st, a[0]), a[1..], b);
    }
  }

  lemma {:induction false} RunFailed(layers: seq<Layer>)
    ensures Run(PeekFailed, layers) == PeekFailed
    decreases |layers|
  {
    if layers != [] {
      RunFailed(layers[1..]);
    }
  }

  /** The state the loop is in after i records, in the loop's own variables. */
  function LoopState(stack: seq<PsdLayer>, closedRoot: PsdLayer): BuildState {
    if |stack| > 0 then Open(stack) else RootClosed(closedRoot)
  }

  /**
    `createLayersHierarchy`: reverses the records, then pushes a node for
    each group-begin, pops (after reversing its children) for each
    group-end, and appends a leaf for every other record; a `Peek` on the
    empty stack throws.
   */
  method CreateLayersHierarchy(file: PsdFile, rootName: string) returns (r: Result<PsdLayer, HierarchyError>)
    ensures r == Build(file, rootName)
  {
    var rootLayer := Root(file, rootName);
    var layerStack := [rootLayer];
    var closedRoot := rootLayer;
    var layers := Reverse(file.layers);
    var i := 0;
    while i < |layers|
      invariant 0 <= i <= |layers|
      invariant Run(Init(file, rootName), layers[..i]) == LoopState(layerStack, closedRoot)
    {
      assert layers[..i + 1] == layers[..i] + [layers[i]];
      RunSnoc(Init(file, rootName), layers[..i], layers[i]);
      if |layerStack| == 0 {
        assert layers == layers[..i + 1] + layers[i + 1..];
        RunConcat(Init(file, rootName), layers[..i + 1], layers[i + 1..]);
        RunFailed(layers[i + 1..]);
        return Failure(EmptyStack);
      }
      var layer := layers[i];
      var currentRoot := layerStack[|layerStack| - 1];
      if IsLayerGroupEnd(layer) {
        var closed := ReverseChildren(currentRoot);
        layerStack := layerStack[..|layerStack| - 1];
        if |layerStack| == 0 {
          closedRoot := closed;
        } else {
          layerStack := layerStack[..|layerStack| - 1] + [Append(layerStack[|layerStack| - 1], closed)];
        }
      } else if IsLayerGroupBegin(layer) {
        layerStack := layerStack + [GroupNode(layer)];
      } else {
        var psdLayer := ToPsdLayer(layer);
        layerStack := layerStack[..|layerStack| - 1] + [Append(currentRoot, psdLayer)];
      }
      i := i + 1;
    }
    assert layers[..i] == layers;
    if |layerStack| == 0 {
      r := Success(ReverseChildren(closedRoot));
    } else {
      r := Success(ReverseChildren(Collapse(layerStack)));
    }
  }

  /** Every field of a node except its children. */
  function Header(node: PsdLayer): PsdLayer {
    node.(children := Null)
  }

  predicate RootIs(st: BuildState, header: PsdLayer) {
    match st
    case Open(stack) => |stack| > 0 && Header(stack[0]) == header
    case RootClosed(root) => Header(root) == header
    case PeekFailed => true
  }

  lemma StepKeepsRoot(st: BuildState, layer: Layer, header: PsdLayer)
    requires RootIs(st, header)
    ensures RootIs(Step(st, layer), header)
  {
    if st.Open? && !IsLayerGroupEnd(layer) && !IsLayerGroupBegin(layer) {
      var stack := st.stack;
      var s' := stack[..|stack| - 1] + [Append(stack[|stack| - 1], ToPsdLayer(layer))];
      assert Header(s'[0]) == header;
    } else if st.Open? && IsLayerGroupEnd(layer) && |st.stack| > 1 {
      var stack := st.stack;
      var s' := stack[..|stack| - 2] + [Append(stack[|stack| - 2], ReverseChildren(stack[|stack| - 1]))];
      assert Header(s'[0]) == header;
    }
  }

  lemma {:induction false} RunKeepsRoot(st: BuildState, layers: seq<Layer>, header: PsdLayer)
    requires RootIs(st, header)
    ensures RootIs(Run(st, layers), header)
    decreases |layers|
  {
    if layers != [] {
      StepKeepsRoot(st, layers[0], header);
      RunKeepsRoot(Step(st, layers[0]), layers[1..], header);
    }
  }

  lemma {:induction false} CollapseKeepsRoot(stack: seq<PsdLayer>)
    requires |stack| > 0
    ensures Header(Collapse(stack)) == Header(stack[0])
    decreases |stack|
  {
    if |stack| > 1 {
      var s' := stack[..|stack| - 2] + [Append(stack[|stack| - 2], stack[|stack| - 1])];
      assert Header(s'[0]) == Header(stack[0]);
      CollapseKeepsRoot(s');
    }
  }

  /**
    The returned tree is the synthetic root: named after the file, sized
    like the document, invisible, with a child list.
   */
  lemma BuildRoot(file: PsdFile, rootName: string)
    requires Build(file, rootName).Success?
    ensures var root := Build(file, rootName).value;
      root.name == rootName && root.size == Size(file.width, file.height) &&
      root.position == EmptyPoint && !root.visible && root.children.Nodes?
  {
    var header := Header(Root(file, rootName));
    RunKeepsRoot(Init(file, rootName), Reverse(file.layers), header);
    var st := Run(Init(file, rootName), Reverse(file.layers));
    if st.Open? {
      CollapseKeepsRoot(st.stack);
    }
  }

  /** +1 for a group-begin, -1 for a group-end (which takes precedence), 0 for a leaf. */
  function Delta(layer: Layer): int {
    if IsLayerGroupEnd(layer) then -1 else if IsLayerGroupBegin(layer) then 1 else 0
  }

  /** Open groups minus closed groups over a prefix of the processed records. */
  function Balance(layers: seq<Layer>): int
    decreases |layers|
  {
    if layers == [] then 0 else Balance(layers[..|layers| - 1]) + Delta(layers[|layers| - 1])
  }

  /**
    As long as no prefix closes more groups than it opened, the stack holds
    the root plus one node per open group: nesting depth is bracket depth.
   */
  lemma {:induction false} StackDepth(file: PsdFile, rootName: string, layers: seq<Layer>)
    requires forall k :: 1 <= k <= |layers| ==> Balance(layers[..k]) >= 0
    ensures Run(Init(file, rootName), layers).Open?
    ensures |Run(Init(file, rootName), layers).stack| == 1 + Balance(layers)
    decreases |layers|
  {
    if layers != [] {
      var p := layers[..|layers| - 1];
      var last := layers[|layers| - 1];
      forall k | 1 <= k <= |p|
        ensures Balance(p[..k]) >= 0
      {
        assert p[..k] == layers[..k];
      }
      StackDepth(file, rootName, p);
      assert layers == p + [last];
      RunSnoc(Init(file, rootName), p, last);
      assert layers[..|layers|] == layers;
    }
  }

  /** The first prefix that closes more groups than it opened leaves only the root, popped. */
  lemma FirstUnmatchedEnd(file: PsdFile, rootName: string, xs: seq<Layer>, k: nat)
    requires 1 <= k <= |xs|
    requires forall j :: 1 <= j < k ==> Balance(xs[..j]) >= 0
    requires Balance(xs[..k]) < 0
    ensures Run(Init(file, rootName), xs[..k]).RootClosed?
  {
    var p := xs[..k - 1];
    forall j | 1 <= j <= |p|
      ensures Balance(p[..j]) >= 0
    {
      assert p[..j] == xs[..j];
    }
    StackDepth(file, rootName, p);
    assert xs[..k] == p + [xs[k - 1]];
    RunSnoc(Init(file, rootName), p, xs[k - 1]);
  }

  /** Once the root is popped, one more record makes the build throw. */
  lemma ClosedRootFails(st: BuildState, rest: seq<Layer>)
    requires st.RootClosed? && |rest| > 0
    ensures Finish(Run(st, rest)) == Failure(EmptyStack)
  {
    RunFailed(rest[1..]);
  }

  /**
    The first record that closes more groups than were opened pops the
    root; if any record follows, its `Peek` finds the stack empty and the
    build throws.
   */
  lemma UnmatchedEndFails(file: PsdFile, rootName: string, k: nat)
    requires 1 <= k < |file.layers|
    requires forall j :: 1 <= j < k ==> Balance(Reverse(file.layers)[..j]) >= 0
    requires Balance(Reverse(file.layers)[..k]) < 0
    ensures Build(file, rootName) == Failure(EmptyStack)
  {
    var xs := Reverse(file.layers);
    FirstUnmatchedEnd(file, rootName, xs, k);
    assert xs == xs[..k] + xs[k..];
    RunConcat(Init(file, rootName), xs[..k], xs[k..]);
    ClosedRootFails(Run(Init(file, rootName), xs[..k]), xs[k..]);
  }

  /** A record that is both a group-end and a folder is handled as a group-end. */
  lemma EndTakesPrecedence(stack: seq<PsdLayer>, layer: Layer)
    requires |stack| > 0 && IsLayerGroupEnd(layer) && IsLayerGroupBegin(layer)
    ensures Step(Open(stack), layer) == Step(Open(stack), layer.(isFolder := false))
    ensures Delta(layer) == -1
  {
  }

  // ---- extractLayers ----

  /** What `writeBitmapFile` is asked to write. */
  datatype Extraction = Extraction(fileName: string, width: Int32, height: Int32, data: seq<byte>)

  /** `Path.Combine(layersOutputDirectory, imageNameFromLayerName(layer.Name))`, with `Path.Combine` a parameter. */
  function LayerFileName(outDir: string, combine: (string, string) -> string, layer: Layer): string {
    combine(outDir, ImageNameFromLayerName(layer.name))
  }

  predicate IsGroupMarker(layer: Layer) {
    IsLayerGroupEnd(layer) || IsLayerGroupBegin(layer)
  }

  /** A layer the loop writes unless its file name was already taken. */
  predicate Candidate(layer: Layer) {
    !IsGroupMarker(layer) && CanExtract(layer)
  }

  /** `layerData32argb` finds every pixel it reads in the layer's channel buffers. */
  predicate Writable(layer: Layer)
    reads set i | 0 <= i < |layer.channels| :: layer.channels[i]
    reads set i | 0 <= i < |layer.channels| :: layer.channels[i].imageData
  {
    BitmapUtility.PlanesLargeEnough(BitmapUtility.Planes(layer.channels), layer.rect.width, layer.rect.height)
  }

  /** The file list after the loop has seen `layers`. */
  function Extracted(layers: seq<Layer>, outDir: string, combine: (string, string) -> string): seq<string>
    decreases |layers|
  {
    if layers == [] then []
    else
      var prev := Extracted(layers[..|layers| - 1], outDir, combine);
      var layer := layers[|layers| - 1];
      var f := LayerFileName(outDir, combine, layer);
      if IsGroupMarker(layer) || f in prev || !CanExtract(layer) then prev else prev + [f]
  }

  predicate Distinct(files: seq<string>) {
    forall a, b :: 0 <= a < b < |files| ==> files[a] != files[b]
  }

  /** No file name is listed twice. */
  lemma {:induction false} ExtractedNoDuplicates(layers: seq<Layer>, outDir: string, combine: (string, string) -> string)
    ensures Distinct(Extracted(layers, outDir, combine))
    decreases |layers|
  {
    if layers != [] {
      var prev := Extracted(layers[..|layers| - 1], outDir, combine);
      ExtractedNoDuplicates(layers[..|layers| - 1], outDir, combine);
      var files := Extracted(layers, outDir, combine);
      if files != prev {
        var f := LayerFileName(outDir, combine, layers[|layers| - 1]);
        assert files == prev + [f] && f !in prev;
        forall a, b | 0 <= a < b < |files|
          ensures files[a] != files[b]
        {
          assert files[a] == prev[a];
          if b == |prev| {
            assert files[b] == f;
            assert prev[a] in prev;
          } else {
            assert files[b] == prev[b];
          }
        }
      }
    }
  }

  /** Every listed file belongs to a non-marker layer that passes `canExtract`. */
  lemma {:induction false} ExtractedSound(layers: seq<Layer>, outDir: string, combine: (string, string) -> string)
    ensures forall f :: f in Extracted(layers, outDir, combine) ==>
      exists j :: 0 <= j < |layers| && Candidate(layers[j]) && LayerFileName(outDir, combine, layers[j]) == f
    decreases |layers|
  {
    if layers != [] {
      var p := layers[..|layers| - 1];
      ExtractedSound(p, outDir, combine);
      forall f | f in Extracted(layers, outDir, combine)
        ensures exists j :: 0 <= j < |layers| && Candidate(layers[j]) && LayerFileName(outDir, combine, layers[j]) == f
      {
        if f in Extracted(p, outDir, combine) {
          var j :| 0 <= j < |p| && Candidate(p[j]) && LayerFileName(outDir, combine, p[j]) == f;
          assert layers[j] == p[j];
        } else {
          assert Candidate(layers[|layers| - 1]);
        }
      }
    }
  }

  /** Every non-marker layer that passes `canExtract` has its file listed (the first such layer wrote it). */
  lemma {:induction false} ExtractedComplete(layers: seq<Layer>, outDir: string, combine: (string, string) -> string)
    ensures forall j :: 0 <= j < |layers| && Candidate(layers[j]) ==>
      LayerFileName(outDir, combine, layers[j]) in Extracted(layers, outDir, combine)
    decreases |layers|
  {
    if layers != [] {
      var p := layers[..|layers| - 1];
      ExtractedComplete(p, outDir, combine);
      forall j | 0 <= j < |layers| && Candidate(layers[j])
        ensures LayerFileName(outDir, combine, layers[j]) in Extracted(layers, outDir, combine)
      {
        if j < |p| {
          assert layers[j] == p[j];
        }
      }
    }
  }

  /**
    `extractLayers`: nothing when channel data was not read; otherwise,
    for each record in file order, skips group markers, file names already
    written and layers `canExtract` rejects, and writes the interleaved
    pixels of the rest.  The interleaver's index-out-of-range exception
    is the failure case.
   */
  method ExtractLayers(hasChannelsData: bool, file: PsdFile, outDir: string, combine: (string, string) -> string)
    returns (r: Result<seq<string>, BitmapUtility.BitmapError>, writes: seq<Extraction>)
    ensures !hasChannelsData ==> r == Success([]) && writes == []
    ensures hasChannelsData && r.Success? ==> r.value == Extracted(file.layers, outDir, combine)
    ensures r.Success? ==> |writes| == |r.value| && forall k :: 0 <= k < |writes| ==> writes[k].fileName == r.value[k]
    ensures r.Failure? ==>
      exists j :: 0 <= j < |file.layers| && Candidate(file.layers[j]) && !Writable(file.layers[j])
  {
    var extractedFiles: seq<string> := [];
    writes := [];
    if !hasChannelsData {
      return Success(extractedFiles), writes;
    }
    var layers := file.layers;
    var n := 0;
    while n < |layers|
      invariant 0 <= n <= |layers|
      invariant extractedFiles == Extracted(layers[..n], outDir, combine)
      invariant |writes| == |extractedFiles| && forall k :: 0 <= k < |writes| ==> writes[k].fileName == extractedFiles[k]
    {
      var layer := layers[n];
      assert layers[..n + 1][..n] == layers[..n];
      if IsLayerGroupEnd(layer) || IsLayerGroupBegin(layer) {
        n := n + 1;
        continue;
      }
      var layerFileName := combine(outDir, ImageNameFromLayerName(layer.name));
      if layerFileName in extractedFiles {
        n := n + 1;
        continue;
      }
      if !CanExtract(layer) {
        n := n + 1;
        continue;
      }
      var data := BitmapUtility.LayerData32Argb(layer);
      if data.Failure? {
        assert Candidate(layers[n]) && !Writable(layers[n]);
        return Failure(data.error), writes;
      }
      writes := writes + [Extraction(layerFileName, layer.rect.width, layer.rect.height, data.value)];
      extractedFiles := extractedFiles + [layerFileName];
      n := n + 1;
    }
    assert layers[..n] == layers;
    r := Success(extractedFiles);
  }
}
