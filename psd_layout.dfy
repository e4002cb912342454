/**
  `PsdLayout`: the decisions the prefab builder takes while it walks the
  layer tree (which node to start from, which children to visit, which
  fonts match) and the integer arithmetic that places each layer on the
  canvas.  The Unity objects it creates and updates are not modelled; a
  walk is recorded as the sequence of placements it assigns.
 */
module PsdLayout {
  import opened Wrappers
  import opened CSharpInt
  import opened Geometry
  import opened Strings
  import opened PsdUtility
  import opened PsdReader

  /** `isGroup`: the node has a child list. */
  predicate IsGroup(layer: PsdLayer) {
    layer.children.Nodes?
  }

  /** `shouldDigDeeper`: a group named like an image file is not entered. */
  predicate ShouldDigDeeper(layer: PsdLayer) {
    !EndsWith(layer.name, PngExtension)
  }

  /** `shouldIgnoreLayer`: names starting with '-' are skipped. */
  predicate ShouldIgnoreLayer(layerName: string) {
    StartsWith(layerName, "-")
  }

  /**
    `skipFirstLayer`: a root whose only child is a group is replaced by
    that group.  The root always has a child list (`BuildRoot`); on a node
    without one the source would dereference null.
   */
  function SkipFirstLayer(layer: PsdLayer): (r: PsdLayer)
    requires layer.children.Nodes?
  {
    if |layer.children.list| == 1 && layer.children.list[0].children.Nodes? then layer.children.list[0] else layer
  }

  /** The layer the walk starts from is a group: the node itself or its only child. */
  lemma SkipFirstLayerIsGroup(layer: PsdLayer)
    requires layer.children.Nodes?
    ensures IsGroup(SkipFirstLayer(layer))
    ensures SkipFirstLayer(layer) == layer || SkipFirstLayer(layer) in layer.children.list
    ensures SkipFirstLayer(layer) != layer <==>
      |layer.children.list| == 1 && IsGroup(layer.children.list[0])
  {
  }

  /** A node named after an image file, as `imageNameFromLayerName` makes them, is never entered. */
  lemma ImageNamedNodeNotEntered(layer: PsdLayer, layerName: string)
    requires layer.name == ImageNameFromLayerName(layerName)
    ensures !ShouldDigDeeper(layer)
  {
  }

  lemma IgnoredIffDash(layerName: string)
    ensures ShouldIgnoreLayer(layerName) <==> |layerName| > 0 && layerName[0] == '-'
  {
    if |layerName| > 0 && layerName[0] == '-' {
      assert layerName[..1] == "-";
    }
  }

  /** Some font name, with its spaces removed, contains the query. */
  predicate FontLike(fontNames: seq<string>, query: string) {
    exists i :: 0 <= i < |fontNames| && Contains(RemoveSpaces(fontNames[i]), query)
  }

  /** `isFontLike`: scans the font's names and stops at the first that matches. */
  method IsFontLike(fontNames: seq<string>, fontNameToCompare: string) returns (r: bool)
    ensures r <==> FontLike(fontNames, fontNameToCompare)
  {
    for i := 0 to |fontNames|
      invariant forall j :: 0 <= j < i ==> !Contains(RemoveSpaces(fontNames[j]), fontNameToCompare)
    {
      var name := RemoveSpaces(fontNames[i]);
      if Contains(name, fontNameToCompare) {
        return true;
      }
    }
    return false;
  }

  /** No font has a name in an empty list; every font with a name matches the empty query. */
  lemma FontLikeEdgeCases(fontNames: seq<string>)
    ensures !FontLike([], "")
    ensures FontLike(fontNames, "") <==> |fontNames| > 0
  {
    if |fontNames| > 0 {
      ContainsTrivial(RemoveSpaces(fontNames[0]));
    }
  }

  /** A string without spaces contains no string with one. */
  lemma NoSpaceNoContains(s: string, t: string)
    requires ' ' !in s && ' ' in t
    ensures !Contains(s, t)
  {
    ContainsAt(s, t);
    var j := IndexOf(t, ' ');
    forall k | 0 <= k <= |s| - |t|
      ensures !OccursAt(s, t, k)
    {
      assert s[k + j] in s;
      assert s[k..k + |t|][j] != t[j];
    }
  }

  /** A query containing a space never matches, since the names it is compared with have none. */
  lemma SpacedQueryNeverMatches(fontNames: seq<string>, query: string)
    requires ' ' in query
    ensures !FontLike(fontNames, query)
  {
    forall i | 0 <= i < |fontNames|
      ensures !Contains(RemoveSpaces(fontNames[i]), query)
    {
      NoSpaceNoContains(RemoveSpaces(fontNames[i]), query);
    }
  }

  /** What `updateGameObject` assigns to a layer's RectTransform: its size and its centre. */
  datatype Placement = Placement(name: string, width: Int32, height: Int32, centerX: Int32, centerY: Int32)

  /**
    The placement arithmetic, in unchecked 32-bit ints with truncating
    division: the corner is moved by half the canvas, and the centre is
    half the layer's size away from it, with y flipped to point up.
   */
  function Place(layer: PsdLayer, canvas: Size): Placement {
    var x := Wrap(layer.position.x - Quot(canvas.width, 2));
    var y := Wrap(layer.position.y + Quot(canvas.height, 2));
    Placement(layer.name, layer.size.width, layer.size.height,
              Wrap(x + Quot(layer.size.width, 2)),
              Wrap(Wrap(canvas.height - y) - Quot(layer.size.height, 2)))
  }

  const Bound: int := 0x1000_0000

  predicate Small(v: int) {
    -Bound <= v <= Bound
  }

  /**
    Moving a layer by (dx, dy) in image coordinates moves its centre by dx
    to the right and dy down, which is -dy in the flipped y axis (while no
    value comes near the 32-bit limits).
   */
  lemma PlaceTranslates(layer: PsdLayer, canvas: Size, dx: int, dy: int)
    requires Small(layer.position.x) && Small(layer.position.y)
    requires Small(layer.position.x + dx) && Small(layer.position.y + dy)
    requires Small(layer.size.width) && Small(layer.size.height) && Small(canvas.width) && Small(canvas.height)
    ensures var moved := layer.(position := Point(layer.position.x + dx, layer.position.y + dy));
      Place(moved, canvas).centerX == Place(layer, canvas).centerX + dx &&
      Place(moved, canvas).centerY == Place(layer, canvas).centerY - dy
  {
    var moved := layer.(position := Point(layer.position.x + dx, layer.position.y + dy));
    PlaceExact(layer, canvas);
    PlaceExact(moved, canvas);
  }

  /** Away from the 32-bit limits, no operation of the placement wraps. */
  lemma PlaceExact(layer: PsdLayer, canvas: Size)
    requires Small(layer.position.x) && Small(layer.position.y)
    requires Small(layer.size.width) && Small(layer.size.height) && Small(canvas.width) && Small(canvas.height)
    ensures Place(layer, canvas).centerX == layer.position.x - Quot(canvas.width, 2) + Quot(layer.size.width, 2)
    ensures Place(layer, canvas).centerY ==
      canvas.height - (layer.position.y + Quot(canvas.height, 2)) - Quot(layer.size.height, 2)
  {
    var x := layer.position.x - Quot(canvas.width, 2);
    var y := layer.position.y + Quot(canvas.height, 2);
    WrapInRange(x);
    WrapInRange(y);
    WrapInRange(x + Quot(layer.size.width, 2));
    WrapInRange(canvas.height - y);
    WrapInRange(canvas.height - y - Quot(layer.size.height, 2));
  }

  /** A layer covering the whole canvas is centred on the origin (off by one row for an odd height). */
  lemma FullCanvasCentred(layer: PsdLayer, canvas: Size)
    requires canvas.width >= 0 && canvas.height >= 0
    requires layer.position == EmptyPoint && layer.size == canvas
    ensures Place(layer, canvas).centerX == 0
    ensures Place(layer, canvas).centerY == canvas.height % 2
  {
    var x := -(canvas.width / 2);
    var y := canvas.height / 2;
    WrapInRange(x);
    WrapInRange(y);
    WrapInRange(x + canvas.width / 2);
    WrapInRange(canvas.height - y);
    WrapInRange(canvas.height - y - canvas.height / 2);
  }

  /** The placements a walk from `layer` assigns, in visiting order. */
  function Visit(layer: PsdLayer, canvas: Size): seq<Placement>
    decreases layer, 1
  {
    match layer.children
    case Nodes(kids) => [Place(layer, canvas)] + (if ShouldDigDeeper(layer) then VisitChildren(kids, canvas) else [])
    case Null => [Place(layer, canvas)]
  }

  /** The placements the child loop assigns, for the children in list order. */
  function VisitChildren(kids: seq<PsdLayer>, canvas: Size): seq<Placement>
    decreases kids, 0
  {
    if kids == [] then []
    else
      var last := kids[|kids| - 1];
      VisitChildren(kids[..|kids| - 1], canvas) + (if ShouldIgnoreLayer(last.name) then [] else Visit(last, canvas))
  }

  /**
    `updateGameObject`: places the layer, then, for a group not named like
    an image, updates every child whose name does not start with '-', in
    list order, recursively.
   */
  method UpdateGameObject(layer: PsdLayer, canvasSize: Size) returns (log: seq<Placement>)
    ensures log == Visit(layer, canvasSize)
    decreases layer
  {
    log := [Place(layer, canvasSize)];
    match layer.children
    case Null =>
    case Nodes(kids) =>
      if ShouldDigDeeper(layer) {
        for i := 0 to |kids|
          invariant log == [Place(layer, canvasSize)] + VisitChildren(kids[..i], canvasSize)
        {
          var childLayer := kids[i];
          assert kids[..i + 1][..i] == kids[..i];
          if ShouldIgnoreLayer(childLayer.name) {
            assert VisitChildren(kids[..i + 1], canvasSize) == VisitChildren(kids[..i], canvasSize);
            continue;
          }
          var childLog := UpdateGameObject(childLayer, canvasSize);
          assert VisitChildren(kids[..i + 1], canvasSize) == VisitChildren(kids[..i], canvasSize) + childLog;
          log := log + childLog;
        }
        assert kids[..|kids|] == kids;
      }
  }

  /** Every placement a walk assigns after the first belongs to a node that was not ignored. */
  lemma {:induction false} VisitSkipsIgnored(layer: PsdLayer, canvas: Size)
    ensures Visit(layer, canvas)[0].name == layer.name
    ensures forall k :: 1 <= k < |Visit(layer, canvas)| ==> !ShouldIgnoreLayer(Visit(layer, canvas)[k].name)
    decreases layer, 1
  {
    match layer.children
    case Null =>
    case Nodes(kids) =>
      if ShouldDigDeeper(layer) {
        VisitChildrenSkipsIgnored(kids, canvas);
      }
  }

  lemma {:induction false} VisitChildrenSkipsIgnored(kids: seq<PsdLayer>, canvas: Size)
    ensures forall k :: 0 <= k < |VisitChildren(kids, canvas)| ==> !ShouldIgnoreLayer(VisitChildren(kids, canvas)[k].name)
    decreases kids, 0
  {
    if kids != [] {
      var last := kids[|kids| - 1];
      VisitChildrenSkipsIgnored(kids[..|kids| - 1], canvas);
      if !ShouldIgnoreLayer(last.name) {
        VisitSkipsIgnored(last, canvas);
      }
    }
  }

  /** A leaf, or a group named like an image, is placed and nothing below it is visited. */
  lemma VisitStopsAtLeavesAndImages(layer: PsdLayer, canvas: Size)
    requires !IsGroup(layer) || EndsWith(layer.name, PngExtension)
    ensures Visit(layer, canvas) == [Place(layer, canvas)]
  {
  }
}
