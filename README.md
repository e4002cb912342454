# UnityPsdUI core, modelled in Dafny

UnityPsdUI turns a layered Photoshop document into Unity UI prefabs.
This project models the deterministic core of that pipeline and proves properties of it:

- **Layer-tree builder** (`PsdReader.createLayersHierarchy`).
  It walks the flat, bottom-up list of layer records backwards with a stack of open groups and builds the tree of `PsdLayer` nodes.
  Its neighbours are the record classifiers (`isLayerGroupBegin`, `isLayerGroupEnd`, `canExtract`, `toPsdLayer`) and the file-selection loop of `extractLayers`.
  Modules `PsdReader` (file `psd_reader.dfy`) and `LayerTree` (file `psd_tree.dfy`).
  `LayerTree` proves that the builder returns, for every well-nested record list, the root whose children are the document's forest in file order at every depth.
- **Mask record parser and mask-plane loader** (`Mask(reader, layer)`, `PositionIsRelative`, `LoadPixelData`).
  The record is the "layer mask / adjustment layer data" block of the Photoshop file format.
  Module `Masks` over the big-endian reader `BinaryReverseReader` and the row decoder `RleHelper`.
- **Plane interleaver** (`BitmapUtility.layerData32argb`).
  It turns single-channel planes into one pixel-interleaved buffer with the rows flipped.
  Module `BitmapUtility` keeps the source's loops over a real `array<byte>`.
  The loops are proved against an independent, index-decoding definition `Interleave`.
- **Layer-name to file-name mapping** (`PsdUtility.imageNameFromLayerName`).
- **Value types**: `Color` (ARGB packing with range checks), and `Rectangle`, `Point` and `Size` (unchecked 32-bit integer geometry).
  Modules `Colors`, `Rectangles` and `Geometry`, with the C# `int` in `CSharpInt`.
- **Layout decisions of `PsdLayout`**:
  - which node the prefab walk starts from;
  - which children it enters and which it skips;
  - font-name matching;
  - the integer placement arithmetic of `updateGameObject`.

Conventions:
- C# `int` arithmetic is unchecked, so it wraps around.
  It is written out with `CSharpInt.Wrap`, and C#'s truncating `/` as `CSharpInt.Quot`.
- Structs are values.
  An instance member that mutates a struct (`Offset`, `Inflate`, `Intersect`, the property setters) is a function returning the struct's new value.
- `Mask`, `Channel` and the reader are classes whose fields the methods update.
- Exceptions become `Failure` values of a `Result`:
  - `ArgumentException` from `Color.FromArgb`;
  - `EndOfStreamException`, and `ArgumentOutOfRangeException` for a negative count, from the reader;
  - the overflow of a negative array size;
  - `IndexOutOfRangeException` in the interleaver;
  - `InvalidOperationException` from `Stack.Peek` on an empty stack.

## Model

All paths are under `Assets/Scripts/Editor/PsdUI/`; the table writes them in full.

| member | source | states |
|---|---|---|
| PsdUtility.ImageNameFromLayerName | Assets/Scripts/Editor/PsdUI/PsdUtility.cs:5-12 | the file name always ends in ".png"; the part before it is a prefix of the layer name, contains no ':', and stops either at the end of the name or at a ':' |
| PsdUtility.NameWithoutColon | Assets/Scripts/Editor/PsdUI/PsdUtility.cs:7-11 | a name without ':' maps to the name followed by ".png" |
| PsdUtility.NameCutAtFirstColon | Assets/Scripts/Editor/PsdUI/PsdUtility.cs:7-10 | when the first ':' is at index k, the name maps to its first k characters followed by ".png" |
| PsdUtility.SameStemSameFile | Assets/Scripts/Editor/PsdUI/PsdUtility.cs:7-11 | two layer names that agree up to their first ':' (e.g. "button" and "button:hover") get the same image file |
| Strings.IndexOf | Assets/Scripts/Editor/PsdUI/PsdUtility.cs:7 | `IndexOf(char)` returns -1 exactly when the character is absent; otherwise it returns the index of its first occurrence |
| Strings.RemoveSpaces | Assets/Scripts/Editor/PsdUI/PsdLayout.cs:148 | `Replace(" ", "")` leaves no space, is no longer than its input, and keeps every other character as often as it occurs |
| Strings.RemoveSpacesConcat | Assets/Scripts/Editor/PsdUI/PsdLayout.cs:148 | removing the spaces of a + b gives the result for a followed by the result for b, so the kept characters keep their order |
| Strings.RemoveSpacesNoSpace | Assets/Scripts/Editor/PsdUI/PsdLayout.cs:148 | a string without spaces is returned unchanged |
| Strings.ContainsAt | Assets/Scripts/Editor/PsdUI/PsdLayout.cs:149 | `Contains` holds exactly when the needle occurs at some offset of the string |
| Strings.ContainsTrivial | Assets/Scripts/Editor/PsdUI/PsdLayout.cs:149 | every string contains the empty string and itself |
| PsdReader.Reverse | Assets/Scripts/Editor/PsdUI/PsdReader.cs:95-96 | `List.Reverse` keeps the length and puts element i at position n-1-i |
| PsdReader.ReverseReverse | Assets/Scripts/Editor/PsdUI/PsdReader.cs:103 | reversing twice gives back the list, which is why children reversed at pop and again at the end come out in file order |
| PsdReader.ReverseConcat | Assets/Scripts/Editor/PsdUI/PsdReader.cs:95-96 | the reverse of a concatenation is the concatenation of the reverses, swapped |
| PsdReader.GroupEndByPosition | Assets/Scripts/Editor/PsdUI/PsdReader.cs:154-159 | a record ends a group iff "</Layer set>" or "</Layer group>" occurs in its name, or its name is " copy" and its rect height is 0 |
| PsdReader.ToPsdLayer | Assets/Scripts/Editor/PsdUI/PsdReader.cs:129-145 | a leaf record becomes a node without a child list, whose size and position are the record rect's width/height and x/y |
| PsdReader.CreateLayersHierarchy | Assets/Scripts/Editor/PsdUI/PsdReader.cs:83-127 | the loop over the reversed records (push for a folder, reverse-and-pop for an end marker, append a leaf otherwise, throw on `Peek` of an empty stack) returns exactly `Build`, the fold of one `Step` per record |
| PsdReader.RunSnoc | Assets/Scripts/Editor/PsdUI/PsdReader.cs:98-122 | processing one more record is one more `Step` on the state reached so far |
| PsdReader.RunConcat | Assets/Scripts/Editor/PsdUI/PsdReader.cs:98-122 | processing a + b is processing a and then b from the state a leaves |
| PsdReader.RunFailed | Assets/Scripts/Editor/PsdUI/PsdReader.cs:100 | once `Peek` has thrown, no later record changes the outcome |
| PsdReader.StepKeepsRoot | Assets/Scripts/Editor/PsdUI/PsdReader.cs:98-122 | no step changes any field of the root except its children |
| PsdReader.RunKeepsRoot | Assets/Scripts/Editor/PsdUI/PsdReader.cs:98-122 | no sequence of steps changes any field of the root except its children |
| PsdReader.CollapseKeepsRoot | Assets/Scripts/Editor/PsdUI/PsdReader.cs:124 | attaching the groups still open at the end leaves the root's own fields alone |
| PsdReader.BuildRoot | Assets/Scripts/Editor/PsdUI/PsdReader.cs:85-93 | a successful build returns the synthetic root: named after the file, sized like the document, at the origin, not visible, with a child list |
| PsdReader.StackDepth | Assets/Scripts/Editor/PsdUI/PsdReader.cs:102-117 | while no prefix closes more groups than it opened, the stack holds the root plus one node per open group (nesting depth is bracket depth) |
| PsdReader.FirstUnmatchedEnd | Assets/Scripts/Editor/PsdUI/PsdReader.cs:102-105 | the first record that closes more groups than were opened pops the root |
| PsdReader.ClosedRootFails | Assets/Scripts/Editor/PsdUI/PsdReader.cs:100 | after the root is popped, any further record makes `Peek` throw |
| PsdReader.UnmatchedEndFails | Assets/Scripts/Editor/PsdUI/PsdReader.cs:98-105 | an unmatched group end followed by any record makes the whole build throw |
| PsdReader.EndTakesPrecedence | Assets/Scripts/Editor/PsdUI/PsdReader.cs:102-106 | a record that is both an end marker and a folder is handled as an end marker |
| PsdReader.ExtractedNoDuplicates | Assets/Scripts/Editor/PsdUI/PsdReader.cs:68-77 | the list of extracted file names never holds a name twice |
| PsdReader.ExtractedSound | Assets/Scripts/Editor/PsdUI/PsdReader.cs:64-77 | every listed file comes from a layer that is not a group marker and passes `canExtract` (not pixel-irrelevant, exactly 4 channels, not text) |
| PsdReader.ExtractedComplete | Assets/Scripts/Editor/PsdUI/PsdReader.cs:64-77 | every such layer has its file name listed (the first layer with that name wrote it) |
| PsdReader.ExtractLayers | Assets/Scripts/Editor/PsdUI/PsdReader.cs:54-81 | returns an empty list and writes nothing when channel data was not read; on success returns `Extracted` (the dedup rule) and makes exactly one bitmap write per listed name, in order; it fails only if some extractable layer has a plane too small for its rect |
| LayerTree.ReverseEncode | Assets/Scripts/Editor/PsdUI/PsdReader.cs:95-96 | reversing a subtree's bottom-up records gives the order the builder meets them: folder, children, end marker |
| LayerTree.ReverseEncodeAll | Assets/Scripts/Editor/PsdUI/PsdReader.cs:95-96 | the same for a forest of subtrees |
| LayerTree.ExtendTwice | Assets/Scripts/Editor/PsdUI/PsdReader.cs:113 | appending xs and then ys to the current group is appending xs + ys |
| LayerTree.StepLeaf | Assets/Scripts/Editor/PsdUI/PsdReader.cs:120-121 | a leaf record appends its node to the current group and changes nothing else |
| LayerTree.StepBegin | Assets/Scripts/Editor/PsdUI/PsdReader.cs:106-116 | a folder record pushes a new empty group |
| LayerTree.StepEnd | Assets/Scripts/Editor/PsdUI/PsdReader.cs:102-105 | an end marker closes the top group, with its children reversed, into its parent |
| LayerTree.CloseGroup | Assets/Scripts/Editor/PsdUI/PsdReader.cs:103 | a group whose children arrived in reverse order closes into the node with its children in file order |
| LayerTree.RunProc | Assets/Scripts/Editor/PsdUI/PsdReader.cs:98-122 | processing one well-nested subtree appends exactly that subtree's node to the current group |
| LayerTree.RunProcAll | Assets/Scripts/Editor/PsdUI/PsdReader.cs:98-122 | processing a well-nested forest appends its nodes, in reverse file order, to the current group |
| LayerTree.BuildWellNested | Assets/Scripts/Editor/PsdUI/PsdReader.cs:83-127 | for records that encode a well-nested forest, the build succeeds and the root's children are that forest's nodes in file order, each group holding its own children in file order |
| PsdLayout.SkipFirstLayerIsGroup | Assets/Scripts/Editor/PsdUI/PsdLayout.cs:20-27 | the walk starts from a group; it is the root's only child exactly when that child is a group and the root has no other child, otherwise the root itself |
| PsdLayout.ImageNamedNodeNotEntered | Assets/Scripts/Editor/PsdUI/PsdLayout.cs:85-88 | a node named like an extracted image file (ending in ".png") is never entered |
| PsdLayout.IgnoredIffDash | Assets/Scripts/Editor/PsdUI/PsdLayout.cs:124-127 | a layer is ignored iff its name is non-empty and starts with '-' |
| PsdLayout.IsFontLike | Assets/Scripts/Editor/PsdUI/PsdLayout.cs:145-155 | the scan with early return answers true iff some font name, spaces removed, contains the query |
| PsdLayout.FontLikeEdgeCases | Assets/Scripts/Editor/PsdUI/PsdLayout.cs:145-155 | no font matches in an empty list, and the empty query matches iff the list is non-empty |
| PsdLayout.NoSpaceNoContains | Assets/Scripts/Editor/PsdUI/PsdLayout.cs:148-149 | a string without spaces never contains a string with one |
| PsdLayout.SpacedQueryNeverMatches | Assets/Scripts/Editor/PsdUI/PsdLayout.cs:145-155 | a query containing a space matches no font, because the names it is compared with have had their spaces removed |
| PsdLayout.PlaceExact | Assets/Scripts/Editor/PsdUI/PsdLayout.cs:179-185 | away from the 32-bit limits the centre is (x - W/2 + w/2, H - (y + H/2) - h/2), with truncating division |
| PsdLayout.PlaceTranslates | Assets/Scripts/Editor/PsdUI/PsdLayout.cs:179-185 | moving a layer by (dx, dy) in image coordinates moves its centre by dx and by -dy (the y axis is flipped) |
| PsdLayout.FullCanvasCentred | Assets/Scripts/Editor/PsdUI/PsdLayout.cs:179-185 | a layer covering the whole canvas is centred at x = 0 and at y = H mod 2 (one row off for an odd height) |
| PsdLayout.UpdateGameObject | Assets/Scripts/Editor/PsdUI/PsdLayout.cs:175-220 | the recursive walk assigns exactly the placements `Visit` lists: the node first, then, for a group not named like an image, each non-ignored child's walk in list order |
| PsdLayout.VisitSkipsIgnored | Assets/Scripts/Editor/PsdUI/PsdLayout.cs:189-191 | the walk places the node first, and no later placement is for a node whose name starts with '-' |
| PsdLayout.VisitChildrenSkipsIgnored | Assets/Scripts/Editor/PsdUI/PsdLayout.cs:190-191 | the child loop places no node whose name starts with '-' |
| PsdLayout.VisitStopsAtLeavesAndImages | Assets/Scripts/Editor/PsdUI/PsdLayout.cs:189 | a leaf, or a group named like an image, is placed and nothing below it is visited |
| Colors.FromArgb | Assets/Scripts/Editor/PsdUI/PsdFile/Auxiliary/Color.cs:79-112 | succeeds iff all four components are in 0..255, and then A, R, G, B read back the arguments and the state is ARGB; otherwise reports the first bad component in the order alpha, red, green, blue |
| Colors.PackUnpack | Assets/Scripts/Editor/PsdUI/PsdFile/Auxiliary/Color.cs:19-65 | the byte getters recover the components packed by `(a << 24) + (r << 16) + (g << 8) + b`, including alphas of 128 and above whose packed int is negative |
| Colors.UnpackPack | Assets/Scripts/Editor/PsdUI/PsdFile/Auxiliary/Color.cs:119-122 | packing the four bytes of any int gives that int back |
| Colors.FromArgbWord | Assets/Scripts/Editor/PsdUI/PsdFile/Auxiliary/Color.cs:119-122 | `FromArgb(int)` never fails; its colour has state ARGB and components equal to the word's four bytes |
| Colors.FromArgbWordValue | Assets/Scripts/Editor/PsdUI/PsdFile/Auxiliary/Color.cs:119-122 | `FromArgb(argb)` stores argb itself, and `ToArgb` returns it |
| Colors.ToArgbRoundTrip | Assets/Scripts/Editor/PsdUI/PsdFile/Auxiliary/Color.cs:198-201 | `FromArgb(c.ToArgb()) == c` for every colour `FromArgb` builds |
| Colors.FromRgbIsOpaque | Assets/Scripts/Editor/PsdUI/PsdFile/Auxiliary/Color.cs:114-117 | the three-argument `FromArgb` gives alpha 255 and the given R, G, B |
| Colors.FromAlphaKeepsRgb | Assets/Scripts/Editor/PsdUI/PsdFile/Auxiliary/Color.cs:124-127 | `FromArgb(alpha, base)` keeps base's R, G, B and sets A |
| Colors.BuiltColorState | Assets/Scripts/Editor/PsdUI/PsdFile/Auxiliary/Color.cs:37-59 | built colours are not empty, known, named or system; `Color.Empty` is empty |
| Colors.BuiltColorEquality | Assets/Scripts/Editor/PsdUI/PsdFile/Auxiliary/Color.cs:219-225 | between built colours `==` holds iff all four components agree (iff the values are identical), and `!=` is its negation |
| Colors.BuiltIsNotEmpty | Assets/Scripts/Editor/PsdUI/PsdFile/Auxiliary/Color.cs:219-221 | no built colour equals `Color.Empty`, not even transparent black |
| Geometry.PointFromPacked | Assets/Scripts/Editor/PsdUI/PsdFile/Auxiliary/Point.cs:57-61 | X is in 0..65535, Y in -32768..32767, and Y * 65536 + X is the packed word |
| Geometry.PackedIsInjective | Assets/Scripts/Editor/PsdUI/PsdFile/Auxiliary/Point.cs:57-61 | different packed words give different points |
| Geometry.PointIsEmptyIsDefault | Assets/Scripts/Editor/PsdUI/PsdFile/Auxiliary/Point.cs:18-22 | `IsEmpty` holds exactly of `Point.Empty` |
| Geometry.SizeIsEmptyIsDefault | Assets/Scripts/Editor/PsdUI/PsdFile/Auxiliary/Size.cs:24-28 | `IsEmpty` holds exactly of `Size.Empty` |
| Geometry.PointEqualityOperators | Assets/Scripts/Editor/PsdUI/PsdFile/Auxiliary/Point.cs:112-122 | `==` is value equality and the separately written `!=` is its negation |
| Geometry.SizeEqualityOperators | Assets/Scripts/Editor/PsdUI/PsdFile/Auxiliary/Size.cs:92-102 | `==` is value equality and the separately written `!=` is its negation |
| Geometry.SubtractUndoesAdd | Assets/Scripts/Editor/PsdUI/PsdFile/Auxiliary/Point.cs:66-74 | `Subtract(Add(p, s), s) == p`, even when the addition wraps |
| Geometry.AddUndoesSubtract | Assets/Scripts/Editor/PsdUI/PsdFile/Auxiliary/Point.cs:66-74 | `Add(Subtract(p, s), s) == p` |
| Geometry.SizeSubtractUndoesAdd | Assets/Scripts/Editor/PsdUI/PsdFile/Auxiliary/Size.cs:57-65 | `Subtract(Add(a, b), b) == a` |
| Geometry.SizeAddCommutes | Assets/Scripts/Editor/PsdUI/PsdFile/Auxiliary/Size.cs:57-60 | size addition is commutative |
| Geometry.OffsetIsAdd | Assets/Scripts/Editor/PsdUI/PsdFile/Auxiliary/Point.cs:89-98 | `Offset(p)` equals `Offset(p.X, p.Y)`, which is adding p read as a size |
| Geometry.OffsetComposes | Assets/Scripts/Editor/PsdUI/PsdFile/Auxiliary/Point.cs:94-98 | offsetting twice is offsetting once by the wrapped sum |
| Geometry.PointSizeRoundTrip | Assets/Scripts/Editor/PsdUI/PsdFile/Auxiliary/Point.cs:51-55 | the Point/Size constructors and explicit conversions are inverse to each other in both directions |
| Rectangles.Rectangle.WithLocation | Assets/Scripts/Editor/PsdUI/PsdFile/Auxiliary/Rectangle.cs:47-55 | the `Location` setter changes the location and keeps the size |
| Rectangles.Rectangle.WithSize | Assets/Scripts/Editor/PsdUI/PsdFile/Auxiliary/Rectangle.cs:63-71 | the `Size` setter changes the size and keeps the location |
| Rectangles.Rectangle.Offset | Assets/Scripts/Editor/PsdUI/PsdFile/Auxiliary/Rectangle.cs:210-214 | `Offset` keeps the size and offsets the location as `Point.Offset` does |
| Rectangles.Rectangle.OffsetBy | Assets/Scripts/Editor/PsdUI/PsdFile/Auxiliary/Rectangle.cs:216-220 | the separately written `Offset(Point)` agrees with `Offset(int, int)` |
| Rectangles.FromLocationSize | Assets/Scripts/Editor/PsdUI/PsdFile/Auxiliary/Rectangle.cs:117-123 | the rectangle built from a location and a size has that location and that size |
| Rectangles.FromLTRBEdges | Assets/Scripts/Editor/PsdUI/PsdFile/Auxiliary/Rectangle.cs:129-132 | `FromLTRB(l, t, r, b)` has Left l, Top t, Right r and Bottom b, even when `r - l` wraps |
| Rectangles.FromOwnEdges | Assets/Scripts/Editor/PsdUI/PsdFile/Auxiliary/Rectangle.cs:129-132 | every rectangle is rebuilt exactly by `FromLTRB` from its own edges |
| Rectangles.IsEmptyIsDefault | Assets/Scripts/Editor/PsdUI/PsdFile/Auxiliary/Rectangle.cs:35-39 | `IsEmpty` holds exactly of `Rectangle.Empty` |
| Rectangles.EqualityOperators | Assets/Scripts/Editor/PsdUI/PsdFile/Auxiliary/Rectangle.cs:235-241 | `==` (same location and size) is value equality, and `!=` is its negation |
| Rectangles.EmptyContainsNothing | Assets/Scripts/Editor/PsdUI/PsdFile/Auxiliary/Rectangle.cs:167-170 | with right and bottom exclusive, the empty rectangle contains no point |
| Rectangles.IntersectEdges | Assets/Scripts/Editor/PsdUI/PsdFile/Auxiliary/Rectangle.cs:141-147 | `Intersect` is Empty unless the rectangles meet inclusively; otherwise its edges are the inner edges of the two |
| Rectangles.IntersectContains | Assets/Scripts/Editor/PsdUI/PsdFile/Auxiliary/Rectangle.cs:141-147 | a point is in the intersection iff it is in both rectangles |
| Rectangles.IntersectTouching | Assets/Scripts/Editor/PsdUI/PsdFile/Auxiliary/Rectangle.cs:205-208 | two unit squares that share an edge intersect in a zero-width strip, not in Empty, although `IntersectsWith` says they do not intersect |
| Rectangles.IntersectsWithSymmetric | Assets/Scripts/Editor/PsdUI/PsdFile/Auxiliary/Rectangle.cs:200-203 | `IntersectsWith` is symmetric and implies the inclusive test |
| Rectangles.CommonPointIntersects | Assets/Scripts/Editor/PsdUI/PsdFile/Auxiliary/Rectangle.cs:200-203 | rectangles that share a point intersect strictly |
| Rectangles.UnionEdges | Assets/Scripts/Editor/PsdUI/PsdFile/Auxiliary/Rectangle.cs:149-152 | `Union`'s edges are the outer edges of the two |
| Rectangles.UnionContains | Assets/Scripts/Editor/PsdUI/PsdFile/Auxiliary/Rectangle.cs:149-152 | `Union` contains every point of either argument |
| Rectangles.ContainsRectContainsPoints | Assets/Scripts/Editor/PsdUI/PsdFile/Auxiliary/Rectangle.cs:162-165 | if `Contains(rect)` holds, every point of rect is in the outer rectangle |
| Rectangles.InflateEdges | Assets/Scripts/Editor/PsdUI/PsdFile/Auxiliary/Rectangle.cs:182-193 | `Inflate(w, h)` moves left and top out by w and h, and right and bottom out by w and h |
| Rectangles.InflateUndone | Assets/Scripts/Editor/PsdUI/PsdFile/Auxiliary/Rectangle.cs:182-193 | inflating by the negated amounts undoes an inflation, under 32-bit wrap-around |
| Rectangles.InflateCopyIsInflate | Assets/Scripts/Editor/PsdUI/PsdFile/Auxiliary/Rectangle.cs:134-139 | the static `Inflate` returns the inflated copy and leaves its argument as it was |
| Rectangles.OffsetUndone | Assets/Scripts/Editor/PsdUI/PsdFile/Auxiliary/Rectangle.cs:210-214 | offsetting by the negated amounts undoes an offset |
| BinaryReverseReader.Int16At | Assets/Scripts/Editor/PsdUI/PsdFile/Layers/Mask.cs:110 | a big-endian 16-bit read lies in -32768..32767 |
| BinaryReverseReader.Int32RoundTrip | Assets/Scripts/Editor/PsdUI/PsdFile/Layers/Mask.cs:42-45 | reading back the big-endian bytes of an int gives the int |
| BinaryReverseReader.Available | Assets/Scripts/Editor/PsdUI/PsdFile/Layers/Mask.cs:107 | `ReadBytes(count)` returns at most count bytes, and exactly the next count when that many remain |
| BinaryReverseReader.Reader.ReadUInt32 | Assets/Scripts/Editor/PsdUI/PsdFile/Layers/Mask.cs:34 | with 4 bytes left, returns their big-endian value and advances 4; otherwise throws end-of-stream after draining the stream |
| BinaryReverseReader.Reader.ReadInt32 | Assets/Scripts/Editor/PsdUI/PsdFile/Layers/Mask.cs:42-45 | the same for a signed 32-bit int |
| BinaryReverseReader.Reader.ReadByte | Assets/Scripts/Editor/PsdUI/PsdFile/Layers/Mask.cs:46-47 | the same for one byte |
| BinaryReverseReader.Reader.ReadInt16 | Assets/Scripts/Editor/PsdUI/PsdFile/Layers/Mask.cs:110 | the same for a signed 16-bit int |
| BinaryReverseReader.Reader.ReadBytes | Assets/Scripts/Editor/PsdUI/PsdFile/Layers/Mask.cs:107 | throws for a negative count without moving; otherwise returns the available bytes and advances past them |
| BinaryReverseReader.Reader.ReadInto | Assets/Scripts/Editor/PsdUI/PsdFile/Layers/Mask.cs:135 | copies the available bytes, up to count, to the front of the buffer, leaves the rest of the buffer alone and advances past them |
| BinaryReverseReader.Reader.Seek | Assets/Scripts/Editor/PsdUI/PsdFile/Layers/Mask.cs:58 | setting the stream position moves the cursor there |
| RleHelper.DecodedRow | Assets/Scripts/Editor/PsdUI/PsdFile/Layers/Mask.cs:147 | decoding one row writes only the `columns` bytes from startIdx on, and never moves the stream backwards |
| Masks.EmptyRecord | Assets/Scripts/Editor/PsdUI/PsdFile/Layers/Mask.cs:34-38 | a zero length means no mask: only the 4-byte length is consumed and the rectangle stays empty |
| Masks.RecordEnd | Assets/Scripts/Editor/PsdUI/PsdFile/Layers/Mask.cs:40-58 | after a record, the cursor is just past the length field plus the length, whether or not the legacy fields were read |
| Masks.RecordEdges | Assets/Scripts/Editor/PsdUI/PsdFile/Layers/Mask.cs:41-45 | the rectangle is read as top, left, bottom, right: its Top and Left are the first two ints, and its Bottom and Right give back the other two |
| Masks.RecordFailure | Assets/Scripts/Editor/PsdUI/PsdFile/Layers/Mask.cs:34-56 | the parser throws exactly when the stream ends inside the length, the fixed part, or (for length 36) the legacy part |
| Masks.RelativeIsLowBit | Assets/Scripts/Editor/PsdUI/PsdFile/Layers/Mask.cs:77-80 | `PositionIsRelative` is bit 0 of the flag byte |
| Masks.ReadFixedPart | Assets/Scripts/Editor/PsdUI/PsdFile/Layers/Mask.cs:41-47 | the four int reads and two byte reads succeed iff 18 bytes remain, and then yield `FixedPart` and leave the cursor after it |
| Masks.SkipLegacyPart | Assets/Scripts/Editor/PsdUI/PsdFile/Layers/Mask.cs:48-56 | the legacy reads succeed iff 18 bytes remain, and otherwise throw end-of-stream |
| Masks.Mask.constructor | Assets/Scripts/Editor/PsdUI/PsdFile/Layers/Mask.cs:19 | a new mask has the empty rectangle, zero flags and colour, and no image data |
| Masks.Mask.Read | Assets/Scripts/Editor/PsdUI/PsdFile/Layers/Mask.cs:31-59 | the constructor succeeds iff `ParseRecord` does, stores its rectangle, colour and flags, and leaves the cursor at the record's end |
| Masks.Mask.LoadPixelData | Assets/Scripts/Editor/PsdUI/PsdFile/Layers/Mask.cs:99-155 | may change only the mask, the reader and channel -2; with an empty rect or no channel -2 nothing is read or changed; otherwise the channel is read and decoded as `LoadChannel` states (including when the load must succeed), and on success `ImageData` becomes a distinct copy equal to the channel's plane |
| Masks.LoadChannel | Assets/Scripts/Editor/PsdUI/PsdFile/Layers/Mask.cs:106-153 | reads `Length` bytes (failing exactly when the length is negative, and failing when fewer than 2 bytes arrive) and takes the compression tag from their first two; the load fails when the 32-bit size `Height * columns` is negative; past those steps a raw or unknown tag always succeeds, and a run-length load fails only for a negative Height, a missing row length, or a row-decoding error; on success the plane is decoded as `DecodedPlane` states and the final copy is distinct and equal |
| Masks.NewFilledPlane | Assets/Scripts/Editor/PsdUI/PsdFile/Layers/Mask.cs:125-129 | the fresh plane has the requested size and every byte is 171 |
| Masks.Clone | Assets/Scripts/Editor/PsdUI/PsdFile/Layers/Mask.cs:131 | `Clone` returns a fresh array with the same contents |
| Masks.RawPlane | Assets/Scripts/Editor/PsdUI/PsdFile/Layers/Mask.cs:134-136 | a raw load puts the bytes after the tag, up to the plane's size, at its front and leaves 171 in the rest |
| Masks.DecodePlane | Assets/Scripts/Editor/PsdUI/PsdFile/Layers/Mask.cs:132-151 | Raw copies the raw bytes and succeeds; RLE reads the row table and only changes bytes inside row windows, failing when Height is negative and otherwise only for a missing row length or a row-decoding error; any other tag succeeds and leaves the 171 fill untouched |
| Masks.ReadRows | Assets/Scripts/Editor/PsdUI/PsdFile/Layers/Mask.cs:137-150 | the RLE branch succeeds only when Height 16-bit row lengths are present, fails only at the end of the stream inside that table or on a row-decoding error, and changes no byte outside the windows of width `columns` starting at `row * Width` |
| Masks.RowsTilePlane | Assets/Scripts/Editor/PsdUI/PsdFile/Layers/Mask.cs:144-148 | at depth 1 and 8 the row windows cover exactly the plane's Height * Width bytes |
| Masks.Depth16TailUndecoded | Assets/Scripts/Editor/PsdUI/PsdFile/Layers/Mask.cs:120-148 | at depth 16 the rows start Width apart but are 2 * Width long, so no row reaches the bytes from (Height + 1) * Width on |
| Masks.Depth16TailExists | Assets/Scripts/Editor/PsdUI/PsdFile/Layers/Mask.cs:120-125 | with two or more rows that unreached tail of the 2 * Height * Width plane is not empty, so it keeps the 171 fill |
| BitmapUtility.LayerData32Argb | Assets/Scripts/Editor/PsdUI/BitmapUtility.cs:7-40 | succeeds iff every plane holds at least Width * Height bytes, and then returns `Interleave`, the buffer defined index by index by decoding each output index |
| BitmapUtility.TotalSize | Assets/Scripts/Editor/PsdUI/BitmapUtility.cs:16-19 | the accumulator loop yields the sum of the plane lengths |
| BitmapUtility.CopyRows | Assets/Scripts/Editor/PsdUI/BitmapUtility.cs:25-37 | the row loop completes iff the planes are large enough, then leaves `Interleave` in the buffer, and never changes the planes |
| BitmapUtility.CopyRow | Assets/Scripts/Editor/PsdUI/BitmapUtility.cs:28-36 | one row's loop either writes that row's bytes or stops because an access is out of range, which happens only when a plane is too small |
| BitmapUtility.CopyPixel | Assets/Scripts/Editor/PsdUI/BitmapUtility.cs:29-35 | one pixel's channel loop either writes the pixel's bytes or stops because an access is out of range, which happens only when a plane is too small |
| BitmapUtility.InterleaveAt | Assets/Scripts/Editor/PsdUI/BitmapUtility.cs:31-34 | output[(H-1-y)·W·C + x·C + i] = plane i[y·W + x] for every y < H, x < W, i < C |
| BitmapUtility.RowsFlipped | Assets/Scripts/Editor/PsdUI/BitmapUtility.cs:26 | output row 0 holds input row H-1 |
| BitmapUtility.NoMixing | Assets/Scripts/Editor/PsdUI/BitmapUtility.cs:29-34 | byte k of the covered output comes from plane k mod C: no channel's data lands in another channel's byte |
| BitmapUtility.AddressInjective | Assets/Scripts/Editor/PsdUI/BitmapUtility.cs:31 | distinct (y, x, i) write distinct output indices |
| BitmapUtility.AddressOfDecode | Assets/Scripts/Editor/PsdUI/BitmapUtility.cs:31 | every index of the W·H·C covered bytes is the address of the (y, x, i) it decodes to |
| BitmapUtility.ExactPlanesWrittenOnce | Assets/Scripts/Editor/PsdUI/BitmapUtility.cs:16-37 | if every plane has exactly W·H bytes, the output has W·H·C bytes, every access is in bounds, and every output index is written |
| BitmapUtility.InBoundsIffLargeEnough | Assets/Scripts/Editor/PsdUI/BitmapUtility.cs:25-37 | every read and write of the loops is in bounds iff every plane holds at least W·H bytes |
| BitmapUtility.TotalOfEqualPlanes | Assets/Scripts/Editor/PsdUI/BitmapUtility.cs:16-19 | C planes of n bytes each total C·n bytes |
| CSharpInt.Quot | Assets/Scripts/Editor/PsdUI/PsdLayout.cs:179-185 | C#'s int division by a positive divisor: the remainder `a - q * b` is smaller than b in magnitude and has the sign of a (truncation toward zero), and the quotient of an int is an int |

## Left out

- `PsdFile`, `Layer`, `Channel` and their parsing from the file are not part of this model. A layer record, a channel and a document are inputs with the fields the core reads (`Layers.Layer`, `Layers.Channel`, `Layers.PsdFile`).
- The source of `RleHelper` is not part of this model.
- RleHelper.DecodedRow: the body is a PackBits decoder (section 9 of TIFF 6.0), but the contract claims only the frame. It writes inside its row window and moves the stream forward; the decoded bytes are not claimed.
- Masks.ReadRows and Masks.DecodePlane: for run-length data they state only the bytes outside the row windows (they keep the fill), because of the RleHelper.DecodedRow gap above.
- CSharpInt.Quot: only positive divisors are modelled, because every division in the modelled code is by 2. C#'s division by a negative divisor, and the overflow of `int.MinValue / -1`, are outside the model.
- Masks.ReadRows: the row lengths read into `nums` are unused by the source too, and are not stated.
- Masks.Mask.LoadPixelData: when decoding fails after the first copy, `ImageData` holds that first copy (all 171). The contract does not state it.
- Masks.SkipLegacyPart: it does not state the cursor after the legacy reads, because the final seek discards it.
- BitmapUtility.LayerData32Argb: the addresses `(height - 1 - y) * width * channelCount + x * channelCount + i` and `y * width + x`, and the size accumulator, are taken as mathematical integers. They are not wrapped to 32 bits, so documents large enough to overflow an `int` are outside the model.
- BitmapUtility.LayerData32Argb: the source's exception leaves a partly written buffer that nobody sees. The model returns only the failure.
- PsdReader.ExtractLayers: Directory creation is left out. `writeBitmapFile`, which encodes a PNG through Unity and writes the file, is recorded as an `Extraction` value (file name, size and pixels) instead of being performed. Its contract states the file names of the writes and not their pixel data.
- PsdReader.ExtractLayers: on failure it states that some extractable layer has a plane too small, not that it is the first such layer whose file name was new.
- `Path.Combine` is a function parameter of `ExtractLayers`. `Path.GetFileNameWithoutExtension(psdFileName)` is the `rootName` parameter of the builder.
- PsdReader.CreateLayersHierarchy: in the source a group node is appended to its parent when opened and filled through the reference kept on the stack. The model appends the finished group when it is popped, and `Collapse` appends groups still open at the end. Because the parent receives nothing else while a group is open, the resulting tree is the same. Sharing of node objects (aliasing) is not modelled.
- PsdLayout.SkipFirstLayer requires a node with a child list. The only caller passes the root, which always has one (`PsdReader.BuildRoot`); on a leaf the source would dereference null.
- The Unity parts of `PsdLayout` are not modelled, because they are editor and asset-database calls:
  - `createOrUpdatePrefab`;
  - `createImageFromFile`;
  - `createText`;
  - `findFontByName` (directory listing and font loading);
  - `cleanLayerName` and `FindChild`;
  - GameObject creation and parenting.
  A walk of `updateGameObject` is recorded as the list of placements it assigns.
- Floating point is not modelled: `fontSize` is copied as a real, and `toFloat`, `convertColorToUnity` and the `Vector2`/`Vector3` conversions of the placement are left out. The placement is stated in the ints the source computes before converting.
- `Color.GetHue`, `GetSaturation` and `GetBrightness` (floating point), the `ToString` and `GetHashCode` methods, and `Equals(object)` (a type test before `==`) are left out.
- `Color`'s `Value` is kept as the int the packing produces. The source stores it in a `long`, but only ever assigns an `int` to it.
- String comparisons are ordinal (character by character). Culture-sensitive comparison is not modelled.
- `BitmapUtility.createTexture` and `writeBitmapFile` (Unity textures and PNG encoding), and the importer and inspector editor code, are outside the modelled core.
