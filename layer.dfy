/**
  The parts of the Photoshop file library's `Layer`, `Channel` and
  `PsdFile` classes that the core reads.  Parsing them from the file is not
  part of this model; they are inputs.
 */
module Layers {
  import opened Wrappers
  import opened CSharpInt
  import opened Rectangles
  import opened Colors

  type byte = x: int | 0 <= x < 256

  /** Channel identifier of a layer's user mask. */
  const MaskChannelId: int := -2

  /**
    One channel of a layer: its identifier, its declared byte length, the
    raw bytes read for it (`Data`), the compression tag read from them and
    the decoded plane (`ImageData`), which the mask loader replaces.
   */
  class Channel {
    const id: int
    const length: int
    var data: seq<byte>
    var imageCompression: int
    var imageData: array<byte>

    constructor (id: int, length: int, imageData: array<byte>)
      ensures this.id == id && this.length == length && this.imageData == imageData
      ensures data == [] && imageCompression == 0
    {
      this.id := id;
      this.length := length;
      this.data := [];
      this.imageCompression := 0;
      this.imageData := imageData;
    }
  }

  /**
    A layer record.  `sortedChannels` is the layer's channels keyed by
    identifier, and `depth` is the bit depth of the document it belongs to
    (`Layer.PsdFile.Depth`).  `fontSize` is a float the core only copies;
    `text` and `fontName` are null (`None`) for a layer without text.
   */
  datatype Layer = Layer(
    name: string,
    visible: bool,
    rect: Rectangle,
    isFolder: bool,
    isPixelDataIrrelevant: bool,
    isTextLayer: bool,
    text: Option<string>,
    fontName: Option<string>,
    fontSize: real,
    justification: int,
    fillColor: Color,
    channels: seq<Channel>,
    sortedChannels: map<int, Channel>,
    depth: int)

  /** The document: its size and its layer records in file order (bottom of the stack first). */
  datatype PsdFile = PsdFile(width: Int32, height: Int32, depth: int, layers: seq<Layer>)
}
