/** The per-page state shared by the stages (src/context.h): the grayscale raster
    being read and the panels found on it, each with the dialog placed in it. */
module Page {
  import opened Geometry

  /** One 8-bit grayscale sample. */
  type Byte = v: int | 0 <= v < 256

  /** A single-channel image, one sequence of samples per row: pixel (x, y) is
      rows[y][x], the sample the source reads at data[x + y * width]. */
  datatype Raster = Raster(width: nat, height: nat, rows: seq<seq<Byte>>) {

    predicate Valid() {
      |rows| == height && forall y :: 0 <= y < height ==> |rows[y]| == width
    }

    function Pixel(x: nat, y: nat): Byte
      requires Valid() && x < width && y < height
    {
      rows[y][x]
    }
  }

  /** A speech bubble's text, its speaker (filled in by a later stage) and its box. */
  datatype Bubble = Bubble(contents: string, actor: string, bounds: Rect)

  /** One cell of the panel grid and the dialog placed in it, in reading order. */
  datatype Panel = Panel(bounds: Rect, dialog: seq<Bubble>)

  /** The page being processed; the panel list grows in place. */
  class Context {
    const img: Raster
    var panels: seq<Panel>

    constructor (img: Raster)
      ensures this.img == img && panels == []
    {
      this.img := img;
      panels := [];
    }
  }
}
