/** The browser canvas buffer both the ingestion and the 2D viewer write. */
module Canvas {

  /** An `ImageData`: `width` × `height` pixels of four channels (red, green,
      blue, alpha) in one flat row-major buffer. Channel values are kept as
      reals; the browser's rounding and clamping to bytes is not modelled. */
  class ImageData {
    const width: nat
    const height: nat
    const data: array<real>

    predicate Valid() {
      data.Length == 4 * width * height
    }

    /** `createImageData(width, height)`: every channel starts at 0. */
    constructor (width: nat, height: nat)
      ensures this.width == width && this.height == height
      ensures fresh(data) && Valid()
      ensures forall p :: 0 <= p < data.Length ==> data[p] == 0.0
    {
      this.width := width;
      this.height := height;
      data := new real[4 * width * height](_ => 0.0);
    }
  }
}
