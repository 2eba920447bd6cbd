/** Small value types shared by the modules of the drawing page. */
module Common {

  /** A value that may be absent (the page's `undefined`). */
  datatype Option<T> = None | Some(value: T)

  /** One channel of a canvas pixel buffer (a `Uint8ClampedArray` element). */
  newtype byte = x: int | 0 <= x < 256

  /** A point on the canvas in CSS pixels; pointer offsets and overlay positions are JavaScript numbers. */
  datatype Point = Point(x: real, y: real)
}
