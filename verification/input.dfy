/** The parts of a WinForms `MouseEventArgs` the canvas reads. */
module Input {
  import opened Geometry

  /** `MouseButtons`: the button that changed state in this event. */
  datatype MouseButton = NoButton | Left | Right | Middle | XButton1 | XButton2

  /** `location` is in screen (control pixel) space; `delta` is the signed
      wheel rotation, meaningful only for wheel events. */
  datatype MouseEvent = MouseEvent(button: MouseButton, location: Point, delta: int)
}
