/** The boundary with the whole-frame GIF encoder.

    The controller calls three encoder entry points: one that writes the
    stream header, one that appends a frame, and one that writes the
    trailer. Each call is recorded as an event of a trace; what the encoder
    does with the bytes is not represented, and the success each call
    reports is a free input of the step that makes it.
 */
module Encoder {
  import opened Canvas

  /** Bits per colour the controller always requests. */
  const BitDepth: int := 8

  /** The controller always asks for dithering. */
  const Dither: bool := true

  datatype Event =
    | Begin(file: string, width: int, height: int, delay: int, bitDepth: int, dither: bool)
    | Frame(image: seq<Byte>, width: int, height: int, delay: int, bitDepth: int, dither: bool)
    | End

  /** Number of frame events in a trace. */
  function Frames(t: seq<Event>): nat
    decreases |t|
  {
    if t == [] then 0 else (if t[0].Frame? then 1 else 0) + Frames(t[1..])
  }

  /** Number of header events in a trace. */
  function Headers(t: seq<Event>): nat
    decreases |t|
  {
    if t == [] then 0 else (if t[0].Begin? then 1 else 0) + Headers(t[1..])
  }

  lemma {:induction false} CountsAdd(a: seq<Event>, b: seq<Event>)
    ensures Frames(a + b) == Frames(a) + Frames(b)
    ensures Headers(a + b) == Headers(a) + Headers(b)
    decreases |a|
  {
    if a != [] {
      assert (a + b)[0] == a[0] && (a + b)[1..] == a[1..] + b;
      CountsAdd(a[1..], b);
    } else {
      assert a + b == b;
    }
  }
}
