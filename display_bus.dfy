/**
 * The display as the scanline compositor sees it: a bus that accepts
 * transactions made of a write window and a stream of RGB565 pixels.
 * The panel records every call it receives as an event, so that what the
 * compositor sends can be compared with a specification.
 */
module DisplayBus {

  /** One call on the display: startWrite, setAddrWindow, writePixels, endWrite. */
  datatype Event =
    | Start
    | AddrWindow(x: int, y: int, w: int, h: int)
    | Pixels(colors: seq<bv16>)
    | End

  datatype Option<T> = None | Some(value: T)

  /** One bracketed write: a window at (x, y) of size w by h and the colours streamed into it. */
  datatype Write = Write(x: int, y: int, w: int, h: int, colors: seq<bv16>)

  /** The four calls that make up one write, in the order the bus requires. */
  function Bracket(wr: Write): (es: seq<Event>)
  {
    [Start, AddrWindow(wr.x, wr.y, wr.w, wr.h), Pixels(wr.colors), End]
  }

  /** The events of a sequence of writes, each bracketed in turn. */
  function Emit(ws: seq<Write>): (es: seq<Event>)
  {
    if ws == [] then [] else Bracket(ws[0]) + Emit(ws[1..])
  }

  /** Reads a trace back into the writes it is made of; None if it is not a sequence of bracketed writes. */
  function Parse(es: seq<Event>): (r: Option<seq<Write>>)
    ensures r.Some? ==> |es| == 4 * |r.value|
    decreases |es|
  {
    if es == [] then Some([])
    else if |es| < 4 then None
    else match (es[0], es[1], es[2], es[3])
      case (Start, AddrWindow(x, y, w, h), Pixels(cs), End) =>
        (match Parse(es[4..])
         case Some(rest) => Some([Write(x, y, w, h, cs)] + rest)
         case None => None)
      case _ => None
  }

  /**
   * Every trace the compositor can produce is a well-bracketed sequence of
   * writes, and the writes can be read back from it exactly: each one is
   * startWrite, setAddrWindow, writePixels, endWrite, and nothing is interleaved.
   */
  lemma {:induction false} ParseEmit(ws: seq<Write>)
    ensures Parse(Emit(ws)) == Some(ws)
    decreases |ws|
  {
    if ws != [] {
      var es := Emit(ws);
      assert es == Bracket(ws[0]) + Emit(ws[1..]);
      assert es[4..] == Emit(ws[1..]);
      ParseEmit(ws[1..]);
      assert ws == [ws[0]] + ws[1..];
    }
  }

  /** Writes with different contents give different traces. */
  lemma EmitInjective(a: seq<Write>, b: seq<Write>)
    requires Emit(a) == Emit(b)
    ensures a == b
  {
    ParseEmit(a);
    ParseEmit(b);
  }

  /**
   * The display panel (the GC9A01A driver object `tft`). Its internals (SPI
   * transactions, controller commands) are abstracted into the trace of the
   * calls it has received.
   */
  class Panel {
    var trace: seq<Event>

    constructor ()
      ensures trace == []
    {
      trace := [];
    }

    method StartWrite()
      modifies this
      ensures trace == old(trace) + [Start]
    {
      trace := trace + [Start];
    }

    method SetAddrWindow(x: int, y: int, w: int, h: int)
      modifies this
      ensures trace == old(trace) + [AddrWindow(x, y, w, h)]
    {
      trace := trace + [AddrWindow(x, y, w, h)];
    }

    /** Streams the first len colours of the buffer into the current window. */
    method WritePixels(colors: array<bv16>, len: int)
      requires 0 <= len <= colors.Length
      modifies this
      ensures trace == old(trace) + [Pixels(colors[..len])]
    {
      trace := trace + [Pixels(colors[..len])];
    }

    method EndWrite()
      modifies this
      ensures trace == old(trace) + [End]
    {
      trace := trace + [End];
    }
  }
}
