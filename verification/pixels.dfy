/** Pixel packing: how a window of bytes from a source becomes one RGBA pixel. */
module Pixels {

  newtype byte = x: int | 0 <= x < 0x100

  datatype Option<T> = None | Some(value: T)

  /** One canvas pixel, the four channels of the RGBA macro. */
  datatype Pixel = RGBA(r: byte, g: byte, b: byte, a: byte)

  /** The fixed colours of the sensor. */
  const Pad: Pixel := RGBA(0x00, 0x00, 0x00, 0xff)
  const BorderColour: Pixel := RGBA(0xff, 0x00, 0x00, 0xff)
  const Match: Pixel := RGBA(0x00, 0x00, 0x00, 0xff)

  /** The packing modes, in the order of their enumeration values. */
  datatype PackMode = Intensity | Tight | TightNoAlpha

  /** The byte stride per pixel, indexed by the mode's enumeration value. */
  const StrideTable: seq<nat> := [1, 4, 3]

  function Ordinal(mode: PackMode): (k: nat)
    ensures k < |StrideTable|
  {
    match mode
    case Intensity => 0
    case Tight => 1
    case TightNoAlpha => 2
  }

  function Stride(mode: PackMode): (s: nat)
    ensures 1 <= s <= 4
    ensures mode == Intensity <==> s == 1
    ensures mode == Tight ==> s == 4
    ensures mode == TightNoAlpha ==> s == 3
  {
    StrideTable[Ordinal(mode)]
  }

  /** The mode a graph-mode command selects: codes 20, 21, 22 stand for the
      modes with enumeration values 0, 1, 2; every other code selects none. */
  function ModeOfCode(code: int): (r: Option<PackMode>)
    ensures r.Some? <==> 20 <= code <= 22
    ensures r.Some? ==> Ordinal(r.value) == code - 20
  {
    if code == 20 then Some(Intensity)
    else if code == 21 then Some(Tight)
    else if code == 22 then Some(TightNoAlpha)
    else None
  }

  /** The bytes a pixel shows under a mode: the grey level, all four channels,
      or the three colour channels. */
  function Channels(mode: PackMode, p: Pixel): seq<byte> {
    match mode
    case Intensity => [p.r]
    case Tight => [p.r, p.g, p.b, p.a]
    case TightNoAlpha => [p.r, p.g, p.b]
  }

  /** The pixel packed from the window of `buf` that starts at `at`.
      The window it shows is exactly `Stride(mode)` bytes long; intensity is a
      grey level, and every mode but tight forces an opaque alpha. */
  function Pack(mode: PackMode, buf: seq<byte>, at: nat): (p: Pixel)
    requires at + Stride(mode) <= |buf|
    ensures Channels(mode, p) == buf[at..at + Stride(mode)]
    ensures mode == Intensity ==> p.r == p.g == p.b
    ensures mode != Tight ==> p.a == 0xff
  {
    match mode
    case Intensity => RGBA(buf[at], buf[at], buf[at], 0xff)
    case Tight => RGBA(buf[at], buf[at + 1], buf[at + 2], buf[at + 3])
    case TightNoAlpha => RGBA(buf[at], buf[at + 1], buf[at + 2], 0xff)
  }

  /** A pixel depends on nothing but the bytes of its own window. */
  lemma PackReadsOnlyWindow(mode: PackMode, buf: seq<byte>, at: nat, buf': seq<byte>, at': nat)
    requires at + Stride(mode) <= |buf| && at' + Stride(mode) <= |buf'|
    requires buf[at..at + Stride(mode)] == buf'[at'..at' + Stride(mode)]
    ensures Pack(mode, buf, at) == Pack(mode, buf', at')
  {
    var p, p' := Pack(mode, buf, at), Pack(mode, buf', at');
    assert Channels(mode, p) == Channels(mode, p');
  }

  /** Two windows pack to the same pixel exactly when they hold the same bytes. */
  lemma PackInjective(mode: PackMode, buf: seq<byte>, at: nat, buf': seq<byte>, at': nat)
    requires at + Stride(mode) <= |buf| && at' + Stride(mode) <= |buf'|
    ensures Pack(mode, buf, at) == Pack(mode, buf', at')
        <==> buf[at..at + Stride(mode)] == buf'[at'..at' + Stride(mode)]
  {
    if buf[at..at + Stride(mode)] == buf'[at'..at' + Stride(mode)] {
      PackReadsOnlyWindow(mode, buf, at, buf', at');
    }
  }
}
