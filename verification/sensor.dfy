/** The sensor program: the sources it compares, its main canvas of tiles,
    the optional diff canvas, the navigation state, and the handlers of the
    commands it receives from the display server. */
module Sensor {
  import opened Pixels
  import opened Layout
  import opened Render
  import opened Navigation

  /** The tile base the sensor starts with. */
  const DefaultBase: nat := 64

  /** The largest border the command line accepts; larger values are clamped. */
  const MaxBorder: nat := 9

  /** The number of file names the command line accepts: more than one and at
      most 256. */
  predicate AcceptedFileCount(n: nat) {
    2 <= n <= 256
  }

  /** The border width after the command line clamped it. */
  function ClampBorder(v: nat): (b: nat)
    ensures b <= MaxBorder
    ensures v <= MaxBorder ==> b == v
    ensures v > MaxBorder ==> b == MaxBorder
  {
    if v > MaxBorder then MaxBorder else v
  }

  /** A buffer of `len` padding pixels, as a resize leaves the main canvas. */
  function Blank(len: nat): (s: seq<Pixel>)
    ensures |s| == len && forall i :: 0 <= i < len ==> s[i] == Pad
  {
    seq(len, _ => Pad)
  }

  /** The number of tiles the display hint sizes the main canvas for: one per
      source and one more for the diff tile when it is enabled. */
  function HintTiles(sources: nat, difftile: bool): (n: nat)
    ensures difftile ==> n == sources + 1
    ensures !difftile ==> n == sources
  {
    sources + (if difftile then 1 else 0)
  }

  class Sensor {
    /** The contents of the mapped input files, in command-line order. */
    const srcs: seq<seq<byte>>
    const border: nat
    /** Whether the diff tile is enabled. */
    const difftile: bool
    const nav: Navigator
    const cont: Canvas
    /** The diff canvas, null until the display server has handed one out. */
    var diff: Canvas?

    ghost predicate Valid()
      reads this, nav, cont, diff
    {
      nav.Valid() && cont.Valid() && |srcs| >= 1
      && (diff != null ==> diff.Valid() && diff != cont && diff.px != cont.px)
    }

    /** The pixel buffer of the diff canvas, as a set to be named in frames. */
    ghost function DiffFrame(): set<object>
      reads this, diff
    {
      if diff == null then {} else {diff.px}
    }

    /** The pixels of the diff canvas, none while there is no diff canvas. */
    ghost function DiffImage(): seq<Pixel>
      reads this, diff, DiffFrame()
    {
      if diff == null then [] else diff.px[..]
    }

    /** The main canvas is large enough for one tile, so tiles are drawn. */
    ghost predicate DataFits()
      reads this, nav, cont
    {
      nav.base <= cont.w && nav.base <= cont.h
    }

    /** The diff tile is drawn: the diff canvas exists and holds a tile. */
    ghost predicate DiffFits()
      reads this, nav, diff
    {
      diff != null && nav.base <= diff.w && nav.base <= diff.h
    }

    /** The main canvas, once `prev`, now shows the first Fitting tiles for the
        current navigation state with the border strip after each, and nothing
        else changed; or it is as it was when no tile fits. */
    ghost predicate DataShown(prev: seq<Pixel>)
      requires Valid()
      reads this, nav, cont, diff, cont.px
    {
      if DataFits() then
        var count := Fitting(0, |srcs|, cont.w, cont.h, nav.base, border);
        && TilesDrawn(prev, cont.px[..], cont.pitch, srcs, count, nav.ofs, nav.mode, cont.w, nav.base, border)
        && StripsDrawn(cont.px[..], cont.pitch, count, cont.w, cont.h, nav.base, border)
        && OnlyTilesAndStrips(prev, cont.px[..], cont.pitch, count, cont.w, cont.h, nav.base, border)
      else cont.px[..] == prev
    }

    /** The diff canvas, once `prev`, now shows the heat map for the current
        navigation state in its top-left tile and nothing else changed, or it
        is as it was when the diff tile is off or does not fit. */
    ghost predicate DiffShown(prev: seq<Pixel>, enabled: bool)
      requires Valid()
      reads this, nav, cont, diff, DiffFrame()
    {
      if enabled && DiffFits() then
        DiffDrawn(diff.px[..], diff.pitch, srcs, nav.ofs, 0, 0, nav.mode, nav.base)
        && UnchangedOutside(prev, diff.px[..], diff.pitch, 0, 0, nav.base, nav.base)
      else DiffImage() == prev
    }

    /** The main canvas, once `prev`, now shows the tile of every source for
        the current navigation state with the border strip after each, and
        nothing else changed. */
    ghost predicate AllShown(prev: seq<Pixel>)
      reads this, nav, cont, cont.px
    {
      && DataFits()
      && TilesDrawn(prev, cont.px[..], cont.pitch, srcs, |srcs|, nav.ofs, nav.mode, cont.w, nav.base, border)
      && StripsDrawn(cont.px[..], cont.pitch, |srcs|, cont.w, cont.h, nav.base, border)
      && OnlyTilesAndStrips(prev, cont.px[..], cont.pitch, |srcs|, cont.w, cont.h, nav.base, border)
    }

    /** Start-up: the sources are loaded, the display server handed out a
        canvas of w0 x h0 with the given pitch, the canvas is resized for one
        tile per source (`granted` is the server's answer, which start-up does
        not check), and the tiles are drawn twice. */
    constructor (srcs: seq<seq<byte>>, border: nat, difftile: bool,
                 w0: nat, h0: nat, pitch0: nat, granted: bool)
      requires AcceptedFileCount(|srcs|)
      requires 0 < pitch0 && w0 <= pitch0
      ensures Valid() && diff == null
      ensures this.srcs == srcs && this.border == ClampBorder(border) && this.difftile == difftile
      ensures nav.State() == Initial(DefaultBase)
      ensures granted ==> cont.w == Extent(Columns(|srcs|), DefaultBase, this.border)
                          && cont.h == Extent(Rows(|srcs|), DefaultBase, this.border)
      ensures granted ==> AllShown(Blank(cont.px.Length))
    {
      this.srcs := srcs;
      this.border := ClampBorder(border);
      this.difftile := difftile;
      nav := new Navigator(DefaultBase);
      cont := new Canvas(w0, h0, pitch0);
      diff := null;
      new;
      var ok := cont.ResizeBase(DefaultBase, |srcs|, this.border, granted);
      ghost var blank := cont.px[..];
      if ok {
        GridShowsAll(|srcs|, |srcs|, DefaultBase, this.border);
        assert blank == Blank(cont.px.Length);
      }
      Refresh();
      ghost var first := cont.px[..];
      Refresh();
      if ok {
        RefreshAgain(blank, first);
      }
    }

    /** Redraw: the diff tile when it is enabled and the diff canvas exists,
        then every source's tile on the main canvas. */
    method Refresh()
      requires Valid()
      modifies cont.px, DiffFrame()
      ensures Valid()
      ensures DiffShown(old(DiffImage()), difftile)
      ensures DataShown(old(cont.px[..]))
    {
      if difftile && diff != null && nav.base <= diff.w && nav.base <= diff.h {
        diff.DrawDTile(srcs, nav.ofs, 0, 0, nav.mode, nav.base);
      }
      if nav.base <= cont.w && nav.base <= cont.h {
        cont.RefreshData(srcs, nav.base, nav.mode, nav.ofs, border);
      }
    }

    /** A second drawing of the tiles over a first leaves each tile as the
        first drew it over `o`, and still changes nothing but the tiles and
        their strips. */
    lemma RefreshAgain(o: seq<Pixel>, a: seq<Pixel>)
      requires DataFits()
      requires TilesDrawn(o, a, cont.pitch, srcs, |srcs|, nav.ofs, nav.mode, cont.w, nav.base, border)
      requires OnlyTilesAndStrips(o, a, cont.pitch, |srcs|, cont.w, cont.h, nav.base, border)
      requires AllShown(a)
      ensures AllShown(o)
    {
    }

    /** The display hint: a width that, read as a size_t, passes the
        power-of-two bit test becomes the new base when the server grants the
        resize of the main canvas to the grid for the sources and the diff
        tile; the steps follow the base while they have their defaults, the
        diff canvas is asked for one tile of the new base (`diffGranted` is
        the answer, which the handler does not check), and everything is
        redrawn. */
    method OnDisplayHint(iv: int, granted: bool, diffGranted: bool)
      requires Valid() && -0x8000_0000 <= iv < 0x8000_0000
      modifies nav, cont, cont.px, diff, DiffFrame()
      ensures Valid() && diff == old(diff)
      ensures !(AcceptsHint(HintWidth(iv)) && granted) ==>
                nav.State() == old(nav.State()) && cont.px == old(cont.px)
                && cont.w == old(cont.w) && cont.h == old(cont.h) && cont.pitch == old(cont.pitch)
                && cont.px[..] == old(cont.px[..])
                && (diff != null ==> diff.w == old(diff.w) && diff.h == old(diff.h)
                                     && diff.pitch == old(diff.pitch) && diff.px == old(diff.px))
                && DiffImage() == old(DiffImage())
      ensures AcceptsHint(HintWidth(iv)) && granted ==>
                nav.State() == AdoptBase(old(nav.State()), HintWidth(iv))
                && cont.w == Extent(Columns(HintTiles(|srcs|, difftile)), nav.base, border)
                && cont.h == Extent(Rows(HintTiles(|srcs|, difftile)), nav.base, border)
                && cont.pitch == cont.w
                && AllShown(Blank(cont.px.Length))
      ensures AcceptsHint(HintWidth(iv)) && granted && difftile && diff != null && diffGranted ==>
                diff.w == nav.base && diff.h == nav.base && diff.pitch == nav.base
                && DiffDrawn(diff.px[..], diff.pitch, srcs, nav.ofs, 0, 0, nav.mode, nav.base)
      ensures AcceptsHint(HintWidth(iv)) && granted && !(difftile && diff != null && diffGranted) ==>
                (diff != null ==> diff.w == old(diff.w) && diff.h == old(diff.h)
                                  && diff.pitch == old(diff.pitch) && diff.px == old(diff.px))
                && DiffShown(old(DiffImage()), difftile)
    {
      var lb := HintWidth(iv);
      if lb > 0 && BitAnd(lb, lb - 1) == 0 {
        var n := HintTiles(|srcs|, difftile);
        var ok := cont.ResizeBase(lb, n, border, granted);
        if ok {
          assert cont.px[..] == Blank(cont.px.Length);
          Rebase(lb, n, diffGranted);
        }
      }
    }

    /** The accepted display hint once the main canvas has its new size: the
        navigation state takes the new base, the diff canvas is asked for one
        tile of it, and both canvases are redrawn. */
    method Rebase(lb: nat, n: nat, diffGranted: bool)
      requires Valid() && lb >= 1 && n == HintTiles(|srcs|, difftile)
      requires cont.w == Extent(Columns(n), lb, border) && cont.h == Extent(Rows(n), lb, border)
      modifies nav, diff, cont.px, DiffFrame()
      ensures Valid() && diff == old(diff)
      ensures nav.State() == AdoptBase(old(nav.State()), lb)
      ensures AllShown(old(cont.px[..]))
      ensures difftile && diff != null && diffGranted ==>
                diff.w == lb && diff.h == lb && diff.pitch == lb
                && DiffDrawn(diff.px[..], diff.pitch, srcs, nav.ofs, 0, 0, nav.mode, lb)
      ensures !(difftile && diff != null && diffGranted) ==>
                (diff != null ==> diff.w == old(diff.w) && diff.h == old(diff.h)
                                  && diff.pitch == old(diff.pitch) && diff.px == old(diff.px))
                && DiffShown(old(DiffImage()), difftile)
    {
      nav.OnNewBase(lb);
      ResizeDiff(lb, diffGranted);
      GridShowsAll(|srcs|, n, lb, border);
      Refresh();
    }

    /** With the diff tile enabled, the diff canvas is asked for one tile of
        `base` pixels; `granted` is the server's answer. */
    method ResizeDiff(base: nat, granted: bool)
      requires Valid() && base >= 1
      modifies diff
      ensures Valid() && diff == old(diff)
      ensures difftile && diff != null && granted ==>
                diff.w == base && diff.h == base && diff.pitch == base && fresh(diff.px)
      ensures !(difftile && diff != null && granted) ==>
                diff != null ==> diff.w == old(diff.w) && diff.h == old(diff.h)
                                 && diff.pitch == old(diff.pitch) && diff.px == old(diff.px)
    {
      if difftile && diff != null {
        var _ := diff.Resize(base, base, granted);
      }
    }

    /** A new segment from the server becomes the diff canvas, or there is
        none when the acquisition failed; a new diff canvas gets the diff tile
        drawn at once, whether or not the diff tile is enabled. */
    method OnNewSegment(w: nat, h: nat, pitch: nat, acquired: bool)
      requires Valid() && 0 < pitch && w <= pitch
      modifies this
      ensures Valid()
      ensures acquired ==> diff != null && fresh(diff) && fresh(diff.px)
                           && diff.w == w && diff.h == h && diff.pitch == pitch
      ensures acquired && DiffFits() ==>
                DiffDrawn(diff.px[..], diff.pitch, srcs, nav.ofs, 0, 0, nav.mode, nav.base)
      ensures !acquired ==> diff == null
    {
      if acquired {
        var d := new Canvas(w, h, pitch);
        diff := d;
        if nav.base <= d.w && nav.base <= d.h {
          d.DrawDTile(srcs, nav.ofs, 0, 0, nav.mode, nav.base);
        }
      } else {
        diff := null;
      }
    }

    /** A frame step moves the offset, then everything is redrawn. */
    method OnStepFrame(code: int)
      requires Valid()
      modifies nav, cont.px, DiffFrame()
      ensures Valid()
      ensures nav.State() == StepFrame(old(nav.State()), code)
      ensures DiffShown(old(DiffImage()), difftile)
      ensures DataShown(old(cont.px[..]))
    {
      nav.OnStepFrame(code);
      Refresh();
    }

    /** A graph-mode command selects the packing mode, then everything is
        redrawn. */
    method OnGraphMode(code: int)
      requires Valid()
      modifies nav, cont.px, DiffFrame()
      ensures Valid()
      ensures nav.State() == GraphMode(old(nav.State()), code)
      ensures DiffShown(old(DiffImage()), difftile)
      ensures DataShown(old(cont.px[..]))
    {
      nav.OnGraphMode(code);
      Refresh();
    }

    /** A labelled input event updates the steps or aligns the offset; only
        an align that moved the offset redraws. */
    method OnIo(cmd: IoCommand)
      requires Valid()
      modifies nav, cont.px, DiffFrame()
      ensures Valid()
      ensures nav.State() == Io(old(nav.State()), cmd)
      ensures IoRedraws(old(nav.State()), cmd) ==>
                DiffShown(old(DiffImage()), difftile) && DataShown(old(cont.px[..]))
      ensures !IoRedraws(old(nav.State()), cmd) ==>
                DiffImage() == old(DiffImage()) && cont.px[..] == old(cont.px[..])
    {
      var redraw := nav.OnIo(cmd);
      if redraw {
        Refresh();
      }
    }
  }
}
