/** The diff heat map: at one byte offset, how many sources disagree with
    source 0, and the colour that count is shown as. */
module Diff {
  import opened Pixels
  import opened Arith

  /** The pixel a source contributes at window `at`. A window whose end reaches
      the end of the source counts as padding, so the last window that fits
      exactly is padding here although the tile renderer draws it as data. */
  function SourcePixel(src: seq<byte>, mode: PackMode, at: nat): Pixel {
    if at + Stride(mode) >= |src| then Pad else Pack(mode, src, at)
  }

  /** The pixels of every source at window `at`, in source order. */
  function Column(srcs: seq<seq<byte>>, mode: PackMode, at: nat): (col: seq<Pixel>)
    ensures |col| == |srcs|
  {
    seq(|srcs|, i requires 0 <= i < |srcs| => SourcePixel(srcs[i], mode, at))
  }

  /** How many pixels of `s` differ from `ref`. */
  function CountUnequal(s: seq<Pixel>, ref: Pixel): (m: nat)
    ensures m <= |s|
    ensures m == 0 <==> forall i :: 0 <= i < |s| ==> s[i] == ref
  {
    if s == [] then 0
    else CountUnequal(s[..|s| - 1], ref) + (if s[|s| - 1] != ref then 1 else 0)
  }

  /** The number of sources after source 0 whose pixel differs from source 0's. */
  function Mismatches(col: seq<Pixel>): (m: nat)
    requires |col| >= 1
    ensures m < |col|
  {
    CountUnequal(col[1..], col[0])
  }

  /** The colour of a window where `m` of `n` sources differ from source 0:
      the match colour when none does, else green at 255 * m / n, rounded
      down, on opaque black. */
  function Heat(m: nat, n: nat): (p: Pixel)
    requires m < n
    ensures m == 0 ==> p == Match
    ensures m > 0 ==> p.r == 0 && p.b == 0 && p.a == 0xff
    ensures m > 0 ==> p.g as int * n <= 255 * m < (p.g as int + 1) * n
  {
    GreenLevel(m, n);
    if m == 0 then Match else RGBA(0x00, ((255 * m) / n) as byte, 0x00, 0xff)
  }

  lemma GreenLevel(m: nat, n: nat)
    requires m < n
    ensures (255 * m) / n < 0x100
  {
    QuotientBelow(255 * m, n, 0x100);
  }

  /** The heat-map pixel for window `at` of the sources. */
  function DiffPixel(srcs: seq<seq<byte>>, mode: PackMode, at: nat): Pixel
    requires |srcs| >= 1
  {
    Heat(Mismatches(Column(srcs, mode, at)), |srcs|)
  }

  /** The heat-map pixels of m consecutive windows, the first at byte `at`. */
  function HeatRow(srcs: seq<seq<byte>>, mode: PackMode, at: nat, m: nat): (r: seq<Pixel>)
    requires |srcs| >= 1
    ensures |r| == m
  {
    seq(m, c requires 0 <= c < m => DiffPixel(srcs, mode, at + c * Stride(mode)))
  }

  /** The pixel of every source at window `at`, gathered one by one into a
      buffer. */
  method GatherColumn(srcs: seq<seq<byte>>, mode: PackMode, at: nat) returns (pxbuf: seq<Pixel>)
    ensures pxbuf == Column(srcs, mode, at)
  {
    var step := Stride(mode);
    pxbuf := [];
    var i := 0;
    while i < |srcs|
      invariant 0 <= i <= |srcs|
      invariant pxbuf == Column(srcs, mode, at)[..i]
    {
      var src := srcs[i];
      var q := if at + step >= |src| then Pad else Pack(mode, src, at);
      pxbuf := pxbuf + [q];
      i := i + 1;
    }
  }

  /** The number of buffered pixels after the first that differ from it. */
  method CountMismatches(pxbuf: seq<Pixel>) returns (delta: nat)
    requires |pxbuf| >= 1
    ensures delta == Mismatches(pxbuf)
  {
    delta := 0;
    var i := 1;
    while i < |pxbuf|
      invariant 1 <= i <= |pxbuf|
      invariant delta == CountUnequal(pxbuf[1..i], pxbuf[0])
    {
      assert pxbuf[1..i + 1][..i - 1] == pxbuf[1..i];
      delta := delta + (if pxbuf[i] != pxbuf[0] then 1 else 0);
      i := i + 1;
    }
    assert pxbuf[1..i] == pxbuf[1..];
  }

  /** One pixel of the diff tile, computed as the renderer does: the pixel of
      every source into a buffer, then a count of those unequal to the first. */
  method DiffAt(srcs: seq<seq<byte>>, mode: PackMode, at: nat) returns (p: Pixel)
    requires |srcs| >= 1
    ensures p == DiffPixel(srcs, mode, at)
  {
    var pxbuf := GatherColumn(srcs, mode, at);
    var delta := CountMismatches(pxbuf);
    GreenLevel(delta, |srcs|);
    p := if delta > 0 then RGBA(0x00, ((255 * delta) / |srcs|) as byte, 0x00, 0xff) else Match;
  }

  /** With exactly one differing entry, the count is one. */
  lemma {:induction false} CountOneUnequal(s: seq<Pixel>, ref: Pixel, j: nat)
    requires j < |s| && s[j] != ref
    requires forall i :: 0 <= i < |s| && i != j ==> s[i] == ref
    ensures CountUnequal(s, ref) == 1
  {
    var last := |s| - 1;
    if j == last {
      assert CountUnequal(s[..last], ref) == 0;
    } else {
      CountOneUnequal(s[..last], ref, j);
    }
  }

  /** Sources that agree at a window give the match colour there. */
  lemma IdenticalSourcesMatch(srcs: seq<seq<byte>>, mode: PackMode, at: nat)
    requires |srcs| >= 1
    requires forall i :: 0 <= i < |srcs| ==> srcs[i] == srcs[0]
    ensures DiffPixel(srcs, mode, at) == Match
  {
    var col := Column(srcs, mode, at);
    assert forall i :: 0 <= i < |col[1..]| ==> col[1..][i] == col[i + 1];
  }

  /** A window where exactly one source differs from source 0 is green at
      255 / n, rounded down, for n sources. */
  lemma OneDifferingSource(srcs: seq<seq<byte>>, mode: PackMode, at: nat, j: nat)
    requires 1 <= j < |srcs|
    requires SourcePixel(srcs[j], mode, at) != SourcePixel(srcs[0], mode, at)
    requires forall i :: 1 <= i < |srcs| && i != j ==>
               SourcePixel(srcs[i], mode, at) == SourcePixel(srcs[0], mode, at)
    ensures var p := DiffPixel(srcs, mode, at);
            p.r == 0 && p.g as int == 255 / |srcs| && p.b == 0 && p.a == 0xff
  {
    var col := Column(srcs, mode, at);
    CountOneUnequal(col[1..], col[0], j - 1);
  }

  /** A window shows the match colour exactly when no source differs from
      source 0 or when the differing share is too small to give a green level
      of at least one; with 256 sources a single differing source is invisible. */
  lemma MatchColourMeans(srcs: seq<seq<byte>>, mode: PackMode, at: nat)
    requires |srcs| >= 1
    ensures var m := Mismatches(Column(srcs, mode, at));
            DiffPixel(srcs, mode, at) == Match <==> m == 0 || 255 * m < |srcs|
  {
    HeatIsMatch(Mismatches(Column(srcs, mode, at)), |srcs|);
  }

  lemma HeatIsMatch(m: nat, n: nat)
    requires m < n
    ensures Heat(m, n) == Match <==> m == 0 || 255 * m < n
  {
    QuotientBelow(255 * m, n, 1);
  }

  lemma SingleMismatchAmongMaximumSources()
    ensures Heat(1, 256) == Match
  {
  }

  /** The last window that fits a source exactly is padding in the diff tile. */
  lemma ExactFitIsPad(src: seq<byte>, mode: PackMode)
    requires |src| >= Stride(mode)
    ensures SourcePixel(src, mode, |src| - Stride(mode)) == Pad
  {
  }

  /** A zero byte packed in intensity mode equals padding, so such a source
      matches one that has run out. */
  lemma ZeroIntensityMatchesPad(src: seq<byte>, src': seq<byte>, at: nat)
    requires at + 1 < |src| && src[at] == 0
    requires at + 1 >= |src'|
    ensures SourcePixel(src, Intensity, at) == SourcePixel(src', Intensity, at)
  {
    assert Channels(Intensity, Pack(Intensity, src, at)) == src[at..at + 1];
  }
}
