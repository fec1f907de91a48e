/** Loading the input files: each is opened and mapped in command-line order,
    the first failure gives up, and the smallest and largest sizes are
    folded along the way. */
module Sources {
  import opened Pixels

  /** INT_MAX of a 32-bit C int, where the running minimum starts. */
  const IntMax: nat := 0x7fff_ffff

  /** What opening and mapping one file gave: a failed open, a failed map, or
      a mapping of `size` bytes of a file that is or is not a regular file. */
  datatype Opened = OpenFailed | MapFailed | Mapped(size: nat, regular: bool)

  /** The loaded sources: each file's size, and the folded minimum and
      maximum. */
  datatype Loaded = Loaded(sizes: seq<nat>, min: nat, max: nat)

  function SizeOf(f: Opened): nat {
    if f.Mapped? then f.size else 0
  }

  /** The sizes of the files, in order. */
  function SizesOf(files: seq<Opened>): (s: seq<nat>)
    ensures |s| == |files| && forall i :: 0 <= i < |files| ==> s[i] == SizeOf(files[i])
  {
    seq(|files|, i requires 0 <= i < |files| => SizeOf(files[i]))
  }

  predicate AllMapped(files: seq<Opened>) {
    forall i :: 0 <= i < |files| ==> files[i].Mapped?
  }

  /** The running maximum, from 0: no size exceeds it, and it is 0 for no
      file. */
  function MaxFold(sizes: seq<nat>): (m: nat)
    ensures forall i :: 0 <= i < |sizes| ==> sizes[i] <= m
    ensures sizes == [] ==> m == 0
  {
    if sizes == [] then 0
    else
      var last := sizes[|sizes| - 1];
      var m := MaxFold(sizes[..|sizes| - 1]);
      assert sizes == sizes[..|sizes| - 1] + [last];
      if last > m then last else m
  }

  /** The running minimum, from INT_MAX: never above INT_MAX and never above
      any size. */
  function MinFold(sizes: seq<nat>): (m: nat)
    ensures m <= IntMax
    ensures forall i :: 0 <= i < |sizes| ==> m <= sizes[i]
  {
    if sizes == [] then IntMax
    else
      var last := sizes[|sizes| - 1];
      var m := MinFold(sizes[..|sizes| - 1]);
      assert sizes == sizes[..|sizes| - 1] + [last];
      if last < m then last else m
  }

  /** One more size moves each running bound only when it lies beyond it. */
  lemma FoldStep(sizes: seq<nat>, size: nat)
    ensures MaxFold(sizes + [size]) == if size > MaxFold(sizes) then size else MaxFold(sizes)
    ensures MinFold(sizes + [size]) == if size < MinFold(sizes) then size else MinFold(sizes)
  {
    assert (sizes + [size])[..|sizes|] == sizes;
  }

  /** The maximum of one size or more is one of them. */
  lemma {:induction false} MaxIsASize(sizes: seq<nat>)
    requires sizes != []
    ensures MaxFold(sizes) in sizes
  {
    var init := sizes[..|sizes| - 1];
    assert sizes == init + [sizes[|sizes| - 1]];
    if init != [] {
      MaxIsASize(init);
    }
  }

  /** The minimum is INT_MAX or one of the sizes. */
  lemma {:induction false} MinIsASizeOrIntMax(sizes: seq<nat>)
    ensures MinFold(sizes) == IntMax || MinFold(sizes) in sizes
  {
    if sizes != [] {
      var init := sizes[..|sizes| - 1];
      assert sizes == init + [sizes[|sizes| - 1]];
      MinIsASizeOrIntMax(init);
    }
  }

  /** When every file is larger than INT_MAX, the minimum is not a size at
      all but stays INT_MAX. */
  lemma MinCappedAtIntMax(sizes: seq<nat>)
    requires forall i :: 0 <= i < |sizes| ==> sizes[i] > IntMax
    ensures MinFold(sizes) == IntMax
  {
    MinIsASizeOrIntMax(sizes);
  }

  /** With a size at most INT_MAX among them, the minimum is the smallest
      size. */
  lemma MinIsSmallest(sizes: seq<nat>, j: nat)
    requires j < |sizes| && sizes[j] <= IntMax
    ensures MinFold(sizes) in sizes
  {
    MinIsASizeOrIntMax(sizes);
  }

  /** Open and map every file in order; the first file that cannot be opened
      or mapped ends the load with nothing. A file that is not regular is
      only warned about. */
  method LoadContext(files: seq<Opened>) returns (r: Option<Loaded>)
    ensures r.None? <==> !AllMapped(files)
    ensures r.Some? ==> r.value.sizes == SizesOf(files)
    ensures r.Some? ==> r.value.min == MinFold(r.value.sizes) && r.value.max == MaxFold(r.value.sizes)
  {
    var sizes: seq<nat> := [];
    var max: nat := 0;
    var min: nat := IntMax;
    var i := 0;
    while i < |files|
      invariant i <= |files| && |sizes| == i
      invariant forall j :: 0 <= j < i ==> files[j].Mapped? && sizes[j] == files[j].size
      invariant max == MaxFold(sizes) && min == MinFold(sizes)
    {
      if !files[i].Mapped? {
        return None;
      }
      var size := files[i].size;
      FoldStep(sizes, size);
      sizes := sizes + [size];
      if size > max {
        max := size;
      }
      if size < min {
        min := size;
      }
      i := i + 1;
    }
    assert sizes == SizesOf(files);
    r := Some(Loaded(sizes, min, max));
  }
}
