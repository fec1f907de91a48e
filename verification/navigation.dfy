/** The navigation state of the sensor and the commands that move it: the byte
    offset of the first window shown, the tile base, the small and large step
    sizes and the packing mode. */
module Navigation {
  import opened Pixels
  import opened Arith

  /** The values of the C `unsigned` a custom step is stored in: 32 bits. */
  const UintRange: nat := 0x1_0000_0000

  /** The values of `size_t`: 64 bits. */
  const SizeRange: nat := 0x1_0000_0000_0000_0000

  /** A value of `size_t`, as `strtoul` returns it: it saturates at the
      largest value rather than going beyond it. */
  type SizeT = n: nat | n < SizeRange

  /** A labelled input event, with the number a label carries already parsed
      by `strtoul`. */
  datatype IoCommand =
    | StepByte
    | StepPixel
    | StepRow
    | StepHalfPage
    | StepPage
    | CustomStep(n: SizeT)   // CSTEP_<n>
    | StepAlign(n: SizeT)    // STEP_ALIGN_<n>
    | OtherLabel

  /** The navigation state as a value. */
  datatype NavState = NavState(ofs: nat, base: nat, small: nat, large: nat, mode: PackMode)

  /** The state the sensor starts in for a base: offset 0, intensity packing,
      one row as the small step and one tile as the large step. */
  function Initial(base: nat): (s: NavState)
    ensures s.ofs == 0 && s.mode == Intensity && s.base == base
    ensures s.small == base && s.large == base * base
  {
    NavState(0, base, base, base * base, Intensity)
  }

  /** The offset after a step of `step` bytes back, stopping at zero. */
  function Back(ofs: nat, step: nat): (r: nat)
    ensures r <= ofs
    ensures ofs >= step ==> r + step == ofs
    ensures ofs <= step ==> r == 0
  {
    if ofs > step then ofs - step else 0
  }

  /** A frame-step command: codes 1 and 2 move forward by the small and the
      large step, -1 and -2 back by them, and every other code leaves the
      offset. The large step is counted in windows, so it is scaled by the
      stride of the packing mode. */
  function StepFrame(s: NavState, code: int): (r: NavState)
    ensures r.base == s.base && r.small == s.small && r.large == s.large && r.mode == s.mode
    ensures code == 1 ==> r.ofs == s.ofs + s.small
    ensures code == 2 ==> r.ofs == s.ofs + LargeBytes(s)
    ensures code == -1 ==> r.ofs == Back(s.ofs, s.small)
    ensures code == -2 ==> r.ofs == Back(s.ofs, LargeBytes(s))
    ensures code !in {-2, -1, 1, 2} ==> r.ofs == s.ofs
  {
    var small := s.small;
    var large := s.large * Stride(s.mode);
    var ofs :=
      if code == -1 then Back(s.ofs, small)
      else if code == -2 then Back(s.ofs, large)
      else if code == 1 then s.ofs + small
      else if code == 2 then s.ofs + large
      else s.ofs;
    s.(ofs := ofs)
  }

  /** The bytes one large step moves in a state. */
  function LargeBytes(s: NavState): nat {
    s.large * Stride(s.mode)
  }

  /** A step forward and the same step back return to the offset. */
  lemma StepBackUndoesStep(s: NavState, code: int)
    requires code == 1 || code == 2
    ensures StepFrame(StepFrame(s, code), -code) == s
  {
  }

  /** Steps forward add up: two steps move as far as their sum. */
  lemma StepsAccumulate(s: NavState, code: int)
    requires code == 1 || code == 2
    ensures StepFrame(StepFrame(s, code), code).ofs
         == s.ofs + 2 * (if code == 1 then s.small else LargeBytes(s))
  {
  }

  /** Stepping back never goes below the start of the sources: from an offset
      within one step of the start it lands exactly on zero. */
  lemma StepBackStopsAtStart(s: NavState, code: int)
    requires code == -1 || code == -2
    requires s.ofs <= (if code == -1 then s.small else LargeBytes(s))
    ensures StepFrame(s, code).ofs == 0
  {
  }

  /** Every code outside -2, -1, 1, 2 leaves the state as it is. */
  lemma OtherCodesKeepState(s: NavState, code: int)
    requires code != -2 && code != -1 && code != 1 && code != 2
    ensures StepFrame(s, code) == s
  {
  }

  /** The graph-mode command: codes 20 to 22 select a packing mode, every
      other code keeps it. */
  function GraphMode(s: NavState, code: int): (r: NavState)
    ensures r.ofs == s.ofs && r.base == s.base && r.small == s.small && r.large == s.large
    ensures 20 <= code <= 22 ==> Ordinal(r.mode) == code - 20
    ensures !(20 <= code <= 22) ==> r.mode == s.mode
  {
    match ModeOfCode(code)
    case Some(m) => s.(mode := m)
    case None => s
  }

  /** The offset rounded down to a multiple of `align`, applied only when
      `align` is not zero and the offset exceeds it. */
  function Align(ofs: nat, align: nat): (r: nat)
    ensures r <= ofs
    ensures align > 0 && ofs > align ==> r % align == 0 && ofs - r < align
    ensures align == 0 || ofs <= align ==> r == ofs
  {
    if align > 0 && ofs > align && ofs % align != 0 then
      RoundDownIsMultiple(ofs, align);
      ofs - ofs % align
    else ofs
  }

  lemma RoundDownIsMultiple(ofs: nat, align: nat)
    requires align > 0
    ensures (ofs - ofs % align) % align == 0
  {
    DivModUnique(ofs - ofs % align, align, ofs / align, 0);
  }

  /** Aligning an aligned offset changes nothing. */
  lemma AlignIdempotent(ofs: nat, align: nat)
    ensures Align(Align(ofs, align), align) == Align(ofs, align)
  {
  }

  /** The aligned offset is the largest multiple of `align` that does not
      exceed the offset. */
  lemma AlignIsLargestMultiple(ofs: nat, align: nat, m: nat)
    requires align > 0 && ofs > align
    requires m % align == 0 && m <= ofs
    ensures m <= Align(ofs, align)
  {
    var r := Align(ofs, align);
    if m > r {
      var q, q' := m / align, r / align;
      assert m == q * align && r == q' * align;
      if q <= q' {
        MulLess(q, q', align);
        assert false;
      }
      MulLess(q' + 1, q, align);
      assert false;
    }
  }

  /** The small step a custom-step label sets: the parsed number truncated to
      32 bits, kept only when the truncation is not zero. */
  function CustomSmall(small: nat, n: nat): (r: nat)
    ensures n % UintRange != 0 ==> r == n % UintRange && 0 < r < UintRange
    ensures n % UintRange == 0 ==> r == small
  {
    var sz := n % UintRange;
    if sz > 0 then sz else small
  }

  /** A labelled input event: the step labels set the small or the large
      step, the align label rounds the offset down, every other label does
      nothing. */
  function Io(s: NavState, cmd: IoCommand): (r: NavState)
    ensures r.base == s.base && r.mode == s.mode
    ensures !cmd.StepAlign? ==> r.ofs == s.ofs
    ensures cmd.StepAlign? ==> r.small == s.small && r.large == s.large
    ensures cmd.StepByte? ==> r.small == 1 && r.large == s.large
    ensures cmd.StepPixel? ==> r.small == Stride(s.mode) && r.large == s.large
    ensures cmd.StepRow? ==> r.small == s.base && r.large == s.large
    ensures cmd.StepHalfPage? ==> r.large == s.base * s.base / 2 && r.small == s.small
    ensures cmd.StepPage? ==> r.large == s.base * s.base && r.small == s.small
    ensures cmd.CustomStep? ==> r.small == CustomSmall(s.small, cmd.n) && r.large == s.large
    ensures cmd.StepAlign? ==> r.ofs == Align(s.ofs, cmd.n)
    ensures cmd.OtherLabel? ==> r == s
  {
    match cmd
    case StepByte => s.(small := 1)
    case StepPixel => s.(small := Stride(s.mode))
    case StepRow => s.(small := s.base)
    case StepHalfPage => s.(large := (s.base * s.base) / 2)
    case StepPage => s.(large := s.base * s.base)
    case CustomStep(n) => s.(small := CustomSmall(s.small, n))
    case StepAlign(n) => s.(ofs := Align(s.ofs, n))
    case OtherLabel => s
  }

  /** Whether the sensor redraws after a labelled input event: only when the
      align label moved the offset. */
  function IoRedraws(s: NavState, cmd: IoCommand): bool {
    cmd.StepAlign? && Io(s, cmd).ofs != s.ofs
  }

  /** A custom step of 2^32 bytes is lost to the truncation and keeps the
      small step; 2^32 + 5 sets it to 5; a number too large for `strtoul`,
      which saturates at the largest size_t, sets it to 2^32 - 1. */
  lemma CustomStepTruncates(s: NavState)
    ensures Io(s, CustomStep(UintRange)) == s
    ensures Io(s, CustomStep(UintRange + 5)).small == 5
    ensures Io(s, CustomStep(SizeRange - 1)).small == UintRange - 1
  {
  }

  /** A second align to the same boundary changes nothing and asks for no
      redraw. */
  lemma RealignIsQuiet(s: NavState, n: SizeT)
    ensures Io(Io(s, StepAlign(n)), StepAlign(n)) == Io(s, StepAlign(n))
    ensures !IoRedraws(Io(s, StepAlign(n)), StepAlign(n))
  {
    AlignIdempotent(s.ofs, n);
  }

  /** A new base from the display hint: the steps follow it only while they
      still have their defaults for the old base, one row and one tile; a
      step the user set stays. */
  function AdoptBase(s: NavState, lb: nat): (r: NavState)
    ensures r.base == lb && r.ofs == s.ofs && r.mode == s.mode
    ensures s.small == s.base ==> r.small == lb
    ensures s.small != s.base ==> r.small == s.small
    ensures s.large == s.base * s.base ==> r.large == lb * lb
    ensures s.large != s.base * s.base ==> r.large == s.large
  {
    NavState(s.ofs, lb,
             if s.small == s.base then lb else s.small,
             if s.large == s.base * s.base then lb * lb else s.large,
             s.mode)
  }

  /** From the initial state, a new base carries both default steps along. */
  lemma DefaultsFollowBase(base: nat, lb: nat)
    ensures AdoptBase(Initial(base), lb) == Initial(lb)
  {
  }

  /** The size_t the display hint's signed 32-bit width becomes. */
  function HintWidth(iv: int): (lb: nat)
    requires -0x8000_0000 <= iv < 0x8000_0000
    ensures lb < SizeRange
    ensures iv >= 0 ==> lb == iv
    ensures iv < 0 ==> lb + 0x8000_0000 >= SizeRange
  {
    if iv >= 0 then iv else SizeRange + iv
  }

  /** n is a power of two. */
  predicate IsPowerOfTwo(n: nat) {
    n == 1 || (n >= 2 && n % 2 == 0 && IsPowerOfTwo(n / 2))
  }

  function Pow2(k: nat): (p: nat)
    ensures p >= 1
  {
    if k == 0 then 1 else 2 * Pow2(k - 1)
  }

  /** The powers of two are exactly the numbers 2^k. */
  lemma {:induction false} PowerOfTwoIsPow2(k: nat)
    ensures IsPowerOfTwo(Pow2(k))
  {
    if k > 0 {
      PowerOfTwoIsPow2(k - 1);
      assert Pow2(k) / 2 == Pow2(k - 1);
    }
  }

  /** No power of two lies strictly between 2^k and 2^(k+1). */
  lemma {:induction false} NoPowerOfTwoBetween(x: nat, k: nat)
    requires Pow2(k) < x < 2 * Pow2(k)
    ensures !IsPowerOfTwo(x)
  {
    if k > 0 && x % 2 == 0 {
      NoPowerOfTwoBetween(x / 2, k - 1);
    }
  }

  /** Exponents add: 2^(a+b) == 2^a * 2^b. */
  lemma {:induction false} Pow2Add(a: nat, b: nat)
    ensures Pow2(a + b) == Pow2(a) * Pow2(b)
  {
    if a > 0 {
      Pow2Add(a - 1, b);
    }
  }

  /** 2^(2k+1) == 2 * 2^k * 2^k, the step of the computation of 2^63 below. */
  lemma Pow2Odd(k: nat, p: nat)
    requires Pow2(k) == p
    ensures Pow2(2 * k + 1) == 2 * p * p
  {
    Pow2Add(k, k);
  }

  /** 2^63 by repeated squaring from 2^3. */
  lemma Pow2Of63()
    ensures Pow2(63) == 0x8000_0000_0000_0000
  {
    assert Pow2(3) == 8;
    Pow2Odd(3, 8);
    Pow2Odd(7, 0x80);
    Pow2Odd(15, 0x8000);
    Pow2Odd(31, 0x8000_0000);
  }

  /** The bitwise and of two unsigned numbers, binary digit by binary
      digit from the lowest. */
  function BitAnd(a: nat, b: nat): (r: nat)
    ensures r <= a && r <= b
  {
    if a == 0 || b == 0 then 0
    else 2 * BitAnd(a / 2, b / 2) + (if a % 2 == 1 && b % 2 == 1 then 1 else 0)
  }

  /** A number and itself have every binary digit in common. */
  lemma {:induction false} BitAndSelf(a: nat)
    ensures BitAnd(a, a) == a
  {
    if a > 0 {
      BitAndSelf(a / 2);
    }
  }

  /** The bit test `(n & (n - 1)) == 0` holds for a positive n exactly when
      n is a power of two: n - 1 shares no binary digit with n only when n
      has a single one. */
  lemma {:induction false} BitTestIsPowerOfTwo(n: nat)
    requires n >= 1
    ensures BitAnd(n, n - 1) == 0 <==> IsPowerOfTwo(n)
  {
    if n >= 2 {
      if n % 2 == 1 {
        assert (n - 1) / 2 == n / 2 && (n - 1) % 2 == 0;
        BitAndSelf(n / 2);
      } else {
        assert (n - 1) / 2 == n / 2 - 1 && (n - 1) % 2 == 1;
        BitTestIsPowerOfTwo(n / 2);
      }
    }
  }

  /** A display hint accepts a width when, read as a size_t, it is positive
      and passes the bit test `(lb & (lb - 1)) == 0`. */
  predicate AcceptsHint(lb: nat) {
    lb > 0 && BitAnd(lb, lb - 1) == 0
  }

  /** The display hint accepts exactly the powers of two. */
  lemma AcceptsPowersOfTwo(lb: nat)
    ensures AcceptsHint(lb) <==> lb > 0 && IsPowerOfTwo(lb)
  {
    if lb > 0 {
      BitTestIsPowerOfTwo(lb);
    }
  }

  /** A negative width, read as a size_t, is never a power of two. */
  lemma NegativeHintRejected(iv: int)
    requires -0x8000_0000 <= iv < 0
    ensures !AcceptsHint(HintWidth(iv))
  {
    Pow2Of63();
    NoPowerOfTwoBetween(HintWidth(iv), 63);
    AcceptsPowersOfTwo(HintWidth(iv));
  }

  /** The navigation state of a running sensor, updated in place by the
      command handlers. */
  class Navigator {
    var ofs: nat
    var base: nat
    var smallStep: nat
    var largeStep: nat
    var mode: PackMode

    ghost function State(): NavState
      reads this
    {
      NavState(ofs, base, smallStep, largeStep, mode)
    }

    /** The base is at least one and the small step never zero. */
    ghost predicate Valid()
      reads this
    {
      base >= 1 && smallStep >= 1
    }

    constructor (base: nat)
      requires base >= 1
      ensures Valid() && State() == Initial(base)
    {
      this.base := base;
      ofs, smallStep, largeStep, mode := 0, base, base * base, Intensity;
    }

    method OnStepFrame(code: int)
      requires Valid()
      modifies this
      ensures Valid() && State() == StepFrame(old(State()), code)
    {
      var small := smallStep;
      var large := largeStep * Stride(mode);
      if code == -1 {
        ofs := if ofs > small then ofs - small else 0;
      } else if code == -2 {
        ofs := if ofs > large then ofs - large else 0;
      } else if code == 1 {
        ofs := ofs + small;
      } else if code == 2 {
        ofs := ofs + large;
      }
    }

    method OnGraphMode(code: int)
      requires Valid()
      modifies this
      ensures Valid() && State() == GraphMode(old(State()), code)
    {
      if code >= 20 && code <= 22 {
        mode := ModeOfCode(code).value;
      }
    }

    method OnIo(cmd: IoCommand) returns (redraw: bool)
      requires Valid()
      modifies this
      ensures Valid() && State() == Io(old(State()), cmd)
      ensures redraw == IoRedraws(old(State()), cmd)
    {
      redraw := false;
      match cmd
      case StepByte => smallStep := 1;
      case StepPixel => smallStep := Stride(mode);
      case StepRow => smallStep := base;
      case StepHalfPage => largeStep := (base * base) / 2;
      case StepPage => largeStep := base * base;
      case CustomStep(n) =>
        var sz := n % UintRange;
        if sz > 0 {
          smallStep := sz;
        }
      case StepAlign(align) =>
        if align > 0 && ofs > align {
          if ofs % align != 0 {
            ofs := ofs - ofs % align;
            redraw := true;
          }
        }
      case OtherLabel =>
    }

    method OnNewBase(lb: nat)
      requires Valid() && lb >= 1
      modifies this
      ensures Valid() && State() == AdoptBase(old(State()), lb)
    {
      if smallStep == base {
        smallStep := lb;
      }
      if largeStep == base * base {
        largeStep := lb * lb;
      }
      base := lb;
    }
  }
}
