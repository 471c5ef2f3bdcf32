/** Alignment of cell rectangles to multiples of 16, exactly and on 32-bit machine words. */
module Alignment {
  import opened CellRects

  const ALIGNMENT := 16
  const INT_MIN := -0x8000_0000
  const INT_MAX := 0x7fff_ffff
  const UINT_MOD := 0x1_0000_0000

  predicate IsInt32(n: int) {
    INT_MIN <= n <= INT_MAX
  }

  /** What a 32-bit computation yields: a value, signed overflow, or the thrown size error. */
  datatype Machine<T> = Value(v: T) | Overflow | InvalidSize

  /** Conversion to, and every result of, unsigned 32-bit arithmetic. */
  function ToUint32(n: int): int {
    n % UINT_MOD
  }

  /** Conversion of an unsigned 32-bit word to a signed one. */
  function ToInt32(u: int): int {
    if u <= INT_MAX then u else u - UINT_MOD
  }

  function SignedNegate(n: int): Machine<int> {
    if n == INT_MIN then Overflow else Value(-n)
  }

  function AlignedFloor32(cellIdx: int): Machine<int> {
    if cellIdx < 0 then
      match SignedNegate(cellIdx)
      case Value(negated) =>
        var t0 := ToUint32(negated);
        var t1 := ToUint32(t0 - 1);
        var t2 := t1 / ALIGNMENT;
        var t3 := ToUint32(t2 + 1);
        var t4 := ToUint32(t3 * ALIGNMENT);
        SignedNegate(ToInt32(t4))
      case other => other
    else
      var t0 := ToUint32(cellIdx);
      var t1 := t0 / ALIGNMENT;
      Value(ToInt32(ToUint32(t1 * ALIGNMENT)))
  }

  function AlignedCeil32(size: int): Machine<int> {
    if size < 0 then
      InvalidSize
    else
      var t0 := ToUint32(ToUint32(size) + (ALIGNMENT - 1));
      var t1 := t0 / ALIGNMENT;
      Value(ToInt32(ToUint32(t1 * ALIGNMENT)))
  }

  /** The greatest multiple of 16 that is at most n. */
  function AlignedFloor(n: int): (r: int)
    ensures r % ALIGNMENT == 0 && r <= n < r + ALIGNMENT
  {
    n / ALIGNMENT * ALIGNMENT
  }

  /** The least multiple of 16 that is at least n. */
  function AlignedCeil(n: int): (r: int)
    ensures r % ALIGNMENT == 0 && r - ALIGNMENT < n <= r
  {
    (n + (ALIGNMENT - 1)) / ALIGNMENT * ALIGNMENT
  }

  lemma WordIsItself(n: int)
    requires 0 <= n < UINT_MOD
    ensures ToUint32(n) == n
  {
  }

  /** The decrement, division, increment and multiplication, on a negated negative index, without any wrap-around. */
  lemma NegativeFloor(cellIdx: int)
    requires INT_MIN < cellIdx < 0
    ensures var blocks := (-cellIdx - 1) / ALIGNMENT + 1;
            1 <= blocks * ALIGNMENT <= INT_MAX + 1 && blocks * ALIGNMENT == -AlignedFloor(cellIdx)
  {
  }

  /** The unsigned path floors exactly, and overflows precisely below -(2^31 - 16). */
  lemma AlignedFloor32Exact(cellIdx: int)
    requires IsInt32(cellIdx)
    ensures AlignedFloor32(cellIdx) == if INT_MIN + ALIGNMENT <= cellIdx then Value(AlignedFloor(cellIdx)) else Overflow
  {
    hide ToUint32;
    if INT_MIN < cellIdx < 0 {
      NegativeFloor(cellIdx);
      var blocks := (-cellIdx - 1) / ALIGNMENT + 1;
      WordIsItself(-cellIdx);
      WordIsItself(-cellIdx - 1);
      WordIsItself(blocks);
      WordIsItself(blocks * ALIGNMENT);
    } else if 0 <= cellIdx {
      WordIsItself(cellIdx);
      WordIsItself(cellIdx / ALIGNMENT * ALIGNMENT);
    }
  }

  /** The ceiling is exact precisely for sizes 0 .. 2^31 - 16; above, the last cast wraps. */
  lemma AlignedCeil32Exact(size: int)
    requires IsInt32(size)
    ensures size < 0 <==> AlignedCeil32(size) == InvalidSize
    ensures AlignedCeil32(size) == Value(AlignedCeil(size)) <==> 0 <= size <= INT_MAX + 1 - ALIGNMENT
    ensures INT_MAX + 1 - ALIGNMENT < size ==> AlignedCeil32(size) == Value(INT_MIN)
  {
    hide ToUint32;
    if 0 <= size {
      WordIsItself(size);
      WordIsItself(size + (ALIGNMENT - 1));
      WordIsItself(AlignedCeil(size));
    }
  }

  ghost predicate IsAligned(r: Rect) {
    r.x % ALIGNMENT == 0 && r.y % ALIGNMENT == 0 && r.width % ALIGNMENT == 0 && r.height % ALIGNMENT == 0
  }

  /** The aligned rectangle a reservation allocates, on unbounded integers. */
  function Adjusted(r: Rect): Rect {
    if r.IsEmpty() then
      ZERO_RECT
    else
      var xMin := AlignedFloor(r.x);
      var yMin := AlignedFloor(r.y);
      Rect(xMin, yMin, AlignedCeil(r.XEnd() - xMin), AlignedCeil(r.YEnd() - yMin))
  }

  /** What one axis computes on unbounded integers: aligned start and aligned size. */
  function AdjustedAxis(start: int, size: int): (int, int) {
    (AlignedFloor(start), AlignedCeil(start + size - AlignedFloor(start)))
  }

  lemma MultiplesOf16(a: int, b: int)
    requires a % ALIGNMENT == 0 && b % ALIGNMENT == 0 && a < b + ALIGNMENT
    ensures a <= b
  {
  }

  lemma AdjustedAxisIsLeast(start: int, size: int, lo: int, hi: int)
    requires 0 < size
    ensures var (s, w) := AdjustedAxis(start, size);
            && s % ALIGNMENT == 0 && w % ALIGNMENT == 0 && s <= start && start + size <= s + w && 0 < w
            && (lo % ALIGNMENT == 0 && hi % ALIGNMENT == 0 && lo <= start && start + size <= hi ==> lo <= s && s + w <= hi)
  {
    var (s, w) := AdjustedAxis(start, size);
    if lo % ALIGNMENT == 0 && lo <= start {
      MultiplesOf16(lo, s);
    }
    if hi % ALIGNMENT == 0 && start + size <= hi {
      MultiplesOf16(s + w, hi);
    }
  }

  /** The adjusted rectangle is the least aligned rectangle containing the argument. */
  lemma AdjustedIsLeastAligned(r: Rect, other: Rect)
    requires !r.IsEmpty()
    ensures IsAligned(Adjusted(r)) && !Adjusted(r).IsEmpty()
    ensures IsAligned(other) ==> (other.Contains(Adjusted(r)) <==> other.Contains(r))
    ensures Adjusted(r).Contains(r)
  {
    AdjustedAxisIsLeast(r.x, r.width, other.x, other.XEnd());
    AdjustedAxisIsLeast(r.y, r.height, other.y, other.YEnd());
    assert IsAligned(other) ==> other.XEnd() % ALIGNMENT == 0 && other.YEnd() % ALIGNMENT == 0;
  }

  /** One axis of the adjustment as the machine computes it: aligned start and aligned size. */
  function AdjustedAxis32(start: int, size: int): Machine<(int, int)> {
    match AlignedFloor32(start)
    case Overflow => Overflow
    case InvalidSize => InvalidSize
    case Value(min) =>
      if !IsInt32(start + size) || !IsInt32(start + size - min) then
        Overflow
      else
        match AlignedCeil32(start + size - min)
        case Overflow => Overflow
        case InvalidSize => InvalidSize
        case Value(aligned) => Value((min, aligned))
  }

  function Adjusted32(r: Rect): Machine<Rect> {
    if r.IsEmpty() then
      Value(ZERO_RECT)
    else
      match (AdjustedAxis32(r.x, r.width), AdjustedAxis32(r.y, r.height))
      case (Value(xs), Value(ys)) => Value(Rect(xs.0, ys.0, xs.1, ys.1))
      case (InvalidSize, _) => InvalidSize
      case (Value(_), InvalidSize) => InvalidSize
      case _ => Overflow
  }

  predicate IsInt32Rect(r: Rect) {
    IsInt32(r.x) && IsInt32(r.y) && IsInt32(r.width) && IsInt32(r.height)
  }

  /** No signed overflow on one axis, in terms of the exact values. */
  predicate AxisFits(start: int, size: int) {
    && INT_MIN < AlignedFloor(start)
    && start + size <= INT_MAX
    && AlignedCeil(start + size - AlignedFloor(start)) <= INT_MAX
  }

  lemma AdjustedAxis32Exact(start: int, size: int)
    requires IsInt32(start) && 0 < size <= INT_MAX
    ensures AdjustedAxis32(start, size) == Value(AdjustedAxis(start, size)) <==> AxisFits(start, size)
  {
    hide AlignedFloor32, AlignedCeil32, AlignedFloor, AlignedCeil;
    AlignedFloor32Exact(start);
    if INT_MIN + ALIGNMENT <= start {
      var s := start + size - AlignedFloor(start);
      if IsInt32(s) {
        AlignedCeil32Exact(s);
      }
    }
  }

  /** The machine result is the exact one precisely when both axes fit. */
  lemma Adjusted32Exact(r: Rect)
    requires IsInt32Rect(r) && !r.IsEmpty()
    ensures Adjusted32(r) == Value(Adjusted(r)) <==> AxisFits(r.x, r.width) && AxisFits(r.y, r.height)
  {
    AdjustedAxis32Exact(r.x, r.width);
    AdjustedAxis32Exact(r.y, r.height);
  }
}
