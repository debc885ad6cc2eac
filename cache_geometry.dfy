/**
 * Geometry of the set-associative cache: how many sets it has, how an
 * address splits into tag, set index and block offset, and the three bit
 * masks the constructor builds for that split (cache.cc, constructor).
 */
module CacheGeometry {
  import opened Bits

  /** The tag value that marks a block as invalid: all 64 bits set. */
  const UNDEFINED: u64 := 0xFFFF_FFFF_FFFF_FFFF

  /** The number of times `temp >>= 1` leaves a non-zero value: floor(log2 x),
      and 0 for x == 0. */
  function Log2Floor(x: nat): nat
  {
    if x < 2 then 0 else 1 + Log2Floor(x / 2)
  }

  lemma {:induction false} Log2FloorBounds(x: nat)
    requires x >= 1
    ensures Pow2(Log2Floor(x)) <= x < Pow2(Log2Floor(x) + 1)
  {
    if x >= 2 {
      Log2FloorBounds(x / 2);
    }
  }

  /** For a power of two, floor(log2) is the exact exponent. */
  lemma {:induction false} Log2FloorPow2(n: nat)
    ensures Log2Floor(Pow2(n)) == n
  {
    if n > 0 {
      Log2FloorPow2(n - 1);
      assert Pow2(n) / 2 == Pow2(n - 1);
    }
  }

  datatype Geometry = Geometry(
    setCount: nat,
    idxBits: nat,
    offsetBits: nat,
    tagBits: nat,
    idxMask: nat,
    offsetMask: nat,
    tagMask: nat)

  /** `cache_size / (cache_line_size * cache_associativity)` */
  function SetCountOf(size: u32, associativity: u32, lineSize: u32): nat
    requires lineSize * associativity > 0
  {
    size / (lineSize * associativity)
  }

  /**
   * What the constructor needs of its arguments to stay within defined
   * behaviour: the product `line_size * associativity` is computed in 32-bit
   * unsigned arithmetic and is then a divisor, so it must be non-zero and must
   * not wrap; there must be at least one set (the tag array is indexed by
   * set); `address_width - idx_bits - offset_bits` must not wrap; and the mask
   * loops shift the `int` 1 by up to `bits - 1`, so no count may exceed 31.
   */
  predicate ValidConfig(size: u32, associativity: u32, lineSize: u32, addressWidth: u32)
  {
    && 0 < lineSize * associativity < 0x1_0000_0000
    && SetCountOf(size, associativity, lineSize) >= 1
    && Log2Floor(SetCountOf(size, associativity, lineSize)) + Log2Floor(lineSize) <= addressWidth
    && addressWidth - Log2Floor(SetCountOf(size, associativity, lineSize)) - Log2Floor(lineSize) <= 31
  }

  /** The geometry the constructor computes. */
  function GeometryOf(size: u32, associativity: u32, lineSize: u32, addressWidth: u32): Geometry
    requires ValidConfig(size, associativity, lineSize, addressWidth)
  {
    var setCount := SetCountOf(size, associativity, lineSize);
    var idxBits := Log2Floor(setCount);
    var offsetBits := Log2Floor(lineSize);
    var tagBits := addressWidth - idxBits - offsetBits;
    Geometry(setCount, idxBits, offsetBits, tagBits,
             Shl(Ones(idxBits), offsetBits),
             Ones(offsetBits),
             Shl(Ones(tagBits), offsetBits + idxBits))
  }

  /** A geometry as the constructor leaves it, for some valid arguments. */
  ghost predicate ValidGeometry(g: Geometry)
  {
    exists size: u32, associativity: u32, lineSize: u32, addressWidth: u32 ::
      ValidConfig(size, associativity, lineSize, addressWidth) &&
      g == GeometryOf(size, associativity, lineSize, addressWidth)
  }

  /** The facts about a geometry that the rest of the model relies on. */
  predicate WellShaped(g: Geometry)
  {
    && g.setCount >= 1
    && Pow2(g.idxBits) <= g.setCount
    && g.idxBits + g.offsetBits <= 31
    && g.tagBits <= 31
    && g.offsetMask == Ones(g.offsetBits)
    && g.idxMask == Shl(Ones(g.idxBits), g.offsetBits)
    && g.tagMask == Shl(Ones(g.tagBits), g.offsetBits + g.idxBits)
  }

  /** The sets, lines and ways never take more room than the cache size. */
  lemma SetCountFits(size: u32, associativity: u32, lineSize: u32)
    requires lineSize * associativity > 0
    ensures SetCountOf(size, associativity, lineSize) * lineSize <= size
  {
    var d := lineSize * associativity;
    var n := size / d;
    DivMulLe(size, d);
    FactorLe(n, lineSize, associativity);
  }

  lemma DivMulLe(a: nat, d: nat)
    requires d > 0
    ensures (a / d) * d <= a
  {
  }

  lemma FactorLe(n: nat, l: nat, k: nat)
    requires l * k > 0
    ensures n * l <= n * (l * k)
  {
    MulLeMonotone(1, k, n * l);
    assert n * (l * k) == k * (n * l);
  }

  /** Two powers of two whose product fits below a 32-bit value have
      exponents summing to at most 31. */
  lemma ExponentsFit(i: nat, o: nat, a: nat, b: nat)
    requires Pow2(i) <= a && Pow2(o) <= b && a * b < 0x1_0000_0000
    ensures i + o <= 31
  {
    Pow2Add(i, o);
    MulLeMonotone(Pow2(i), a, Pow2(o));
    MulLeMonotone(Pow2(o), b, a);
    Pow2Monotone(32, i + o);
    Pow2Values();
  }

  /**
   * The bit counts are floor(log2) of the set count and the line size, and
   * together they fit the 32-bit `unsigned` the cache size is.
   */
  lemma GeometryOfShape(size: u32, associativity: u32, lineSize: u32, addressWidth: u32)
    requires ValidConfig(size, associativity, lineSize, addressWidth)
    ensures var g := GeometryOf(size, associativity, lineSize, addressWidth);
      && WellShaped(g)
      && g.setCount * lineSize <= size
      && Pow2(g.offsetBits) <= lineSize < Pow2(g.offsetBits + 1)
      && Pow2(g.idxBits) <= g.setCount < Pow2(g.idxBits + 1)
      && g.idxBits + g.offsetBits + g.tagBits == addressWidth
  {
    var n := SetCountOf(size, associativity, lineSize);
    SetCountFits(size, associativity, lineSize);
    Log2FloorBounds(n);
    Log2FloorBounds(lineSize);
    ExponentsFit(Log2Floor(n), Log2Floor(lineSize), n, lineSize);
  }

  lemma ValidGeometryShape(g: Geometry)
    requires ValidGeometry(g)
    ensures WellShaped(g)
  {
    var size: u32, associativity: u32, lineSize: u32, addressWidth: u32 :|
      ValidConfig(size, associativity, lineSize, addressWidth) &&
      g == GeometryOf(size, associativity, lineSize, addressWidth);
    GeometryOfShape(size, associativity, lineSize, addressWidth);
  }

  /** When line size and set count are powers of two, the bit counts are
      their exact logarithms: every set and every offset is addressable. */
  lemma ExactBitsForPowersOfTwo(size: u32, associativity: u32, lineSize: u32, addressWidth: u32, s: nat, o: nat)
    requires ValidConfig(size, associativity, lineSize, addressWidth)
    requires lineSize == Pow2(o) && SetCountOf(size, associativity, lineSize) == Pow2(s)
    ensures GeometryOf(size, associativity, lineSize, addressWidth).offsetBits == o
    ensures GeometryOf(size, associativity, lineSize, addressWidth).idxBits == s
  {
    Log2FloorPow2(o);
    Log2FloorPow2(s);
  }

  // ---------------------------------------------------------------------
  // The constructor's loops
  // ---------------------------------------------------------------------

  /** `while (temp >>= 1) ++bits;` */
  method FloorLog2(x: u32) returns (bits: nat)
    ensures bits == Log2Floor(x)
  {
    var temp: nat := x;
    bits := 0;
    while true
      invariant bits + Log2Floor(temp) == Log2Floor(x)
      decreases temp
    {
      var shifted := temp / 2;
      if shifted == 0 {
        break;
      }
      temp := shifted;
      bits := bits + 1;
    }
  }

  /** `for (i = 0; i < n; i++) mask |= (1 << i);` where `1 << i` is an `int`
      shift, which stays positive while i <= 30. */
  method LowMask(n: nat) returns (mask: nat)
    requires n <= 31
    ensures mask == Ones(n)
  {
    mask := 0;
    for i := 0 to n
      invariant mask == Ones(i)
    {
      mask := Or(mask, Pow2(i));
      OrOnesPow2(i);
    }
  }

  /** `x << k` on an `unsigned long long`. */
  function Shl64(x: nat, k: nat): u64
  {
    Shl(x, k) % 0x1_0000_0000_0000_0000
  }

  /** A shift that stays within 64 bits is not truncated. */
  lemma Shl64Exact(x: nat, k: nat, n: nat)
    requires x < Pow2(n) && k + n <= 64
    ensures Shl64(x, k) == Shl(x, k)
  {
    ShlBound(x, k, n);
    Pow2Monotone(k + n, 64);
    Pow2Values();
  }

  /** The geometry and mask computation of the constructor. */
  method ComputeGeometry(size: u32, associativity: u32, lineSize: u32, addressWidth: u32)
    returns (g: Geometry)
    requires ValidConfig(size, associativity, lineSize, addressWidth)
    ensures g == GeometryOf(size, associativity, lineSize, addressWidth)
  {
    GeometryOfShape(size, associativity, lineSize, addressWidth);
    var setCount := size / (lineSize * associativity);
    var idxBits := FloorLog2(setCount);
    var offsetBits := FloorLog2(lineSize);
    var tagBits := addressWidth - idxBits - offsetBits;

    var offsetMask := LowMask(offsetBits);

    var idxMask := LowMask(idxBits);
    Shl64Exact(idxMask, offsetBits, idxBits);
    idxMask := Shl64(idxMask, offsetBits);

    var tagMask := LowMask(tagBits);
    Shl64Exact(tagMask, offsetBits + idxBits, tagBits);
    tagMask := Shl64(tagMask, offsetBits + idxBits);

    g := Geometry(setCount, idxBits, offsetBits, tagBits, idxMask, offsetMask, tagMask);
  }

  // ---------------------------------------------------------------------
  // Mask layout
  // ---------------------------------------------------------------------

  /** offset_mask holds exactly bits [0, offset_bits), idx_mask exactly bits
      [offset_bits, offset_bits + idx_bits) and tag_mask exactly the bits from
      there up to the address width. */
  lemma MaskBits(g: Geometry, k: nat)
    requires WellShaped(g)
    ensures Bit(g.offsetMask, k) == (if k < g.offsetBits then 1 else 0)
    ensures Bit(g.idxMask, k) == (if g.offsetBits <= k < g.offsetBits + g.idxBits then 1 else 0)
    ensures Bit(g.tagMask, k) ==
      (if g.offsetBits + g.idxBits <= k < g.offsetBits + g.idxBits + g.tagBits then 1 else 0)
  {
    BitOfOnes(g.offsetBits, k);
    BitOfShl(Ones(g.idxBits), g.offsetBits, k);
    if k >= g.offsetBits {
      BitOfOnes(g.idxBits, k - g.offsetBits);
    }
    BitOfShl(Ones(g.tagBits), g.offsetBits + g.idxBits, k);
    if k >= g.offsetBits + g.idxBits {
      BitOfOnes(g.tagBits, k - g.offsetBits - g.idxBits);
    }
  }

  /** A field of low bits and a field shifted above it share no bit. */
  lemma {:induction false} LowBelowShifted(o: nat, m: nat, k: nat)
    requires o <= k
    ensures And(Ones(o), Shl(m, k)) == 0
  {
    AndShifted(Ones(o), m, k);
    Pow2Monotone(o, k);
    ShrBound(Ones(o), k, 0);
    ShlZero(k);
  }

  lemma IdxTagDisjoint(o: nat, i: nat, t: nat)
    ensures And(Shl(Ones(i), o), Shl(Ones(t), o + i)) == 0
  {
    ShlShl(Ones(t), i, o);
    assert Shl(Ones(t), o + i) == Shl(Shl(Ones(t), i), o);
    AndShifted(Shl(Ones(i), o), Shl(Ones(t), i), o);
    ShrShl(Ones(i), o);
    LowBelowShifted(i, Ones(t), i);
    ShlZero(o);
  }

  lemma MaskSum(o: nat, i: nat, t: nat)
    ensures Ones(o) + Shl(Ones(i), o) + Shl(Ones(t), o + i) == Ones(o + i + t)
  {
    ShlIsMul(Ones(i), o);
    ShlIsMul(Ones(t), o + i);
    Pow2Add(o, i);
    Pow2Add(o + i, t);
    TelescopingSum(Pow2(o), Pow2(i), Pow2(t));
  }

  lemma TelescopingSum(p: int, q: int, r: int)
    ensures (p - 1) + (q - 1) * p + (r - 1) * (p * q) == (p * q) * r - 1
  {
  }

  /** The three masks share no bit and together cover the address width. */
  lemma MasksPartitionAddress(g: Geometry)
    requires WellShaped(g)
    ensures And(g.offsetMask, g.idxMask) == 0
    ensures And(g.offsetMask, g.tagMask) == 0
    ensures And(g.idxMask, g.tagMask) == 0
    ensures g.offsetMask + g.idxMask + g.tagMask == Ones(g.offsetBits + g.idxBits + g.tagBits)
  {
    var o, i, t := g.offsetBits, g.idxBits, g.tagBits;
    LowBelowShifted(o, Ones(i), o);
    LowBelowShifted(o, Ones(t), o + i);
    IdxTagDisjoint(o, i, t);
    MaskSum(o, i, t);
  }

  // ---------------------------------------------------------------------
  // Splitting an address (cache.cc:223-226 and 261-264)
  // ---------------------------------------------------------------------

  /** `set = address & idx_mask; set >>= offset_bits;` where `set` is a 32-bit
      `unsigned`, so the masked address is truncated before the shift. */
  function SetIndex(g: Geometry, address: u64): u32
  {
    ShrLe(And(address, g.idxMask) % 0x1_0000_0000, g.offsetBits);
    Shr(And(address, g.idxMask) % 0x1_0000_0000, g.offsetBits)
  }

  /** `tag = address & tag_mask; tag >>= (idx_bits + offset_bits);` */
  function TagOf(g: Geometry, address: u64): u64
  {
    AndLe(address, g.tagMask);
    ShrLe(And(address, g.tagMask), g.idxBits + g.offsetBits);
    Shr(And(address, g.tagMask), g.idxBits + g.offsetBits)
  }

  /** The set index is the idx_bits-wide field above the offset: the 32-bit
      truncation loses nothing, and the index is always a valid set. */
  lemma SetIndexField(g: Geometry, address: u64)
    requires WellShaped(g)
    ensures SetIndex(g, address) == Low(Shr(address, g.offsetBits), g.idxBits)
    ensures SetIndex(g, address) < g.setCount
  {
    var o, i := g.offsetBits, g.idxBits;
    var f := Low(Shr(address, o), i);
    AndField(address, i, o);
    LowBound(Shr(address, o), i);
    TruncateField(f, o, i);
  }

  /** A field of n bits shifted by o, with o + n <= 31, survives truncation
      to 32 bits and shifts back to itself. */
  lemma TruncateField(f: nat, o: nat, n: nat)
    requires f < Pow2(n) && o + n <= 31
    ensures Shr(Shl(f, o) % 0x1_0000_0000, o) == f
  {
    var x := Shl(f, o);
    ShlBound(f, o, n);
    Pow2Monotone(o + n, 32);
    Pow2Values();
    ModSmall(x, 0x1_0000_0000);
    ShrShl(f, o);
  }

  lemma ModSmall(x: nat, m: nat)
    requires x < m
    ensures x % m == x
  {
  }

    /** Every address selects an existing set. */
  ghost predicate IndexInRange(g: Geometry)
  {
    forall a: u64 :: SetIndex(g, a) < g.setCount
  }

  lemma WellShapedIndexInRange(g: Geometry)
    requires WellShaped(g)
    ensures IndexInRange(g)
  {
    forall a: u64
      ensures SetIndex(g, a) < g.setCount
    {
      SetIndexField(g, a);
    }
  }

  /** The tag is the tag_bits-wide field above index and offset, so it is
      below 2^31 and never equals the invalid marker. */
  lemma TagField(g: Geometry, address: u64)
    requires WellShaped(g)
    ensures TagOf(g, address) == Low(Shr(address, g.offsetBits + g.idxBits), g.tagBits)
    ensures TagOf(g, address) < Pow2(g.tagBits) <= 0x8000_0000
    ensures TagOf(g, address) != UNDEFINED
  {
    var s, t := g.offsetBits + g.idxBits, g.tagBits;
    AndField(address, t, s);
    ShrShl(Low(Shr(address, s), t), s);
    LowBound(Shr(address, s), t);
    Pow2Monotone(t, 31);
    Pow2Values();
  }

  /** An address of address_width bits is recovered from its tag, set index
      and offset: the split loses nothing. */
  lemma AddressSplitsExactly(g: Geometry, address: u64)
    requires WellShaped(g)
    requires address < Pow2(g.offsetBits + g.idxBits + g.tagBits)
    ensures address ==
      Shl(TagOf(g, address), g.offsetBits + g.idxBits) +
      Shl(SetIndex(g, address), g.offsetBits) +
      And(address, g.offsetMask)
  {
    var o, i, t := g.offsetBits, g.idxBits, g.tagBits;
    SetIndexField(g, address);
    TagField(g, address);
    AndOnes(address, o);
    var hi := Shr(address, o);
    SplitLow(address, o);
    SplitLow(hi, i);
    ShrShr(address, o, i);
    ShrBound(address, o + i, t);
    LowSmall(Shr(address, o + i), t);
    ShlAdd(Shl(Shr(hi, i), i), Low(hi, i), o);
    ShlShl(Shr(hi, i), i, o);
  }
}
