/**
 * How Create and CreateFreeThreaded pass a SizeInt32 (Width, Height, both 32-bit
 * signed) by value: as a single 64-bit argument word.
 */
module SizePacking {
  import opened GoWords

  newtype Int32 = x: int | -0x8000_0000 <= x < 0x8000_0000

  /** Windows.Graphics.SizeInt32: Width at offset 0, Height at offset 4. */
  datatype SizeInt32 = SizeInt32(width: Int32, height: Int32)

  /** The low 32 bits of x, unsigned (Go's `uint32(x)`). */
  function Uint32(x: int): (u: nat)
    ensures u < TWO_32
  {
    x % TWO_32
  }

  /** Reads 32 bits as a two's complement signed value. */
  function AsInt32(u: nat): (x: Int32)
    requires u < TWO_32
    ensures x as int % TWO_32 == u
  {
    if u < TWO_31 then u as Int32 else (u - TWO_32) as Int32
  }

  /** `uintptr(size.Width)<<32 + uintptr(size.Height)`, with uintptr's 64-bit wrap-around. */
  function PackSize(s: SizeInt32): (w: nat)
    ensures w < TWO_64
    ensures w % TWO_32 == Uint32(s.height as int)
  {
    PackSizeLowHalf(Uintptr(s.width as int) * TWO_32 % TWO_64, Uintptr(s.height as int));
    (Uintptr(s.width as int) * TWO_32 % TWO_64 + Uintptr(s.height as int)) % TWO_64
  }

  /** The word read back in the packer's own layout: Width in the high half, Height in the low half. */
  function UnpackSize(w: nat): SizeInt32
    requires w < TWO_64
  {
    SizeInt32(AsInt32(w / TWO_32), AsInt32(w % TWO_32))
  }

  /**
   * The word read as the callee reads an 8-byte structure passed by value on x64:
   * the structure's memory image, so the field at offset 0 (Width) is the low half.
   */
  function StructFromWord(w: nat): SizeInt32
    requires w < TWO_64
  {
    SizeInt32(AsInt32(w % TWO_32), AsInt32(w / TWO_32))
  }

  /** Splitting hi * 2^32 + lo into its halves. */
  lemma HalvesOf(hi: int, lo: int)
    requires 0 <= hi < TWO_32 && 0 <= lo < TWO_32
    ensures 0 <= hi * TWO_32 + lo < TWO_64
    ensures (hi * TWO_32 + lo) / TWO_32 == hi
    ensures (hi * TWO_32 + lo) % TWO_32 == lo
  {
  }

  /** Adding a multiple of 2^32 does not change the low half of a 64-bit sum. */
  lemma PackSizeLowHalf(high: int, low: int)
    requires 0 <= high < TWO_64 && high % TWO_32 == 0 && 0 <= low < TWO_64
    ensures (high + low) % TWO_64 % TWO_32 == low % TWO_32
  {
    var sum := high + low;
    var k := high / TWO_32;
    assert high == k * TWO_32;
    assert sum % TWO_64 == sum || sum % TWO_64 == sum - TWO_64;
    assert TWO_64 == (TWO_32 * TWO_32);
  }

  /** With a negative Height the packed word is (Width - 1) * 2^32 + the low 32 bits of Height. */
  lemma PackSizeHighLow(w: int, h: int)
    requires -TWO_31 < w < TWO_31 && -TWO_31 <= h < 0
    ensures 0 <= Uint32(w - 1) < TWO_32 && 0 <= Uint32(h) < TWO_32
    ensures PackSize(SizeInt32(w as Int32, h as Int32)) == Uint32(w - 1) * TWO_32 + Uint32(h)
  {
    assert Uintptr(h) == h + TWO_64;
    assert Uint32(h) == h + TWO_32;
    if w >= 1 {
      assert Uintptr(w) == w;
      assert Uint32(w - 1) == w - 1;
      assert w * TWO_32 < TWO_64;
      assert Uintptr(w) * TWO_32 % TWO_64 == w * TWO_32;
    } else if w == 0 {
      assert Uint32(w - 1) == TWO_32 - 1;
      assert Uintptr(w) * TWO_32 % TWO_64 == 0;
    } else {
      assert Uintptr(w) == w + TWO_64;
      assert Uint32(w - 1) == w - 1 + TWO_32;
      assert (w + TWO_64) * TWO_32 == w * TWO_32 + TWO_64 * TWO_32;
      assert Uintptr(w) * TWO_32 % TWO_64 == w * TWO_32 + TWO_64;
    }
  }

  /** For non-negative dimensions the packed word is exactly Width * 2^32 + Height. */
  lemma PackSizeNonNegative(s: SizeInt32)
    requires s.width >= 0 && s.height >= 0
    ensures PackSize(s) == s.width as int * TWO_32 + s.height as int
  {
    var w, h := s.width as int, s.height as int;
    assert Uintptr(w) == w && Uintptr(h) == h;
    assert w * TWO_32 < TWO_64 by {
      assert w < TWO_31;
    }
    assert w * TWO_32 % TWO_64 == w * TWO_32;
  }

  /** Both dimensions are recoverable from the packed word when neither is negative. */
  lemma PackSizeRoundTrip(s: SizeInt32)
    requires s.width >= 0 && s.height >= 0
    ensures UnpackSize(PackSize(s)) == s
  {
    PackSizeNonNegative(s);
    HalvesOf(s.width as int, s.height as int);
  }

  /**
   * A negative Height is sign-extended into the high half: read back, Width comes
   * out one less than it went in (Height itself survives in the low half).
   */
  lemma PackSizeNegativeHeight(s: SizeInt32)
    requires s.height < 0 && s.width as int > -TWO_31
    ensures UnpackSize(PackSize(s)) == SizeInt32(s.width - 1, s.height)
  {
    var w, h := s.width as int, s.height as int;
    assert Uintptr(h) == h + TWO_64;
    var hi, lo := Uint32(w - 1), Uint32(h);
    HalvesOf(hi, lo);
    PackSizeHighLow(w, h);
    assert AsInt32(hi) as int == w - 1;
    assert AsInt32(lo) == s.height;
  }

  /**
   * The callee, reading the word as the structure's memory image, sees Width and
   * Height exchanged whenever both are non-negative.
   */
  lemma PackSizeTransposes(s: SizeInt32)
    requires s.width >= 0 && s.height >= 0
    ensures StructFromWord(PackSize(s)) == SizeInt32(s.height, s.width)
  {
    PackSizeNonNegative(s);
    HalvesOf(s.width as int, s.height as int);
  }

  /** A 1920x1080 pool arrives as 1080x1920. */
  lemma PackSizeTransposesFullHd()
    ensures StructFromWord(PackSize(SizeInt32(1920, 1080))) == SizeInt32(1080, 1920)
  {
    PackSizeTransposes(SizeInt32(1920, 1080));
  }

  /** The structure's memory image as one word: Width in the low half, Height in the high half. */
  function PackSizeStruct(s: SizeInt32): (w: nat)
    ensures w < TWO_64
  {
    HalvesOf(Uint32(s.height as int), Uint32(s.width as int));
    Uint32(s.height as int) * TWO_32 + Uint32(s.width as int)
  }

  /** Every SizeInt32, negative dimensions included, reaches the callee unchanged. */
  lemma PackSizeStructRoundTrip(s: SizeInt32)
    ensures StructFromWord(PackSizeStruct(s)) == s
  {
    var w, h := Uint32(s.width as int), Uint32(s.height as int);
    HalvesOf(h, w);
    assert AsInt32(w) == s.width;
    assert AsInt32(h) == s.height;
  }
}
