/** include/unified_buffer/core/checked_math.hpp: overflow-checked helpers on size_t, a 64-bit
    word modelled by its value. */
module CheckedMath {
  import opened Words
  import opened Wrappers

  const MAX_SIZE: nat := 0xFFFF_FFFF_FFFF_FFFF

  type Size = n: nat | n <= MAX_SIZE

  /** add_overflow, with its out parameter as the value of the option. */
  function AddOverflow(a: Size, b: Size): Option<Size> {
    if b > MAX_SIZE - a then None else Some(a + b)
  }

  /** Complement of a word, then mask: clears exactly the bits of the mask. */
  function AndNot(x: nat, mask: nat): (r: int) {
    x - And(x, mask)
  }

  function AlignUp(value: Size, alignment: Size): Option<Size> {
    if alignment == 0 || And(alignment, alignment - 1) != 0 then None
    else if value > MAX_SIZE - (alignment - 1) then None
    else
      var r := AndNot(value + (alignment - 1), alignment - 1);
      assert 0 <= r <= MAX_SIZE by {
        AlignArithmetic(value + (alignment - 1), alignment);
      }
      Some(r)
  }

  predicate IsAligned(value: Size, alignment: Size) {
    alignment != 0 && And(alignment, alignment - 1) == 0 && And(value, alignment - 1) == 0
  }

  /** Unlike its siblings, align_down does not reject an alignment that is not a power of two. */
  function AlignDown(value: Size, alignment: Size): int {
    if alignment == 0 then value else AndNot(value, alignment - 1)
  }

  /** The bounds test is the mathematical one: no offset or length can wrap past it. */
  predicate RangeInBounds(offset: Size, length: Size, total: Size): (r: bool)
    ensures r <==> offset + length <= total
  {
    match AddOverflow(offset, length)
    case None => false
    case Some(end) => end <= total
  }

  // ------------------------------------------------------------------ what they promise

  /** For a power of two the bit tricks are arithmetic. */
  lemma AlignArithmetic(x: nat, a: nat)
    requires a > 0 && And(a, a - 1) == 0
    ensures And(x, a - 1) == x % a
    ensures 0 <= AndNot(x, a - 1) <= x && AndNot(x, a - 1) % a == 0
  {
    Pow2Test(a);
    var k: nat :| a == Pow2(k);
    AndMask(x, k);
    Remainder(x, a);
  }

  lemma Remainder(x: nat, a: nat)
    requires a > 0
    ensures 0 <= x - x % a <= x && (x - x % a) % a == 0
  {
    var q := x / a;
    assert x == a * q + x % a;
    ModUnique(x - x % a, a, q, 0);
  }

  /** align_up succeeds exactly when the alignment is a power of two and the result exists,
      and then it is the least multiple of the alignment that is not below the value. */
  lemma AlignUpIsLeastMultiple(value: Size, alignment: Size)
    ensures AlignUp(value, alignment).Some? <==>
            alignment > 0 && IsPow2(alignment) && value + alignment - 1 <= MAX_SIZE
    ensures AlignUp(value, alignment).Some? ==>
            var r := AlignUp(value, alignment).value;
            && value <= r < value + alignment
            && r % alignment == 0
            && forall m: nat :: value <= m && m % alignment == 0 ==> r <= m
  {
    if alignment > 0 {
      Pow2Test(alignment);
      if AlignUp(value, alignment).Some? {
        var x, a := value + (alignment - 1), alignment;
        AlignArithmetic(x, a);
        var r := AlignUp(value, alignment).value;
        assert r == x - x % a;
        forall m: nat | value <= m && m % a == 0 ensures r <= m {
          MultipleGap(r, m, a, value);
        }
      }
    }
  }

  /** Two multiples that lie less than one alignment apart coincide. */
  lemma MultipleGap(r: nat, m: nat, a: nat, value: nat)
    requires a > 0 && r % a == 0 && m % a == 0
    requires value <= m && r < value + a
    ensures r <= m
  {
    var p, q := r / a, m / a;
    assert r == a * p && m == a * q;
    assert a * (p - q) == a * p - a * q;
    if q < p {
      AtLeast(a, p - q);
    }
  }

  lemma IsAlignedMeansDivides(value: Size, alignment: Size)
    ensures IsAligned(value, alignment) <==> alignment > 0 && IsPow2(alignment) && value % alignment == 0
  {
    if alignment > 0 {
      Pow2Test(alignment);
      if And(alignment, alignment - 1) == 0 {
        AlignArithmetic(value, alignment);
      }
    }
  }

  /** align_down yields the greatest multiple not above the value when the alignment is a power of two. */
  lemma AlignDownIsGreatestMultiple(value: Size, alignment: Size)
    requires alignment > 0 && IsPow2(alignment)
    ensures AlignDown(value, alignment) <= value < AlignDown(value, alignment) + alignment
    ensures AlignDown(value, alignment) % alignment == 0
  {
    Pow2Test(alignment);
    AlignArithmetic(value, alignment);
  }

  /** Without the power-of-two test the result can fail to be a multiple. */
  lemma AlignDownUnchecked()
    ensures AlignDown(7, 6) == 2 && AlignDown(7, 6) % 6 != 0
  {
    assert And(7, 5) == 5;
  }
}
