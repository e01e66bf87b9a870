/** The branch-free absolute value of Math/Abs.cs (used by the dynamic filter). */
module Math {
  import opened Base
  import opened Words

  /**
   * `mask = value >> 31; (value ^ mask) - mask`. It is |value| for every
   * value but int.MinValue, whose negation wraps back to int.MinValue.
   */
  function Abs(value: int32): (r: int32)
    ensures value as int != INT32_MIN ==> r as int == if value < 0 then -(value as int) else value as int
    ensures value as int == INT32_MIN ==> r == value
  {
    var mask := Sar31(value);
    var flipped := XorInt(value, mask);
    XorSignMask(value);
    SignMask(value);
    var diff := flipped as int - mask as int;
    assert diff == if value < 0 then -(value as int) else value as int;
    assert value as int == INT32_MIN ==> Wrap32(diff) as int == INT32_MIN by {
      if value as int == INT32_MIN {
        assert diff == 0x8000_0000;
      }
    }
    SubInt(flipped, mask)
  }
}

/** The same routine, kept by the source a second time as PinguMath.Abs. */
module PinguMath {
  import opened Base
  import opened Words

  function Abs(value: int32): (r: int32)
    ensures value as int != INT32_MIN ==> r as int == if value < 0 then -(value as int) else value as int
    ensures value as int == INT32_MIN ==> r == value
  {
    var mask := Sar31(value);
    var flipped := XorInt(value, mask);
    XorSignMask(value);
    SignMask(value);
    var diff := flipped as int - mask as int;
    assert diff == if value < 0 then -(value as int) else value as int;
    assert value as int == INT32_MIN ==> Wrap32(diff) as int == INT32_MIN by {
      if value as int == INT32_MIN {
        assert diff == 0x8000_0000;
      }
    }
    SubInt(flipped, mask)
  }
}
