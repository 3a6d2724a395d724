/** Java's 32-bit `int` and the two integer operators whose meaning differs from Dafny's. */
module JavaArith {

  const TwoTo31: int := 0x8000_0000
  const TwoTo32: int := 0x1_0000_0000

  /** Java's `int`. */
  newtype int32 = x: int | -0x8000_0000 <= x < 0x8000_0000

  predicate InInt32(x: int) {
    -TwoTo31 <= x < TwoTo31
  }

  /** Two's complement wrap-around of a mathematical result to 32 bits, as Java's `+` and `-` on `int` do. */
  function Wrap32(x: int): (r: int32)
    ensures (x - r as int) % TwoTo32 == 0
    ensures InInt32(x) ==> r as int == x
  {
    var w := (x + TwoTo31) % TwoTo32 - TwoTo31;
    assert (x - w) == ((x + TwoTo31) / TwoTo32) * TwoTo32;
    w as int32
  }

  /** Java's `/` on integers: the quotient of the magnitudes, truncated toward zero, with the sign of `a * b`. */
  function JavaQuot(a: int, b: int): (q: int)
    requires b != 0
    ensures Abs(q) == Abs(a) / Abs(b)
  {
    var x, y := Abs(a), Abs(b);
    var n := x / y;
    assert n >= 0 by {
      assert x == y * n + x % y && 0 <= x % y < y;
      if n < 0 {
        assert false;
      }
    }
    if (a >= 0) == (b >= 0) then n else -n
  }

  /** Java's `%`: the remainder takes the sign of `a`; `JavaRemIsRemainder` ties it to `JavaQuot`. */
  function JavaRem(a: int, b: int): (r: int)
    requires b != 0
    ensures a >= 0 ==> 0 <= r
    ensures a < 0 ==> r <= 0
    ensures Abs(r) < Abs(b)
  {
    var mag := Abs(a) % Abs(b);
    if a >= 0 then mag else -mag
  }

  /** Java's division identity `(a / b) * b + a % b == a`, for every `a` and every `b != 0`. */
  lemma JavaRemIsRemainder(a: int, b: int)
    requires b != 0
    ensures a == b * JavaQuot(a, b) + JavaRem(a, b)
  {
    var q, mag := Abs(a) / Abs(b), Abs(a) % Abs(b);
    assert Abs(a) == Abs(b) * q + mag;
    assert b * JavaQuot(a, b) == if a >= 0 then Abs(b) * q else -(Abs(b) * q) by {
      if b >= 0 {
        assert b == Abs(b);
      } else {
        assert Abs(b) == -b;
      }
    }
  }

  function Abs(x: int): (r: nat)
    ensures r == x || r == -x
  {
    if x < 0 then -x else x
  }

  /** Java's `key % 2 != 0` holds exactly of the mathematically odd keys, negative ones included. */
  lemma JavaRemTwoIsOddness(key: int)
    ensures JavaRem(key, 2) != 0 <==> key % 2 == 1
  {
  }
}
