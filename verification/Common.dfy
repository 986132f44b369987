/** Types shared by every model: machine bytes, optional values and outcomes. */
module Common {

  /** An 8-bit unsigned byte. */
  newtype Byte = b: int | 0 <= b < 256

  const TWO_TO_THE_32: nat := 0x1_0000_0000
  const TWO_TO_THE_64: nat := 0x1_0000_0000_0000_0000
  const SIZE_MAX: nat := TWO_TO_THE_64 - 1

  datatype Option<+T> = None | Some(value: T)

  /** What a call gives back: a value, or the error the source throws or returns. */
  datatype Result<+T, +E> = Ok(value: T) | Err(error: E)
}

/** Facts about multiplication and division by a variable, proved once. */
module Arithmetic {

  lemma {:induction false} Grows(d: nat, b: nat)
    requires d > 0
    ensures d * b >= b
  {
    if d > 1 {
      Grows(d - 1, b);
      assert d * b == (d - 1) * b + b;
    }
  }

  /** A multiple of `b` that is smaller than `b` in size is zero. */
  lemma NoGap(d: int, b: nat, r: nat)
    requires r < b && d * b == r
    ensures d == 0 && r == 0
  {
    assert (-d) * b == -(d * b);
    if d > 0 {
      Grows(d, b);
    } else if d < 0 {
      Grows(-d, b);
    }
  }

  lemma Multiple(n: nat, b: nat, q: nat)
    requires b > 0 && n == q * b
    ensures n % b == 0 && n / b == q
  {
    var q', r := n / b, n % b;
    assert n == q' * b + r;
    assert (q - q') * b == q * b - q' * b;
    NoGap(q - q', b, r);
  }

  /** Quotient and remainder are determined by what they add up to. */
  lemma DivModUnique(n: nat, b: nat, q: nat, r: nat)
    requires r < b && n == q * b + r
    ensures n / b == q && n % b == r
  {
    var q', r' := n / b, n % b;
    assert n == q' * b + r';
    assert (q - q') * b == q * b - q' * b == r' - r;
    if r' >= r {
      NoGap(q - q', b, r' - r);
    } else {
      assert (q' - q) * b == q' * b - q * b;
      NoGap(q' - q, b, r - r');
    }
  }
}
