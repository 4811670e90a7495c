/** Option, Result and the error values shared by the pricing modules, with the
    checked 256-bit operations the source calls on `U256`. */
module Common {

  datatype Option<+T> = None | Some(value: T)

  datatype Error =
    | TokenNotInPair
    | Overflow
    | Underflow
    | FeeTooLarge
    | InsufficientLiquidity
    | ZeroDenominator
    | NoRoute
    | NoPrice
    | Panicked
    | Diverges
  {
    /** Whether a caller gets to see it: a subtraction that aborts on a fee above 100%, any other
        panic and an endless loop hand nothing back. */
    predicate Returned() { this !in {FeeTooLarge, Panicked, Diverges} }
  }

  datatype Result<+T> = Ok(value: T) | Err(error: Error) {
    predicate IsFailure() { Err? }

    /** The call comes back, with a value or with an error. */
    predicate Returns() { Ok? || error.Returned() }

    function PropagateFailure<U>(): Result<U>
      requires Err?
    {
      Err(error)
    }

    function Extract(): T
      requires Ok?
    {
      value
    }
  }

  /** `unwrap_or(ZERO)`: an error that comes back counts as zero. */
  function OrZero(r: Result<nat>): Result<nat> { if r.Err? && r.error.Returned() then Ok(0) else r }

  /** `ok()`: an error that comes back counts as nothing. */
  function OrNone(r: Result<nat>): Result<Option<nat>> {
    match r
    case Ok(v) => Ok(Some(v))
    case Err(e) => if e.Returned() then Ok(None) else Err(e)
  }

  const TWO_256: nat := 0x1_0000_0000_0000_0000_0000_0000_0000_0000_0000_0000_0000_0000_0000_0000_0000_0000

  /** The operators `*` and `/` on 256-bit words, as the source spells them out, by the schoolbook
      recursions.  `MulIs` and `DivIs` tie them to the mathematical product and quotient, in which
      the theorems are stated. */
  function Mul(x: nat, y: nat): nat
    decreases y
  {
    if y == 0 then 0 else x + Mul(x, y - 1)
  }

  function Div(n: nat, d: nat): nat
    requires d > 0
    decreases n
  {
    if n < d then 0 else 1 + Div(n - d, d)
  }

  function CheckedMul(x: nat, y: nat): Result<nat> {
    if Mul(x, y) < TWO_256 then Ok(Mul(x, y)) else Err(Overflow)
  }

  function CheckedAdd(x: nat, y: nat): Result<nat> {
    if x + y < TWO_256 then Ok(x + y) else Err(Overflow)
  }

  function CheckedSub(x: nat, y: nat): Result<nat> {
    if y <= x then Ok(x - y) else Err(Underflow)
  }

  function SumNat(s: seq<nat>): nat {
    if s == [] then 0 else s[0] + SumNat(s[1..])
  }

  function Min(x: real, y: real): real { if x <= y then x else y }

  function Max(x: real, y: real): real { if x >= y then x else y }

  lemma {:induction false} SumAppend(a: seq<nat>, b: seq<nat>)
    ensures SumNat(a + b) == SumNat(a) + SumNat(b)
    decreases a
  {
    if a == [] {
      assert a + b == b;
    } else {
      assert (a + b)[1..] == a[1..] + b;
      SumAppend(a[1..], b);
    }
  }

  // ----- floor division and products, one fact at a time

  lemma {:induction false} MulIs(x: nat, y: nat)
    ensures Mul(x, y) == x * y
  {
    if y == 0 {
    } else {
      MulIs(x, y - 1);
      assert x * y == x + x * (y - 1);
    }
  }

  lemma {:induction false} FloorLe(n: nat, d: nat, q: int)
    requires d > 0
    ensures q <= Div(n, d) <==> q * d <= n
  {
    if q <= 0 {
      MulMono(q, 0, d);
    } else if n < d {
      MulMono(1, q, d);
    } else {
      FloorLe(n - d, d, q - 1);
      assert q * d == (q - 1) * d + d;
    }
  }

  lemma DivIs(n: nat, d: nat)
    requires d > 0
    ensures Div(n, d) * d <= n < (Div(n, d) + 1) * d
  {
    FloorLe(n, d, Div(n, d));
    FloorLe(n, d, Div(n, d) + 1);
  }

  lemma MulMono(x: int, y: int, z: nat)
    requires x <= y
    ensures x * z <= y * z
  {
  }

  lemma MulCancel(x: int, y: int, z: nat)
    requires z > 0 && x * z <= y * z
    ensures x <= y
  {
    if y + 1 <= x { MulMono(y + 1, x, z); }
  }

  lemma MulPositive(x: nat, y: nat)
    ensures x * y > 0 <==> x > 0 && y > 0
  {
  }

  /** Rounding up: the least multiple count of `d` that reaches `n`. */
  lemma CeilLe(n: nat, d: nat, y: nat)
    requires d > 0
    ensures Remainder(n, d) < d
    ensures y * d >= n <==> y >= Div(n, d) + (if Remainder(n, d) == 0 then 0 else 1)
  {
    DivIs(n, d);
    var f := Div(n, d);
    hide Div;
    if y <= f { MulMono(y, f, d); } else { MulMono(f + 1, y, d); }
    if y < f { MulMono(y + 1, f, d); }
  }

  /** What the floor division leaves. */
  function Remainder(n: nat, d: nat): (r: nat)
    requires d > 0
    ensures n == Div(n, d) * d + r
  {
    DivIs(n, d);
    n - Div(n, d) * d
  }

  // ----- products of reals, one fact at a time

  function Times(x: real, y: real): real { x * y }

  lemma TimesAdd(x: real, y: real, z: real)
    ensures Times(x + y, z) == Times(x, z) + Times(y, z)
  {
  }

  lemma TimesMono(x: real, y: real, z: real)
    requires x <= y && z >= 0.0
    ensures Times(z, x) <= Times(z, y)
  {
    assert (y - x) * z >= 0.0;
  }

  lemma TimesMonoLeft(x: real, y: real, z: real)
    requires x <= y && z >= 0.0
    ensures Times(x, z) <= Times(y, z)
  {
    assert (y - x) * z >= 0.0;
  }

  lemma TimesNegative(x: real, y: real)
    ensures Times(x, -y) == -Times(x, y) && Times(0.0, y) == 0.0
  {
  }

  lemma TimesCommutes(x: real, y: real)
    ensures Times(x, y) == Times(y, x)
  {
  }

  lemma TimesSign(x: real, y: real)
    requires x >= 0.0 && y > 0.0
    ensures Times(x, y) >= 0.0 && (x > 0.0 ==> Times(x, y) > 0.0)
  {
  }
}
