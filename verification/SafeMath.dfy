/** Conversion of amounts to whole satoshis, over the reals. */
module SafeMath {
  import opened Common

  /**
   The source's errors, and the overflow of a 64-bit addition of amounts, which is a panic in
   builds that check for it.
   */
  datatype SatoshiError = Negative | Overflow | AdditionOverflow

  datatype Rounding = Up | Down | Nearest

  const U64_BOUND: int := 0x1_0000_0000_0000_0000
  const I64_BOUND: int := 0x8000_0000_0000_0000

  function Abs(x: real): real {
    if x >= 0.0 then x else -x
  }

  /** Rounds half away from zero, as `f64::round` does. */
  function RoundNearest(x: real): (r: int)
    ensures x >= 0.0 ==> r >= 0 && x - 0.5 < r as real <= x + 0.5
    ensures x < 0.0 ==> r <= 0 && x - 0.5 <= r as real < x + 0.5
  {
    if x >= 0.0 then (x + 0.5).Floor else -((-x + 0.5).Floor)
  }

  function Ceil(x: real): (r: int)
    ensures x <= r as real < x + 1.0
  {
    -((-x).Floor)
  }

  function ToSats(value: real, mode: Rounding): (r: Result<nat, SatoshiError>)
    ensures r == Err(Negative) <==> value < 0.0
    ensures r.Ok? ==> r.value < U64_BOUND
    ensures r.Ok? && mode.Up? ==> value <= r.value as real < value + 1.0
    ensures r.Ok? && mode.Down? ==> value - 1.0 < r.value as real <= value
    ensures r.Ok? && mode.Nearest? ==> value - 0.5 < r.value as real <= value + 0.5
    ensures 0.0 <= value <= (U64_BOUND - 1) as real ==> r.Ok?
  {
    if value < 0.0 then Err(Negative)
    else
      var rounded := match mode
        case Up => Ceil(value)
        case Down => value.Floor
        case Nearest => RoundNearest(value);
      if rounded >= U64_BOUND then Err(Overflow) else Ok(rounded)
  }

  /** The signed conversion rounds up away from zero and down towards it. */
  function ToSatsSigned(value: real, mode: Rounding): (r: Result<int, SatoshiError>)
    ensures r.Ok? ==> -I64_BOUND <= r.value < I64_BOUND
    ensures r.Ok? && mode.Up? ==>
              if value >= 0.0 then value <= r.value as real < value + 1.0 else value - 1.0 < r.value as real <= value
    ensures r.Ok? && mode.Down? ==>
              if value >= 0.0 then r.value >= 0 && value - 1.0 < r.value as real <= value
              else r.value <= 0 && value <= r.value as real < value + 1.0
    ensures r.Ok? && mode.Nearest? ==>
              if value >= 0.0 then value - 0.5 < r.value as real <= value + 0.5
              else value - 0.5 <= r.value as real < value + 0.5
    ensures -I64_BOUND as real <= value <= (I64_BOUND - 1) as real ==> r.Ok?
    ensures r.Err? ==> r.error == Overflow
  {
    var rounded := match mode
      case Up => if value >= 0.0 then Ceil(value) else value.Floor
      case Down => if value >= 0.0 then value.Floor else Ceil(value)
      case Nearest => RoundNearest(value);
    if -I64_BOUND <= rounded < I64_BOUND then Ok(rounded) else Err(Overflow)
  }
}
