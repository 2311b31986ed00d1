/** The optional value used for an operation that can fail with an IndexError. */
module Maybe {
  datatype Option<T> = None | Some(value: T)
}

/** The two numeric steps that turn a weighted sum into a stored gray level. */
module Rounding {

  /** Python 3's built-in round() on a number: the nearest integer, and on a
      tie (a fraction of exactly one half) the even one of the two. */
  function RoundHalfEven(x: real): (n: int)
    ensures (n as real) - 0.5 <= x <= (n as real) + 0.5
    ensures x == (n as real) + 0.5 || x == (n as real) - 0.5 ==> n % 2 == 0
  {
    var f := x.Floor;
    var d := x - f as real;
    if d < 0.5 then f
    else if d > 0.5 then f + 1
    else if f % 2 == 0 then f
    else f + 1
  }

  /** Rounding a whole number gives the number back. */
  lemma RoundOfWhole(n: int)
    ensures RoundHalfEven(n as real) == n
  {
  }

  /** The clipping of a rounded sum into the 8-bit gray range. */
  function Clamp(v: int): (c: int)
    ensures 0 <= c <= 255
    ensures 0 <= v <= 255 ==> c == v
    ensures v > 255 ==> c == 255
    ensures v < 0 ==> c == 0
  {
    if v > 255 then 255
    else if v < 0 then 0
    else v
  }
}
