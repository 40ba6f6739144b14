/** Car records and the clamped car-following update.
    A buffer slot holds nine numbers: position, velocity, vehicle length, maximum
    acceleration, acceleration exponent, desired velocity, comfortable deceleration,
    desired time headway and minimum gap. A sentinel occupies a slot of the same shape;
    its position may be +infinity, so positions carry an explicit infinite case. */
module Cars {

  /** A position along a road, or +infinity (no constraint ahead). */
  datatype Pos = Fin(at: real) | Inf

  /** One buffer slot: a car, or the sentinel a road keeps in front of its cars. */
  datatype Car = Car(x: Pos, v: real, len: real, a: real, delta: real, v0: real, b: real, t: real, s0: real)

  /** The sentinel a road gets on reset: everything zero, position +infinity. */
  const EMPTY_SENTINEL: Car := Car(Inf, 0.0, 0.0, 0.0, 0.0, 0.0, 0.0, 0.0, 0.0)

  /** `p <= q`, with +infinity above every finite position. */
  predicate PosLe(p: Pos, q: Pos) {
    match (p, q)
    case (_, Inf) => true
    case (Inf, Fin(_)) => false
    case (Fin(x), Fin(y)) => x <= y
  }

  /** `p > len`: the position lies past the end of a road of length `len`. */
  predicate Beyond(p: Pos, len: real) {
    match p
    case Inf => true
    case Fin(x) => x > len
  }

  /** `p + d`; +infinity absorbs any finite shift. */
  function Plus(p: Pos, d: real): (r: Pos)
    ensures d >= 0.0 ==> PosLe(p, r)
    ensures r.Inf? <==> p.Inf?
  {
    match p
    case Inf => Inf
    case Fin(x) => Fin(x + d)
  }

  /** The point `len + s0` behind a road's last car, where a newcomer may go at the latest. */
  function BehindTail(tail: Car): (p: Pos)
    ensures tail.len + tail.s0 >= 0.0 ==> PosLe(p, tail.x)
    ensures p.Inf? <==> tail.x.Inf?
  {
    Plus(tail.x, -tail.len - tail.s0)
  }

  /** `min(0, start_pos)`: a new car enters at the road start, or further back if the
      last car has not yet left it enough room. */
  function EntryPosition(start: Pos): (x: real)
    ensures x <= 0.0 && PosLe(Fin(x), start)
    ensures x == 0.0 || start == Fin(x)
  {
    match start
    case Inf => 0.0
    case Fin(s) => if s < 0.0 then s else 0.0
  }
}
