/** The car-following update `sim` and the way `_step` applies it to a road's slots.
    The law's acceleration term (a square root and a real power in single precision) is
    left abstract as `accel`; the displacement, the velocity update and their clamps are
    those of the simulator. */
module Physics {
  import opened Ring
  import opened Cars

  /** `sim` for one (leader, follower) pair over a tick of length `rate`. A car never moves
      backwards and never gets a negative velocity; only position and velocity change. */
  function SimCar(rate: real, accel: (Car, Car) -> real, ld: Car, me: Car): (next: Car)
    ensures next.v >= 0.0 && PosLe(me.x, next.x)
    ensures next.x.Inf? <==> me.x.Inf?
    ensures next == me.(x := next.x, v := next.v)
  {
    var dv := accel(ld, me);
    var dx := rate * me.v + 0.5 * dv * (rate * rate);
    var v' := me.v + dv * rate;
    me.(x := Plus(me.x, if dx > 0.0 then dx else 0.0), v := if v' > 0.0 then v' else 0.0)
  }

  /** The physics pass over one road's queue, as the simulator means it: every car is
      updated once, against the pre-tick state of the car ahead of it (the sentinel for
      the front car). */
  function SimQueue(rate: real, accel: (Car, Car) -> real, sentinel: Car, q: seq<Car>): (r: seq<Car>)
    ensures |r| == |q|
  {
    seq(|q|, i requires 0 <= i < |q| => SimCar(rate, accel, if i == 0 then sentinel else q[i - 1], q[i]))
  }

  /** After the physics pass no velocity is negative and no car has moved backwards. */
  lemma SimQueueClamps(rate: real, accel: (Car, Car) -> real, sentinel: Car, q: seq<Car>)
    ensures forall i | 0 <= i < |q| ::
      SimQueue(rate, accel, sentinel, q)[i].v >= 0.0 && PosLe(q[i].x, SimQueue(rate, accel, sentinel, q)[i].x)
  {
    var r := SimQueue(rate, accel, sentinel, q);
    forall i | 0 <= i < |q|
      ensures r[i].v >= 0.0 && PosLe(q[i].x, r[i].x)
    {
      var c := SimCar(rate, accel, if i == 0 then sentinel else q[i - 1], q[i]);
      assert r[i] == c;
    }
  }

  /** `sim` on the contiguous slices `lo..hi-1` (leaders) and `lo+1..hi` (followers) of a
      row: every slot j in (lo, hi] is updated with slot j-1 as its leader, and all the
      leaders are read before any slot is written. */
  function SimSlots(rate: real, accel: (Car, Car) -> real, row: seq<Car>, lo: int, hi: int): (r: seq<Car>)
    requires 0 <= lo <= hi < |row|
    ensures |r| == |row|
  {
    seq(|row|, j requires 0 <= j < |row| => if lo < j <= hi then SimCar(rate, accel, row[j - 1], row[j]) else row[j])
  }

  /** The physics step of one road as `_step` performs it: nothing for an empty road; one
      slice when the cars do not wrap past the last slot; otherwise slot 0 receives a copy
      of the last slot and two slices are run, up to the last slot and then from slot 1. */
  function SimRow(rate: real, accel: (Car, Car) -> real, row: seq<Car>, leading: int, lastcar: int): (r: seq<Car>)
    requires |row| == CAPACITY && InRing(leading) && InRing(lastcar)
    ensures |r| == CAPACITY
  {
    if leading == lastcar then row
    else if leading < lastcar then SimSlots(rate, accel, row, leading, lastcar)
    else
      var scratch := row[0 := row[CAPACITY - 1]];
      SimSlots(rate, accel, SimSlots(rate, accel, scratch, leading, CAPACITY - 1), 0, lastcar)
  }

  /** The slot whose car a car in slot `j` follows: the one before it, circularly. */
  function Behind(j: int): int {
    if j == 1 then CAPACITY - 1 else j - 1
  }

  /** Slot by slot, the physics step of a road updates exactly the slots holding cars, each
      against the old content of the slot before it circularly; all other ring slots keep
      their content. */
  lemma SimRowSlot(rate: real, accel: (Car, Car) -> real, row: seq<Car>, leading: int, lastcar: int, j: int)
    requires |row| == CAPACITY && InRing(leading) && InRing(lastcar) && InRing(j)
    ensures SimRow(rate, accel, row, leading, lastcar)[j] ==
      if HoldsCar(leading, lastcar, j) then SimCar(rate, accel, row[Behind(j)], row[j]) else row[j]
  {
    if leading > lastcar {
      var scratch := row[0 := row[CAPACITY - 1]];
      var mid := SimSlots(rate, accel, scratch, leading, CAPACITY - 1);
      var after := SimSlots(rate, accel, mid, 0, lastcar);
      assert SimRow(rate, accel, row, leading, lastcar) == after;
      if j <= lastcar {
        assert after[j] == SimCar(rate, accel, mid[j - 1], mid[j]);
        assert mid[j - 1] == scratch[j - 1] == row[Behind(j)];
      } else {
        assert after[j] == mid[j];
      }
    }
  }

  /** Splitting the pass at the wrap point changes nothing: every car of the road is updated
      exactly once, with its circular predecessor (the sentinel for the front car) as leader,
      exactly as SimQueue prescribes. The sentinel and the free slots keep their contents,
      and slot 0 is scratch. */
  lemma SimRowIsSimQueue(rate: real, accel: (Car, Car) -> real, row: seq<Car>, leading: int, lastcar: int)
    requires |row| == CAPACITY && InRing(leading) && InRing(lastcar)
    ensures QueueOf(SimRow(rate, accel, row, leading, lastcar), leading, lastcar)
            == SimQueue(rate, accel, row[leading], QueueOf(row, leading, lastcar))
    ensures forall j | 1 <= j < CAPACITY && !HoldsCar(leading, lastcar, j) ::
              SimRow(rate, accel, row, leading, lastcar)[j] == row[j]
    ensures SimRow(rate, accel, row, leading, lastcar)[0] == if leading > lastcar then row[CAPACITY - 1] else row[0]
  {
    SimRowSlots(rate, accel, row, leading, lastcar);
    SimRowQueue(rate, accel, row, SimRow(rate, accel, row, leading, lastcar), leading, lastcar);
    if leading > lastcar {
      var scratch := row[0 := row[CAPACITY - 1]];
      var mid := SimSlots(rate, accel, scratch, leading, CAPACITY - 1);
      assert SimRow(rate, accel, row, leading, lastcar) == SimSlots(rate, accel, mid, 0, lastcar);
    }
  }

  /** Every slot of the ring after `sim`: an occupied slot holds its car advanced behind
      its circular predecessor; any other slot keeps its content. */
  lemma SimRowSlots(rate: real, accel: (Car, Car) -> real, row: seq<Car>, leading: int, lastcar: int)
    requires |row| == CAPACITY && InRing(leading) && InRing(lastcar)
    ensures forall j | 1 <= j < CAPACITY ::
      SimRow(rate, accel, row, leading, lastcar)[j] ==
      if HoldsCar(leading, lastcar, j) then SimCar(rate, accel, row[Behind(j)], row[j]) else row[j]
  {
    forall j | 1 <= j < CAPACITY
      ensures SimRow(rate, accel, row, leading, lastcar)[j] ==
        if HoldsCar(leading, lastcar, j) then SimCar(rate, accel, row[Behind(j)], row[j]) else row[j]
    {
      SimRowSlot(rate, accel, row, leading, lastcar, j);
    }
  }

  /** The queue part of SimRowIsSimQueue, read off the slots: any row `after` whose
      occupied slots hold their cars advanced behind their circular predecessors holds
      SimQueue of the old queue. */
  lemma SimRowQueue(rate: real, accel: (Car, Car) -> real, row: seq<Car>, after: seq<Car>, leading: int, lastcar: int)
    requires |row| == CAPACITY && |after| == CAPACITY && InRing(leading) && InRing(lastcar)
    requires forall j | 1 <= j < CAPACITY && HoldsCar(leading, lastcar, j) ::
      after[j] == SimCar(rate, accel, row[Behind(j)], row[j])
    ensures QueueOf(after, leading, lastcar) == SimQueue(rate, accel, row[leading], QueueOf(row, leading, lastcar))
  {
    var occ := Occupancy(leading, lastcar);
    var q := QueueOf(after, leading, lastcar);
    var before := QueueOf(row, leading, lastcar);
    var sq := SimQueue(rate, accel, row[leading], before);
    forall i | 0 <= i < occ
      ensures q[i] == sq[i]
    {
      var j := Advance(leading, i + 1);
      AdvanceShort(leading, i + 1);
      AdvanceShort(leading, i);
      assert Behind(j) == Advance(leading, i);
      if i > 0 {
        assert before[i - 1] == row[Advance(leading, i - 1 + 1)];
      }
    }
  }
}
