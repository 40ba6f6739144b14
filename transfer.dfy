/** The meaning, on queues, of the operations that move cars onto and between roads:
    `add_car` on one road, the arrivals of a tick, and `advance_finished_cars` over all
    roads. Here a road is seen only through its queue of cars, front first. */
module Transfer {
  import opened Ring
  import opened Cars

  /** One car delivered by the arrival process during a tick, and the entry road chosen for it. */
  datatype Arrival = Arrival(road: int, car: Car)

  /** `add_car` on a road's queue. A full buffer (CAPACITY-2 cars) drops the car. Otherwise
      the car keeps its parameters and is appended at the road start, or further back when
      the last car has not yet left room for its length plus its minimum gap. */
  function Enqueue(q: seq<Car>, car: Car): (r: seq<Car>)
    ensures |q| >= CAPACITY - 2 ==> r == q
    ensures |q| < CAPACITY - 2 ==> |r| == |q| + 1 && r[..|q|] == q && r[|q|] == car.(x := r[|q|].x)
    ensures |q| < CAPACITY - 2 ==>
      r[|q|].x.Fin? && r[|q|].x.at <= 0.0 && (|q| > 0 ==> PosLe(r[|q|].x, BehindTail(q[|q| - 1])))
  {
    if |q| >= CAPACITY - 2 then q
    else q + [car.(x := Fin(EntryPosition(if |q| > 0 then BehindTail(q[|q| - 1]) else Fin(0.0))))]
  }

  /** The cars of `arrivals` whose entry road is `e`, in arrival order. */
  function CarsFor(arrivals: seq<Arrival>, e: int): (cs: seq<Car>)
    ensures |cs| <= |arrivals|
    ensures (forall i | 0 <= i < |arrivals| :: arrivals[i].road != e) ==> cs == []
  {
    if |arrivals| == 0 then []
    else
      var a := arrivals[|arrivals| - 1];
      CarsFor(arrivals[..|arrivals| - 1], e) + (if a.road == e then [a.car] else [])
  }

  /** `add_car` applied to a queue for each car of `cs` in turn. */
  function EnqueueAll(q: seq<Car>, cs: seq<Car>): (r: seq<Car>)
    ensures q <= r && |r| <= |q| + |cs|
  {
    if |cs| == 0 then q else Enqueue(EnqueueAll(q, cs[..|cs| - 1]), cs[|cs| - 1])
  }

  /** One more arrival offers one more car, to its own road only. */
  lemma CarsForStep(q: seq<Car>, arrivals: seq<Arrival>, i: int, e: int)
    requires 0 <= i < |arrivals|
    ensures EnqueueAll(q, CarsFor(arrivals[..i + 1], e)) ==
      if arrivals[i].road == e then Enqueue(EnqueueAll(q, CarsFor(arrivals[..i], e)), arrivals[i].car)
      else EnqueueAll(q, CarsFor(arrivals[..i], e))
  {
    assert arrivals[..i + 1][..i] == arrivals[..i];
    var cs := CarsFor(arrivals[..i], e);
    if arrivals[i].road == e {
      assert (cs + [arrivals[i].car])[..|cs|] == cs;
    } else {
      assert cs + [] == cs;
    }
  }

  function Min(a: int, b: int): int {
    if a <= b then a else b
  }

  /** Arrivals are appended in order behind the cars already there until the buffer is
      full, and the rest are dropped. Each entering car keeps its parameters and enters at
      or behind the road start. */
  lemma {:induction false} EnqueueAllAppends(q: seq<Car>, cs: seq<Car>)
    requires |q| <= CAPACITY - 2
    ensures var r := EnqueueAll(q, cs);
      |r| == Min(|q| + |cs|, CAPACITY - 2) && q <= r &&
      forall i | |q| <= i < |r| :: r[i] == cs[i - |q|].(x := r[i].x) && r[i].x.Fin? && r[i].x.at <= 0.0
    decreases |cs|
  {
    if |cs| > 0 {
      var init := cs[..|cs| - 1];
      EnqueueAllAppends(q, init);
      var r0 := EnqueueAll(q, init);
      var r := Enqueue(r0, cs[|cs| - 1]);
      forall i | |q| <= i < |r|
        ensures r[i] == cs[i - |q|].(x := r[i].x) && r[i].x.Fin? && r[i].x.at <= 0.0
      {
        if i < |r0| {
          assert r[i] == r0[i];
          assert init[i - |q|] == cs[i - |q|];
        }
      }
    }
  }

  /** All roads' queues, and the number of cars that have left each road so far. */
  datatype Flow = Flow(queues: seq<seq<Car>>, departed: seq<nat>)

  /** A successor table: `next[e]` is the road a car takes after road `e`, or -1 when it
      leaves the network; a road never leads to itself. */
  predicate Routes(next: seq<int>) {
    forall e | 0 <= e < |next| :: -1 <= next[e] < |next| && next[e] != e
  }

  /** One queue and one departure count per road of the table. */
  predicate Fits(next: seq<int>, f: Flow) {
    Routes(next) && |f.queues| == |next| && |f.departed| == |next|
  }

  /** The departing car `car` of road `e` is handed on: unless `e` leaves the network it is
      offered to `add_car` on the next road; one more departure from `e` is recorded. */
  function Pass(next: seq<int>, f: Flow, e: int, car: Car): (r: Flow)
    requires Fits(next, f) && 0 <= e < |next|
    ensures Fits(next, r) && r.queues[e] == f.queues[e]
  {
    var nx := next[e];
    Flow(if nx >= 0 then f.queues[nx := Enqueue(f.queues[nx], car)] else f.queues, f.departed[e := f.departed[e] + 1])
  }

  /** The front car of road `e` leaves its queue. */
  function Shift(next: seq<int>, f: Flow, e: int): (r: Flow)
    requires Fits(next, f) && 0 <= e < |next| && |f.queues[e]| > 0
    ensures Fits(next, r) && |r.queues[e]| < |f.queues[e]|
  {
    f.(queues := f.queues[e := f.queues[e][1..]])
  }

  /** The front car of road `e` leaves it and is handed on. */
  function Leave(next: seq<int>, f: Flow, e: int): (r: Flow)
    requires Fits(next, f) && 0 <= e < |next| && |f.queues[e]| > 0
    ensures Fits(next, r) && |r.queues[e]| < |f.queues[e]|
  {
    Shift(next, Pass(next, f, e, f.queues[e][0]), e)
  }

  /** A road whose front car, if it has one, has not passed the road end `len`. */
  predicate Settled(q: seq<Car>, len: real) {
    |q| == 0 || !Beyond(q[0].x, len)
  }

  /** The inner loop of `advance_finished_cars` for road `e`: cars leave its front for as
      long as the front car is past the road end `len`. Afterwards the road is settled. */
  function Drain(next: seq<int>, len: real, f: Flow, e: int): (r: Flow)
    requires Fits(next, f) && 0 <= e < |next|
    ensures Fits(next, r) && Settled(r.queues[e], len)
    decreases |f.queues[e]|
  {
    if |f.queues[e]| > 0 && Beyond(f.queues[e][0].x, len) then Drain(next, len, Leave(next, f, e), e)
    else f
  }

  /** `advance_finished_cars` from road `e` on: the roads are drained in index order. */
  function CrossFrom(next: seq<int>, len: real, f: Flow, e: int): (r: Flow)
    requires Fits(next, f) && 0 <= e <= |next|
    ensures Fits(next, r)
    decreases |next| - e
  {
    if e == |next| then f else CrossFrom(next, len, Drain(next, len, f, e), e + 1)
  }

  /** The flows CrossFrom passes through from road `e` on: `t[i]` is the flow before road
      `e + i` is drained, and the last entry is CrossFrom's result. */
  function TraceFrom(next: seq<int>, len: real, f: Flow, e: int): (t: seq<Flow>)
    requires Fits(next, f) && 0 <= e <= |next|
    ensures |t| == |next| - e + 1 && t[0] == f && t[|t| - 1] == CrossFrom(next, len, f, e)
    ensures forall i | 0 <= i < |t| :: Fits(next, t[i])
    ensures forall i | 0 <= i < |t| - 1 :: t[i + 1] == Drain(next, len, t[i], e + i)
    decreases |next| - e
  {
    if e == |next| then [f] else [f] + TraceFrom(next, len, Drain(next, len, f, e), e + 1)
  }

  /** The queues `qs` with no departures counted yet. */
  function Start(qs: seq<seq<Car>>): (f: Flow)
    ensures f.queues == qs && |f.departed| == |qs| && forall e | 0 <= e < |qs| :: f.departed[e] == 0
  {
    Flow(qs, seq(|qs|, _ => 0))
  }

  /** `advance_finished_cars` on the queues `qs`, with no departures counted yet. */
  function Cross(next: seq<int>, len: real, qs: seq<seq<Car>>): (r: Flow)
    requires Routes(next) && |qs| == |next|
    ensures Fits(next, r)
  {
    CrossFrom(next, len, Start(qs), 0)
  }

  /** How a road's queue `q` relates to its queue `q0` before `advance_finished_cars` once
      `d` cars have left it: the cars that left are the first `d` of `q0` and each was past
      the road end `len`; the cars of `q0` that remain are still at the front of `q`, in
      order; and every car appended behind them since is within the road. */
  predicate Drained(q0: seq<Car>, d: nat, q: seq<Car>, len: real) {
    d <= |q0| && q0[d..] <= q &&
    (forall i | 0 <= i < d :: Beyond(q0[i].x, len)) &&
    (forall i | |q0| - d <= i < |q| :: !Beyond(q[i].x, len))
  }

  /** Removing a front car that is past the road end is one more departure of the old queue. */
  lemma DrainedPop(q0: seq<Car>, d: nat, q: seq<Car>, len: real)
    requires Drained(q0, d, q, len) && |q| > 0 && Beyond(q[0].x, len)
    ensures d < |q0| && q[0] == q0[d]
    ensures Drained(q0, d + 1, q[1..], len)
  {
    assert |q0| - d > 0;
    assert q[0] == q0[d..][0];
    assert q0[d + 1..] == q0[d..][1..];
  }

  /** Appending a car within the road keeps the relation, and leaves a settled road settled. */
  lemma DrainedPush(q0: seq<Car>, d: nat, q: seq<Car>, c: Car, len: real)
    requires Drained(q0, d, q, len) && !Beyond(c.x, len)
    ensures Drained(q0, d, q + [c], len)
    ensures Settled(q, len) ==> Settled(q + [c], len)
  {
    assert q0[d..] <= q + [c];
    if |q| == 0 {
      assert |q0| - d == 0;
    }
  }

  /** Every road's queue in `f` is Drained from its queue in `qs0`. */
  predicate DrainedAll(qs0: seq<seq<Car>>, f: Flow, len: real)
    requires |f.queues| == |qs0| && |f.departed| == |qs0|
  {
    forall k | 0 <= k < |qs0| :: Drained(qs0[k], f.departed[k], f.queues[k], len)
  }

  /** For a road length of at least zero, a departure keeps every road Drained and leaves
      the other settled roads settled: the car handed on enters at or behind the road start. */
  lemma LeaveKeeps(next: seq<int>, len: real, qs0: seq<seq<Car>>, f: Flow, e: int)
    requires Fits(next, f) && |qs0| == |next| && 0 <= e < |next| && 0.0 <= len
    requires DrainedAll(qs0, f, len) && |f.queues[e]| > 0 && Beyond(f.queues[e][0].x, len)
    ensures DrainedAll(qs0, Leave(next, f, e), len)
    ensures forall k | 0 <= k < |next| && k != e && Settled(f.queues[k], len) ::
      Settled(Leave(next, f, e).queues[k], len)
  {
    var nx := next[e];
    DrainedPop(qs0[e], f.departed[e], f.queues[e], len);
    if nx >= 0 && |f.queues[nx]| < CAPACITY - 2 {
      var q := f.queues[nx];
      var c := Enqueue(q, f.queues[e][0])[|q|];
      assert Enqueue(q, f.queues[e][0]) == q + [c];
      DrainedPush(qs0[nx], f.departed[nx], q, c, len);
    }
  }

  /** Draining road `e` keeps every road Drained and leaves the other settled roads settled. */
  lemma {:induction false} DrainKeeps(next: seq<int>, len: real, qs0: seq<seq<Car>>, f: Flow, e: int)
    requires Fits(next, f) && |qs0| == |next| && 0 <= e < |next| && 0.0 <= len
    requires DrainedAll(qs0, f, len)
    ensures DrainedAll(qs0, Drain(next, len, f, e), len)
    ensures forall k | 0 <= k < |next| && k != e && Settled(f.queues[k], len) ::
      Settled(Drain(next, len, f, e).queues[k], len)
    decreases |f.queues[e]|
  {
    if |f.queues[e]| > 0 && Beyond(f.queues[e][0].x, len) {
      LeaveKeeps(next, len, qs0, f, e);
      DrainKeeps(next, len, qs0, Leave(next, f, e), e);
    }
  }

  /** Draining the roads from `e` on keeps every road Drained; every road drained so far ends settled. */
  lemma {:induction false} CrossFromKeeps(next: seq<int>, len: real, qs0: seq<seq<Car>>, f: Flow, e: int)
    requires Fits(next, f) && |qs0| == |next| && 0 <= e <= |next| && 0.0 <= len
    requires DrainedAll(qs0, f, len) && forall k | 0 <= k < e :: Settled(f.queues[k], len)
    ensures DrainedAll(qs0, CrossFrom(next, len, f, e), len)
    ensures forall k | 0 <= k < |next| :: Settled(CrossFrom(next, len, f, e).queues[k], len)
    decreases |next| - e
  {
    if e < |next| {
      DrainKeeps(next, len, qs0, f, e);
      CrossFromKeeps(next, len, qs0, Drain(next, len, f, e), e + 1);
    }
  }

  /** For a road length of at least zero, `advance_finished_cars` removes from each road
      exactly its old front cars that were past the end, keeps the remaining cars in front
      in order, appends only cars within the road, and leaves no front car past the end. */
  lemma CrossDrains(next: seq<int>, len: real, qs: seq<seq<Car>>)
    requires Routes(next) && |qs| == |next| && 0.0 <= len
    ensures forall e | 0 <= e < |next| ::
      Drained(qs[e], Cross(next, len, qs).departed[e], Cross(next, len, qs).queues[e], len) &&
      Settled(Cross(next, len, qs).queues[e], len)
  {
    var f := Start(qs);
    forall k | 0 <= k < |qs|
      ensures Drained(qs[k], f.departed[k], f.queues[k], len)
    {
      assert qs[k][0..] == qs[k];
    }
    CrossFromKeeps(next, len, qs, f, 0);
  }

  /** No road ever holds more than CAPACITY-2 cars: `add_car` drops at that size. */
  predicate Bounded(qs: seq<seq<Car>>) {
    forall k | 0 <= k < |qs| :: |qs[k]| <= CAPACITY - 2
  }

  /** `advance_finished_cars` keeps every buffer within its capacity. */
  lemma {:induction false} CrossFromBounded(next: seq<int>, len: real, f: Flow, e: int)
    requires Fits(next, f) && 0 <= e <= |next| && Bounded(f.queues)
    ensures Bounded(CrossFrom(next, len, f, e).queues)
    decreases |next| - e, |if e < |next| then f.queues[e] else []|
  {
    if e < |next| {
      if |f.queues[e]| > 0 && Beyond(f.queues[e][0].x, len) {
        var r := Leave(next, f, e);
        assert forall k | 0 <= k < |r.queues| :: |r.queues[k]| <= CAPACITY - 2;
        CrossFromBounded(next, len, r, e);
        assert CrossFrom(next, len, r, e) == CrossFrom(next, len, f, e);
      } else {
        CrossFromBounded(next, len, f, e + 1);
      }
    }
  }
}
