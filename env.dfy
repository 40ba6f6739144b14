/** The simulation state and the per-tick pipeline of `TrafficEnv`: one ring buffer of car
    slots per road, the signal sentinels, arrivals, the physics pass and the transfer of
    cars across intersections. */
module Traffic {
  import opened Ring
  import opened Grid
  import opened Cars
  import opened Physics
  import opened Transfer

  /** The `int8` cast `_step` applies to the action: the integer in [-128, 128) that agrees
      with `a` modulo 256, which is `a` itself when `a` is in that range. */
  function Int8(a: int): (r: int)
    ensures -128 <= r < 128 && (a - r) % 256 == 0
    ensures -128 <= a < 128 ==> r == a
  {
    (a + 128) % 256 - 128
  }

  /** The action as stored in `current_phase`, entry by entry cast to `int8`. */
  function Int8s(action: seq<int>): (phase: seq<int>)
    ensures |phase| == |action| && forall i | 0 <= i < |action| :: phase[i] == Int8(action[i])
  {
    seq(|action|, i requires 0 <= i < |action| => Int8(action[i]))
  }

  /** `cars_on_roads`: the occupancy of every road, from the two cursor arrays. Each count is
      within the observation bounds [0, CAPACITY-2] and is zero exactly for an empty road. */
  function CarsOnRoads(leading: seq<int>, lastcar: seq<int>): (obs: seq<int>)
    requires |leading| == |lastcar|
    ensures |obs| == |leading|
    ensures forall e | 0 <= e < |obs| && InRing(leading[e]) && InRing(lastcar[e]) ::
      0 <= obs[e] <= CAPACITY - 2 && (obs[e] == 0 <==> leading[e] == lastcar[e])
  {
    seq(|leading|, e requires 0 <= e < |leading| => Occupancy(leading[e], lastcar[e]))
  }

  /** Cars that crossed intersection `d`: the departures from the four train roads ending there. */
  function Crossings(departed: seq<nat>, v: int, d: int): (c: int)
    requires 0 <= d < v && |departed| >= 4 * v
    ensures 0 <= c && departed[d] <= c && departed[v + d] <= c && departed[2 * v + d] <= c && departed[3 * v + d] <= c
  {
    departed[d] + departed[v + d] + departed[2 * v + d] + departed[3 * v + d]
  }

  /** One more departure from train road `e` is one more crossing of intersection `e % v`
      and of no other intersection. */
  lemma CrossingsBump(departed: seq<nat>, v: int, e: int)
    requires v >= 1 && |departed| >= 4 * v && 0 <= e < 4 * v
    ensures forall d | 0 <= d < v ::
      Crossings(departed[e := departed[e] + 1], v, d) == Crossings(departed, v, d) + (if d == e % v then 1 else 0)
  {
    var b := e / v;
    assert e == b * v + e % v;
    if b < 0 {
      MulMono(b, -1, v);
      assert false;
    }
    if b > 3 {
      MulMono(4, b, v);
      assert false;
    }
    assert e == [e % v, v + e % v, 2 * v + e % v, 3 * v + e % v][b];
  }

  /** The sum of a sequence of counters. */
  function Sum(s: seq<int>): int {
    if |s| == 0 then 0 else Sum(s[..|s| - 1]) + s[|s| - 1]
  }

  /** A sum splits at any point. */
  lemma {:induction false} SumSplit(s: seq<int>, i: int)
    requires 0 <= i <= |s|
    ensures Sum(s) == Sum(s[..i]) + Sum(s[i..])
    decreases |s|
  {
    if i < |s| {
      var init := s[..|s| - 1];
      SumSplit(init, i);
      assert init[..i] == s[..i];
      assert s[i..][..|s| - 1 - i] == init[i..];
    } else {
      assert s[..i] == s;
    }
  }

  /** Summing four sequences entry by entry and then summing the result is summing the four sums. */
  lemma {:induction false} SumFour(a: seq<int>, b: seq<int>, c: seq<int>, d: seq<int>, s: seq<int>)
    requires |a| == |s| && |b| == |s| && |c| == |s| && |d| == |s|
    requires forall i | 0 <= i < |s| :: s[i] == a[i] + b[i] + c[i] + d[i]
    ensures Sum(s) == Sum(a) + Sum(b) + Sum(c) + Sum(d)
    decreases |s|
  {
    if |s| > 0 {
      var n := |s| - 1;
      SumFour(a[..n], b[..n], c[..n], d[..n], s[..n]);
    }
  }

  /** The counters of the first `k` intersections add up to the departures from the first `k`
      roads of each of the four direction blocks. */
  lemma CrossingsPrefix(departed: seq<nat>, v: int, k: int)
    requires 0 <= k <= v && |departed| >= 4 * v
    ensures Sum(seq(k, d requires 0 <= d < k => Crossings(departed, v, d))) ==
      Sum(departed[..k]) + Sum(departed[v..v + k]) + Sum(departed[2 * v..2 * v + k]) + Sum(departed[3 * v..3 * v + k])
  {
    var cs := seq(k, d requires 0 <= d < k => Crossings(departed, v, d));
    var b0, b1, b2, b3 := departed[..k], departed[v..v + k], departed[2 * v..2 * v + k], departed[3 * v..3 * v + k];
    forall i | 0 <= i < k
      ensures cs[i] == b0[i] + b1[i] + b2[i] + b3[i]
    {
    }
    SumFour(b0, b1, b2, b3, cs);
  }

  /** Summed over all intersections, the counters hold exactly the cars that left train roads,
      that is, every car handed to a successor road (whether or not its buffer had room). */
  lemma CrossingsTotal(counts: seq<int>, departed: seq<nat>, v: int)
    requires v >= 1 && |departed| >= 4 * v
    requires |counts| == v && forall d | 0 <= d < v :: counts[d] == Crossings(departed, v, d)
    ensures Sum(counts) == Sum(departed[..4 * v])
  {
    assert counts == seq(v, d requires 0 <= d < v => Crossings(departed, v, d));
    CrossingsBlocks(departed, v);
  }

  /** The four direction blocks of train roads, one after the other, make up all train roads. */
  lemma CrossingsBlocks(departed: seq<nat>, v: int)
    requires v >= 1 && |departed| >= 4 * v
    ensures Sum(seq(v, d requires 0 <= d < v => Crossings(departed, v, d))) == Sum(departed[..4 * v])
  {
    CrossingsPrefix(departed, v, v);
    SumQuarters(departed[..4 * v], v);
    assert departed[..4 * v][..v] == departed[..v];
    assert departed[..4 * v][v..2 * v] == departed[v..v + v];
    assert departed[..4 * v][2 * v..3 * v] == departed[2 * v..2 * v + v];
    assert departed[..4 * v][3 * v..] == departed[3 * v..3 * v + v];
  }

  /** A sum over four consecutive blocks of length `v` is the sum of the blocks' sums. */
  lemma SumQuarters(s: seq<int>, v: int)
    requires v >= 0 && |s| == 4 * v
    ensures Sum(s) == Sum(s[..v]) + Sum(s[v..2 * v]) + Sum(s[2 * v..3 * v]) + Sum(s[3 * v..])
  {
    SumSplit(s, v);
    var t := s[v..];
    SumSplit(t, v);
    var u := t[v..];
    SumSplit(u, v);
    assert t[..v] == s[v..2 * v];
    assert u[..v] == s[2 * v..3 * v];
    assert u[v..] == s[3 * v..];
  }

  class TrafficEnv {
    const graph: GridRoad
    /** Slot j of road e; the source keeps the nine fields in a (roads, 9, CAPACITY) array. */
    const state: array2<Car>
    var leading: array<int>
    var lastcar: array<int>
    /** Per-intersection throughput of the last tick. */
    const counts: array<int>
    var currentPhase: seq<int>

    /** The arrays have the shape the graph calls for. */
    ghost predicate Shaped()
      reads this, graph
    {
      graph.Valid() && state.Length0 == graph.roads && state.Length1 == CAPACITY &&
      counts.Length == graph.intersections
    }

    /** The state between ticks: both cursors of every road stay on the ring 1..CAPACITY-1. */
    ghost predicate Valid()
      reads this, graph, leading, lastcar
    {
      Shaped() && leading.Length == graph.roads && lastcar.Length == graph.roads &&
      leading != lastcar && leading != counts && lastcar != counts &&
      |currentPhase| == graph.intersections &&
      forall e | 0 <= e < graph.roads :: InRing(leading[e]) && InRing(lastcar[e])
    }

    /** The slots of road `e`. */
    ghost function Slots(e: int): (row: seq<Car>)
      reads state
      requires 0 <= e < state.Length0 && state.Length1 == CAPACITY
      ensures |row| == CAPACITY && forall j | 0 <= j < CAPACITY :: row[j] == state[e, j]
    {
      seq(CAPACITY, j requires 0 <= j < CAPACITY reads state => state[e, j])
    }

    /** The cars on road `e`, front first. */
    ghost function Queue(e: int): seq<Car>
      reads this, graph, leading, lastcar, state
      requires Valid() && 0 <= e < graph.roads
    {
      QueueOf(Slots(e), leading[e], lastcar[e])
    }

    /** The cars on every road. */
    ghost function Queues(): (qs: seq<seq<Car>>)
      reads this, graph, leading, lastcar, state
      requires Valid()
      ensures |qs| == graph.roads && forall e | 0 <= e < graph.roads :: qs[e] == Queue(e)
    {
      seq(graph.roads, e requires 0 <= e < graph.roads && Valid() reads this, graph, leading, lastcar, state => Queue(e))
    }

    /** The sentinel of every road. */
    ghost function Sentinels(): (s: seq<Car>)
      reads this, graph, leading, lastcar, state
      requires Valid()
      ensures |s| == graph.roads && forall e | 0 <= e < graph.roads :: s[e] == state[e, leading[e]]
    {
      seq(graph.roads, e requires 0 <= e < graph.roads && Valid() reads this, graph, leading, lastcar, state => state[e, leading[e]])
    }

    /** `f` has one entry per road and its queues are the cars on the roads. */
    ghost predicate Holds(f: Flow)
      reads this, graph, leading, lastcar, state
      requires Valid()
    {
      |f.queues| == graph.roads && |f.departed| == graph.roads &&
      forall e | 0 <= e < graph.roads :: Queue(e) == f.queues[e]
    }

    /** `set_graph`: the slot array and the counters, sized for the graph. The cursors are
        created by Reset. */
    constructor (g: GridRoad)
      requires g.Valid()
      ensures Shaped() && graph == g && fresh(state) && fresh(counts)
    {
      graph := g;
      state := new Car[g.roads, CAPACITY];
      counts := new int[g.intersections];
      leading := new int[0];
      lastcar := new int[0];
      currentPhase := [];
    }

    /** `_reset`: every road becomes empty, with a sentinel at slot 1 at +infinity, and the
        phase assignment is all zeros; the observation is all zeros. */
    method Reset() returns (obs: seq<int>)
      requires Shaped()
      modifies this, state
      ensures Valid() && fresh(leading) && fresh(lastcar)
      ensures forall e | 0 <= e < graph.roads :: leading[e] == 1 && lastcar[e] == 1 && state[e, 1] == EMPTY_SENTINEL
      ensures forall e | 0 <= e < graph.roads :: Queue(e) == []
      ensures forall e, j | 0 <= e < graph.roads && 0 <= j < CAPACITY && j != 1 :: state[e, j] == old(state[e, j])
      ensures currentPhase == seq(graph.intersections, _ => 0)
      ensures obs == seq(graph.trainRoads, _ => 0)
    {
      for e := 0 to graph.roads
        invariant forall k | 0 <= k < e :: state[k, 1] == EMPTY_SENTINEL
        invariant forall k, j | 0 <= k < graph.roads && 0 <= j < CAPACITY && (k >= e || j != 1) :: state[k, j] == old(state[k, j])
      {
        state[e, 1] := EMPTY_SENTINEL;
      }
      currentPhase := seq(graph.intersections, _ => 0);
      leading := new int[graph.roads](_ => 1);
      lastcar := new int[graph.roads](_ => 1);
      obs := CarsOnRoads(leading[..graph.trainRoads], lastcar[..graph.trainRoads]);
    }

    /** The sentinel position `update_lights` gives train road `e` under `phase`: the road's
        length when the road's phase tag matches the phase commanded for its intersection;
        otherwise the position of the last car on the next road plus the road's length, or
        +infinity when the next road is empty. */
    ghost function Signal(phase: seq<int>, e: int): (p: Pos)
      reads this, graph, leading, lastcar, state
      requires Valid() && |phase| == graph.intersections && 0 <= e < graph.trainRoads
      ensures graph.phases[e] != phase[graph.dest[e]] ==>
        var q := Queue(Next(graph.m, graph.n, e));
        p == if |q| == 0 then Inf else Plus(q[|q| - 1].x, graph.len)
    {
      if graph.phases[e] == phase[graph.dest[e]] then Fin(graph.len)
      else
        var next := Next(graph.m, graph.n, e);
        OccupancyIsDistance(leading[next], lastcar[next]);
        if lastcar[next] != leading[next] then Plus(state[next, lastcar[next]].x, graph.len) else Inf
    }

    /** Road `e`'s sentinel once `update_lights` has run under `phase`. */
    ghost function Lit(phase: seq<int>, e: int): (c: Car)
      reads this, graph, leading, lastcar, state
      requires Valid() && |phase| == graph.intersections && 0 <= e < graph.roads
      ensures c == state[e, leading[e]].(x := c.x)
      ensures e < graph.trainRoads ==> c.x == Signal(phase, e)
      ensures e >= graph.trainRoads ==> c == state[e, leading[e]]
    {
      if e < graph.trainRoads then state[e, leading[e]].(x := Signal(phase, e)) else state[e, leading[e]]
    }

    /** Every road's sentinel once `update_lights` has run under `phase`. */
    ghost function Lits(phase: seq<int>): (s: seq<Car>)
      reads this, graph, leading, lastcar, state
      requires Valid() && |phase| == graph.intersections
      ensures |s| == graph.roads && forall e | 0 <= e < graph.roads :: s[e] == Lit(phase, e)
    {
      seq(graph.roads, e requires 0 <= e < graph.roads && Valid() && |phase| == graph.intersections
        reads this, graph, leading, lastcar, state => Lit(phase, e))
    }

    /** The loop body of `update_lights` for train road `e`: its sentinel position becomes
        its Signal; no other slot changes. */
    method SetLight(phase: seq<int>, e: int)
      requires Valid() && |phase| == graph.intersections && 0 <= e < graph.trainRoads
      modifies state
      ensures state[e, leading[e]] == old(Lit(phase, e))
      ensures forall k, j | 0 <= k < graph.roads && 0 <= j < CAPACITY && (k != e || j != leading[k]) ::
        state[k, j] == old(state[k, j])
    {
      var x: Pos;
      if graph.phases[e] == phase[graph.dest[e]] {
        x := Fin(graph.Length(e));
      } else {
        var newrd := Next(graph.m, graph.n, e);
        if newrd >= 0 && lastcar[newrd] != leading[newrd] {
          x := Plus(state[newrd, lastcar[newrd]].x, graph.Length(e));
        } else {
          x := Inf;
        }
      }
      assert x == Signal(phase, e);
      state[e, leading[e]] := state[e, leading[e]].(x := x);
    }

    /** `update_lights`: every train road's sentinel position is set to its Signal, computed
        from the slots as they were before the call; nothing else changes. */
    method UpdateLights(phase: seq<int>)
      requires Valid() && |phase| == graph.intersections
      modifies state
      ensures forall e | 0 <= e < graph.trainRoads ::
        state[e, leading[e]] == old(state[e, leading[e]]).(x := old(Signal(phase, e)))
      ensures forall e, j | 0 <= e < graph.roads && 0 <= j < CAPACITY && (e >= graph.trainRoads || j != leading[e]) ::
        state[e, j] == old(state[e, j])
      ensures forall e | 0 <= e < graph.roads :: Queue(e) == old(Queue(e))
    {
      ghost var lit := Lits(phase);
      for e := 0 to graph.trainRoads
        invariant forall k | 0 <= k < e :: state[k, leading[k]] == lit[k]
        invariant forall k, j | 0 <= k < graph.roads && 0 <= j < CAPACITY && (k >= e || j != leading[k]) ::
          state[k, j] == old(state[k, j])
      {
        SetLight(phase, e);
      }
      forall e | 0 <= e < graph.roads
        ensures Queue(e) == old(Queue(e))
      {
        assert Slots(e) == old(Slots(e))[leading[e] := state[e, leading[e]]];
        Relight(old(Slots(e)), leading[e], lastcar[e], state[e, leading[e]]);
      }
    }

    /** `add_car`: the car is appended behind the road's last car, at the road start or
        further back so as to keep the last car's length plus minimum gap free, unless the
        buffer is full, in which case it is dropped and nothing changes. Only that slot and
        the road's `lastcar` change. */
    method AddCar(road: int, car: Car)
      requires Valid() && 0 <= road < graph.roads
      modifies state, lastcar
      ensures Valid()
      ensures Queue(road) == Enqueue(old(Queue(road)), car)
      ensures var pos := Succ(old(lastcar[road]));
        if pos == leading[road] then lastcar[road] == old(lastcar[road])
        else lastcar[road] == pos && state[road, pos].x == Fin(EntryPosition(
          if old(lastcar[road] != leading[road]) then BehindTail(old(state[road, lastcar[road]])) else Fin(0.0)))
      ensures forall k | 0 <= k < graph.roads && k != road :: lastcar[k] == old(lastcar[k])
      ensures forall k, j | 0 <= k < graph.roads && 0 <= j < CAPACITY && (k != road || j != Succ(old(lastcar[road])) || lastcar[road] == old(lastcar[road])) ::
        state[k, j] == old(state[k, j])
      ensures forall k | 0 <= k < graph.roads :: state[k, leading[k]] == old(state[k, leading[k]])
      ensures forall k | 0 <= k < graph.roads && k != road :: Slots(k) == old(Slots(k)) && Queue(k) == old(Queue(k))
    {
      var pos := Succ(lastcar[road]);
      var startPos := Fin(0.0);
      if lastcar[road] != leading[road] {
        startPos := BehindTail(state[road, lastcar[road]]);
      }
      FullIff(leading[road], lastcar[road]);
      OccupancyIsDistance(leading[road], lastcar[road]);
      ghost var before := Slots(road);
      if pos != leading[road] {
        state[road, pos] := car.(x := Fin(EntryPosition(startPos)));
        lastcar[road] := pos;
        Push(before, leading[road], old(lastcar[road]), car.(x := Fin(EntryPosition(startPos))));
        assert Slots(road) == before[pos := car.(x := Fin(EntryPosition(startPos)))];
      }
      forall k | 0 <= k < graph.roads && k != road
        ensures Slots(k) == old(Slots(k)) && Queue(k) == old(Queue(k))
      {
        assert Slots(k) == old(Slots(k));
      }
    }

    /** `add_new_cars`, with the arrival process's draws for this tick given as `arrivals`:
        each car is offered to `add_car` on its entry road, in order. Every road's queue
        becomes its old queue with the cars that arrived for it offered in turn (see
        EnqueueAllAppends); roads without an arrival are untouched, and no sentinel or
        `leading` cursor changes. */
    method AddNewCars(arrivals: seq<Arrival>)
      requires Valid() && forall a | a in arrivals :: a.road in graph.entrypoints
      modifies state, lastcar
      ensures Valid()
      ensures forall e | 0 <= e < graph.roads :: Queue(e) == EnqueueAll(old(Queue(e)), CarsFor(arrivals, e))
      ensures forall e | 0 <= e < graph.roads && (forall a | a in arrivals :: a.road != e) ::
        lastcar[e] == old(lastcar[e]) && Slots(e) == old(Slots(e))
      ensures forall e | 0 <= e < graph.roads :: state[e, leading[e]] == old(state[e, leading[e]])
    {
      ghost var q0 := Queues();
      for i := 0 to |arrivals|
        invariant Valid()
        invariant forall e | 0 <= e < graph.roads :: Queue(e) == EnqueueAll(q0[e], CarsFor(arrivals[..i], e))
        invariant forall e | 0 <= e < graph.roads && (forall j | 0 <= j < i :: arrivals[j].road != e) ::
          lastcar[e] == old(lastcar[e]) && Slots(e) == old(Slots(e))
        invariant forall e | 0 <= e < graph.roads :: state[e, leading[e]] == old(state[e, leading[e]])
      {
        assert arrivals[i] in arrivals;
        Arrive(arrivals, i, q0);
      }
      assert arrivals[..|arrivals|] == arrivals;
    }

    /** One round of `add_new_cars`: arrival `i` is offered to `add_car` on its road, which
        takes every queue from the arrivals before `i` offered in turn to the arrivals up to
        and including `i`. No other road, and no sentinel, changes. */
    method Arrive(arrivals: seq<Arrival>, i: int, ghost q0: seq<seq<Car>>)
      requires Valid() && 0 <= i < |arrivals| && 0 <= arrivals[i].road < graph.roads && |q0| == graph.roads
      requires forall e | 0 <= e < graph.roads :: Queue(e) == EnqueueAll(q0[e], CarsFor(arrivals[..i], e))
      modifies state, lastcar
      ensures Valid() && forall e | 0 <= e < graph.roads :: Queue(e) == EnqueueAll(q0[e], CarsFor(arrivals[..i + 1], e))
      ensures forall e | 0 <= e < graph.roads && e != arrivals[i].road ::
        lastcar[e] == old(lastcar[e]) && Slots(e) == old(Slots(e))
      ensures forall e | 0 <= e < graph.roads :: state[e, leading[e]] == old(state[e, leading[e]])
    {
      AddCar(arrivals[i].road, arrivals[i].car);
      forall e | 0 <= e < graph.roads
        ensures Queue(e) == EnqueueAll(q0[e], CarsFor(arrivals[..i + 1], e))
      {
        CarsForStep(q0[e], arrivals, i, e);
      }
    }

    /** `sim` on the slices lo..hi-1 and lo+1..hi of road `e`'s slots (see SimSlots). */
    method SimSlice(e: int, lo: int, hi: int, rate: real, accel: (Car, Car) -> real)
      requires 0 <= e < state.Length0 && state.Length1 == CAPACITY && 0 <= lo <= hi < CAPACITY
      modifies state
      ensures Slots(e) == SimSlots(rate, accel, old(Slots(e)), lo, hi)
      ensures forall k, j | 0 <= k < state.Length0 && k != e && 0 <= j < CAPACITY :: state[k, j] == old(state[k, j])
    {
      var j := hi;
      while j > lo
        invariant lo <= j <= hi
        invariant forall i | j < i <= hi :: state[e, i] == SimCar(rate, accel, old(state[e, i - 1]), old(state[e, i]))
        invariant forall k, i | 0 <= k < state.Length0 && 0 <= i < CAPACITY && (k != e || i <= j || i > hi) ::
          state[k, i] == old(state[k, i])
      {
        state[e, j] := SimCar(rate, accel, state[e, j - 1], state[e, j]);
        j := j - 1;
      }
    }

    /** The physics step of road `e` in `_step`: skipped for an empty road, one slice when the
        cars do not wrap, otherwise slot 0 receives a copy of the last slot and two slices run.
        Every car of the road is updated exactly once, against the pre-step state of the car
        ahead of it (the sentinel for the front car); the sentinel and free slots keep their
        contents. */
    method SimRoad(e: int, rate: real, accel: (Car, Car) -> real)
      requires Valid() && 0 <= e < graph.roads
      modifies state
      ensures Slots(e) == SimRow(rate, accel, old(Slots(e)), leading[e], lastcar[e])
      ensures Queue(e) == SimQueue(rate, accel, old(state[e, leading[e]]), old(Queue(e)))
      ensures forall j | 1 <= j < CAPACITY && !HoldsCar(leading[e], lastcar[e], j) :: state[e, j] == old(state[e, j])
      ensures forall k, j | 0 <= k < graph.roads && k != e && 0 <= j < CAPACITY :: state[k, j] == old(state[k, j])
    {
      ghost var before := Slots(e);
      if leading[e] == lastcar[e] {
        // an empty road: nothing to move
      } else if leading[e] < lastcar[e] {
        SimSlice(e, leading[e], lastcar[e], rate, accel);
      } else {
        state[e, 0] := state[e, CAPACITY - 1];
        assert Slots(e) == before[0 := before[CAPACITY - 1]];
        SimSlice(e, leading[e], CAPACITY - 1, rate, accel);
        SimSlice(e, 0, lastcar[e], rate, accel);
      }
      assert Slots(e) == SimRow(rate, accel, before, leading[e], lastcar[e]);
      SimRowIsSimQueue(rate, accel, before, leading[e], lastcar[e]);
    }

    /** The physics pass of `_step` over all roads. */
    method MoveCars(rate: real, accel: (Car, Car) -> real)
      requires Valid()
      modifies state
      ensures forall e | 0 <= e < graph.roads :: Slots(e) == SimRow(rate, accel, old(Slots(e)), leading[e], lastcar[e])
      ensures forall e | 0 <= e < graph.roads :: Queue(e) == SimQueue(rate, accel, old(state[e, leading[e]]), old(Queue(e)))
      ensures forall e | 0 <= e < graph.roads :: state[e, leading[e]] == old(state[e, leading[e]])
    {
      for e := 0 to graph.roads
        invariant forall k | 0 <= k < e :: Slots(k) == SimRow(rate, accel, old(Slots(k)), leading[k], lastcar[k])
        invariant forall k | e <= k < graph.roads :: Slots(k) == old(Slots(k))
      {
        label Before:
        SimRoad(e, rate, accel);
        forall k | 0 <= k < graph.roads && k != e
          ensures Slots(k) == old@Before(Slots(k))
        {
        }
      }
      forall e | 0 <= e < graph.roads
        ensures Queue(e) == SimQueue(rate, accel, old(state[e, leading[e]]), old(Queue(e)))
        ensures state[e, leading[e]] == old(state[e, leading[e]])
      {
        SimRowIsSimQueue(rate, accel, old(Slots(e)), leading[e], lastcar[e]);
        assert !HoldsCar(leading[e], lastcar[e], leading[e]);
      }
    }


    /** The cursors and sentinels of `advance_finished_cars` against those it started from
        (`lead0`, `sent0`), once `departed[e]` cars have left each road e: every `leading`
        moved one step per departure and took its sentinel along. */
    ghost predicate Cursors(lead0: seq<int>, sent0: seq<Car>, departed: seq<nat>)
      reads this, graph, leading, lastcar, state
      requires Valid() && |lead0| == graph.roads && |sent0| == graph.roads && |departed| == graph.roads
    {
      forall k | 0 <= k < graph.roads :: InRing(lead0[k]) && leading[k] == Advance(lead0[k], departed[k]) && state[k, leading[k]] == sent0[k]
    }

    /** Every counter holds the departures so far from the train roads ending at its intersection. */
    ghost predicate Counted(departed: seq<nat>)
      reads this, graph, counts
      requires Shaped() && |departed| == graph.roads
    {
      forall d | 0 <= d < graph.intersections :: counts[d] == Crossings(departed, graph.intersections, d)
    }

    /** The state in the middle of `advance_finished_cars`, which started from the cursors
        `lead0` and sentinels `sent0`: the roads hold the queues of `f`, the cursors have
        moved by its departures, and the counters count them. */
    ghost predicate Tracks(lead0: seq<int>, sent0: seq<Car>, f: Flow)
      reads this, graph, leading, lastcar, state, counts
    {
      Valid() && |lead0| == graph.roads && |sent0| == graph.roads && Fits(graph.nexts, f) &&
      Holds(f) && Cursors(lead0, sent0, f.departed) && Counted(f.departed)
    }

    /** `add_car` as `advance_finished_cars` uses it: the queues of `f` with the car offered
        to road `road`. No other road changes. */
    method Offer(road: int, car: Car, ghost f: Flow)
      requires Valid() && 0 <= road < graph.roads && Holds(f)
      modifies state, lastcar
      ensures Valid() && Holds(f.(queues := f.queues[road := Enqueue(f.queues[road], car)]))
      ensures forall k | 0 <= k < graph.roads :: Queue(k) == if k == road then Enqueue(old(Queue(k)), car) else old(Queue(k))
      ensures forall k | 0 <= k < graph.roads && k != road :: lastcar[k] == old(lastcar[k]) && Slots(k) == old(Slots(k))
      ensures forall k | 0 <= k < graph.roads :: state[k, leading[k]] == old(state[k, leading[k]])
    {
      AddCar(road, car);
    }

    /** `counts[dest[e]] += 1` for a departure from train road `e`: one more crossing of
        `e`'s intersection. */
    method Tally(e: int, ghost departed: seq<nat>)
      requires Shaped() && 0 <= e < graph.trainRoads && |departed| == graph.roads && Counted(departed)
      modifies counts
      ensures Counted(departed[e := departed[e] + 1])
    {
      counts[graph.dest[e]] := counts[graph.dest[e]] + 1;
      CrossingsBump(departed, graph.intersections, e);
    }

    /** The part of one turn of the inner loop of `advance_finished_cars` that hands the
        departing car `car` of road `e` on (see Pass): unless `e` is a border road, the car
        is offered to `add_car` on the next road, whose queue becomes Enqueue of its old
        queue, and the counter of `e`'s intersection goes up. No other queue changes. */
    method Hand(e: int, car: Car, ghost f: Flow) returns (ghost f': Flow)
      requires Valid() && 0 <= e < graph.roads && Holds(f) && Counted(f.departed)
      modifies state, lastcar, counts
      ensures Valid() && Fits(graph.nexts, f) && f' == Pass(graph.nexts, f, e, car)
      ensures Holds(f') && Counted(f'.departed)
      ensures forall k | 0 <= k < graph.roads ::
        Queue(k) == if k == graph.nexts[e] then Enqueue(old(Queue(k)), car) else old(Queue(k))
      ensures lastcar[e] == old(lastcar[e]) && Slots(e) == old(Slots(e))
      ensures forall k | 0 <= k < graph.roads :: state[k, leading[k]] == old(state[k, leading[k]])
    {
      var newrd := Next(graph.m, graph.n, e);
      assert newrd == graph.nexts[e];
      if newrd >= 0 {
        f' := Forward(e, newrd, car, f);
      } else {
        assert forall d | 0 <= d < graph.intersections ::
          Crossings(f.departed[e := f.departed[e] + 1], graph.intersections, d) == Crossings(f.departed, graph.intersections, d);
        f' := Pass(graph.nexts, f, e, car);
      }
    }

    /** Hand for a train road `e`, whose next road is `newrd`: the car is offered to
        `add_car` there and the counter of `e`'s intersection goes up. */
    method Forward(e: int, newrd: int, car: Car, ghost f: Flow) returns (ghost f': Flow)
      requires Valid() && 0 <= e < graph.roads && newrd == graph.nexts[e] && 0 <= newrd
      requires Holds(f) && Counted(f.departed)
      modifies state, lastcar, counts
      ensures Valid() && Fits(graph.nexts, f) && f' == Pass(graph.nexts, f, e, car)
      ensures Holds(f') && Counted(f'.departed)
      ensures forall k | 0 <= k < graph.roads ::
        Queue(k) == if k == newrd then Enqueue(old(Queue(k)), car) else old(Queue(k))
      ensures lastcar[e] == old(lastcar[e]) && Slots(e) == old(Slots(e))
      ensures forall k | 0 <= k < graph.roads :: state[k, leading[k]] == old(state[k, leading[k]])
    {
      assert graph.nexts[e] == Next(graph.m, graph.n, e) && e < graph.trainRoads;
      // The counter and the slots are disjoint, so bumping the counter first, as here,
      // gives the same state as the source's order.
      Tally(e, f.departed);
      Offer(newrd, car, f);
      f' := Pass(graph.nexts, f, e, car);
    }

    /** The part of one turn of the inner loop of `advance_finished_cars` that removes the
        front car of road `e` (see Shift): the sentinel is copied onto its slot and `leading`
        moves there. The queue loses exactly its front car, the one in the slot after the
        old `leading`; no other queue changes. */
    method DropFront(e: int, ghost lead0: seq<int>, ghost sent0: seq<Car>, ghost departed: seq<nat>, ghost g: Flow)
      returns (ghost g': Flow)
      requires Valid() && 0 <= e < graph.roads && leading[e] != lastcar[e]
      requires |lead0| == graph.roads && |sent0| == graph.roads && |departed| == graph.roads
      requires Cursors(lead0, sent0, departed) && Holds(g)
      modifies state, leading
      ensures Valid() && Cursors(lead0, sent0, departed[e := departed[e] + 1])
      ensures Fits(graph.nexts, g) && |g.queues[e]| > 0 && g' == Shift(graph.nexts, g, e) && Holds(g')
      ensures leading[e] == Succ(old(leading[e]))
      ensures Occupancy(leading[e], lastcar[e]) == old(Occupancy(leading[e], lastcar[e])) - 1
      ensures |old(Queue(e))| > 0 && old(Queue(e))[0] == old(state[e, Succ(leading[e])])
      ensures Queue(e) == old(Queue(e))[1..]
      ensures forall k | 0 <= k < graph.roads && k != e :: Queue(k) == old(Queue(k))
    {
      var newlead := Succ(leading[e]);
      ghost var l, c := leading[e], lastcar[e];
      ghost var row := Slots(e);
      state[e, newlead] := state[e, leading[e]];
      leading[e] := newlead;
      Pop(row, l, c);
      assert Slots(e) == row[newlead := row[l]];
      AdvanceSucc(lead0[e], departed[e]);
      forall k | 0 <= k < graph.roads && k != e
        ensures Queue(k) == old(Queue(k))
      {
        assert Slots(k) == old(Slots(k));
      }
      g' := Shift(graph.nexts, g, e);
    }

    /** One turn of the inner loop of `advance_finished_cars`: the front car of road `e`
        leaves it and is handed on (see Leave). */
    method Depart(e: int, ghost lead0: seq<int>, ghost sent0: seq<Car>, ghost f: Flow)
      returns (ghost f': Flow)
      requires Tracks(lead0, sent0, f) && 0 <= e < graph.roads && leading[e] != lastcar[e]
      modifies state, leading, lastcar, counts
      ensures Tracks(lead0, sent0, f') && |f.queues[e]| > 0 && f' == Leave(graph.nexts, f, e)
      ensures leading[e] == Succ(old(leading[e])) && lastcar[e] == old(lastcar[e])
      ensures Occupancy(leading[e], lastcar[e]) == old(Occupancy(leading[e], lastcar[e])) - 1
    {
      var car := state[e, Succ(leading[e])];
      ghost var f1 := Hand(e, car, f);
      f' := DropFront(e, lead0, sent0, f.departed, f1);
      assert car == f.queues[e][0];
    }

    /** The inner loop of `advance_finished_cars` for road `e`: cars leave its front for as
        long as the front car is past the road end (see Drain). Afterwards the road's front
        car, if any, is within the road. */
    method DrainRoad(e: int, ghost lead0: seq<int>, ghost sent0: seq<Car>, ghost f: Flow)
      returns (ghost f': Flow)
      requires Tracks(lead0, sent0, f) && 0 <= e < graph.roads
      modifies state, leading, lastcar, counts
      ensures Tracks(lead0, sent0, f') && f' == Drain(graph.nexts, graph.len, f, e)
      ensures Settled(Queue(e), graph.len)
    {
      f' := f;
      while leading[e] != lastcar[e] && Beyond(state[e, Succ(leading[e])].x, graph.Length(e))
        invariant Tracks(lead0, sent0, f')
        invariant Drain(graph.nexts, graph.len, f', e) == Drain(graph.nexts, graph.len, f, e)
        decreases Occupancy(leading[e], lastcar[e])
      {
        Pop(Slots(e), leading[e], lastcar[e]);
        f' := Depart(e, lead0, sent0, f');
      }
      if leading[e] != lastcar[e] {
        Pop(Slots(e), leading[e], lastcar[e]);
      }
    }

    /** The outer loop of `advance_finished_cars`: every road in index order is drained
        (see CrossFrom). */
    method DrainAll(ghost lead0: seq<int>, ghost sent0: seq<Car>, ghost f: Flow) returns (ghost f': Flow)
      requires Tracks(lead0, sent0, f)
      modifies state, leading, lastcar, counts
      ensures Tracks(lead0, sent0, f') && f' == CrossFrom(graph.nexts, graph.len, f, 0)
    {
      ghost var trace := TraceFrom(graph.nexts, graph.len, f, 0);
      f' := f;
      for e := 0 to graph.roads
        invariant Tracks(lead0, sent0, f') && f' == trace[e]
      {
        f' := DrainRoad(e, lead0, sent0, f');
      }
    }

    /** The first statement of `advance_finished_cars`: every counter is set to zero, which
        is what no departures count to. `f` is the state the drain starts from: the queues
        on the roads and no departures yet. */
    method ClearCounts() returns (ghost f: Flow)
      requires Valid()
      modifies counts
      ensures f == Start(old(Queues())) && Tracks(old(leading[..]), old(Sentinels()), f)
    {
      forall d | 0 <= d < counts.Length {
        counts[d] := 0;
      }
      f := Start(Queues());
    }

    /** `advance_finished_cars`: the counters are cleared; then, road by road, as long as the
        front car is past the road end it leaves: the sentinel moves onto its slot, and unless
        the road is a border road the car is offered to `add_car` on the next road and the
        counter of the road's intersection goes up by one. The resulting queues and
        departure counts are those of Cross on the old queues. The sentinels travel with
        `leading`, and every counter equals the number of departures from the four train
        roads ending at its intersection. For a road length of at least zero, the cars that
        left each road are exactly its old front cars that were past the end, the remaining
        cars stay in front in order, and afterwards no road's front car is past the end. */
    method AdvanceFinishedCars() returns (ghost f: Flow)
      requires Valid()
      modifies state, leading, lastcar, counts
      ensures Valid() && Holds(f) && f == Cross(graph.nexts, graph.len, old(Queues()))
      ensures Cursors(old(leading[..]), old(Sentinels()), f.departed) && Counted(f.departed)
      ensures 0.0 <= graph.len ==> forall e | 0 <= e < graph.roads ::
        Drained(old(Queues())[e], f.departed[e], f.queues[e], graph.len) && Settled(f.queues[e], graph.len)
    {
      ghost var lead0 := leading[..];
      ghost var sent0 := Sentinels();
      ghost var q0 := Queues();
      f := ClearCounts();
      f := DrainAll(lead0, sent0, f);
      if 0.0 <= graph.len {
        CrossDrains(graph.nexts, graph.len, q0);
      }
    }

    /** The observation of `_step`: the number of cars on every train road. */
    method Observe() returns (obs: seq<int>)
      requires Valid()
      ensures |obs| == graph.trainRoads && forall e | 0 <= e < graph.trainRoads ::
        obs[e] == |Queue(e)| && 0 <= obs[e] <= CAPACITY - 2
    {
      obs := CarsOnRoads(leading[..graph.trainRoads], lastcar[..graph.trainRoads]);
    }

    /** The reward of `_step`: a copy of the counters. When they count `departed`, each
        entry is the departures from the train roads ending at that intersection, and they
        sum to the departures from all train roads. */
    method Throughput(ghost departed: seq<nat>) returns (throughput: seq<int>)
      requires Valid() && |departed| == graph.roads && Counted(departed)
      ensures |throughput| == graph.intersections &&
        forall d | 0 <= d < graph.intersections :: throughput[d] == Crossings(departed, graph.intersections, d) >= 0
      ensures Sum(throughput) == Sum(departed[..graph.trainRoads])
    {
      throughput := counts[..];
      CrossingsTotal(throughput, departed, graph.intersections);
    }

    /** The middle of `_step`: the tick's arrivals enter and every road runs the physics
        pass. Each road's queue becomes SimQueue, under its sentinel, of its old queue with
        its arrivals offered in turn; the sentinels keep their content. */
    method Drive(arrivals: seq<Arrival>, rate: real, accel: (Car, Car) -> real)
      requires Valid() && forall a | a in arrivals :: a.road in graph.entrypoints
      modifies state, lastcar
      ensures Valid()
      ensures forall e | 0 <= e < graph.roads ::
        Queue(e) == SimQueue(rate, accel, old(state[e, leading[e]]), EnqueueAll(old(Queue(e)), CarsFor(arrivals, e)))
      ensures forall e | 0 <= e < graph.roads :: state[e, leading[e]] == old(state[e, leading[e]])
    {
      AddNewCars(arrivals);
      label Arrived:
      MoveCars(rate, accel);
      forall e | 0 <= e < graph.roads
        ensures state[e, leading[e]] == old(state[e, leading[e]])
        ensures Queue(e) == SimQueue(rate, accel, old(state[e, leading[e]]), EnqueueAll(old(Queue(e)), CarsFor(arrivals, e)))
      {
        assert state[e, leading[e]] == old@Arrived(state[e, leading[e]]);
      }
    }

    /** The first part of `_step`: the commanded phases are cast to `int8` and stored, the
        lights are set, the tick's arrivals enter and every road runs the physics pass. Each
        road's queue becomes SimQueue, under its lit sentinel, of its old queue with its
        arrivals offered in turn; every sentinel is left as the lights made it. */
    method Move(action: seq<int>, arrivals: seq<Arrival>, rate: real, accel: (Car, Car) -> real)
      requires Valid() && |action| == graph.intersections
      requires forall a | a in arrivals :: a.road in graph.entrypoints
      modifies this, state, lastcar
      ensures Valid() && currentPhase == Int8s(action) && leading == old(leading) && lastcar == old(lastcar)
      ensures forall e | 0 <= e < graph.roads :: state[e, leading[e]] == old(Lit(Int8s(action), e))
      ensures forall e | 0 <= e < graph.roads ::
        Queue(e) == SimQueue(rate, accel, old(Lit(Int8s(action), e)), EnqueueAll(old(Queue(e)), CarsFor(arrivals, e)))
    {
      currentPhase := Int8s(action);
      UpdateLights(currentPhase);
      label Lit:
      Drive(arrivals, rate, accel);
      forall e | 0 <= e < graph.roads
        ensures state[e, leading[e]] == old(Lit(Int8s(action), e))
        ensures Queue(e) == SimQueue(rate, accel, old(Lit(Int8s(action), e)), EnqueueAll(old(Queue(e)), CarsFor(arrivals, e)))
      {
        assert old@Lit(state[e, leading[e]]) == old(Lit(Int8s(action), e));
        assert old@Lit(Queue(e)) == old(Queue(e));
      }
    }

    /** The second part of `_step`: finished cars cross their intersections (Cross on the
        queues), then the observation and the reward are read off. The observation is the
        number of cars on each train road, within [0, CAPACITY-2]; the reward is the
        per-intersection crossing count of this tick and sums to the cars that left train
        roads. The sentinels travel with `leading`. */
    method Finish() returns (obs: seq<int>, throughput: seq<int>, ghost f: Flow)
      requires Valid()
      modifies state, leading, lastcar, counts
      ensures Valid() && Holds(f) && f == Cross(graph.nexts, graph.len, old(Queues()))
      ensures forall e | 0 <= e < graph.roads :: leading[e] == Advance(old(leading[e]), f.departed[e])
      ensures forall e | 0 <= e < graph.roads :: state[e, leading[e]] == old(state[e, leading[e]])
      ensures |obs| == graph.trainRoads && forall e | 0 <= e < graph.trainRoads ::
        obs[e] == |Queue(e)| && 0 <= obs[e] <= CAPACITY - 2
      ensures |throughput| == graph.intersections &&
        forall d | 0 <= d < graph.intersections :: throughput[d] == Crossings(f.departed, graph.intersections, d) >= 0
      ensures Sum(throughput) == Sum(f.departed[..graph.trainRoads])
    {
      f := AdvanceFinishedCars();
      obs := Observe();
      throughput := Throughput(f.departed);
    }

    /** `_step`: the commanded phases are cast to `int8` and stored, the lights are set, the
        tick's arrivals enter, every road runs the physics pass and finished cars cross their
        intersections. `mid` is the queues after the physics pass: each is SimQueue, under
        the road's lit sentinel, of its queue at the start of the tick with its arrivals
        offered in turn. The queues at the end and the departures are Cross of `mid`. The
        observation is the number of cars on each train road, within [0, CAPACITY-2]; the
        reward is the per-intersection crossing count of this tick and sums to the cars that
        left train roads; the episode never ends. Every sentinel ends the tick as the lights
        made it, which for a train road puts it at its Signal position. */
    method Step(action: seq<int>, arrivals: seq<Arrival>, rate: real, accel: (Car, Car) -> real)
      returns (obs: seq<int>, throughput: seq<int>, done: bool, ghost mid: seq<seq<Car>>, ghost f: Flow)
      requires Valid() && |action| == graph.intersections
      requires forall a | a in arrivals :: a.road in graph.entrypoints
      modifies this, state, leading, lastcar, counts
      ensures Valid() && currentPhase == Int8s(action) && !done
      ensures leading == old(leading) && lastcar == old(lastcar)
      ensures |mid| == graph.roads && forall e | 0 <= e < graph.roads ::
        mid[e] == SimQueue(rate, accel, old(Lit(Int8s(action), e)), EnqueueAll(old(Queue(e)), CarsFor(arrivals, e)))
      ensures Holds(f) && f == Cross(graph.nexts, graph.len, mid)
      ensures |obs| == graph.trainRoads && forall e | 0 <= e < graph.trainRoads ::
        obs[e] == |Queue(e)| && 0 <= obs[e] <= CAPACITY - 2
      ensures |throughput| == graph.intersections &&
        forall d | 0 <= d < graph.intersections :: throughput[d] == Crossings(f.departed, graph.intersections, d) >= 0
      ensures Sum(throughput) == Sum(f.departed[..graph.trainRoads])
      ensures forall e | 0 <= e < graph.roads :: state[e, leading[e]] == old(Lit(Int8s(action), e))
      ensures forall e | 0 <= e < graph.trainRoads :: state[e, leading[e]].x == old(Signal(Int8s(action), e))
    {
      Move(action, arrivals, rate, accel);
      mid := Queues();
      obs, throughput, f := Finish();
      done := false;
    }
  }
}
