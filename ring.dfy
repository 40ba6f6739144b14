/** Cursor arithmetic of the per-road circular car buffer.
    Every road owns CAPACITY slots. Slot 0 is scratch space for the physics pass;
    the cursors `leading` and `lastcar` move around the ring of slots 1..CAPACITY-1.
    The slot at `leading` holds the sentinel and the real cars sit, oldest first,
    in the slots after it up to and including `lastcar`. */
module Ring {

  /** Slots per road. */
  const CAPACITY: int := 20

  /** Number of slots the cursors can address (slot 0 is never one of them). */
  const RING: int := CAPACITY - 1

  predicate InRing(a: int) {
    1 <= a < CAPACITY
  }

  /** `wrap`: an index that ran off the end of the slots goes back to slot 1. */
  function Wrap(a: int): (r: int)
    ensures 1 <= a <= CAPACITY ==> InRing(r)
  {
    if a >= CAPACITY then 1 else a
  }

  /** The cursor position after `a` (the source's `wrap(a + 1)`). */
  function Succ(a: int): int {
    Wrap(a + 1)
  }

  /** `a` moved `k` steps around the ring. */
  function Advance(a: int, k: nat): (r: int)
    ensures InRing(a) ==> InRing(r)
    decreases k
  {
    if k == 0 then a else Advance(Succ(a), k - 1)
  }

  /** `cars_on_roads` for one road: the number of slots after `leading` up to `lastcar`. */
  function Occupancy(leading: int, lastcar: int): (c: int)
    ensures InRing(leading) && InRing(lastcar) ==> 0 <= c <= CAPACITY - 2 && (c == 0 <==> leading == lastcar)
  {
    (if leading > lastcar then CAPACITY - 1 else 0) + lastcar - leading
  }

  /** Slot `j` holds a real car: it lies circularly in (leading, lastcar]. */
  predicate HoldsCar(leading: int, lastcar: int, j: int) {
    if leading <= lastcar then leading < j <= lastcar
    else leading < j < CAPACITY || 1 <= j <= lastcar
  }

  /** Within one lap, moving `k` steps is plain addition, folded back by the ring length. */
  lemma {:induction false} AdvanceShort(a: int, k: nat)
    requires InRing(a) && k <= RING
    ensures Advance(a, k) == if a + k < CAPACITY then a + k else a + k - RING
    decreases k
  {
    if k > 0 {
      AdvanceShort(Succ(a), k - 1);
    }
  }

  /** The same position, by modular arithmetic, for any number of steps. */
  lemma {:induction false} AdvanceMod(a: int, k: nat)
    requires InRing(a)
    ensures Advance(a, k) == (a - 1 + k) % RING + 1
    decreases k
  {
    if k > 0 {
      AdvanceMod(Succ(a), k - 1);
    }
  }

  /** One more step is one more `Succ`. */
  lemma {:induction false} AdvanceSucc(a: int, k: nat)
    requires InRing(a)
    ensures Advance(a, k + 1) == Succ(Advance(a, k))
    decreases k
  {
    if k > 0 {
      AdvanceSucc(Succ(a), k - 1);
    }
  }

  /** The occupancy is the distance from `leading` to `lastcar` along the ring:
      the least number of steps that takes the one to the other. */
  lemma OccupancyIsDistance(leading: int, lastcar: int)
    requires InRing(leading) && InRing(lastcar)
    ensures Occupancy(leading, lastcar) == (lastcar - leading) % RING
    ensures Advance(leading, Occupancy(leading, lastcar)) == lastcar
    ensures forall k: nat | k < Occupancy(leading, lastcar) :: Advance(leading, k) != lastcar
  {
    AdvanceShort(leading, Occupancy(leading, lastcar));
    forall k: nat | k < Occupancy(leading, lastcar)
      ensures Advance(leading, k) != lastcar
    {
      AdvanceShort(leading, k);
    }
  }

  /** The slots holding cars are exactly the first Occupancy steps after `leading`. */
  lemma HoldsCarIsQueued(leading: int, lastcar: int, j: int)
    requires InRing(leading) && InRing(lastcar) && InRing(j)
    ensures HoldsCar(leading, lastcar, j) <==>
            exists k: nat :: 1 <= k <= Occupancy(leading, lastcar) && Advance(leading, k) == j
  {
    if HoldsCar(leading, lastcar, j) {
      var k := if j > leading then j - leading else j + RING - leading;
      AdvanceShort(leading, k);
    }
    forall k: nat | 1 <= k <= Occupancy(leading, lastcar)
      ensures HoldsCar(leading, lastcar, Advance(leading, k))
    {
      AdvanceShort(leading, k);
    }
  }

  /** A buffer is full (`add_car` would drop) exactly when it holds CAPACITY-2 cars. */
  lemma FullIff(leading: int, lastcar: int)
    requires InRing(leading) && InRing(lastcar)
    ensures Succ(lastcar) == leading <==> Occupancy(leading, lastcar) == CAPACITY - 2
  {
  }

  /** The cars of a road, front (the one next to the sentinel) first. */
  function QueueOf<T>(row: seq<T>, leading: int, lastcar: int): (q: seq<T>)
    requires |row| == CAPACITY && InRing(leading) && InRing(lastcar)
    ensures |q| == Occupancy(leading, lastcar)
  {
    seq(Occupancy(leading, lastcar), k requires 0 <= k => row[Advance(leading, k + 1)])
  }

  /** Appending at the tail: writing the slot after `lastcar` and moving `lastcar` there
      adds exactly that car at the end of the queue, as long as the buffer is not full. */
  lemma Push<T>(row: seq<T>, leading: int, lastcar: int, c: T)
    requires |row| == CAPACITY && InRing(leading) && InRing(lastcar)
    requires Succ(lastcar) != leading
    ensures Occupancy(leading, Succ(lastcar)) == Occupancy(leading, lastcar) + 1
    ensures QueueOf(row[Succ(lastcar) := c], leading, Succ(lastcar)) == QueueOf(row, leading, lastcar) + [c]
  {
    var occ := Occupancy(leading, lastcar);
    var q := QueueOf(row, leading, lastcar);
    var q' := QueueOf(row[Succ(lastcar) := c], leading, Succ(lastcar));
    AdvanceShort(leading, occ + 1);
    forall k | 0 <= k < occ
      ensures q'[k] == q[k]
    {
      AdvanceShort(leading, k + 1);
    }
  }

  /** Rewriting the sentinel slot leaves the queue as it was: no car is stored there. */
  lemma Relight<T>(row: seq<T>, leading: int, lastcar: int, c: T)
    requires |row| == CAPACITY && InRing(leading) && InRing(lastcar)
    ensures QueueOf(row[leading := c], leading, lastcar) == QueueOf(row, leading, lastcar)
  {
    OccupancyIsDistance(leading, lastcar);
    forall k | 0 <= k < Occupancy(leading, lastcar)
      ensures QueueOf(row[leading := c], leading, lastcar)[k] == QueueOf(row, leading, lastcar)[k]
    {
      AdvanceShort(leading, k + 1);
    }
  }

  /** Popping the front: the front car's slot becomes the sentinel slot (it receives the
      sentinel's content) and `leading` moves onto it; the rest of the queue is unchanged. */
  lemma Pop<T>(row: seq<T>, leading: int, lastcar: int)
    requires |row| == CAPACITY && InRing(leading) && InRing(lastcar)
    requires leading != lastcar
    ensures Occupancy(Succ(leading), lastcar) == Occupancy(leading, lastcar) - 1
    ensures QueueOf(row, leading, lastcar)[0] == row[Succ(leading)]
    ensures QueueOf(row[Succ(leading) := row[leading]], Succ(leading), lastcar) == QueueOf(row, leading, lastcar)[1..]
  {
    var occ := Occupancy(leading, lastcar);
    var q := QueueOf(row, leading, lastcar);
    var q' := QueueOf(row[Succ(leading) := row[leading]], Succ(leading), lastcar);
    assert Advance(leading, 1) == Succ(leading);
    forall k | 0 <= k < occ - 1
      ensures q'[k] == q[k + 1]
    {
      assert Advance(leading, k + 2) == Advance(Succ(leading), k + 1);
      AdvanceShort(leading, k + 2);
    }
  }
}
