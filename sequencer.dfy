/** The `cars` table and what the exit-queue handlers of
    parking_system/app.py do to it, as functions on the table's contents.
    Each lane (`machine`) has its own exit queue: `exit_order` 0 means "not
    queued", a positive value is the car's rank in its lane's queue. */
module Sequencer {
  import opened Common

  /** One row of `cars` (the `id` column is the table's key). `small` and
      `lowEmission` are the stored integers 0/1. */
  datatype Car = Car(plate: string, machine: int, small: nat, lowEmission: nat, exitOrder: nat)

  /** The table: rows keyed by `id`. */
  type Table = map<int, Car>

  /** The range of SQLite's INTEGER storage class (64-bit signed); binding a
      Python integer outside it raises `OverflowError`. */
  const MinInteger: int := -0x8000_0000_0000_0000
  const MaxInteger: int := 0x7fff_ffff_ffff_ffff

  predicate FitsInteger(n: int) {
    MinInteger <= n <= MaxInteger
  }

  /** What a handler answers and the table it leaves behind. */
  datatype Step = Step(response: Response, table: Table)

  // ---------------- MAX(exit_order) over one lane

  /** `m` is `MAX(exit_order)` over the rows of `lane` among `keys`, with an
      empty selection counting as 0 (the `or 0` of the handler). */
  ghost predicate IsMaxOver(t: Table, keys: set<int>, lane: int, m: nat) {
    && (forall id :: id in keys && id in t && t[id].machine == lane ==> t[id].exitOrder <= m)
    && (m == 0 || exists id :: id in keys && id in t && t[id].machine == lane && t[id].exitOrder == m)
  }

  lemma {:induction false} MaxOverExists(t: Table, keys: set<int>, lane: int)
    ensures exists m :: IsMaxOver(t, keys, lane, m)
    decreases keys
  {
    if keys == {} {
      assert IsMaxOver(t, keys, lane, 0);
    } else {
      if forall x :: x !in keys { assert false; }
      var k :| k in keys;
      MaxOverExists(t, keys - {k}, lane);
      var m' :| IsMaxOver(t, keys - {k}, lane, m');
      if k in t && t[k].machine == lane && t[k].exitOrder > m' {
        assert IsMaxOver(t, keys, lane, t[k].exitOrder);
      } else {
        assert IsMaxOver(t, keys, lane, m');
      }
    }
  }

  /** The maximum is determined by the rows it ranges over. */
  lemma MaxOverUnique(t: Table, keys: set<int>, lane: int, m1: nat, m2: nat)
    requires IsMaxOver(t, keys, lane, m1) && IsMaxOver(t, keys, lane, m2)
    ensures m1 == m2
  {
  }

  /** `SELECT MAX(exit_order) FROM cars WHERE machine=?`, `or 0`. */
  ghost function LaneMax(t: Table, lane: int): (m: nat)
    ensures IsMaxOver(t, t.Keys, lane, m)
  {
    MaxOverExists(t, t.Keys, lane);
    var m :| IsMaxOver(t, t.Keys, lane, m);
    m
  }

  // ---------------- the handlers

  /** `queue_exit` (parking_system/app.py:198-215). It neither adds nor
      deletes rows, and it touches only the `exit_order` of the car named. */
  ghost function QueueStep(t: Table, id: int): (s: Step)
    ensures s.table.Keys == t.Keys
    ensures forall k :: k in t && k != id ==> s.table[k] == t[k]
    ensures id in t ==> s.table[id] == t[id].(exitOrder := s.table[id].exitOrder)
  {
    if id !in t then Step(NotFound, t)
    else if t[id].exitOrder == 0 then
      Step(Ok, t[id := t[id].(exitOrder := LaneMax(t, t[id].machine) + 1)])
    else Step(Ok, t)
  }

  /** A row after `UPDATE cars SET exit_order = exit_order - 1 WHERE machine=? AND exit_order > 1`. */
  function Shifted(c: Car, lane: int): Car {
    if c.machine == lane && c.exitOrder > 1 then c.(exitOrder := c.exitOrder - 1) else c
  }

  /** `exit_car` (parking_system/app.py:218-233): only the front car of its
      lane leaves, and the rest of that lane moves up one rank. So at most
      the named row is deleted, and the others change only in `exit_order`,
      which never grows. */
  function ExitStep(t: Table, id: int): (s: Step)
    ensures s.table.Keys == t.Keys || (id in t && s.table.Keys == t.Keys - {id})
    ensures forall k :: k in s.table ==>
      && k in t
      && s.table[k] == t[k].(exitOrder := s.table[k].exitOrder)
      && s.table[k].exitOrder <= t[k].exitOrder
  {
    if id !in t then Step(NotFound, t)
    else if t[id].exitOrder == 1 then
      Step(Ok, map k | k in t && k != id :: Shifted(t[k], t[id].machine))
    else Step(Ok, t)
  }

  /** `remove_car` (parking_system/app.py:236-245): `DELETE` with no
      renumbering. The row goes whatever its rank, no other row changes, and
      the answer is success. */
  function RemoveStep(t: Table, id: int): (s: Step)
    ensures s.response == Ok
    ensures s.table.Keys == t.Keys - {id}
    ensures forall k :: k in s.table ==> s.table[k] == t[k]
  {
    Step(Ok, t - {id})
  }

  // ---------------- queue_exit

  /** `queue_exit` answers 404 exactly for an unknown id, and then leaves the
      table as it was; for a known id it answers success, also when it
      changes nothing. */
  lemma QueueUnknownId(t: Table, id: int)
    ensures QueueStep(t, id).response == NotFound <==> id !in t
    ensures id in t ==> QueueStep(t, id).response == Ok
    ensures id !in t ==> QueueStep(t, id).table == t
  {
  }

  /** Queuing an unqueued car gives it the rank one past every rank in its
      lane (1 in a lane with no queued car). */
  lemma QueueAppends(t: Table, id: int)
    requires id in t && t[id].exitOrder == 0
    ensures var t' := QueueStep(t, id).table;
      && (forall k :: k in t && t[k].machine == t[id].machine ==> t[k].exitOrder < t'[id].exitOrder)
      && (t'[id].exitOrder == 1 || exists k :: k in t && t[k].machine == t[id].machine && t[k].exitOrder == t'[id].exitOrder - 1)
  {
  }

  /** `queue_exit` changes the table exactly when the car is known and not yet queued. */
  lemma QueueChangesIff(t: Table, id: int)
    ensures QueueStep(t, id).table != t <==> id in t && t[id].exitOrder == 0
  {
    if id in t && t[id].exitOrder == 0 {
      assert QueueStep(t, id).table[id].exitOrder != t[id].exitOrder;
    }
  }

  /** Queuing twice is queuing once. */
  lemma QueueIdempotent(t: Table, id: int)
    ensures QueueStep(QueueStep(t, id).table, id) == QueueStep(t, id)
  {
  }

  // ---------------- exit_car

  /** `exit_car` answers 404 exactly for an unknown id, and then leaves the
      table as it was. */
  lemma ExitUnknownId(t: Table, id: int)
    ensures ExitStep(t, id).response == NotFound <==> id !in t
    ensures id !in t ==> ExitStep(t, id).table == t
  {
  }

  /** The front gate: `exit_car` changes the table exactly when the car is
      first in its lane's queue; otherwise it is a no-op that reports success. */
  lemma ExitChangesIff(t: Table, id: int)
    ensures ExitStep(t, id).table != t <==> id in t && t[id].exitOrder == 1
    ensures id in t ==> ExitStep(t, id).response == Ok
  {
    if id in t && t[id].exitOrder == 1 {
      assert id !in ExitStep(t, id).table;
    }
  }

  /** When the front car leaves: it is gone, exactly the rows of its lane
      ranked above 1 move up by one, and every other row (other lanes, and
      unqueued cars of this lane) is untouched. */
  lemma ExitRenumbersItsLane(t: Table, id: int)
    requires id in t && t[id].exitOrder == 1
    ensures var t' := ExitStep(t, id).table; var lane := t[id].machine;
      && t'.Keys == t.Keys - {id}
      && (forall k :: k in t' && t[k].machine == lane && t[k].exitOrder > 1 ==>
            t'[k] == t[k].(exitOrder := t[k].exitOrder - 1))
      && (forall k :: k in t' && (t[k].machine != lane || t[k].exitOrder <= 1) ==> t'[k] == t[k])
  {
  }

  // ---------------- the density invariant

  /** Some car of `lane` has rank `r`. */
  ghost predicate HasRank(t: Table, lane: int, r: nat) {
    exists id :: id in t && t[id].machine == lane && t[id].exitOrder == r
  }

  /** The ranks in `lane` are exactly 1..k, each held by one car. */
  ghost predicate DenseK(t: Table, lane: int, k: nat) {
    && (forall id :: id in t && t[id].machine == lane ==> t[id].exitOrder <= k)
    && (forall r :: 1 <= r <= k ==> HasRank(t, lane, r))
    && (forall a, b :: (a in t && b in t && t[a].machine == lane && t[b].machine == lane
                        && t[a].exitOrder == t[b].exitOrder && t[a].exitOrder > 0) ==> a == b)
  }

  /** In a dense lane the maximum rank is its queue length. */
  lemma DenseLaneMax(t: Table, lane: int, k: nat)
    requires DenseK(t, lane, k)
    ensures LaneMax(t, lane) == k
  {
    var m := LaneMax(t, lane);
    if k > 0 {
      assert HasRank(t, lane, k);
    }
  }

  /** `queue_exit` keeps every lane dense: queuing an unqueued car grows its
      lane from 1..k to 1..k+1, and nothing else changes any lane. */
  lemma {:induction false} QueuePreservesDensity(t: Table, id: int, lane: int, k: nat)
    requires DenseK(t, lane, k)
    ensures DenseK(QueueStep(t, id).table, lane,
                   if id in t && t[id].machine == lane && t[id].exitOrder == 0 then k + 1 else k)
  {
    if id in t && t[id].exitOrder == 0 {
      var t' := QueueStep(t, id).table;
      if t[id].machine == lane {
        DenseLaneMax(t, lane, k);
        assert t'[id].exitOrder == k + 1;
        forall r | 1 <= r <= k + 1 ensures HasRank(t', lane, r) {
          if r <= k {
            assert HasRank(t, lane, r);
            var w :| w in t && t[w].machine == lane && t[w].exitOrder == r;
            assert w in t' && t'[w] == t[w];
          } else {
            assert id in t' && t'[id].machine == lane;
          }
        }
      } else {
        forall r | 1 <= r <= k ensures HasRank(t', lane, r) {
          assert HasRank(t, lane, r);
          var w :| w in t && t[w].machine == lane && t[w].exitOrder == r;
          assert w in t' && t'[w] == t[w];
        }
      }
    }
  }

  /** `exit_car` keeps every lane dense: the front car leaving shrinks its
      lane from 1..k to 1..k-1, and nothing else changes any lane. */
  lemma {:induction false} ExitPreservesDensity(t: Table, id: int, lane: int, k: nat)
    requires DenseK(t, lane, k)
    ensures id in t && t[id].machine == lane && t[id].exitOrder == 1 ==> k >= 1
    ensures DenseK(ExitStep(t, id).table, lane,
                   if id in t && t[id].machine == lane && t[id].exitOrder == 1 then k - 1 else k)
  {
    if id in t && t[id].exitOrder == 1 {
      var t' := ExitStep(t, id).table;
      var front := t[id].machine;
      if front == lane {
        assert k >= 1;
        // the only car of this lane ranked 1 is the one leaving
        forall k' | k' in t && k' != id && t[k'].machine == lane ensures t[k'].exitOrder != 1 { }
        forall r | 1 <= r <= k - 1 ensures HasRank(t', lane, r) {
          assert HasRank(t, lane, r + 1);
          var w :| w in t && t[w].machine == lane && t[w].exitOrder == r + 1;
          assert w in t' && t'[w].exitOrder == r && t'[w].machine == lane;
        }
        forall a, b | a in t' && b in t' && t'[a].machine == lane && t'[b].machine == lane
            && t'[a].exitOrder == t'[b].exitOrder && t'[a].exitOrder > 0
          ensures a == b
        {
          assert t[a].exitOrder == t'[a].exitOrder + 1;
          assert t[b].exitOrder == t'[b].exitOrder + 1;
        }
      } else {
        forall r | 1 <= r <= k ensures HasRank(t', lane, r) {
          assert HasRank(t, lane, r);
          var w :| w in t && t[w].machine == lane && t[w].exitOrder == r;
          assert w in t' && t'[w] == t[w];
        }
      }
    }
  }

  /** A new row enters unqueued and leaves every lane's ranks as they were. */
  lemma InsertPreservesDensity(t: Table, id: int, car: Car, lane: int, k: nat)
    requires id !in t && car.exitOrder == 0
    requires DenseK(t, lane, k)
    ensures DenseK(t[id := car], lane, k)
  {
    var t' := t[id := car];
    forall r | 1 <= r <= k ensures HasRank(t', lane, r) {
      assert HasRank(t, lane, r);
      var w :| w in t && t[w].machine == lane && t[w].exitOrder == r;
      assert w in t' && t'[w] == t[w];
    }
  }

  // ---------------- remove_car and the density invariant

  /** Because it does not renumber, removing a queued car keeps its lane
      dense only when that car was last in the queue; removing any other
      queued car leaves a gap that no rank assignment fills. */
  lemma {:induction false} RemoveDenseIffLast(t: Table, id: int, k: nat)
    requires id in t && t[id].exitOrder > 0
    requires DenseK(t, t[id].machine, k)
    ensures (exists j :: DenseK(RemoveStep(t, id).table, t[id].machine, j)) <==> t[id].exitOrder == k
  {
    var lane := t[id].machine;
    var r := t[id].exitOrder;
    var t' := RemoveStep(t, id).table;
    if r == k {
      forall q | 1 <= q <= k - 1 ensures HasRank(t', lane, q) {
        assert HasRank(t, lane, q);
        var w :| w in t && t[w].machine == lane && t[w].exitOrder == q;
        assert w in t';
      }
      assert DenseK(t', lane, k - 1);
    } else {
      assert HasRank(t, lane, k);
      var w :| w in t && t[w].machine == lane && t[w].exitOrder == k;
      assert w in t' && t'[w].machine == lane && t'[w].exitOrder == k;
      assert !HasRank(t', lane, r);
    }
  }

  /** Removing the front car of a queue that had others behind it leaves no
      car ranked 1 in that lane, so `exit_car` is a no-op for every car there. */
  lemma {:induction false} RemoveFrontStallsLane(t: Table, id: int, k: nat)
    requires id in t && t[id].exitOrder == 1
    requires DenseK(t, t[id].machine, k)
    ensures !HasRank(RemoveStep(t, id).table, t[id].machine, 1)
    ensures forall c :: c in RemoveStep(t, id).table && RemoveStep(t, id).table[c].machine == t[id].machine ==>
      ExitStep(RemoveStep(t, id).table, c) == Step(Ok, RemoveStep(t, id).table)
  {
  }

  /** Some car of `lane` is queued. */
  ghost predicate HasQueued(t: Table, lane: int) {
    exists id :: id in t && t[id].machine == lane && t[id].exitOrder > 0
  }

  /** A lane with queued cars but none ranked 1 stays that way under
      `queue_exit`: a newly queued car is ranked past the existing ones, so
      the stall lasts until every queued car of the lane is removed. */
  lemma StallPersistsUnderQueue(t: Table, lane: int, id: int)
    requires HasQueued(t, lane) && !HasRank(t, lane, 1)
    ensures HasQueued(QueueStep(t, id).table, lane) && !HasRank(QueueStep(t, id).table, lane, 1)
  {
    var t' := QueueStep(t, id).table;
    var q :| q in t && t[q].machine == lane && t[q].exitOrder > 0;
    assert q in t' && t'[q].machine == lane && t'[q].exitOrder > 0;
    if id in t && t[id].exitOrder == 0 && t[id].machine == lane {
      assert t[q].exitOrder <= LaneMax(t, lane);
    }
  }

  /** Three cars queued in lane 1 in order; the front one leaves and the other
      two move up; the car now ranked 2 cannot leave yet. */
  lemma ExitScenario(a: Car, b: Car, c: Car)
    requires a.machine == 1 && b.machine == 1 && c.machine == 1
    requires a.exitOrder == 1 && b.exitOrder == 2 && c.exitOrder == 3
    ensures var after := ExitStep(map[1 := a, 2 := b, 3 := c], 1).table;
      && after == map[2 := b.(exitOrder := 1), 3 := c.(exitOrder := 2)]
      && ExitStep(after, 3) == Step(Ok, after)
  {
    var t := map[1 := a, 2 := b, 3 := c];
    var after := ExitStep(t, 1).table;
    assert after.Keys == {2, 3};
  }
}
