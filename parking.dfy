/** The `cars` table as the request handlers of parking_system/app.py use
    it: each handler is a method that reads and rewrites the rows in place,
    proved against the functions of `Sequencer`, `Intake` and `Listing`. */
module Parking {
  import opened Common
  import opened Emission
  import opened Intake
  import opened Sequencer
  import opened Listing

  class CarTable {
    /** The rows of `cars`, keyed by `id`. */
    var rows: Table
    /** The id the next INSERT receives (`AUTOINCREMENT` never reuses an id). */
    var nextId: int

    /** Ids are positive and below the next one handed out; every lane is a
        SQLite INTEGER; `small` and `low_emission` are stored as 0 or 1. */
    ghost predicate Valid()
      reads this
    {
      && nextId >= 1
      && (forall id :: id in rows ==> 1 <= id < nextId)
      && (forall id :: id in rows ==> FitsInteger(rows[id].machine))
      && (forall id :: id in rows ==> rows[id].small <= 1 && rows[id].lowEmission <= 1)
    }

    /** An empty table (`CREATE TABLE IF NOT EXISTS cars` on a new database). */
    constructor ()
      ensures Valid()
      ensures rows == map[] && nextId == 1
    {
      rows := map[];
      nextId := 1;
    }

    /** `add_car`: validate the request, look the plate up (outcomes of the
        two browser attempts are given), then insert one unqueued row. A
        refused request never reaches the lookup (`attempts` is 0). A lane
        outside SQLite's INTEGER range makes the INSERT raise, after the
        lookup: the answer is 500 and nothing is stored. */
    method AddCar(body: Body, outcomes: seq<Attempt>) returns (resp: Response, attempts: nat)
      requires Valid()
      requires |outcomes| == |Modes|
      modifies this
      ensures Valid()
      ensures attempts == (if ParseAdd(body).Success? then AttemptsMade(outcomes) else 0)
      ensures ParseAdd(body).Failure? ==>
        resp == ParseAdd(body).error && rows == old(rows) && nextId == old(nextId)
      ensures ParseAdd(body).Success? && !FitsInteger(ParseAdd(body).value.machine) ==>
        resp == ServerError && rows == old(rows) && nextId == old(nextId)
      ensures ParseAdd(body).Success? && FitsInteger(ParseAdd(body).value.machine) ==>
        var i := ParseAdd(body).value;
        && resp == Ok
        && old(nextId) !in old(rows)
        && rows == old(rows)[old(nextId) := Car(i.plate, i.machine, i.small, LowEmissionFlag(Classify(outcomes)), 0)]
        && nextId == old(nextId) + 1
    {
      var parsed := ParseAdd(body);
      if parsed.Failure? {
        return parsed.error, 0;
      }
      var intake := parsed.value;
      // any exception from the lookup is absorbed and the default 0 is stored
      var verdict;
      verdict, attempts := CheckLowEmission(outcomes);
      var low := LowEmissionFlag(verdict);
      if !FitsInteger(intake.machine) {
        return ServerError, attempts;
      }
      rows := rows[nextId := Car(intake.plate, intake.machine, intake.small, low, 0)];
      nextId := nextId + 1;
      resp := Ok;
    }

    /** `SELECT MAX(exit_order) FROM cars WHERE machine=?`, with `or 0`. */
    method MaxExitOrder(lane: int) returns (m: nat)
      ensures m == LaneMax(rows, lane)
    {
      m := 0;
      var rest := rows.Keys;
      while rest != {}
        invariant rest <= rows.Keys
        invariant IsMaxOver(rows, rows.Keys - rest, lane, m)
        decreases rest
      {
        if forall x :: x !in rest { assert false; }
        var k :| k in rest;
        if rows[k].machine == lane && rows[k].exitOrder > m {
          m := rows[k].exitOrder;
        }
        rest := rest - {k};
      }
      MaxOverUnique(rows, rows.Keys, lane, m, LaneMax(rows, lane));
    }

    /** `queue_exit`. */
    method QueueExit(id: int) returns (resp: Response)
      requires Valid()
      modifies this
      ensures Valid() && nextId == old(nextId)
      ensures Step(resp, rows) == QueueStep(old(rows), id)
    {
      if id !in rows {
        return NotFound;
      }
      var car := rows[id];
      if car.exitOrder == 0 {
        var maxOrder := MaxExitOrder(car.machine);
        rows := rows[id := car.(exitOrder := maxOrder + 1)];
      }
      resp := Ok;
    }

    /** `exit_car`: the DELETE and the lane-wide UPDATE, only for the front car. */
    method ExitCar(id: int) returns (resp: Response)
      requires Valid()
      modifies this
      ensures Valid() && nextId == old(nextId)
      ensures Step(resp, rows) == ExitStep(old(rows), id)
    {
      if id !in rows {
        return NotFound;
      }
      var car := rows[id];
      if car.exitOrder == 1 {
        rows := rows - {id};
        rows := map k | k in rows :: Shifted(rows[k], car.machine);
      }
      resp := Ok;
    }

    /** `remove_car`: an unconditional DELETE. */
    method RemoveCar(id: int) returns (resp: Response)
      requires Valid()
      modifies this
      ensures Valid() && nextId == old(nextId)
      ensures Step(resp, rows) == RemoveStep(old(rows), id)
    {
      rows := rows - {id};
      resp := Ok;
    }

    /** `SELECT ... FROM cars ORDER BY machine, exit_order, id` (`list_cars`). */
    method ListCars() returns (s: seq<Row>)
      ensures IsListing(rows, s)
    {
      s := [];
      var rest := rows.Keys;
      while rest != {}
        invariant rest <= rows.Keys
        invariant StrictlySorted(s)
        invariant Elements(s) == set id | id in rows.Keys - rest :: Row(id, rows[id])
        decreases rest
      {
        if forall x :: x !in rest { assert false; }
        var k :| k in rest;
        forall i | 0 <= i < |s| ensures s[i].id != k {
          assert s[i] in Elements(s);
        }
        s := InsertSorted(s, Row(k, rows[k]));
        rest := rest - {k};
      }
    }

    /** `index`: the listing grouped into lots 1..3, each lot in queue order
        (unqueued cars by id, then queued cars by rank); `None` is the
        `KeyError` a car in another lane causes. */
    method Index() returns (lots: Option<map<int, seq<Row>>>)
      ensures lots.None? <==> exists id :: id in rows && rows[id].machine !in {1, 2, 3}
      ensures lots.Some? ==> lots.value.Keys == {1, 2, 3}
      ensures lots.Some? ==> forall m, x :: m in lots.value ==>
        (x in lots.value[m] <==> x.id in rows && x.car == rows[x.id] && rows[x.id].machine == m)
      ensures lots.Some? ==> forall m :: m in lots.value ==>
        var lot := lots.value[m];
        forall i, j :: 0 <= i < j < |lot| ==>
          || lot[i].car.exitOrder < lot[j].car.exitOrder
          || (lot[i].car.exitOrder == lot[j].car.exitOrder && lot[i].id < lot[j].id)
    {
      var s := ListCars();
      lots := Lots(s);
      LotsFailIff(rows, s);
      LotsMeaning(s);
      if lots.Some? {
        forall m | m in lots.value {
          LotOrder(rows, s, lots.value, m);
        }
      }
    }
  }

  /** A lane one past SQLite's largest INTEGER passes `int()` and the
      validation, but it cannot be stored: `add_car` answers 500. */
  lemma OversizedLaneIsServerError()
    ensures var body := map["plate" := VStr("12\U{ac00}3456"), "machine" := VStr(DecimalString(MaxInteger + 1))];
      && ParseAdd(body).Success?
      && ParseAdd(body).value.machine == MaxInteger + 1
      && !FitsInteger(ParseAdd(body).value.machine)
  {
    ParseIntRoundTrip(MaxInteger + 1);
    StripUnpadded("12\U{ac00}3456");
  }
}
