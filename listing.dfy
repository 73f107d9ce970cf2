/** How the table is shown: `SELECT ... ORDER BY machine, exit_order, id`
    (parking_system/app.py:150 and 192) and the grouping of those rows into
    the lots 1..3 (parking_system/app.py:155-157). */
module Listing {
  import opened Common
  import opened Sequencer

  /** A row as the query returns it: the id with the stored columns. */
  datatype Row = Row(id: int, car: Car)

  /** The order of `ORDER BY machine, exit_order, id`. */
  predicate Before(a: Row, b: Row) {
    || a.car.machine < b.car.machine
    || (a.car.machine == b.car.machine && a.car.exitOrder < b.car.exitOrder)
    || (a.car.machine == b.car.machine && a.car.exitOrder == b.car.exitOrder && a.id < b.id)
  }

  predicate StrictlySorted(s: seq<Row>) {
    forall i, j :: 0 <= i < j < |s| ==> Before(s[i], s[j])
  }

  /** The rows of the table, one per id. */
  ghost function Entries(t: Table): set<Row> {
    set id | id in t :: Row(id, t[id])
  }

  ghost function Elements(s: seq<Row>): set<Row> {
    set r | r in s
  }

  /** `s` is what the query returns for table `t`: every row once, in order. */
  ghost predicate IsListing(t: Table, s: seq<Row>) {
    StrictlySorted(s) && Elements(s) == Entries(t)
  }

  /** Puts a row with a fresh id into its place in a sorted listing. */
  function InsertSorted(s: seq<Row>, r: Row): (s': seq<Row>)
    requires StrictlySorted(s)
    requires forall i :: 0 <= i < |s| ==> s[i].id != r.id
    ensures StrictlySorted(s')
    ensures Elements(s') == Elements(s) + {r}
    ensures |s'| == |s| + 1
  {
    if s == [] then
      [r]
    else if Before(r, s[0]) then
      [r] + s
    else
      var tail := InsertSorted(s[1..], r);
      assert Elements(s) == {s[0]} + Elements(s[1..]);
      forall x | x in tail ensures Before(s[0], x) {
        assert x in Elements(tail);
        if x != r {
          var k :| 0 <= k < |s[1..]| && s[1..][k] == x;
          assert s[k + 1] == x;
        }
      }
      [s[0]] + tail
  }

  /** Rows with distinct ids are always ordered one way or the other, so the
      order leaves no ties: a table has exactly one listing. */
  lemma {:induction false} ListingUnique(s1: seq<Row>, s2: seq<Row>)
    requires StrictlySorted(s1) && StrictlySorted(s2)
    requires Elements(s1) == Elements(s2)
    ensures s1 == s2
  {
    assert s1 != [] ==> s1[0] in Elements(s1);
    assert s2 != [] ==> s2[0] in Elements(s2);
    if s1 != [] && s2 != [] {
      assert s1[0] in Elements(s2);
      assert s2[0] in Elements(s1);
      var i :| 0 <= i < |s1| && s1[i] == s2[0];
      var j :| 0 <= j < |s2| && s2[j] == s1[0];
      assert i == 0 || j == 0;
      assert s1[0] == s2[0];
      assert Elements(s1[1..]) == Elements(s1) - {s1[0]} by {
        assert s1 == [s1[0]] + s1[1..];
        assert s1[0] !in s1[1..];
      }
      assert Elements(s2[1..]) == Elements(s2) - {s2[0]} by {
        assert s2 == [s2[0]] + s2[1..];
        assert s2[0] !in s2[1..];
      }
      ListingUnique(s1[1..], s2[1..]);
      assert s1 == [s1[0]] + s1[1..];
      assert s2 == [s2[0]] + s2[1..];
    }
  }

  // ---------------- the lots

  /** The lot numbers the index page knows: `lots = {1: [], 2: [], 3: []}`. */
  const EmptyLots: map<int, seq<Row>> := map[1 := [], 2 := [], 3 := []]

  /** The loop `for c in cars: lots[int(c["machine"])].append(dict(c))`;
      a lane that is not a key of `lots` raises `KeyError` (`None`). The loop
      only appends to existing lots: it never adds one. */
  function GroupInto(s: seq<Row>, lots: map<int, seq<Row>>): (r: Option<map<int, seq<Row>>>)
    ensures r.Some? ==> r.value.Keys == lots.Keys
  {
    if s == [] then Some(lots)
    else if s[0].car.machine !in lots then None
    else GroupInto(s[1..], lots[s[0].car.machine := lots[s[0].car.machine] + [s[0]]])
  }

  /** The index page's grouping: when it succeeds there are exactly the
      lots 1, 2 and 3. */
  function Lots(s: seq<Row>): (r: Option<map<int, seq<Row>>>)
    ensures r.Some? ==> r.value.Keys == {1, 2, 3}
  {
    GroupInto(s, EmptyLots)
  }

  /** The rows of `s` in lane `m`, in the order of `s`. */
  function LaneRows(s: seq<Row>, m: int): seq<Row>
  {
    if s == [] then []
    else (if s[0].car.machine == m then [s[0]] else []) + LaneRows(s[1..], m)
  }

  lemma {:induction false} GroupIntoMeaning(s: seq<Row>, lots: map<int, seq<Row>>)
    ensures GroupInto(s, lots).Some? <==> forall i :: 0 <= i < |s| ==> s[i].car.machine in lots
    ensures GroupInto(s, lots).Some? ==>
      forall m :: m in lots ==> GroupInto(s, lots).value[m] == lots[m] + LaneRows(s, m)
  {
    if s != [] && s[0].car.machine in lots {
      var m0 := s[0].car.machine;
      var lots' := lots[m0 := lots[m0] + [s[0]]];
      GroupIntoMeaning(s[1..], lots');
      assert forall i :: 1 <= i < |s| ==> s[i] == s[1..][i - 1];
      if GroupInto(s, lots).Some? {
        forall m | m in lots ensures GroupInto(s, lots).value[m] == lots[m] + LaneRows(s, m) {
          if m == m0 {
            assert lots'[m] + LaneRows(s[1..], m) == lots[m] + ([s[0]] + LaneRows(s[1..], m));
          }
        }
      }
    }
  }

  /** The index page can be drawn exactly when every car is in lane 1, 2 or 3,
      and then lot `m` holds the rows of lane `m` in listing order. */
  lemma LotsMeaning(s: seq<Row>)
    ensures Lots(s).Some? <==> forall i :: 0 <= i < |s| ==> s[i].car.machine in {1, 2, 3}
    ensures Lots(s).Some? ==>
      && Lots(s).value.Keys == {1, 2, 3}
      && forall m :: m in {1, 2, 3} ==> Lots(s).value[m] == LaneRows(s, m)
  {
    GroupIntoMeaning(s, EmptyLots);
  }

  /** Selecting one lane of a sorted listing keeps exactly that lane's rows,
      still sorted. */
  lemma {:induction false} LaneRowsOfSorted(s: seq<Row>, m: int)
    requires StrictlySorted(s)
    ensures StrictlySorted(LaneRows(s, m))
    ensures forall x :: x in LaneRows(s, m) <==> x in s && x.car.machine == m
  {
    if s != [] {
      LaneRowsOfSorted(s[1..], m);
      assert forall x :: x in s <==> x == s[0] || x in s[1..];
      var tail := LaneRows(s[1..], m);
      forall x | x in tail ensures Before(s[0], x) {
        var j :| 0 <= j < |s[1..]| && s[1..][j] == x;
        assert s[j + 1] == x;
      }
    }
  }

  /** On the index page each lot shows exactly the cars of its lane: first
      the unqueued ones in intake (id) order, then the queued ones by rank. */
  lemma LotOrder(t: Table, s: seq<Row>, lots: map<int, seq<Row>>, m: int)
    requires IsListing(t, s)
    requires Lots(s) == Some(lots) && m in lots
    ensures forall x :: x in lots[m] <==>
      x.id in t && x.car == t[x.id] && t[x.id].machine == m
    ensures var lot := lots[m];
      forall i, j :: 0 <= i < j < |lot| ==>
        || lot[i].car.exitOrder < lot[j].car.exitOrder
        || (lot[i].car.exitOrder == lot[j].car.exitOrder && lot[i].id < lot[j].id)
  {
    LotsMeaning(s);
    LaneRowsOfSorted(s, m);
    assert forall x :: x in s <==> x in Entries(t);
  }

  /** The index page fails exactly when some car is in a lane other than
      1, 2 or 3; `add_car` does not prevent that. */
  lemma LotsFailIff(t: Table, s: seq<Row>)
    requires IsListing(t, s)
    ensures Lots(s).None? <==> exists id :: id in t && t[id].machine !in {1, 2, 3}
  {
    LotsMeaning(s);
    if Lots(s).None? {
      var i :| 0 <= i < |s| && s[i].car.machine !in {1, 2, 3};
      assert s[i] in Entries(t);
    } else {
      forall id | id in t ensures t[id].machine in {1, 2, 3} {
        assert Row(id, t[id]) in Elements(s);
      }
    }
  }
}
