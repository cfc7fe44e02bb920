/** The pilot reconciler: the row loop of import_pilot that matches every CSV
    row against the pilot registry on the exact (name, callsign) pair, registers
    the pilot when nothing matches, and resolves the row to a pilot id. */
module Reconcile {
  import opened HostDb

  /** A decoded CSV row; every column is present. */
  datatype Row = Row(name: string, callsign: string, heat: string)

  /** A registry pilot carries the row's identity: both fields equal, as raw strings. */
  predicate Matches(p: Pilot, name: string, callsign: string)
  {
    p.name == name && p.callsign == callsign
  }

  /** `i` is the first registry position matching (name, callsign). */
  predicate IsFirstMatch(pilots: seq<Pilot>, i: int, name: string, callsign: string)
  {
    && 0 <= i < |pilots|
    && Matches(pilots[i], name, callsign)
    && forall j :: 0 <= j < i ==> !Matches(pilots[j], name, callsign)
  }

  /** Some registry pilot carries the identity (name, callsign). */
  predicate Registered(pilots: seq<Pilot>, name: string, callsign: string)
  {
    exists i :: 0 <= i < |pilots| && Matches(pilots[i], name, callsign)
  }

  /** check_existing_pilot: the scan sets its flag on every match and never clears it. */
  function CheckExistingPilot(pilots: seq<Pilot>, name: string, callsign: string): (existing: bool)
    ensures existing == Registered(pilots, name, callsign)
  {
    if |pilots| == 0 then false
    else
      var last := pilots[|pilots| - 1];
      var earlier := CheckExistingPilot(pilots[..|pilots| - 1], name, callsign);
      assert forall i :: 0 <= i < |pilots| - 1 ==> pilots[..|pilots| - 1][i] == pilots[i];
      earlier || Matches(last, name, callsign)
  }

  /** get_pilot_id: the id of the first matching registry pilot, None when none matches. */
  function GetPilotId(pilots: seq<Pilot>, name: string, callsign: string): (r: Option<Id>)
    ensures r.None? <==> !CheckExistingPilot(pilots, name, callsign)
    ensures forall i :: IsFirstMatch(pilots, i, name, callsign) ==> r == Some(pilots[i].id)
    ensures r.Some? ==> exists i :: IsFirstMatch(pilots, i, name, callsign) && pilots[i].id == r.value
  {
    if |pilots| == 0 then None
    else if Matches(pilots[0], name, callsign) then
      assert IsFirstMatch(pilots, 0, name, callsign);
      Some(pilots[0].id)
    else
      var rest := GetPilotId(pilots[1..], name, callsign);
      assert forall i :: 1 <= i < |pilots| ==>
        (IsFirstMatch(pilots, i, name, callsign) <==> IsFirstMatch(pilots[1..], i - 1, name, callsign));
      assert !IsFirstMatch(pilots, 0, name, callsign);
      rest
  }

  /** What processing one row yields: the registry afterwards and the row's resolved id. */
  datatype Resolved = Resolved(db: Db, id: Option<Id>)

  /** The body of the row loop without the grouping: register the pilot when no
      registry pilot matches, then look its id up. */
  function ReconcileRow(db: Db, row: Row): (r: Resolved)
    ensures r.db.classes == db.classes && r.db.heats == db.heats
    ensures |db.pilots| <= |r.db.pilots| && r.db.pilots[..|db.pilots|] == db.pilots
  {
    var db' := if CheckExistingPilot(db.pilots, row.name, row.callsign) then db
               else PilotAdd(db, row.name, row.callsign);
    Resolved(db', GetPilotId(db'.pilots, row.name, row.callsign))
  }

  /** One row has two outcomes. When a registry pilot carries the row's identity,
      nothing changes and the row resolves to the first such pilot. Otherwise the
      registry grows by exactly one pilot with that identity and a fresh id, and the
      row resolves to it. */
  lemma ReconcileRowOutcomes(db: Db, row: Row)
    ensures var r := ReconcileRow(db, row);
            && (Registered(db.pilots, row.name, row.callsign) ==>
                  r.db == db && r.id.Some? && r.id == GetPilotId(db.pilots, row.name, row.callsign))
            && (!Registered(db.pilots, row.name, row.callsign) ==>
                  && |r.db.pilots| == |db.pilots| + 1
                  && Matches(r.db.pilots[|db.pilots|], row.name, row.callsign)
                  && (forall i :: 0 <= i < |db.pilots| ==> db.pilots[i].id < r.db.pilots[|db.pilots|].id)
                  && r.id == Some(r.db.pilots[|db.pilots|].id))
            && r.id.Some? && r.id == GetPilotId(r.db.pilots, row.name, row.callsign)
  {
  }

  /** The row loop of import_pilot over all rows, in file order: the registry
      afterwards and the resolved id of every row. */
  function ReconcileAll(db: Db, rows: seq<Row>): (r: (Db, seq<Option<Id>>))
    ensures |r.1| == |rows|
    ensures r.0.classes == db.classes && r.0.heats == db.heats
    ensures |db.pilots| <= |r.0.pilots| && r.0.pilots[..|db.pilots|] == db.pilots
  {
    if |rows| == 0 then (db, [])
    else
      var before := ReconcileAll(db, rows[..|rows| - 1]);
      var step := ReconcileRow(before.0, rows[|rows| - 1]);
      assert step.db.pilots[..|db.pilots|] == db.pilots by {
        assert step.db.pilots[..|before.0.pilots|] == before.0.pilots;
        assert step.db.pilots[..|db.pilots|] == step.db.pilots[..|before.0.pilots|][..|db.pilots|];
      }
      (step.db, before.1 + [step.id])
  }

  /** A lookup that found a pilot keeps finding the same one after later pilots
      are registered: registration only appends. */
  lemma GetPilotIdStable(pilots: seq<Pilot>, more: seq<Pilot>, name: string, callsign: string)
    requires GetPilotId(pilots, name, callsign).Some?
    ensures GetPilotId(pilots + more, name, callsign) == GetPilotId(pilots, name, callsign)
  {
    var i :| IsFirstMatch(pilots, i, name, callsign) && pilots[i].id == GetPilotId(pilots, name, callsign).value;
    assert IsFirstMatch(pilots + more, i, name, callsign);
  }

  /** Each of `rows` resolves, through `ids`, to the first pilot of `reg` carrying its identity. */
  ghost predicate ResolvesAll(reg: seq<Pilot>, rows: seq<Row>, ids: seq<Option<Id>>)
  {
    && |ids| == |rows|
    && forall i :: 0 <= i < |rows| ==>
         ids[i].Some? && ids[i] == GetPilotId(reg, rows[i].name, rows[i].callsign)
  }

  /** Resolutions made against a registry survive the registrations appended to it. */
  lemma ResolvesAllStep(reg: seq<Pilot>, reg': seq<Pilot>, rows: seq<Row>, ids: seq<Option<Id>>,
                        row: Row, id: Option<Id>)
    requires ResolvesAll(reg, rows, ids)
    requires |reg| <= |reg'| && reg'[..|reg|] == reg
    requires id.Some? && id == GetPilotId(reg', row.name, row.callsign)
    ensures ResolvesAll(reg', rows + [row], ids + [id])
  {
    var rows', ids' := rows + [row], ids + [id];
    assert reg + reg'[|reg|..] == reg';
    forall i | 0 <= i < |rows'|
      ensures ids'[i].Some? && ids'[i] == GetPilotId(reg', rows'[i].name, rows'[i].callsign)
    {
      if i < |rows| {
        assert rows'[i] == rows[i] && ids'[i] == ids[i];
        GetPilotIdStable(reg, reg'[|reg|..], rows[i].name, rows[i].callsign);
      } else {
        assert rows'[i] == row && ids'[i] == id;
      }
    }
  }

  /** Every row resolves to a pilot id, and that id is the id of the first pilot of
      the final registry carrying the row's (name, callsign). */
  lemma {:induction false} ResolvedIdsAreFirstMatches(db: Db, rows: seq<Row>)
    ensures ResolvesAll(ReconcileAll(db, rows).0.pilots, rows, ReconcileAll(db, rows).1)
  {
    if |rows| > 0 {
      var n := |rows| - 1;
      var before := ReconcileAll(db, rows[..n]);
      var step := ReconcileRow(before.0, rows[n]);
      assert ReconcileAll(db, rows) == (step.db, before.1 + [step.id]);
      ResolvedIdsAreFirstMatches(db, rows[..n]);
      ReconcileRowOutcomes(before.0, rows[n]);
      ResolvesAllStep(before.0.pilots, step.db.pilots, rows[..n], before.1, rows[n], step.id);
      assert rows[..n] + [rows[n]] == rows;
    }
  }

  /** Deduplication: two rows carrying the same (name, callsign) resolve to the same
      pilot id, whether the pair was registered before the run or during it. */
  lemma SameIdentitySameId(db: Db, rows: seq<Row>, i: nat, j: nat)
    requires i < |rows| && j < |rows|
    requires rows[i].name == rows[j].name && rows[i].callsign == rows[j].callsign
    ensures ReconcileAll(db, rows).1[i] == ReconcileAll(db, rows).1[j]
    ensures ReconcileAll(db, rows).1[i].Some?
  {
    ResolvedIdsAreFirstMatches(db, rows);
  }

  /** Some row carries the identity of pilot `p`. */
  predicate CarriedByRow(p: Pilot, rows: seq<Row>)
  {
    exists i :: 0 <= i < |rows| && Matches(p, rows[i].name, rows[i].callsign)
  }

  /** Every pilot from position `n0` on was registered by one of `rows`: it is the
      first registry pilot carrying its identity, some row carries that identity,
      and its id is above the id of every pilot before it. */
  ghost predicate AddedByRows(reg: seq<Pilot>, n0: nat, rows: seq<Row>)
  {
    forall k :: n0 <= k < |reg| ==>
      && IsFirstMatch(reg, k, reg[k].name, reg[k].callsign)
      && CarriedByRow(reg[k], rows)
      && (forall j :: 0 <= j < k ==> reg[j].id < reg[k].id)
  }

  /** One more row keeps AddedByRows: either the registry is unchanged, or the row
      appended a pilot of a missing identity under an id above all others. */
  lemma AddedByRowsStep(reg: seq<Pilot>, reg': seq<Pilot>, n0: nat, rows: seq<Row>, row: Row)
    requires AddedByRows(reg, n0, rows)
    requires |reg| <= |reg'| && reg'[..|reg|] == reg
    requires |reg'| == |reg| || (
               && |reg'| == |reg| + 1
               && Matches(reg'[|reg|], row.name, row.callsign)
               && !Registered(reg, row.name, row.callsign)
               && forall j :: 0 <= j < |reg| ==> reg[j].id < reg'[|reg|].id)
    ensures AddedByRows(reg', n0, rows + [row])
  {
    var rows' := rows + [row];
    assert forall j :: 0 <= j < |reg| ==> reg'[j] == reg[j];
    forall k | n0 <= k < |reg'|
      ensures IsFirstMatch(reg', k, reg'[k].name, reg'[k].callsign)
      ensures CarriedByRow(reg'[k], rows')
      ensures forall j :: 0 <= j < k ==> reg'[j].id < reg'[k].id
    {
      if k < |reg| {
        var i :| 0 <= i < |rows| && Matches(reg[k], rows[i].name, rows[i].callsign);
        assert rows'[i] == rows[i];
      } else {
        assert rows'[|rows|] == row;
      }
    }
  }

  lemma ReconcileRowAdds(db: Db, n0: nat, rows: seq<Row>, row: Row)
    requires AddedByRows(db.pilots, n0, rows)
    ensures AddedByRows(ReconcileRow(db, row).db.pilots, n0, rows + [row])
  {
    ReconcileRowOutcomes(db, row);
    AddedByRowsStep(db.pilots, ReconcileRow(db, row).db.pilots, n0, rows, row);
  }

  /** The row loop registers each (name, callsign) at most once and only for an
      identity that was missing: every pilot it adds is the first in the registry
      carrying its identity, stems from some row, and has a fresh id. */
  lemma {:induction false} AddedPilotsAreNew(db: Db, rows: seq<Row>)
    ensures AddedByRows(ReconcileAll(db, rows).0.pilots, |db.pilots|, rows)
  {
    if |rows| > 0 {
      var n := |rows| - 1;
      assert rows[..n] + [rows[n]] == rows;
      var before := ReconcileAll(db, rows[..n]).0;
      assert ReconcileAll(db, rows).0 == ReconcileRow(before, rows[n]).db;
      AddedPilotsAreNew(db, rows[..n]);
      ReconcileRowAdds(before, |db.pilots|, rows[..n], rows[n]);
    }
  }

}
