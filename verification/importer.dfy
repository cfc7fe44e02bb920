/** import_pilot: when the configured CSV file exists, reconcile every row against
    the pilot registry, group the resolved ids by raw heat label, then generate the
    race class and heats; otherwise only raise the "cannot find CSV file" alert. */
module Importer {
  import opened HostDb
  import opened Reconcile
  import opened Grouping
  import opened Generate

  /** import_pilot. `csvFound` stands for os.path.isfile on the configured path and
      `rows` for the decoded CSV; `slotCount` is the number of slots the host gives
      a new heat. */
  function ImportPilot(db: Db, csvFound: bool, rows: seq<Row>, className: string, slotCount: nat): (r: Outcome)
    ensures !csvFound ==> r == Outcome(db, CsvNotFound)
    ensures csvFound ==>
              && r.status != CsvNotFound
              && |db.pilots| <= |r.db.pilots| && r.db.pilots[..|db.pilots|] == db.pilots
              && AddedByRows(r.db.pilots, |db.pilots|, rows)
              && (forall i :: 0 <= i < |rows| ==> Registered(r.db.pilots, rows[i].name, rows[i].callsign))
    ensures csvFound && ClassTaken(db.classes, className) ==>
              r.status == ClassNameExists && r.db.classes == db.classes && r.db.heats == db.heats
  {
    if !csvFound then Outcome(db, CsvNotFound)
    else
      var (reg, ids) := ReconcileAll(db, rows);
      AddedPilotsAreNew(db, rows);
      ResolvedIdsAreFirstMatches(db, rows);
      GenerateHeats(reg, className, GroupRows(rows, ids), slotCount)
  }

  /** Every heat label of the rows is carried by at most `slotCount` rows. */
  predicate AllHeatsFit(rows: seq<Row>, slotCount: nat)
  {
    forall i :: 0 <= i < |rows| ==> |RowsOfHeat(rows, rows[i].heat)| <= slotCount
  }

  /** A group of the grouping holds as many ids as there are rows carrying its label. */
  lemma {:induction false} SelectSize(rows: seq<Row>, ids: seq<Option<Id>>, heat: string)
    requires |ids| == |rows|
    ensures |Select(rows, ids, heat)| == |RowsOfHeat(rows, heat)|
  {
    if |rows| > 0 {
      SelectSize(rows[..|rows| - 1], ids[..|rows| - 1], heat);
    }
  }

  /** Group j of the grouping belongs to the j-th label in first-appearance order
      and holds one id per row carrying that label. */
  lemma GroupSizes(rows: seq<Row>, ids: seq<Option<Id>>)
    requires |ids| == |rows|
    ensures var gs := GroupRows(rows, ids);
            var labels := FirstAppearances(HeatLabels(rows));
            && |gs| == |labels|
            && forall j :: 0 <= j < |gs| ==>
                 gs[j].heat == labels[j] && |gs[j].ids| == |RowsOfHeat(rows, labels[j])|
  {
    var gs := GroupRows(rows, ids);
    GroupRowsKeys(rows, ids);
    GroupRowsContents(rows, ids);
    forall j | 0 <= j < |gs|
      ensures gs[j].heat == FirstAppearances(HeatLabels(rows))[j]
      ensures |gs[j].ids| == |RowsOfHeat(rows, gs[j].heat)|
    {
      assert Labels(gs)[j] == gs[j].heat;
      SelectSize(rows, ids, gs[j].heat);
    }
  }

  /** Every label fits exactly when no group of the grouping overflows. */
  lemma FitIffNoOverflow(rows: seq<Row>, ids: seq<Option<Id>>, slotCount: nat)
    requires |ids| == |rows|
    ensures AllHeatsFit(rows, slotCount) <==>
            FirstOverflow(GroupRows(rows, ids), slotCount) == |GroupRows(rows, ids)|
  {
    var gs := GroupRows(rows, ids);
    var labels := FirstAppearances(HeatLabels(rows));
    GroupSizes(rows, ids);
    if AllHeatsFit(rows, slotCount) {
      forall j | 0 <= j < |gs|
        ensures |gs[j].ids| <= slotCount
      {
        FirstAppearancesMembers(HeatLabels(rows), labels[j]);
        var i :| 0 <= i < |rows| && HeatLabels(rows)[i] == labels[j];
      }
    } else {
      var i :| 0 <= i < |rows| && |RowsOfHeat(rows, rows[i].heat)| > slotCount;
      assert HeatLabels(rows)[i] == rows[i].heat;
      FirstAppearancesMembers(HeatLabels(rows), rows[i].heat);
      var j :| 0 <= j < |labels| && labels[j] == rows[i].heat;
      assert |gs[j].ids| > slotCount;
    }
  }

  /** When some label does not fit, the first overflowing group is the group of
      the first such label in first-appearance order. */
  lemma GroupOverflow(rows: seq<Row>, ids: seq<Option<Id>>, slotCount: nat)
    requires |ids| == |rows|
    requires !AllHeatsFit(rows, slotCount)
    ensures var gs := GroupRows(rows, ids);
            var k := FirstOverflow(gs, slotCount);
            var labels := FirstAppearances(HeatLabels(rows));
            && k < |gs| == |labels|
            && gs[k].heat == labels[k]
            && |RowsOfHeat(rows, labels[k])| > slotCount
            && forall j :: 0 <= j < k ==> |RowsOfHeat(rows, labels[j])| <= slotCount
  {
    FitIffNoOverflow(rows, ids, slotCount);
    GroupSizes(rows, ids);
  }

  /** The run ends in success exactly when every heat label fits in a heat's slots. */
  lemma ImportSucceedsIffFit(db: Db, rows: seq<Row>, className: string, slotCount: nat)
    requires !ClassTaken(db.classes, className)
    ensures ImportPilot(db, true, rows, className, slotCount).status == Generated <==> AllHeatsFit(rows, slotCount)
  {
    var (reg, ids) := ReconcileAll(db, rows);
    var gs := GroupRows(rows, ids);
    var r := ImportPilot(db, true, rows, className, slotCount);
    assert r == GenerateHeats(reg, className, gs, slotCount);
    assert StatusReported(r.status, gs, slotCount);
    FitIffNoOverflow(rows, ids, slotCount);
  }

  /** Each heat the heat loop lays out is named after the label of its group. */
  lemma LaidOutHeatsNamed(before: seq<Heat>, heats: seq<Heat>, classId: Id, gs: seq<Group>,
                          labels: seq<string>, slotCount: nat)
    requires |gs| == |labels|
    requires forall j :: 0 <= j < |gs| ==> gs[j].heat == labels[j]
    requires HeatsLaidOut(before, heats, classId, gs, slotCount)
    ensures forall j :: 0 <= j < HeatsMadeCount(gs, slotCount) ==>
              heats[|before| + j].name == HeatPrefix + labels[j]
  {
    forall j | 0 <= j < HeatsMadeCount(gs, slotCount)
      ensures heats[|before| + j].name == HeatPrefix + labels[j]
    {
      assert HeatMade(heats[|before| + j], gs[j], classId, slotCount);
    }
  }

  /** With a free class name, the run lays out its heats and reports its status as
      the heat loop does over the grouping of the resolved rows, against the class
      it creates. */
  lemma ImportRunsHeatLoop(db: Db, rows: seq<Row>, className: string, slotCount: nat) returns (classId: Id)
    requires !ClassTaken(db.classes, className)
    ensures var r := ImportPilot(db, true, rows, className, slotCount);
            var gs := GroupRows(rows, ReconcileAll(db, rows).1);
            && HeatsLaidOut(db.heats, r.db.heats, classId, gs, slotCount)
            && StatusReported(r.status, gs, slotCount)
  {
    var (reg, ids) := ReconcileAll(db, rows);
    var r := GenerateHeats(reg, className, GroupRows(rows, ids), slotCount);
    assert ImportPilot(db, true, rows, className, slotCount) == r;
    classId := r.db.classes[|db.classes|].id;
  }

  /** When a group overflows, the heats laid out are one per group up to the first
      overflowing one, each named after its group's label, and the status names
      that group's label. */
  lemma OverflowHeats(before: seq<Heat>, r: Outcome, classId: Id, gs: seq<Group>, labels: seq<string>,
                      slotCount: nat)
    requires |gs| == |labels|
    requires forall j :: 0 <= j < |gs| ==> gs[j].heat == labels[j]
    requires FirstOverflow(gs, slotCount) < |gs|
    requires HeatsLaidOut(before, r.db.heats, classId, gs, slotCount)
    requires StatusReported(r.status, gs, slotCount)
    ensures var k := FirstOverflow(gs, slotCount);
            && r.status == SlotOverflow(labels[k], slotCount)
            && |r.db.heats| == |before| + k + 1
            && forall j :: 0 <= j <= k ==> r.db.heats[|before| + j].name == HeatPrefix + labels[j]
  {
    assert HeatsMadeCount(gs, slotCount) == FirstOverflow(gs, slotCount) + 1;
    LaidOutHeatsNamed(before, r.db.heats, classId, gs, labels, slotCount);
  }

  /** The run failed on the first label, in first-appearance order, carried by more
      rows than a heat has slots, at index `slotCount`, after creating exactly one
      heat per label up to and including it, named after those labels in order. */
  predicate OverflowReport(before: seq<Heat>, r: Outcome, rows: seq<Row>, slotCount: nat)
  {
    var labels := FirstAppearances(HeatLabels(rows));
    exists k :: 0 <= k < |labels|
        && r.status == SlotOverflow(labels[k], slotCount)
        && |RowsOfHeat(rows, labels[k])| > slotCount
        && (forall j :: 0 <= j < k ==> |RowsOfHeat(rows, labels[j])| <= slotCount)
        && |r.db.heats| == |before| + k + 1
        && forall j :: 0 <= j <= k ==> r.db.heats[|before| + j].name == HeatPrefix + labels[j]
  }

  /** An outcome in which the heat loop ran over the grouping of the resolved rows
      and some label does not fit: its status names the first such label and its
      heats are those of that label and the labels before it, named after them. */
  lemma OverflowReported(before: seq<Heat>, r: Outcome, classId: Id, rows: seq<Row>, ids: seq<Option<Id>>,
                         slotCount: nat)
    requires |ids| == |rows|
    requires !AllHeatsFit(rows, slotCount)
    requires HeatsLaidOut(before, r.db.heats, classId, GroupRows(rows, ids), slotCount)
    requires StatusReported(r.status, GroupRows(rows, ids), slotCount)
    ensures OverflowReport(before, r, rows, slotCount)
  {
    var gs := GroupRows(rows, ids);
    var labels := FirstAppearances(HeatLabels(rows));
    GroupOverflow(rows, ids, slotCount);
    GroupSizes(rows, ids);
    OverflowHeats(before, r, classId, gs, labels, slotCount);
    var k := FirstOverflow(gs, slotCount);
    assert 0 <= k < |labels| && r.status == SlotOverflow(labels[k], slotCount);
  }

  /** When some label does not fit, the IndexError names the first label, in
      first-appearance order, carried by more rows than a heat has slots, and the
      heats of that label and of the labels before it, named after them in order,
      are the only heats created. */
  lemma ImportOverflowReport(db: Db, rows: seq<Row>, className: string, slotCount: nat)
    requires !ClassTaken(db.classes, className)
    requires !AllHeatsFit(rows, slotCount)
    ensures OverflowReport(db.heats, ImportPilot(db, true, rows, className, slotCount), rows, slotCount)
  {
    var classId := ImportRunsHeatLoop(db, rows, className, slotCount);
    OverflowReported(db.heats, ImportPilot(db, true, rows, className, slotCount), classId,
                     rows, ReconcileAll(db, rows).1, slotCount);
  }

  /** The slots of a heat generated for the group of `heat`: the registry ids of
      the rows carrying the label, in row order, then empty slots. */
  predicate SlotsHoldRows(h: Heat, reg: seq<Pilot>, carriers: seq<Row>, slotCount: nat)
  {
    && |carriers| <= |h.slots| == slotCount
    && (forall s :: 0 <= s < |carriers| ==>
          h.slots[s].Some? && h.slots[s] == GetPilotId(reg, carriers[s].name, carriers[s].callsign))
    && (forall s :: |carriers| <= s < slotCount ==> h.slots[s] == None)
  }

  /** After `before` come exactly one heat per distinct label, in first-appearance
      order, named "Heat" followed by the raw label and bound to class `classId`;
      slot s of the heat of label L holds the registry id of the s-th row carrying
      L, and the remaining slots stay empty. */
  predicate HeatPerLabel(before: seq<Heat>, heats: seq<Heat>, reg: seq<Pilot>, rows: seq<Row>,
                         classId: Id, slotCount: nat)
  {
    var labels := FirstAppearances(HeatLabels(rows));
    && |heats| == |before| + |labels|
    && heats[..|before|] == before
    && forall k :: 0 <= k < |labels| ==>
         && heats[|before| + k].name == HeatPrefix + labels[k]
         && heats[|before| + k].raceClass == Some(classId)
         && SlotsHoldRows(heats[|before| + k], reg, RowsOfHeat(rows, labels[k]), slotCount)
  }

  /** The heat made for the group of one label carries the label and the class,
      and its slots hold the rows of that label. */
  lemma LabelHeatHoldsRows(h: Heat, reg: seq<Pilot>, rows: seq<Row>, ids: seq<Option<Id>>, g: Group,
                           classId: Id, slotCount: nat)
    requires ResolvesAll(reg, rows, ids)
    requires g.ids == Select(rows, ids, g.heat)
    requires |g.ids| <= slotCount
    requires HeatMade(h, g, classId, slotCount)
    ensures h.name == HeatPrefix + g.heat && h.raceClass == Some(classId)
    ensures SlotsHoldRows(h, reg, RowsOfHeat(rows, g.heat), slotCount)
  {
    SelectSize(rows, ids, g.heat);
    SelectResolves(reg, rows, ids, g.heat);
  }

  /** When no group overflows, the heats the heat loop lays out are one heat per
      label, each holding the rows of its label. */
  lemma HeatPerLabelHolds(before: seq<Heat>, heats: seq<Heat>, reg: seq<Pilot>, rows: seq<Row>,
                          ids: seq<Option<Id>>, classId: Id, slotCount: nat)
    requires |ids| == |rows|
    requires ResolvesAll(reg, rows, ids)
    requires HeatsLaidOut(before, heats, classId, GroupRows(rows, ids), slotCount)
    requires FirstOverflow(GroupRows(rows, ids), slotCount) == |GroupRows(rows, ids)|
    ensures HeatPerLabel(before, heats, reg, rows, classId, slotCount)
  {
    var gs := GroupRows(rows, ids);
    var labels := FirstAppearances(HeatLabels(rows));
    GroupRowsKeys(rows, ids);
    GroupRowsContents(rows, ids);
    assert |labels| == |gs|;
    assert forall k :: 0 <= k < |gs| ==> |gs[k].ids| <= slotCount;
    forall k | 0 <= k < |labels|
      ensures heats[|before| + k].name == HeatPrefix + labels[k]
      ensures heats[|before| + k].raceClass == Some(classId)
      ensures SlotsHoldRows(heats[|before| + k], reg, RowsOfHeat(rows, labels[k]), slotCount)
    {
      assert Labels(gs)[k] == labels[k];
      assert HeatMade(heats[|before| + k], gs[k], classId, slotCount);
      LabelHeatHoldsRows(heats[|before| + k], reg, rows, ids, gs[k], classId, slotCount);
    }
  }

  /** When the file exists, the class name is free and every heat label fits, the
      run creates exactly one race class of that name and one heat per distinct
      label, in first-appearance order, named "Heat" followed by the raw label and
      bound to the new class; slot s of the heat of label L holds the registry id
      of the s-th row carrying L, and the remaining slots stay empty. */
  lemma ImportGeneratesHeats(db: Db, rows: seq<Row>, className: string, slotCount: nat)
    requires !ClassTaken(db.classes, className)
    requires AllHeatsFit(rows, slotCount)
    ensures var r := ImportPilot(db, true, rows, className, slotCount);
            && r.status == Generated
            && |r.db.classes| == |db.classes| + 1
            && r.db.classes[..|db.classes|] == db.classes
            && r.db.classes[|db.classes|].name == className
            && HeatPerLabel(db.heats, r.db.heats, r.db.pilots, rows, r.db.classes[|db.classes|].id, slotCount)
  {
    var (reg, ids) := ReconcileAll(db, rows);
    var gs := GroupRows(rows, ids);
    var r := ImportPilot(db, true, rows, className, slotCount);
    assert r == GenerateHeats(reg, className, gs, slotCount);
    ImportSucceedsIffFit(db, rows, className, slotCount);
    FitIffNoOverflow(rows, ids, slotCount);
    ResolvedIdsAreFirstMatches(db, rows);
    HeatPerLabelHolds(db.heats, r.db.heats, reg.pilots, rows, ids, r.db.classes[|db.classes|].id, slotCount);
  }
}
