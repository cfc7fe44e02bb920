/** Worked runs of import_pilot on concrete files. */
module Scenarios {
  import opened HostDb
  import opened Reconcile
  import opened Grouping
  import opened Generate
  import opened Importer

  const ClassName := "Imported Class"

  const Roster := [Row("Alice", "AL1", "1"), Row("Bob", "BO2", "1"), Row("Carol", "CA3", "2")]

  /** The roster's heat labels are "1" and "2", in that order; Alice and Bob carry
      "1", Carol carries "2". */
  lemma RosterLabels()
    ensures FirstAppearances(HeatLabels(Roster)) == ["1", "2"]
    ensures RowsOfHeat(Roster, "1") == Roster[..2]
    ensures RowsOfHeat(Roster, "2") == Roster[2..]
  {
    var r0, r1, r2 := Roster[..1], Roster[..2], Roster;
    assert r1[..1] == r0 && r2[..2] == r1;
    assert "2" != "1" by { assert "2"[0] != "1"[0]; }
    assert RowsOfHeat(r0, "1") == r0 && RowsOfHeat(r0, "2") == [];
    assert RowsOfHeat(r1, "1") == r1 && RowsOfHeat(r1, "2") == [];
    var ls := HeatLabels(Roster);
    assert ls == ["1", "1", "2"];
    assert ls[..1] == ["1"] && ls[..2] == ["1", "1"];
    assert FirstAppearances(ls[..1]) == ["1"];
    assert FirstAppearances(ls[..2]) == ["1"];
  }

  /** The registry after each prefix of the roster on a fresh event. */
  const Registry1 := [Pilot(1, "Alice", "AL1")]
  const Registry2 := Registry1 + [Pilot(2, "Bob", "BO2")]
  const Registry3 := Registry2 + [Pilot(3, "Carol", "CA3")]

  /** The roster registered one row at a time on a fresh event. */
  lemma RegisterAlice()
    ensures ReconcileRow(EmptyDb, Roster[0]).db == EmptyDb.(pilots := Registry1)
  {
  }

  lemma RegisterBob()
    ensures ReconcileRow(EmptyDb.(pilots := Registry1), Roster[1]).db == EmptyDb.(pilots := Registry2)
  {
  }

  lemma RegisterCarol()
    ensures ReconcileRow(EmptyDb.(pilots := Registry2), Roster[2]).db == EmptyDb.(pilots := Registry3)
  {
  }

  /** On a fresh event the roster registers its three pilots, in row order, under
      ids 1, 2 and 3. */
  lemma RosterRegistry()
    ensures ReconcileAll(EmptyDb, Roster).0 == EmptyDb.(pilots := Registry3)
  {
    RegisterAlice();
    RegisterBob();
    RegisterCarol();
    var a, b := Roster[0], Roster[1];
    assert Roster[..0] == [] && Roster[..1] == [a] && Roster[..2] == [a, b];
    assert ReconcileAll(EmptyDb, [a]).0 == EmptyDb.(pilots := Registry1);
    assert ReconcileAll(EmptyDb, [a, b]).0 == EmptyDb.(pilots := Registry2);
  }

  /** Both heat labels of the roster fit in four slots. */
  lemma RosterFits()
    ensures AllHeatsFit(Roster, 4)
  {
    RosterLabels();
    forall i | 0 <= i < |Roster|
      ensures |RowsOfHeat(Roster, Roster[i].heat)| <= 4
    {
      assert Roster[i].heat == "1" || Roster[i].heat == "2";
    }
  }

  /** Each roster identity resolves to its own id in the three-pilot registry. */
  lemma RosterIds()
    ensures GetPilotId(Registry3, "Alice", "AL1") == Some(1)
    ensures GetPilotId(Registry3, "Bob", "BO2") == Some(2)
    ensures GetPilotId(Registry3, "Carol", "CA3") == Some(3)
  {
  }

  /** A four-slot heat holding the rows of label "1" (Alice, Bob) in the
      three-pilot registry. */
  lemma FirstHeatSlots(h: Heat)
    requires SlotsHoldRows(h, Registry3, Roster[..2], 4)
    ensures h.slots == [Some(1), Some(2), None, None]
  {
    assert h.slots == [h.slots[0], h.slots[1], h.slots[2], h.slots[3]];
    var c := Roster[..2];
    assert c[0] == Row("Alice", "AL1", "1") && c[1] == Row("Bob", "BO2", "1");
    RosterIds();
    assert h.slots[0] == Some(1) && h.slots[1] == Some(2) && h.slots[2] == None && h.slots[3] == None;
  }

  /** A four-slot heat holding the row of label "2" (Carol) in the three-pilot
      registry. */
  lemma SecondHeatSlots(h: Heat)
    requires SlotsHoldRows(h, Registry3, Roster[2..], 4)
    ensures h.slots == [Some(3), None, None, None]
  {
    assert h.slots == [h.slots[0], h.slots[1], h.slots[2], h.slots[3]];
    var c := Roster[2..];
    assert c[0] == Row("Carol", "CA3", "2");
    RosterIds();
    assert h.slots[0] == Some(3) && h.slots[1] == None && h.slots[2] == None && h.slots[3] == None;
  }

  /** The heats laid out for the roster against the three-pilot registry. */
  lemma RosterHeats(heats: seq<Heat>, classId: Id)
    requires HeatPerLabel([], heats, Registry3, Roster, classId, 4)
    ensures |heats| == 2
    ensures heats[0].name == "Heat1" && heats[1].name == "Heat2"
    ensures heats[0].raceClass == heats[1].raceClass == Some(classId)
    ensures heats[0].slots == [Some(1), Some(2), None, None]
    ensures heats[1].slots == [Some(3), None, None, None]
  {
    RosterLabels();
    var labels := FirstAppearances(HeatLabels(Roster));
    assert HeatPrefix + labels[0] == "Heat1" && HeatPrefix + labels[1] == "Heat2";
    var h0, h1 := heats[0], heats[1];
    assert SlotsHoldRows(h0, Registry3, RowsOfHeat(Roster, labels[0]), 4);
    assert SlotsHoldRows(h1, Registry3, RowsOfHeat(Roster, labels[1]), 4);
    FirstHeatSlots(h0);
    SecondHeatSlots(h1);
  }

  /** The roster imported on a fresh event with four slots per heat: Alice, Bob and
      Carol are registered under ids 1, 2 and 3, the class "Imported Class" is
      created, and heats "Heat1" and "Heat2" of that class hold Alice and Bob, and
      Carol, followed by empty slots. */
  lemma RosterImport()
    ensures var r := ImportPilot(EmptyDb, true, Roster, ClassName, 4);
            && r.status == Generated
            && r.db.pilots == Registry3
            && |r.db.classes| == 1 && r.db.classes[0].name == ClassName
            && |r.db.heats| == 2
            && r.db.heats[0].name == "Heat1" && r.db.heats[1].name == "Heat2"
            && r.db.heats[0].raceClass == r.db.heats[1].raceClass == Some(r.db.classes[0].id)
            && r.db.heats[0].slots == [Some(1), Some(2), None, None]
            && r.db.heats[1].slots == [Some(3), None, None, None]
  {
    var (reg, ids) := ReconcileAll(EmptyDb, Roster);
    var r := ImportPilot(EmptyDb, true, Roster, ClassName, 4);
    assert r == GenerateHeats(reg, ClassName, GroupRows(Roster, ids), 4);
    RosterRegistry();
    RosterLabels();
    RosterFits();
    ImportGeneratesHeats(EmptyDb, Roster, ClassName, 4);
    assert r.db.pilots == Registry3;
    RosterHeats(r.db.heats, r.db.classes[0].id);
  }

  /** The roster imported on a fresh event with one slot per heat: label "1" is
      carried by two rows, so the run stops with the IndexError at index 1 of
      "Heat1", the only heat created; all three pilots stay registered. */
  lemma RosterOverflow()
    ensures var r := ImportPilot(EmptyDb, true, Roster, ClassName, 1);
            && r.status == SlotOverflow("1", 1)
            && r.db.pilots == Registry3
            && |r.db.heats| == 1
  {
    var (reg, ids) := ReconcileAll(EmptyDb, Roster);
    var r := ImportPilot(EmptyDb, true, Roster, ClassName, 1);
    assert r == GenerateHeats(reg, ClassName, GroupRows(Roster, ids), 1);
    RosterRegistry();
    RosterLabels();
    var gs := GroupRows(Roster, ids);
    GroupSizes(Roster, ids);
    assert |gs[0].ids| == 2 && gs[0].heat == "1";
    assert FirstOverflow(gs, 1) == 0;
    assert StatusReported(r.status, gs, 1);
  }

  /** Labels are raw strings: rows labelled "1" and "01" open two groups, each
      holding the id of its own row. */
  lemma RawLabelsStayApart(ids: seq<Option<Id>>)
    requires |ids| == 2
    ensures var rows := [Row("Ann", "A", "1"), Row("Ben", "B", "01")];
            GroupRows(rows, ids) == [Group("1", [ids[0]]), Group("01", [ids[1]])]
  {
    var rows := [Row("Ann", "A", "1"), Row("Ben", "B", "01")];
    assert "01" != "1";
    assert rows[..1] == [rows[0]] && ids[..1] == [ids[0]];
    assert GroupRows(rows[..1], ids[..1]) == [Group("1", [ids[0]])];
  }
}
