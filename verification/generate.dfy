/** generate_heats: unless a race class of the configured name exists, create it,
    then one heat per group in grouping order, bind each heat to the class and
    write the group's ids into the heat's slots in order. Indexing past the last
    slot raises an IndexError that ends the run where it stands. */
module Generate {
  import opened HostDb
  import opened Grouping

  /** The prefix of every generated heat name; localisation is not modelled. */
  const HeatPrefix := "Heat"

  /** Some race class is called `name`, as a raw string. */
  predicate ClassTaken(classes: seq<RaceClass>, name: string)
  {
    exists i :: 0 <= i < |classes| && classes[i].name == name
  }

  /** check_existing_class: the scan sets its flag on every match and never clears it. */
  function CheckExistingClass(classes: seq<RaceClass>, name: string): (existing: bool)
    ensures existing == ClassTaken(classes, name)
  {
    if |classes| == 0 then false
    else
      var n := |classes| - 1;
      assert forall i :: 0 <= i < n ==> classes[..n][i] == classes[i];
      CheckExistingClass(classes[..n], name) || classes[n].name == name
  }

  /** Reference definition of a generated heat's slot list: the group's ids in
      order, as many as fit, the remaining slots left empty. */
  function Placed(ids: seq<Option<Id>>, slotCount: nat): seq<Option<Id>>
  {
    if |ids| <= slotCount then ids + EmptySlots(slotCount - |ids|) else ids[..slotCount]
  }

  /** How filling one heat ended: every id placed, or the IndexError at `index`. */
  datatype Fill = Filled(db: Db) | Overflow(db: Db, index: nat)

  /** The slot loop of one heat: id i of the group goes to slot i of the heat
      carrying `heatId`, which has `slotCount` slots; the first index past the
      last slot aborts with the slots written so far kept. */
  function AssignSlots(db: Db, heatId: Id, slotCount: nat, ids: seq<Option<Id>>): (r: Fill)
    ensures r.Overflow? <==> |ids| > slotCount
    ensures r.Overflow? ==> r.index == slotCount
    ensures r.db.pilots == db.pilots && r.db.classes == db.classes
    ensures |r.db.heats| == |db.heats|
  {
    if |ids| == 0 then Filled(db)
    else
      var index := |ids| - 1;
      match AssignSlots(db, heatId, slotCount, ids[..index])
      case Overflow(d, i) => Overflow(d, i)
      case Filled(d) =>
        if index >= slotCount then Overflow(d, index)
        else Filled(SlotAlter(d, heatId, index, ids[index]))
  }

  /** Filling the slots of the only heat carrying `heatId`, at position `h`, leaves
      every other heat alone and overwrites its first slots with the group's ids,
      at most as many as it has slots. */
  lemma {:induction false} AssignSlotsFillsHeat(db: Db, heatId: Id, h: nat, slotCount: nat, ids: seq<Option<Id>>)
    requires h < |db.heats| && db.heats[h].id == heatId && |db.heats[h].slots| == slotCount
    requires forall j :: 0 <= j < |db.heats| && j != h ==> db.heats[j].id != heatId
    ensures var r := AssignSlots(db, heatId, slotCount, ids);
            var m := if |ids| <= slotCount then |ids| else slotCount;
            && (forall j :: 0 <= j < |db.heats| && j != h ==> r.db.heats[j] == db.heats[j])
            && r.db.heats[h] == db.heats[h].(slots := ids[..m] + db.heats[h].slots[m..])
  {
    if |ids| > 0 {
      var index := |ids| - 1;
      var prev := AssignSlots(db, heatId, slotCount, ids[..index]);
      AssignSlotsFillsHeat(db, heatId, h, slotCount, ids[..index]);
      var m' := if index <= slotCount then index else slotCount;
      assert ids[..index][..m'] == ids[..m'];
      if index < slotCount {
        var d := SlotAlter(prev.db, heatId, index, ids[index]);
        assert d.heats[h].slots == ids[..index + 1] + db.heats[h].slots[index + 1..];
      }
    }
  }

  /** One pass of the heat loop: heat_add, heat_alter to the class, then the slot loop. */
  function MakeHeat(db: Db, classId: Id, g: Group, slotCount: nat): (r: Fill)
    ensures |r.db.heats| == |db.heats| + 1 && r.db.heats[..|db.heats|] == db.heats
    ensures var h := r.db.heats[|db.heats|];
            && h.name == HeatPrefix + g.heat
            && h.raceClass == Some(classId)
            && h.slots == Placed(g.ids, slotCount)
            && forall j :: 0 <= j < |db.heats| ==> db.heats[j].id < h.id
    ensures r.Overflow? <==> |g.ids| > slotCount
    ensures r.Overflow? ==> r.index == slotCount
    ensures r.db.pilots == db.pilots && r.db.classes == db.classes
  {
    var (d1, heatId) := HeatAdd(db, HeatPrefix + g.heat, slotCount);
    var d2 := HeatAlter(d1, heatId, classId);
    var h := |db.heats|;
    assert d2.heats[h] == Heat(heatId, HeatPrefix + g.heat, Some(classId), EmptySlots(slotCount));
    AssignSlotsFillsHeat(d2, heatId, h, slotCount, g.ids);
    var r := AssignSlots(d2, heatId, slotCount, g.ids);
    assert r.db.heats[..h] == db.heats by {
      assert forall j :: 0 <= j < h ==> r.db.heats[j] == d2.heats[j] == db.heats[j];
    }
    r
  }

  /** The first group with more ids than a heat has slots, or |groups| when every group fits. */
  function FirstOverflow(groups: seq<Group>, slotCount: nat): (k: nat)
    ensures k <= |groups|
    ensures forall j :: 0 <= j < k ==> |groups[j].ids| <= slotCount
    ensures k < |groups| ==> |groups[k].ids| > slotCount
  {
    if |groups| == 0 then 0
    else if |groups[0].ids| > slotCount then 0
    else 1 + FirstOverflow(groups[1..], slotCount)
  }

  /** `h` is the heat generated for group `g`: named after its label, bound to the
      class, its slots holding the group's ids as placed by the slot loop. */
  predicate HeatMade(h: Heat, g: Group, classId: Id, slotCount: nat)
  {
    && h.name == HeatPrefix + g.heat
    && h.raceClass == Some(classId)
    && h.slots == Placed(g.ids, slotCount)
  }

  /** How many heats the heat loop creates: every group up to and including the
      first one that overflows. */
  function HeatsMadeCount(groups: seq<Group>, slotCount: nat): (made: nat)
    ensures made <= |groups|
  {
    var k := FirstOverflow(groups, slotCount);
    if k < |groups| then k + 1 else k
  }

  /** The heats after `before` are the heats made for the groups, in grouping order. */
  ghost predicate HeatsLaidOut(before: seq<Heat>, heats: seq<Heat>, classId: Id, groups: seq<Group>, slotCount: nat)
  {
    && |heats| == |before| + HeatsMadeCount(groups, slotCount)
    && heats[..|before|] == before
    && forall j :: 0 <= j < HeatsMadeCount(groups, slotCount) ==>
         HeatMade(heats[|before| + j], groups[j], classId, slotCount)
  }

  /** Every heat from position `n` on carries an id above the ids of all heats in front of it. */
  ghost predicate FreshHeatIds(n: nat, heats: seq<Heat>)
  {
    forall a, b :: 0 <= a < b < |heats| && n <= b ==> heats[a].id < heats[b].id
  }

  /** The status names the first overflowing group, or reports success when all fit. */
  ghost predicate StatusReported(status: Status, groups: seq<Group>, slotCount: nat)
  {
    var k := FirstOverflow(groups, slotCount);
    && (k == |groups| ==> status == Generated)
    && (k < |groups| ==> status == SlotOverflow(groups[k].heat, slotCount))
  }

  /** What the heat loop leaves behind, starting from the heats `before`: one heat
      per group in grouping order up to and including the first group that
      overflows, each under an id above all ids before it, and the status that
      names the overflowing group or reports success. */
  ghost predicate HeatsGenerated(before: seq<Heat>, r: Outcome, classId: Id, groups: seq<Group>, slotCount: nat)
  {
    && HeatsLaidOut(before, r.db.heats, classId, groups, slotCount)
    && FreshHeatIds(|before|, r.db.heats)
    && StatusReported(r.status, groups, slotCount)
  }

  lemma HeatsLaidOutStep(before: seq<Heat>, mid: seq<Heat>, heats: seq<Heat>, classId: Id,
                         groups: seq<Group>, slotCount: nat)
    requires |groups| > 0 && |groups[0].ids| <= slotCount
    requires |mid| == |before| + 1 && mid[..|before|] == before
    requires HeatMade(mid[|before|], groups[0], classId, slotCount)
    requires HeatsLaidOut(mid, heats, classId, groups[1..], slotCount)
    ensures HeatsLaidOut(before, heats, classId, groups, slotCount)
  {
  }

  lemma FreshHeatIdsStep(before: seq<Heat>, mid: seq<Heat>, heats: seq<Heat>)
    requires |mid| == |before| + 1 && mid[..|before|] == before
    requires forall j :: 0 <= j < |before| ==> before[j].id < mid[|before|].id
    requires |mid| <= |heats| && heats[..|mid|] == mid
    requires FreshHeatIds(|mid|, heats)
    ensures FreshHeatIds(|before|, heats)
  {
  }

  lemma StatusReportedStep(status: Status, groups: seq<Group>, slotCount: nat)
    requires |groups| > 0 && |groups[0].ids| <= slotCount
    requires StatusReported(status, groups[1..], slotCount)
    ensures StatusReported(status, groups, slotCount)
  {
  }

  /** The heat loop of generate_heats: groups in order; an overflow ends the run. */
  function GenerateLoop(db: Db, classId: Id, groups: seq<Group>, slotCount: nat): (r: Outcome)
    ensures HeatsGenerated(db.heats, r, classId, groups, slotCount)
    ensures r.db.pilots == db.pilots && r.db.classes == db.classes
    decreases |groups|
  {
    if |groups| == 0 then Outcome(db, Generated)
    else
      match MakeHeat(db, classId, groups[0], slotCount)
      case Overflow(d, index) => Outcome(d, SlotOverflow(groups[0].heat, index))
      case Filled(d) =>
        var r := GenerateLoop(d, classId, groups[1..], slotCount);
        HeatsLaidOutStep(db.heats, d.heats, r.db.heats, classId, groups, slotCount);
        FreshHeatIdsStep(db.heats, d.heats, r.db.heats);
        StatusReportedStep(r.status, groups, slotCount);
        r
  }

  /** generate_heats: a taken class name only raises the alert; otherwise the class
      is created and the heat loop runs against it. */
  function GenerateHeats(db: Db, className: string, groups: seq<Group>, slotCount: nat): (r: Outcome)
    ensures ClassTaken(db.classes, className) ==> r == Outcome(db, ClassNameExists)
    ensures !ClassTaken(db.classes, className) ==>
              && |r.db.classes| == |db.classes| + 1
              && r.db.classes[..|db.classes|] == db.classes
              && r.db.classes[|db.classes|].name == className
              && (forall i :: 0 <= i < |db.classes| ==> db.classes[i].id < r.db.classes[|db.classes|].id)
              && HeatsGenerated(db.heats, r, r.db.classes[|db.classes|].id, groups, slotCount)
    ensures r.db.pilots == db.pilots
  {
    if CheckExistingClass(db.classes, className) then Outcome(db, ClassNameExists)
    else
      var (d, classId) := RaceClassAdd(db, className);
      var r := GenerateLoop(d, classId, groups, slotCount);
      assert r.db.classes[..|db.classes|] == db.classes;
      r
  }
}
