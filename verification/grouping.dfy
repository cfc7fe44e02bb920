/** Heat grouping: import_pilot collects the resolved pilot ids in a
    defaultdict(list) keyed by the raw `heat` column. A Python dict keeps its keys
    in insertion order, so the grouping is an ordered sequence of groups with
    distinct labels. */
module Grouping {
  import opened HostDb
  import opened Reconcile

  /** One entry of the grouping: a raw heat label and the ids appended under it. */
  datatype Group = Group(heat: string, ids: seq<Option<Id>>)

  function Labels(gs: seq<Group>): (ls: seq<string>)
    ensures |ls| == |gs|
    ensures forall k :: 0 <= k < |gs| ==> ls[k] == gs[k].heat
  {
    seq(|gs|, k requires 0 <= k < |gs| => gs[k].heat)
  }

  predicate DistinctLabels(gs: seq<Group>)
  {
    forall a, b :: 0 <= a < b < |gs| ==> gs[a].heat != gs[b].heat
  }

  /** The position of the group carrying `heat`, or |gs| when there is none. */
  function FindLabel(gs: seq<Group>, heat: string): (k: nat)
    ensures k <= |gs|
    ensures k < |gs| ==> gs[k].heat == heat
    ensures forall j :: 0 <= j < k ==> gs[j].heat != heat
  {
    if |gs| == 0 then 0
    else if gs[0].heat == heat then 0
    else
      var k := FindLabel(gs[1..], heat);
      assert forall j :: 1 <= j < |gs| ==> gs[1..][j - 1] == gs[j];
      k + 1
  }

  /** `heats[heat].append(id)`: the group of `heat` gets `id` at its end; a label
      not seen before opens a new group at the end of the grouping. */
  function AppendToGroup(gs: seq<Group>, heat: string, id: Option<Id>): (r: seq<Group>)
    requires DistinctLabels(gs)
    ensures DistinctLabels(r)
    ensures heat in Labels(gs) ==> Labels(r) == Labels(gs)
    ensures heat !in Labels(gs) ==> Labels(r) == Labels(gs) + [heat]
    ensures forall k :: 0 <= k < |gs| ==>
              r[k].ids == (if gs[k].heat == heat then gs[k].ids + [id] else gs[k].ids)
    ensures heat !in Labels(gs) ==> r[|gs|].ids == [id]
  {
    var k := FindLabel(gs, heat);
    assert k == |gs| <==> heat !in Labels(gs) by {
      if k < |gs| { assert Labels(gs)[k] == heat; }
    }
    if k == |gs| then gs + [Group(heat, [id])]
    else gs[k := gs[k].(ids := gs[k].ids + [id])]
  }

  /** The raw heat labels of the rows, in row order. */
  function HeatLabels(rows: seq<Row>): (ls: seq<string>)
    ensures |ls| == |rows|
    ensures forall i :: 0 <= i < |rows| ==> ls[i] == rows[i].heat
  {
    seq(|rows|, i requires 0 <= i < |rows| => rows[i].heat)
  }

  /** The grouping the row loop builds: row i's resolved id `ids[i]` appended under
      row i's raw heat label, rows taken in file order. */
  function GroupRows(rows: seq<Row>, ids: seq<Option<Id>>): (gs: seq<Group>)
    requires |ids| == |rows|
    ensures DistinctLabels(gs)
  {
    if |rows| == 0 then []
    else
      var n := |rows| - 1;
      AppendToGroup(GroupRows(rows[..n], ids[..n]), rows[n].heat, ids[n])
  }

  /** Reference definition of the key order: each label at its first appearance. */
  function FirstAppearances(labels: seq<string>): seq<string>
  {
    if |labels| == 0 then []
    else
      var n := |labels| - 1;
      FirstAppearances(labels[..n]) + (if labels[n] in labels[..n] then [] else [labels[n]])
  }

  /** Reference definition of a group's contents: the ids of exactly the rows
      carrying `heat`, in row order. */
  function Select(rows: seq<Row>, ids: seq<Option<Id>>, heat: string): seq<Option<Id>>
    requires |ids| == |rows|
  {
    if |rows| == 0 then []
    else
      var n := |rows| - 1;
      Select(rows[..n], ids[..n], heat) + (if rows[n].heat == heat then [ids[n]] else [])
  }

  /** A label is a key of the grouping exactly when some row carries it. */
  lemma {:induction false} FirstAppearancesMembers(labels: seq<string>, x: string)
    ensures x in FirstAppearances(labels) <==> x in labels
  {
    if |labels| > 0 {
      var n := |labels| - 1;
      FirstAppearancesMembers(labels[..n], x);
      assert labels == labels[..n] + [labels[n]];
    }
  }

  /** Labels that no row carries collect nothing. */
  lemma {:induction false} SelectAbsent(rows: seq<Row>, ids: seq<Option<Id>>, heat: string)
    requires |ids| == |rows|
    requires heat !in HeatLabels(rows)
    ensures Select(rows, ids, heat) == []
  {
    if |rows| > 0 {
      var n := |rows| - 1;
      assert HeatLabels(rows[..n]) == HeatLabels(rows)[..n];
      assert HeatLabels(rows)[n] == rows[n].heat;
      SelectAbsent(rows[..n], ids[..n], heat);
    }
  }

  /** The keys of the grouping are the raw heat labels in order of first
      appearance; labels are compared as raw strings. */
  lemma {:induction false} GroupRowsKeys(rows: seq<Row>, ids: seq<Option<Id>>)
    requires |ids| == |rows|
    ensures Labels(GroupRows(rows, ids)) == FirstAppearances(HeatLabels(rows))
  {
    if |rows| > 0 {
      var n := |rows| - 1;
      GroupRowsKeys(rows[..n], ids[..n]);
      assert HeatLabels(rows[..n]) == HeatLabels(rows)[..n];
      assert HeatLabels(rows)[n] == rows[n].heat;
      FirstAppearancesMembers(HeatLabels(rows[..n]), rows[n].heat);
    }
  }

  /** Each group lists the ids of exactly the rows carrying its label, in row order. */
  lemma {:induction false} GroupRowsContents(rows: seq<Row>, ids: seq<Option<Id>>)
    requires |ids| == |rows|
    ensures forall k :: 0 <= k < |GroupRows(rows, ids)| ==>
              GroupRows(rows, ids)[k].ids == Select(rows, ids, GroupRows(rows, ids)[k].heat)
  {
    if |rows| > 0 {
      var n := |rows| - 1;
      var gs := GroupRows(rows[..n], ids[..n]);
      var gs' := GroupRows(rows, ids);
      var heat := rows[n].heat;
      assert gs' == AppendToGroup(gs, heat, ids[n]);
      GroupRowsContents(rows[..n], ids[..n]);
      forall k | 0 <= k < |gs'|
        ensures gs'[k].ids == Select(rows, ids, gs'[k].heat)
      {
        if k == |gs| {
          assert heat !in Labels(gs);
          GroupRowsKeys(rows[..n], ids[..n]);
          FirstAppearancesMembers(HeatLabels(rows[..n]), heat);
          SelectAbsent(rows[..n], ids[..n], heat);
        } else {
          assert Labels(gs')[k] == Labels(gs)[k];
        }
      }
    }
  }

  /** The rows carrying `heat`, in row order. */
  function RowsOfHeat(rows: seq<Row>, heat: string): seq<Row>
  {
    if |rows| == 0 then []
    else
      var n := |rows| - 1;
      RowsOfHeat(rows[..n], heat) + (if rows[n].heat == heat then [rows[n]] else [])
  }

  /** When every row resolves through `ids` against `reg`, so does every row of one
      heat through that heat's group: position s of the group is the id of the
      s-th row carrying the label. */
  lemma {:induction false} SelectResolves(reg: seq<Pilot>, rows: seq<Row>, ids: seq<Option<Id>>, heat: string)
    requires ResolvesAll(reg, rows, ids)
    ensures ResolvesAll(reg, RowsOfHeat(rows, heat), Select(rows, ids, heat))
  {
    if |rows| > 0 {
      var n := |rows| - 1;
      assert ResolvesAll(reg, rows[..n], ids[..n]) by {
        assert forall i :: 0 <= i < n ==> rows[..n][i] == rows[i] && ids[..n][i] == ids[i];
      }
      SelectResolves(reg, rows[..n], ids[..n], heat);
      var sel, sids := RowsOfHeat(rows[..n], heat), Select(rows[..n], ids[..n], heat);
      if rows[n].heat == heat {
        var sel', sids' := sel + [rows[n]], sids + [ids[n]];
        assert forall i :: 0 <= i < |sel| ==> sel'[i] == sel[i] && sids'[i] == sids[i];
        assert sel'[|sel|] == rows[n] && sids'[|sel|] == ids[n];
      }
    }
  }
}
