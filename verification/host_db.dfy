/** The host race-management database as the importer sees it: a pilot registry,
    the race classes and the heats with their slots, together with the host calls
    the importer makes on it (pilot_add, raceclass_add, heat_add, heat_alter,
    slot_alter). Every call is a pure state transition; a call that creates a
    record appends it with an id no existing record of that kind carries. */
module HostDb {

  datatype Option<+T> = None | Some(value: T)

  /** Record ids handed out by the host. */
  type Id = nat

  datatype Pilot = Pilot(id: Id, name: string, callsign: string)

  datatype RaceClass = RaceClass(id: Id, name: string)

  /** A heat. `raceClass` is None until heat_alter binds the heat to a class;
      each slot holds the id of the pilot assigned to it, if any. */
  datatype Heat = Heat(id: Id, name: string, raceClass: Option<Id>, slots: seq<Option<Id>>)

  datatype Db = Db(pilots: seq<Pilot>, classes: seq<RaceClass>, heats: seq<Heat>)

  /** What the user sees at the end of a run: the success notification, one of
      the two alerts, or the uncaught IndexError of a slot overflow. */
  datatype Status =
    | Generated
    | CsvNotFound
    | ClassNameExists
    | SlotOverflow(heat: string, index: nat)

  /** A run leaves the database as it stands (nothing is rolled back) and a status. */
  datatype Outcome = Outcome(db: Db, status: Status)

  /** The empty database of a fresh event. */
  const EmptyDb := Db([], [], [])

  function MaxId(ids: seq<Id>): (m: Id)
    ensures forall i :: 0 <= i < |ids| ==> ids[i] <= m
    ensures |ids| == 0 ==> m == 0
    ensures |ids| > 0 ==> exists i :: 0 <= i < |ids| && ids[i] == m
  {
    if |ids| == 0 then 0
    else
      var m := MaxId(ids[..|ids| - 1]);
      if ids[|ids| - 1] > m then ids[|ids| - 1] else m
  }

  /** The id the host hands to the next record of a kind: above every id in use. */
  function NextId(ids: seq<Id>): (r: Id)
    ensures forall i :: 0 <= i < |ids| ==> ids[i] < r
    ensures r >= 1
  {
    MaxId(ids) + 1
  }

  /** The ids of a sequence of records, through the record kind's id field. */
  function IdsOf<T>(xs: seq<T>, id: T -> Id): (ids: seq<Id>)
    ensures |ids| == |xs|
    ensures forall i :: 0 <= i < |xs| ==> ids[i] == id(xs[i])
  {
    seq(|xs|, i requires 0 <= i < |xs| => id(xs[i]))
  }

  /** `n` slots with no pilot in them, as the host creates them for a new heat. */
  function EmptySlots(n: nat): (s: seq<Option<Id>>)
    ensures |s| == n
    ensures forall i :: 0 <= i < n ==> s[i] == None
  {
    seq(n, _ => None)
  }

  /** pilot_add: registers a pilot under a fresh id, at the end of the registry. */
  function PilotAdd(db: Db, name: string, callsign: string): (r: Db)
    ensures |r.pilots| == |db.pilots| + 1
    ensures r.pilots[..|db.pilots|] == db.pilots
    ensures r.pilots[|db.pilots|].name == name && r.pilots[|db.pilots|].callsign == callsign
    ensures forall i :: 0 <= i < |db.pilots| ==> db.pilots[i].id < r.pilots[|db.pilots|].id
    ensures r.classes == db.classes && r.heats == db.heats
  {
    db.(pilots := db.pilots + [Pilot(NextId(IdsOf(db.pilots, (p: Pilot) => p.id)), name, callsign)])
  }

  /** raceclass_add: creates a race class under a fresh id and returns it with the id. */
  function RaceClassAdd(db: Db, name: string): (r: (Db, Id))
    ensures r.0.classes == db.classes + [RaceClass(r.1, name)]
    ensures forall i :: 0 <= i < |db.classes| ==> db.classes[i].id < r.1
    ensures r.0.pilots == db.pilots && r.0.heats == db.heats
  {
    var id := NextId(IdsOf(db.classes, (c: RaceClass) => c.id));
    (db.(classes := db.classes + [RaceClass(id, name)]), id)
  }

  /** heat_add: creates an unbound heat under a fresh id with `slotCount` empty
      slots; how many slots a heat gets is the host's decision. */
  function HeatAdd(db: Db, name: string, slotCount: nat): (r: (Db, Id))
    ensures r.0.heats == db.heats + [Heat(r.1, name, None, EmptySlots(slotCount))]
    ensures forall i :: 0 <= i < |db.heats| ==> db.heats[i].id < r.1
    ensures r.0.pilots == db.pilots && r.0.classes == db.classes
  {
    var id := NextId(IdsOf(db.heats, (h: Heat) => h.id));
    (db.(heats := db.heats + [Heat(id, name, None, EmptySlots(slotCount))]), id)
  }

  /** heat_alter(heat, raceclass=c): binds the heat carrying `heatId` to class `classId`. */
  function HeatAlter(db: Db, heatId: Id, classId: Id): (r: Db)
    ensures |r.heats| == |db.heats|
    ensures forall i :: 0 <= i < |db.heats| && db.heats[i].id != heatId ==> r.heats[i] == db.heats[i]
    ensures forall i :: 0 <= i < |db.heats| && db.heats[i].id == heatId ==>
              r.heats[i] == db.heats[i].(raceClass := Some(classId))
    ensures r.pilots == db.pilots && r.classes == db.classes
  {
    db.(heats := seq(|db.heats|, i requires 0 <= i < |db.heats| =>
      if db.heats[i].id == heatId then db.heats[i].(raceClass := Some(classId)) else db.heats[i]))
  }

  /** slot_alter(slot, ASSIGN, pilot): writes `pilot` into slot `index` of the heat
      carrying `heatId`. A slot that does not exist is not touched. */
  function SlotAlter(db: Db, heatId: Id, index: nat, pilot: Option<Id>): (r: Db)
    ensures |r.heats| == |db.heats|
    ensures forall i :: 0 <= i < |db.heats| && (db.heats[i].id != heatId || index >= |db.heats[i].slots|) ==>
              r.heats[i] == db.heats[i]
    ensures forall i :: 0 <= i < |db.heats| && db.heats[i].id == heatId && index < |db.heats[i].slots| ==>
              r.heats[i] == db.heats[i].(slots := db.heats[i].slots[index := pilot])
    ensures r.pilots == db.pilots && r.classes == db.classes
  {
    db.(heats := seq(|db.heats|, i requires 0 <= i < |db.heats| =>
      if db.heats[i].id == heatId && index < |db.heats[i].slots|
      then db.heats[i].(slots := db.heats[i].slots[index := pilot])
      else db.heats[i]))
  }
}
