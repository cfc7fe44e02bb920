# Pilot CSV importer: a Dafny model

This project models the import pipeline of the race-timing host plugin `PilotCSVImporter`
(`pilot_csv_importer/__init__.py`). When the user presses "Import":

- `import_pilot` reads a CSV roster of pilots.
- It matches every row against the host's pilot registry on the exact (name,
  callsign) pair and registers each missing pilot.
- It collects the resolved pilot ids under the row's raw `heat` label.
- `generate_heats` then creates a race class and one heat per label. It binds each heat to the class and
  writes the label's pilots into the heat's slots in row order.

The host database is an immutable value `Db` (pilots, race classes, heats). Each host
call the importer makes (`pilot_add`, `raceclass_add`, `heat_add`, `heat_alter`,
`slot_alter`) is a pure transition on it. A run yields an `Outcome`:

- the database as the run leaves it (nothing is ever rolled back);
- a `Status`: success, one of the two alerts, or the uncaught `IndexError` of a heat with
  more pilots than slots.

Modules:

- `HostDb` (`host_db.dfy`): records, ids, status, and the host calls as transitions.
- `Reconcile` (`reconcile.dfy`): `check_existing_pilot`, `get_pilot_id` and the row loop
  that registers and resolves pilots.
- `Grouping` (`grouping.dfy`): the `defaultdict(list)` keyed by heat label. It is an ordered
  sequence of groups, because Python dicts keep insertion order. The module also has
  reference definitions of its keys (labels at first appearance) and contents (the
  ids of the rows carrying a label).
- `Generate` (`generate.dfy`): `check_existing_class` and `generate_heats`, including the
  slot loop and its overflow.
- `Importer` (`importer.dfy`): `import_pilot` end to end, and the properties that connect
  the rows of the file to the heats that come out.
- `Scenarios` (`scenarios.dfy`): worked runs on a concrete three-pilot roster.

The row loop of `import_pilot` interleaves registration and grouping. The model computes it as two
passes:

- `ReconcileAll` folds the rows over the registry and yields one resolved id per row.
- `GroupRows` groups those ids by label.

The two are equivalent because grouping never touches the database and every
resolved id is fixed when its row is processed.

Two behaviours of the code shape the model:

- **Slot overflow.** `slots[index]` raises an `IndexError` that nothing catches, so it
  ends all of `generate_heats`. Later heats are not created, and the success
  notification and the class/heat broadcasts are skipped. The model returns
  `SlotOverflow(label, index)` with the database as it stands: the pilots, the new
  class, every earlier heat, and the overflowing heat with its first `slotCount` slots
  written.
- **Missing CSV columns.** `row.get` yields `None`; a `None` label makes `"Heat" + None`
  raise a `TypeError`. The model's rows carry three strings (see "Left out").

## Model

| member | source | states |
|---|---|---|
| `HostDb.PilotAdd` | pilot_csv_importer/__init__.py:58 | registering a pilot appends exactly one pilot with the given name and callsign, under an id above every id in use; classes and heats are untouched |
| `HostDb.RaceClassAdd` | pilot_csv_importer/__init__.py:80 | creating a class appends one class of the given name under an id above every class id in use |
| `HostDb.HeatAdd` | pilot_csv_importer/__init__.py:85 | creating a heat appends one unbound heat of the given name with `slotCount` empty slots, under a fresh id |
| `HostDb.HeatAlter` | pilot_csv_importer/__init__.py:88 | binding a heat to a class changes the class of the heat with that id and nothing else |
| `HostDb.SlotAlter` | pilot_csv_importer/__init__.py:94-99 | assigning a pilot to a slot rewrites that one slot of the heat with that id; every other heat and slot is unchanged |
| `Reconcile.CheckExistingPilot` | pilot_csv_importer/__init__.py:111-117 | the scan answers true exactly when some registry pilot has both the name and the callsign of the row, compared as raw strings |
| `Reconcile.GetPilotId` | pilot_csv_importer/__init__.py:127-132 | the lookup yields None exactly when no pilot matches; otherwise it yields the id of the first matching pilot in registry order |
| `Reconcile.GetPilotIdStable` | pilot_csv_importer/__init__.py:127-132 | a lookup that found a pilot still finds the same id after more pilots are appended to the registry |
| `Reconcile.ReconcileRow` | pilot_csv_importer/__init__.py:54-62 | the row step (check, register when no pilot matches, look up) only extends the registry, keeping every earlier pilot in place, and leaves classes and heats untouched; which of its two outcomes it takes is `Reconcile.ReconcileRowOutcomes` |
| `Reconcile.ReconcileRowOutcomes` | pilot_csv_importer/__init__.py:54-62 | for a registered identity, one row changes nothing and resolves to the first matching pilot; otherwise it appends exactly one pilot with that identity and a fresh id and resolves to it; either way the row resolves to Some id |
| `Reconcile.ReconcileAll` | pilot_csv_importer/__init__.py:50-63 | the row loop yields one id per row, only appends to the registry and leaves classes and heats untouched |
| `Reconcile.ResolvedIdsAreFirstMatches` | pilot_csv_importer/__init__.py:50-63 | after the loop every row's id is Some, and it is the id of the first pilot in the final registry carrying the row's (name, callsign) |
| `Reconcile.SameIdentitySameId` | pilot_csv_importer/__init__.py:55-63 | deduplication: two rows with the same (name, callsign) resolve to the same id, whether the identity was registered before the run or during it |
| `Reconcile.AddedPilotsAreNew` | pilot_csv_importer/__init__.py:55-62 | each pilot the loop adds is the first registry pilot with its identity (no identity is registered twice), stems from some row, and has an id above every pilot before it |
| `Grouping.AppendToGroup` | pilot_csv_importer/__init__.py:63 | appending an id under a label extends that label's group only; a new label opens a group at the end; labels stay distinct |
| `Grouping.GroupRows` | pilot_csv_importer/__init__.py:47-63 | the grouping built by the row loop has pairwise distinct labels |
| `Grouping.FirstAppearancesMembers` | pilot_csv_importer/__init__.py:47-63 | a label occurs in the first-appearance list exactly when it occurs in the label list (with `Grouping.GroupRowsKeys`: a label is a key of the grouping exactly when some row carries it) |
| `Grouping.GroupRowsKeys` | pilot_csv_importer/__init__.py:47-63 | the grouping's keys are the rows' raw heat labels, each once, in order of first appearance |
| `Grouping.GroupRowsContents` | pilot_csv_importer/__init__.py:47-63 | each group holds the ids of exactly the rows carrying its label, in row order |
| `Grouping.SelectResolves` | pilot_csv_importer/__init__.py:62-63 | position s of a label's group is the resolved id of the s-th row carrying that label |
| `Generate.CheckExistingClass` | pilot_csv_importer/__init__.py:119-125 | the scan answers true exactly when some race class has the given name, compared as a raw string |
| `Generate.AssignSlots` | pilot_csv_importer/__init__.py:93-99 | the slot loop overflows exactly when the group has more ids than the heat has slots, and then it fails at index `slotCount`; pilots and classes are untouched |
| `Generate.AssignSlotsFillsHeat` | pilot_csv_importer/__init__.py:93-99 | the slot loop overwrites the first slots of its heat with the group's ids in order, as many as fit, and leaves every other heat alone |
| `Generate.MakeHeat` | pilot_csv_importer/__init__.py:84-99 | one heat pass appends a heat named "Heat" + label, bound to the class, under a fresh id, whose slots are the group's ids followed by empty slots (or the first `slotCount` ids on overflow) |
| `Generate.GenerateLoop` | pilot_csv_importer/__init__.py:83-99 | the heat loop makes one heat per group in grouping order, up to and including the first group that overflows; the status names that group's label, or reports success when none overflows |
| `Generate.GenerateHeats` | pilot_csv_importer/__init__.py:75-108 | a taken class name leaves the database unchanged and raises the class-exists alert; otherwise exactly one class of that name is appended under a fresh id and the heat loop runs against it; pilots are never touched |
| `Importer.ImportPilot` | pilot_csv_importer/__init__.py:44-73 | a missing file changes nothing and raises the file-not-found alert; otherwise every row's identity ends up registered, only new identities are added, and a taken class name leaves classes and heats unchanged |
| `Importer.ImportSucceedsIffFit` | pilot_csv_importer/__init__.py:83-100 | with a free class name, the run ends in success exactly when no heat label is carried by more rows than a heat has slots |
| `Importer.ImportOverflowReport` | pilot_csv_importer/__init__.py:83-99 | when some label does not fit, the run fails on the first such label in first-appearance order, at index `slotCount`, and has created exactly k + 1 heats for the k + 1 labels up to and including it, the j-th named "Heat" + the j-th label |
| `Importer.LabelHeatHoldsRows` | pilot_csv_importer/__init__.py:84-99 | the heat made for one label's group is named "Heat" + label and bound to the class, and slot s holds the registry id of the s-th row carrying that label, the remaining slots empty |
| `Importer.ImportGeneratesHeats` | pilot_csv_importer/__init__.py:44-100 | when everything fits: one class of the configured name, then one heat per distinct label in first-appearance order, named "Heat" + label and bound to that class, with slot s holding the registry id of the s-th row carrying the label and the remaining slots empty |
| `Scenarios.RosterRegistry` | pilot_csv_importer/__init__.py:50-62 | on an empty registry the rows Alice/AL1, Bob/BO2, Carol/CA3 register three pilots in row order under ids 1, 2, 3 |
| `Scenarios.RosterImport` | pilot_csv_importer/__init__.py:44-100 | that roster with labels 1, 1, 2 and four slots per heat yields class "Imported Class", heat "Heat1" with slots [1, 2, empty, empty] and heat "Heat2" with slots [3, empty, empty, empty] |
| `Scenarios.RawLabelsStayApart` | pilot_csv_importer/__init__.py:53-63 | labels are compared as raw strings: rows labelled "1" and "01" open two separate groups |
| `Scenarios.RosterOverflow` | pilot_csv_importer/__init__.py:83-99 | the same roster with one slot per heat fails at index 1 of label "1" after creating only that heat, with all three pilots kept |

## Left out

- Plugin registration, UI panel, quick button and option fields (`initialize`, `init_plugin`, `init_ui`): user-interface wiring only.
- Logging, `broadcast_pilots`, `broadcast_raceclasses` and `broadcast_heats`: no effect on the database.
- Localisation through `__`: the heat-name prefix is the constant `"Heat"`. Alert and notification texts are reduced to the `Status` they signal.
- Reading the options and building the file path (`"." + os.path.abspath(...)`): the class name is a parameter. The code reads the class-name option twice (lines 77 and 80); the model assumes both reads give the same value.
- `os.path.isfile` is the boolean `csvFound`. Opening and decoding the CSV file is left out: the decoded rows are the parameter `rows`.
- Rows with a missing column (`row.get` returning `None`): a row carries three strings. In the code a `None` label makes `"Heat" + None` raise a `TypeError`.
- Remote (URL) CSV sources: the code reads only a local path.
- The host's id allocation: the model allocates each new id as one above the largest id of its kind in use. The id-ordering clauses (`HostDb.PilotAdd`, `HostDb.RaceClassAdd`, `HostDb.HeatAdd`, `Reconcile.AddedByRows`, `Generate.FreshHeatIds`) depend on new ids being above all earlier ones, and the worked scenarios (`Scenarios.RosterRegistry`, `Scenarios.RosterImport`, `Scenarios.RosterOverflow`) depend on the exact values 1, 2, 3.
- The host's slot records and `slots_by_heat`: a heat's slots are addressed by index, in the order `slots_by_heat` returns them.
- How many slots the host gives a new heat: the parameter `slotCount`.
- Host failures other than the slot `IndexError` (database errors inside the host calls).
- Concurrent imports: the code takes no lock, and the model is single-threaded.
- `Importer.ImportOverflowReport`: states the status and the number and names of the heats after an overflow, not their classes or slot contents. `Generate.GenerateLoop` states those for the heat loop.
