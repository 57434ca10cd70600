# TUIO menu demo: registries, rotary selection and MAC-address login

This project models the logic core of `TuioDemo.cs`, a Windows Forms client of
a TUIO tracker (reacTIVision). The tracker reports fiducial markers ("objects"),
touch cursors and blobs through add/update/remove callbacks. The form keeps one
dictionary per kind, keyed by session id. Marker symbol 1 is a rotary menu
controller: the menu is shown from a menu marker's first update until a menu
marker is removed, and the marker's angle selects one of the four options `Login`, `Info`, `Fight`, `Results`. Marker symbol 2
confirms the highlighted option. A second TCP peer sends text from which
MAC-address tokens are extracted into a duplicate-free list; the `Login` option
logs in as the first address collected.

Modules:

- `Selection` (`selection.dfy`): the sector width `360 / Count` (integer division),
  the index `(int)(deg / width) % Count`, and its value `MenuIndex` for the four
  menu options. The lemmas about `MenuIndex` cover the sector bracket, the
  boundary rule, monotonicity, periodicity and the number of debounced changes
  in a forward sweep.
- `MacAddresses` (`mac_addresses.dfy`): the MAC pattern as a predicate on a
  17-character window, and `Regex.Matches` as a leftmost, non-overlapping scan
  returning `Match(index, value)` records. It also holds `AppendAbsent`, the
  meaning of the "add if not already contained" loop, with its properties.
- `Registries` (`registries.dfy`): the `Dictionary` operations the callbacks
  use (`Add`, indexer assignment, `Remove`), as pure map functions and as a
  class `Registry<E>` whose `entries` map field the methods update.
- `TuioDemoApp` (`tuio_demo.dfy`): the entity datatypes, the option screen and
  login identity choices, and the class `TuioDemo` with the fields
  `objectList`, `cursorList`, `blobList`, `macAddresses`, `selectedOption` and
  `showMenu`, and one method per callback. `UpdateMenuMarker` drives
  `UpdateTuioObject` through a run of menu-marker angles, as the tracker
  delivers them one callback at a time. `MenuScenario` is a client with no
  contract of its own: it exercises the callbacks on a short menu session
  (show, turn to `Info`, confirm, duplicate confirm, hide) and asserts the
  state after each step.
- `Wrappers` (`wrappers.dfy`): `Option`.

Angles are exact non-negative degrees (`Degrees`, a `real` subset type) rather
than floating-point radians. `invalidations` counts the `Invalidate()` repaint
requests the callbacks make; this makes the debounce of `selectedOption`
observable.

The registries follow the code's `Dictionary` semantics:

- An update of a cursor or blob whose session id is absent inserts it (indexer
  assignment); it is not an error.
- A remove of an absent session id is a silent no-op; it is not an error.
- `updateTuioObject` does not touch `objectList` at all.
- A duplicate `Add` throws out of the callback. The model returns `DuplicateKey`
  or `Rejected` instead, and on an object add the confirm action is then skipped,
  as it is in the code.

## Model

| member | source | states |
|---|---|---|
| `Selection.SectorWidth` | TuioDemo.cs:221 | the sector width `360 / Count` is positive for 1 to 360 options |
| `Selection.SelectionIndex` | TuioDemo.cs:221 | the computed option index lies in `[0, Count)` |
| `Selection.MenuIndex` | TuioDemo.cs:221 | the four-option menu's index, computed with 90-degree sectors, names one of the options |
| `Selection.MenuSectorWidth` | TuioDemo.cs:221 | the menu has four options, its sector width is 90, and the general formula at four options equals `MenuIndex` |
| `Selection.MenuIndexInSector` | TuioDemo.cs:221 | within one turn the selected index `r` is the sector the angle lies in, `r * 90 <= deg < (r + 1) * 90`; one more full turn selects the same option |
| `Selection.MenuIndexUnique` | TuioDemo.cs:221 | an angle in sector `r` selects `r` and no other index |
| `Selection.FourOptionExamples` | TuioDemo.cs:221 | 0° gives 0, 90° gives 1 (a boundary belongs to the sector starting there), 91° gives 1, 359° gives 3, 360° gives 0 |
| `Selection.MenuIndexMonotone` | TuioDemo.cs:221 | turning forward within one turn never lowers the selected index |
| `Selection.SelectedIndices` | TuioDemo.cs:221 | every index a sequence of angles selects is a menu position |
| `Selection.SelectionChanges` | TuioDemo.cs:221-227 | a sequence of menu-marker updates changes the debounced selection at most once per update |
| `Selection.ForwardSweepAscends` | TuioDemo.cs:221 | the angles of a forward sweep within one turn select non-decreasing indices |
| `Selection.CountNewIndex` | TuioDemo.cs:223-227 | proof helper for `AscendingChanges` (set cardinality): adding a new least index adds one to the count exactly when it differs from the current selection |
| `Selection.SelectedIndicesCons` | TuioDemo.cs:221 | proof helper for `AscendingChanges`: the set of selected indices splits into the first angle's index and those of the rest |
| `Selection.AscendingRest` | TuioDemo.cs:221 | proof helper for `AscendingChanges`: the tail of an ascending sequence ascends and selects nothing below its first index |
| `Selection.AscendingChanges` | TuioDemo.cs:221-227 | if the selected indices ascend from the current selection, the number of debounced changes is the number of distinct new indices reached |
| `Selection.SweepChangesOncePerSector` | TuioDemo.cs:221-227 | in a forward sweep the selection changes exactly once per newly reached sector |
| `Selection.SelectionChangesSnoc` | TuioDemo.cs:223-227 | one more update adds one change exactly when its sector differs from the selection reached so far |
| `MacAddresses.IsMacAddress` | TuioDemo.cs:149 | definition of the pattern: 17 characters, a colon at offsets 2, 5, 8, 11 and 14, a hex digit of either case everywhere else |
| `MacAddresses.Matches` | TuioDemo.cs:150 | `macRegex.Matches(message)`: every match is a MAC-shaped window of the message carrying its text, in order and without overlap |
| `MacAddresses.ScanFrom` | TuioDemo.cs:149-150 | every match is a MAC-shaped window of the message at its index, and matches are in order and do not overlap |
| `MacAddresses.MatchValuesAreTokens` | TuioDemo.cs:149-154 | every string the loop appends is MAC-shaped and is the text of the message at a position where the pattern matches |
| `MacAddresses.ScanFromComplete` | TuioDemo.cs:149-150 | every MAC-shaped window lies inside some reported match |
| `MacAddresses.ScanFromGap` | TuioDemo.cs:149-150 | no MAC-shaped window starts between the previous match and a reported match (leftmost choice) |
| `MacAddresses.ScanFromTail` | TuioDemo.cs:149-150 | no MAC-shaped window starts after the last reported match |
| `MacAddresses.NoMatchNoTokens` | TuioDemo.cs:149-158 | a message has no match exactly when no window of it has the MAC shape |
| `MacAddresses.ScanSkips` | TuioDemo.cs:149-150 | the scan passes over positions where no window matches |
| `MacAddresses.DeviceMessageExample` | TuioDemo.cs:149-150 | `"device 0a:1B:2C:3d:4E:5f seen"` yields exactly the one match at index 7 |
| `MacAddresses.RepeatedTokenExample` | TuioDemo.cs:149-159 | a token sent twice matches twice and is collected once |
| `MacAddresses.AppendAbsent` | TuioDemo.cs:152-159 | the old list is a prefix of the new one (append-only) |
| `MacAddresses.AppendAbsentMembers` | TuioDemo.cs:152-159 | afterwards the list holds exactly the old entries and the tokens |
| `MacAddresses.AppendAbsentNoDuplicates` | TuioDemo.cs:156-158 | a duplicate-free list stays duplicate-free however often a token repeats |
| `MacAddresses.AppendAbsentOrder` | TuioDemo.cs:152-158 | new entries are tokens, appended in the order of their first occurrence |
| `Registries.AddEntry` | TuioDemo.cs:205 | `Dictionary.Add`: a fresh id gains exactly that key and value (size + 1); an existing id leaves the map unchanged |
| `Registries.PutEntry` | TuioDemo.cs:259 | indexer assignment: the id maps to the value whether or not present; other keys unchanged |
| `Registries.RemoveEntry` | TuioDemo.cs:236 | the id is absent afterwards, other entries unchanged; size drops by one only if it was present |
| `Registries.AddThenRemove` | TuioDemo.cs:203-237 | adding a fresh session and removing it restores the registry |
| `Registries.RemoveIdempotent` | TuioDemo.cs:266-269 | removing twice equals removing once (removing an absent id is a no-op) |
| `Registries.PutAfterAdd` | TuioDemo.cs:248-260 | updating a freshly added cursor equals adding the updated value |
| `Registries.Registry.constructor` | TuioDemo.cs:69-71 | a new registry is empty |
| `Registries.Registry.Add` | TuioDemo.cs:205 | reports `DuplicateKey` exactly when the id was present; the map becomes `AddEntry` of the old map |
| `Registries.Registry.Put` | TuioDemo.cs:259 | the map becomes `PutEntry` of the old map |
| `Registries.Registry.Remove` | TuioDemo.cs:236 | the map becomes `RemoveEntry` of the old map; reports whether the id was present |
| `TuioDemoApp.LoginIdentity` | TuioDemo.cs:372-375 | there is a login identity exactly when the MAC list is non-empty, and it is a collected address |
| `TuioDemoApp.OptionScreen` | TuioDemo.cs:369-394 | a screen opens exactly for the four menu options; Login shows the first MAC or "no device" |
| `TuioDemoApp.EveryOptionOpensAScreen` | TuioDemo.cs:369-394 | every menu option opens a screen; only Login depends on the MAC list |
| `TuioDemoApp.LoginIsEarliestMac` | TuioDemo.cs:372-375 | collecting more addresses never changes the login identity; from an empty list it is the first token |
| `TuioDemoApp.TuioDemo.constructor` | TuioDemo.cs:25-71 | empty registries and MAC list, option 0, menu hidden |
| `TuioDemoApp.TuioDemo.ExtractMacAddresses` | TuioDemo.cs:146-161 | the list becomes `AppendAbsent(old list, match values)`; it stays duplicate-free and all MAC-shaped |
| `TuioDemoApp.TuioDemo.HandleReceived` | TuioDemo.cs:136-139 | a received message is scanned, a null read changes nothing |
| `TuioDemoApp.TuioDemo.AddTuioObject` | TuioDemo.cs:201-214 | `objectList` gets `AddEntry`; a duplicate id is rejected with no screen; a fresh symbol-2 marker opens the screen of `menuOptions[selectedOption]` |
| `TuioDemoApp.TuioDemo.UpdateTuioObject` | TuioDemo.cs:216-230 | symbol 1 shows the menu and sets the selection to the sector index; a repaint only when it changes; other symbols change nothing; `objectList` unchanged |
| `TuioDemoApp.TuioDemo.UpdateMenuMarker` | TuioDemo.cs:216-230 | successive menu-marker updates show the menu, end at the last angle's sector, and request exactly `SelectionChanges` repaints; `objectList` unchanged |
| `TuioDemoApp.TuioDemo.RemoveTuioObject` | TuioDemo.cs:232-244 | `objectList` gets `RemoveEntry`; symbol 1 hides the menu and repaints; other symbols leave the menu as it was |
| `TuioDemoApp.TuioDemo.AddTuioCursor` | TuioDemo.cs:246-253 | `cursorList` gets `AddEntry`; `DuplicateKey` exactly on an existing id |
| `TuioDemoApp.TuioDemo.UpdateTuioCursor` | TuioDemo.cs:255-262 | `cursorList` gets `PutEntry` (insert or replace) |
| `TuioDemoApp.TuioDemo.RemoveTuioCursor` | TuioDemo.cs:264-271 | `cursorList` gets `RemoveEntry` |
| `TuioDemoApp.TuioDemo.AddTuioBlob` | TuioDemo.cs:273-280 | `blobList` gets `AddEntry`; `DuplicateKey` exactly on an existing id |
| `TuioDemoApp.TuioDemo.UpdateTuioBlob` | TuioDemo.cs:282-289 | `blobList` gets `PutEntry` (insert or replace) |
| `TuioDemoApp.TuioDemo.RemoveTuioBlob` | TuioDemo.cs:291-298 | `blobList` gets `RemoveEntry` |
| `TuioDemoApp.TuioDemo.Refresh` | TuioDemo.cs:300-303 | every frame requests one repaint |

`MacAddresses.MatchValues` is the definition of `match.Value` for each match
(TuioDemo.cs:154). `Selection.MenuOptions`, a constant rather than a function,
is the option list `Login`, `Info`, `Fight`, `Results` of TuioDemo.cs:39; `MenuIndex` and the
selection lemmas are stated for its four entries.

## Left out

- The TUIO client and its wire protocol are a foreign library: callbacks arrive as already decoded entity values, and `connect`/`disconnect` are not modelled.
- `SocketClient` (TCP connect, `DataAvailable` polling, the 1024-byte read, UTF-8 decoding) is network I/O. Each received message is a given `Option<string>`; `HandleReceived` models one pass of the `ReceiveMessages` loop, not the endless loop and its `Task.Delay`.
- `ExecutePythonScript` starts a subprocess; it is not modelled.
- The `lock` blocks are concurrency: each callback is one atomic step. The unlocked MAC list shared with the UI thread is not modelled either.
- The radian-to-degree conversion in double precision is not modelled; angles are exact non-negative degrees. The C# cast of a double too large for `int` cannot occur for tracker angles and is not modelled.
- `TuioObject`, `TuioCursor`, `TuioBlob` are values here. In the source the dictionaries hold references that the TUIO library updates in place, so `objectList` sees new positions without `updateTuioObject` writing to it. The model does not capture that aliasing: an object entry keeps the values it was added with.
- The sector lemmas (`MenuIndexInSector`, `MenuIndexUnique`, `MenuIndexMonotone` and the sweep lemmas) are stated for the four options of the menu, the only count the program uses; they are not proved for an arbitrary option count, whose division by a variable width is beyond what the solver settles reliably.
- `Match.index` counts Dafny characters (Unicode scalar values), whereas C#'s `Match.Index` counts UTF-16 code units; the two differ after any character outside the Basic Multilingual Plane. The program reads only `match.Value`, so nothing observable depends on it.
- Session ids are C# `long`; the model uses unbounded `int`, since ids are only compared.
- Painting (`OnPaintBackground`, `DrawMenu` and its arrow-image choice), dialog construction (`ShowOptionScreen` beyond which screen opens, `ShowInfoScreen`), full-screen and key handling, `Form_Closing`, `verbose` logging and `Main`'s port parsing are UI or process plumbing. An `Invalidate()` call is modelled only as a count of repaint requests.
