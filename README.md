# Roster builder of the fantasy-basketball team page

This project models the state logic of the team page script
`static/js/equipos.js` of a fantasy-basketball web application. On that page a
user searches the player directory, filters it by name and position, and picks
players into a roster. The roster has one starter (`titular`) slot and one
bench (`suplente`) slot for each of the five positions `Base`, `Escolta`,
`Alero`, `Ala-pívot` and `Pívot`. The save button turns on once all ten slots
are filled.

The model has three modules:

- `Roster` (roster.dfy) describes the roster state `equipoActual` as a value.
  A `Team` holds two slot sequences, and each `Slot` is `Empty` (JavaScript
  `null`) or `Holds(id)`. The module defines the operations on that value:
  the slot an assignment chooses (`Place`), assignment (`Assign`), removal
  (`Remove`), completeness (`Complete`), the missing-player count
  (`Remaining`), membership (`Selected`) and the save-button state
  (`SaveButtonFor`). Lemmas about these functions state the page's
  behaviour: the round trip, idempotent removal, the count formulas and the
  invariants.
- `Directory` (directory.dfy) covers the loaded player directory and the
  search filter. It holds case-insensitive substring matching, the filter
  itself and the `.flat()` that joins the per-position lists. The lemmas
  prove that the filter keeps the directory's order, keeps exactly the
  matching players with their multiplicity, and distributes over
  concatenation.
- `Equipos` (equipos.dfy) holds the class `RosterBuilder`. It keeps the two
  arrays of five slots and the loaded directory, as the page script does.
  `Select` and `Remove` write the arrays in place. Their postconditions tie
  the new array contents to `Roster.Assign` and `Roster.Remove` applied to
  the old contents.

Player identifiers are whatever the backend sends. They are database primary
keys (`app.py:175`, in the per-position list the page loads), so in practice
they are positive. The model does not assume this. `Truthy` follows JavaScript's `Boolean(x)`, under which `0` is
falsy. The predicate `PositiveIds` and the lemmas `TruthyIsFilled` and
`RemainingCountsEmptySlots` show that the save button's truthiness count
agrees with the `!== null` tests whenever identifiers are positive.

Two details of the code are easy to miss:

- The tooltip count is `10` minus the number of truthy slots, not minus the
  number of filled slots. The two agree for positive identifiers.
- A player whose position is not one of the five labels is refused.
  `indexOf` gives -1, and `titulares[-1]` is `undefined`, not `null`. The
  refusal shows the same alert as a position whose two slots are full.

## Model

| member | source | states |
|---|---|---|
| Roster.PositionsDistinct | static/js/equipos.js:3 | there are five position labels, pairwise distinct, so a position names exactly one slot index; ten players make a team |
| Roster.EmptyTeam | static/js/equipos.js:4-7 | the initial roster has five `null` starter slots and five `null` bench slots |
| Roster.IndexOf | static/js/equipos.js:208 | `indexOf` gives -1 exactly when the label is absent, and otherwise the first index holding it |
| Roster.Place | static/js/equipos.js:207-217 | the chosen slot is the starter slot of the player's position when it is empty, else the bench slot when that is empty; the assignment is refused exactly when every slot of that position is filled, which includes a position not in the list |
| Roster.Assign | static/js/equipos.js:207-217 | after assignment, exactly the chosen slot holds the player's id and every other slot of both sequences is unchanged; a refusal leaves the roster equal to the old one |
| Roster.Remove | static/js/equipos.js:225-230 | removal clears `titulares[index]` for kind "titular" and `suplentes[index]` for any other kind, and changes no other slot |
| Roster.ShapePreserved | static/js/equipos.js:207-230 | assignment and removal keep every stored identifier positive when the assigned one is |
| Roster.RemoveIdempotent | static/js/equipos.js:225-230 | removing the same slot twice equals removing it once |
| Roster.AssignThenRemove | static/js/equipos.js:207-230 | a successful assignment followed by removal of the slot it filled, using the kind string the roster card passes, restores the roster exactly |
| Roster.AssignEffect | static/js/equipos.js:207-221 | after a successful assignment of a non-zero id, the player counts as selected and the missing count drops by exactly one; a refused assignment leaves the roster unchanged |
| Roster.RemoveEffect | static/js/equipos.js:225-234 | removing a slot raises the missing count by one if that slot held a truthy id, and otherwise leaves it unchanged |
| Roster.CompleteIffAllFilled | static/js/equipos.js:24-28 | the roster is complete exactly when the number of non-`null` slots over both sequences is 10 |
| Roster.CountFilledAll | static/js/equipos.js:25-26 | a slot sequence has as many filled slots as its length exactly when `every` slot is `!== null` |
| Roster.TruthyIsFilled | static/js/equipos.js:39-42 | with positive ids, `filter(Boolean).length` equals the number of non-`null` slots |
| Roster.CountTruthyUpdate | static/js/equipos.js:39-42 | writing one slot changes the truthy count by exactly the old and new slots' contributions |
| Roster.RemainingWhenIncomplete | static/js/equipos.js:38-43 | when the roster is incomplete, the reported number of missing players lies between 1 and 10 |
| Roster.RemainingCountsEmptySlots | static/js/equipos.js:39-43 | with positive ids, the reported count is the number of `null` slots, and it is 0 exactly when the roster is complete |
| Roster.SaveButtonFor | static/js/equipos.js:31-48 | the button is disabled and styled `btn-secondary` exactly when the roster is incomplete, with a tooltip giving the missing count (1 to 10); otherwise it is enabled, styled `btn-success`, and titled as ready to save |
| Directory.LowerChar | static/js/equipos.js:67 | lower-casing maps `A`-`Z` to `a`-`z` and leaves every other character alone |
| Directory.Lower | static/js/equipos.js:71 | lower-casing a string keeps its length and lower-cases each character in place |
| Directory.Contains | static/js/equipos.js:71 | `includes` holds exactly when the term occurs at some index of the name; the empty term occurs in every name |
| Directory.Filter | static/js/equipos.js:66-74 | the filter result is no longer than the directory, and every player it keeps matches the name and position conditions |
| Directory.FilterMembers | static/js/equipos.js:70-74 | a player is in the filter result exactly when it is in the directory and its lower-cased name contains the lower-cased term and, if a position is chosen, its position equals that position |
| Directory.FilterIsSubsequence | static/js/equipos.js:70 | the filter result is a subsequence of the directory, so directory order is preserved |
| Directory.FilterMultiplicity | static/js/equipos.js:70-74 | each matching player occurs in the result as often as in the directory, and each other player does not occur |
| Directory.FilterConcat | static/js/equipos.js:70-74 | filtering a concatenation equals concatenating the filtered parts |
| Directory.FilterUnconstrained | static/js/equipos.js:67-72 | an empty search term with no position chosen returns the whole directory |
| Directory.FilterCaseInsensitive | static/js/equipos.js:67-71 | two search terms that lower-case to the same string select the same players |
| Directory.Flatten | static/js/equipos.js:58 | a player is in the joined directory exactly when it is in one of the per-position lists |
| Directory.FlattenAppend | static/js/equipos.js:58 | joining keeps list order: one more list is appended after the players already joined |
| Directory.FilterFlatten | static/js/equipos.js:58-74 | filtering the joined directory equals filtering each position's list and joining the results in position order |
| Equipos.RosterBuilder.Snapshot | static/js/equipos.js:4-7 | the roster value is the contents of the two arrays, one slot per position |
| Equipos.RosterBuilder.constructor | static/js/equipos.js:4-8 | on page load both arrays are fresh and entirely `null`, and the directory is empty |
| Equipos.RosterBuilder.Load | static/js/equipos.js:57-58 | once every request has answered, the directory is the per-position lists joined in position order |
| Equipos.RosterBuilder.Select | static/js/equipos.js:207-217 | the arrays are written in place: the result names the slot `Place` chooses, the new contents are `Assign` of the old contents, and a refusal leaves both arrays exactly as they were |
| Equipos.RosterBuilder.Remove | static/js/equipos.js:225-230 | the arrays are written in place; the new contents are `Roster.Remove` of the old contents |
| Equipos.RosterBuilder.IsComplete | static/js/equipos.js:24-28 | the roster is complete exactly when every starter slot and every bench slot of the arrays is not `null` |
| Equipos.RosterBuilder.IsSelected | static/js/equipos.js:118-121 | a player is selected exactly when its id occurs in some starter slot or bench slot of the arrays |
| Equipos.RosterBuilder.SaveButtonState | static/js/equipos.js:31-48 | the button is disabled and styled `btn-secondary` exactly when the roster is incomplete; while disabled its tooltip gives `Remaining`, 10 minus the truthy slots, which lies between 1 and 10; once enabled it is styled `btn-success` and titled as ready to save |
| Equipos.RosterBuilder.Filtered | static/js/equipos.js:66-74 | the rendered search list is at most as long as the loaded directory, and every player in it matches the filter |

## Left out

- Network loading is not modelled. This covers the per-position `fetch` requests, `Promise.all`, JSON parsing and the logged failure (equipos.js:51-63). `RosterBuilder.Load` receives the lists the requests returned.
- The player detail view is not modelled: its fetch and the modal dialog (equipos.js:124-163) are I/O and a third-party widget.
- All DOM rendering is not modelled. This covers the result cards, the roster cards, the "no results" message, the CSS classes and the event wiring (equipos.js:79-115, 166-204, 238-258). Calls that refresh the view after each change are not modelled either. The class functions `IsSelected`, `Filtered` and `SaveButtonState` give the state those views show.
- The capacity alert is modelled as the `Rejected` placement and is not a message.
- A selected player's search card is not clickable. This is enforced only in rendering (equipos.js:109-111), so `Select` itself does not refuse a player already on the roster, just as `seleccionarJugador` does not.
- The click handler for the `/mis_equipos` page (equipos.js:261-270) is routing and UI only.
- app.py (Flask routes, sessions, database access) is not part of this model.
- Equipos.RosterBuilder.Remove: the index must lie in 0..4. The page only passes indices from iterating the five-slot arrays. Writing past the end would lengthen a JavaScript array, and that case is not modelled.
- Directory.Lower: only ASCII letters are lower-cased, while `toLowerCase` folds case over all of Unicode.
- Directory.LowerChar: only `A`-`Z` are mapped, for the same reason.
- Equipos.RosterBuilder.Filtered: its contract gives length and that every result matches. Exact membership, order and multiplicity are proved on `Directory.Filter`, which it returns, by `FilterMembers`, `FilterIsSubsequence` and `FilterMultiplicity`.
- A `Player` keeps only identifier, name, position and team. Age, height, country, university and statistics are only displayed.
