# Pigeonhole retrieve and put-away: a Dafny model

This project models the core of a warehouse system in which sales orders are picked from pigeonholes on mobile racks. Two stations drive the work:

- A **retrieve** station takes an order's items out of their pigeonholes into a bin.
- A **store** station puts items away into pigeonholes.

The server keeps two tables:

- `retrieve`: one row per sales-order line, with a status.
- `pigeonhole`: one row per cell, whose `item_code` column is a comma-separated list with one entry per unit held.

The model covers:

- **Cell contents** (`Pigeonhole`): JavaScript `split`/`join` (`Strings`), the occurrence tally, and `removeItemCodes`. `removeItemCodes` drops the first *n* occurrences of a code and is proved against a specification with its count, leftmost-first and order-keeping laws.
- **Allocation** (`Allocation`):
  - `/get_storage` is a method with the source's nested loops. It is proved equal to a specification. The specification's lemmas say which orders are accepted and how their cells are grouped under `rack-side` keys.
  - `/get_item` intersects an order's codes with a cell's list.
- **Writes** (`Orders`, `Database`): `/add_order` imports sheet rows and rejects duplicate SO numbers. `/update_retrieve` commits picked quantities. Both are methods of a `Tables` class holding the two tables, proved against specification functions whose frame and effect are proved as lemmas.
- **Station screens** (`ScanInput`, `RetrieveScreen`, `StoreScreen`): the component state of `Retrieve.jsx` and `Store.jsx` is a class per screen. There is one method per key or event handler, and every network reply is a parameter (`Reply<T>`: answered, failed, or never answered). Each method returns the requests it sends and states the whole new screen. A validity invariant ties the mode to the expected bin or offered pigeonholes.

JavaScript and SQL semantics are written out where they decide a branch:

- `"".split(",")` is `[""]`.
- A template literal prints a missing part as `undefined`.
- `undefined >= q` is false, so a code the tally lacks never qualifies.
- SQL `=` is never true on NULL, and `undefined` binds as NULL.
- `toString` on null or undefined throws, which ends `/add_order` after the lines already inserted.
- Plain objects used as dictionaries are lists of entries in insertion order. Keys that name `Object.prototype` members are not modelled (see `Pigeonhole.Tally` under "## Left out").

The code as written does some things a reader might not expect, and the model keeps them:

- A failed `/get_item` on the retrieve screen clears the pigeonhole, yet the screen still moves on to the bin scan.
- `/update_retrieve` marks a line retrieved whatever quantity was picked.
- `/get_item` never answers for an unknown pigeonhole (modelled as `None` and as a `Pending` reply).
- The store screen commits only `dataSend[0]`.

## Model

| member | source | states |
|---|---|---|
| `Strings.Split` | server/API/retrieve.js:117 | `split` always yields at least one piece and no piece contains the separator |
| `Strings.Join` | server/API/retrieve.js:294 | `join` puts one separator between neighbouring pieces; it undoes `split` by `JoinSplit` and is undone by it by `SplitJoin` |
| `Strings.JoinSplit` | server/API/retrieve.js:283-294 | joining the pieces of a split gives back the original text |
| `Strings.SplitJoin` | server/API/retrieve.js:294 | splitting a join of separator-free pieces (at least one) gives back exactly those pieces |
| `Strings.IntToStringRoundTrip` | server/API/retrieve.js:54 | the decimal text `toString` gives for an integer converts back to that same number |
| `Strings.IntToString` | server/API/retrieve.js:54 | `toString` of an integer: a minus sign before the decimal digits of a negative value; `IntToStringRoundTrip` states that it converts back |
| `Strings.TextToNumber` | server/API/retrieve.js:124 | the conversion of a text quantity for `>=`: the empty text is 0, digits with an optional leading minus are their value, anything else is NaN; `IntToStringRoundTrip` states that it undoes `IntToString` |
| `JsObject.Keys` | client/src/components/station/Retrieve.jsx:119-123 | `Object.keys` lists one key per property, in property order |
| `JsObject.Get` | server/API/retrieve.js:137-139 | reading a property is defined exactly for the keys the object has |
| `JsObject.Put` | server/API/retrieve.js:137-139 | `o[k] = v` adds a property exactly when `k` is new; what the assignment reads back and how it orders keys are stated by `GetPut` and `KeysPut` |
| `JsObject.GetPut` | server/API/retrieve.js:137-139 | after `o[k] = v`, `o[k]` is `v` and every other key reads as before |
| `JsObject.KeysPut` | server/API/retrieve.js:137-139 | assignment keeps the existing key order and appends a new key at the end |
| `JsObject.UniquePut` | server/API/retrieve.js:148 | assignment never makes a key appear twice |
| `Pigeonhole.CountPositive` | server/API/retrieve.js:181 | a code occurs a positive number of times exactly when `includes` finds it |
| `Pigeonhole.Count` | server/API/retrieve.js:118-124 | the number of entries of the list equal to the code, the reference count the tally and the removal are stated against (`TallyCounts`, `RemoveFirstCount`) |
| `Pigeonhole.Codes` | server/API/retrieve.js:283 | the cell text split at commas, as every reader of a cell does; `CellAfterRemoval` states what it reads back after a rewrite |
| `Pigeonhole.Tally` | server/API/retrieve.js:118-121 | the `reduce` tally: each code met adds one to its entry, an absent entry counting as 0; its meaning is stated by `TallyCounts` |
| `Pigeonhole.TallyCounts` | server/API/retrieve.js:118-121 | the tally has an entry exactly for the codes present, holding each one's exact number of occurrences |
| `Pigeonhole.RemoveFirstCount` | server/API/retrieve.js:286-292 | exactly min(quantity, occurrences) entries of the code are removed, none for a quantity of 0 or less |
| `Pigeonhole.RemoveFirst` | server/API/retrieve.js:286-292 | the filter with a running count: left to right, an entry equal to the code is dropped while fewer than the quantity have been dropped; its laws are the `RemoveFirst…` lemmas |
| `Pigeonhole.RemoveFirstKeepsOthers` | server/API/retrieve.js:287-291 | codes other than the one removed keep their counts |
| `Pigeonhole.RemoveFirstLength` | server/API/retrieve.js:286-292 | the list shrinks by exactly the number of entries removed |
| `Pigeonhole.RemoveFirstNoop` | server/API/retrieve.js:287-291 | a quantity of 0 or less, or an absent code, leaves the list unchanged |
| `Pigeonhole.RemoveFirstAppend` | server/API/retrieve.js:286-292 | filtering with a running count over two halves serves the first half first and leaves the rest owed to the second |
| `Pigeonhole.RemoveAllIsRemoveFirst` | server/API/retrieve.js:287-291 | a quantity at least the number of occurrences removes every occurrence |
| `Pigeonhole.RemoveAll` | server/API/retrieve.js:287-291 | the reference removal of every occurrence, which `RemoveAllIsRemoveFirst` shows the filter reaches once the quantity covers the count |
| `Pigeonhole.Removed` | server/API/retrieve.js:284-292 | how many entries the filter takes out: the quantity capped at the count, none for a quantity of 0 or less; tied to the filter by `RemoveFirstCount` and `RemoveFirstLength` |
| `Pigeonhole.RemoveAllNoop` | server/API/retrieve.js:287-291 | removing every occurrence of an absent code changes nothing |
| `Pigeonhole.RemoveFirstLeftmost` | server/API/retrieve.js:286-292 | the entries removed are the leftmost occurrences and everything after them is untouched |
| `Pigeonhole.RemoveFirstInOrder` | server/API/retrieve.js:286-292 | the surviving entries keep their original relative order |
| `Pigeonhole.SubsequenceMembers` | server/API/retrieve.js:286-292 | every surviving entry was in the original list |
| `Pigeonhole.RemoveItemCodes` | server/API/retrieve.js:282-295 | the loop with its mutable count returns the join of the leftmost-first removal of the split text |
| `Pigeonhole.CellAfterRemoval` | server/API/retrieve.js:249-261 | the rewritten cell text reads back as the surviving codes, or as one empty code when none survive |
| `Orders.InsertRows` | server/API/retrieve.js:47-75 | at most one line per row; the import completes exactly when every row yields a line |
| `Orders.InsertRowsSpec` | server/API/retrieve.js:47-70 | each inserted line is its row's line (status 0, item code converted to a string), and the import stops only at a row whose code cannot be converted |
| `Orders.InsertRowsAppend` | server/API/retrieve.js:47-75 | importing two runs of rows is importing the first and, only if it completes, the second |
| `Orders.ToStringOf` | server/API/retrieve.js:54 | `item_code.toString()`: a text is itself, a number is its decimal text, NULL or undefined throws (`None`); stated by `IntToStringRoundTrip` and `AddOrderAbortsAtMissingCode` |
| `Orders.CellAt` | server/API/retrieve.js:48-51 | `row[c]`, `undefined` past the end of the row |
| `Orders.ItemCodeOf` | server/API/retrieve.js:48-54 | the item code cell `order[1]` converted to a string, absent when the conversion throws |
| `Orders.Stored` | server/API/retrieve.js:60-69 | a bound parameter as stored: `undefined` is NULL, every other value is kept |
| `Orders.LineOf` | server/API/retrieve.js:55-69 | the inserted row: the header's customer, SO number and date, columns 1 to 4 of the sheet row, status 0; stated by `InsertRowsSpec` and `AddOrderInserts` |
| `Orders.SqlEq` | server/API/retrieve.js:103-104 | SQL `column = ?`: true only for equal values, never when either side is NULL or the parameter is undefined; `OrderRowsNull` and `NullSoAccepted` state its NULL case |
| `Orders.IsDuplicate` | server/API/retrieve.js:33-42 | some stored SO number is `===` the uploaded one; `AddOrderDuplicate` states its effect |
| `Orders.AddOrder` | server/API/retrieve.js:16-77 | the whole upload on the table: fewer than three rows abort before any write, a duplicate SO number writes nothing, otherwise the rows from index 4 are inserted until one lacks an item code; its effect is stated by the `AddOrder…` lemmas |
| `Orders.AddOrderDuplicate` | server/API/retrieve.js:33-42 | an upload whose SO number is already stored changes nothing and says so |
| `Orders.AddOrderInserts` | server/API/retrieve.js:16-70 | a fresh SO number appends one line per row from index 4, with the customer from `[0][1]`, SO number and date from `[1][2]` and `[2][2]`, status 0, stored rows untouched |
| `Orders.AddOrderAbortsAtMissingCode` | server/API/retrieve.js:48-54 | a row without an item code ends the import: the lines before it stay, none after |
| `Orders.AddOrderKeepsTable` | server/API/retrieve.js:16-77 | an import never rewrites or drops an existing line |
| `Allocation.ZoneKeyParts` | server/API/retrieve.js:126-133 | the `rack-side` key splits back into the id's first and second parts |
| `Allocation.ZoneKey` | server/API/retrieve.js:126-133 | the key `${part1}-${part2}` from the first two `-`-separated parts of a pigeonhole id, a missing part printed as `undefined` |
| `Allocation.IdPart` | server/API/retrieve.js:129-133 | `parts[i]` as a template literal prints it, `undefined` past the end |
| `Allocation.PendingSoNumbers` | server/API/retrieve.js:98-99 | the distinct SO numbers of the pending lines, in order of first appearance |
| `Allocation.OrderRows` | server/API/retrieve.js:103-104 | the pending lines of one SO number, compared with SQL `=` |
| `Allocation.PendingSoNumbersSpec` | server/API/retrieve.js:98-99 | the distinct list holds every SO number with a pending line, each once, and nothing else |
| `Allocation.QualifyingCellSpec` | server/API/retrieve.js:110-124 | a line qualifies exactly when the one cell returned holds its code itself at least once and at least the line's quantity of times; the id is that cell's |
| `Allocation.QualifyingCell` | server/API/retrieve.js:110-124 | a line yields the id of the single cell the lookup returns exactly when that cell's tally of the code meets the line's quantity |
| `Orders.MeetsQuantity` | server/API/retrieve.js:124 | JavaScript `count >= quantity`: an absent count never meets anything, a NULL quantity reads as 0, a text quantity is converted to a number, and NaN never compares true |
| `Allocation.QualifyingIdsSpec` | server/API/retrieve.js:106-147 | the counter equals the number of lines exactly when every line qualifies, and then the i-th id is the i-th line's cell |
| `Allocation.AllQualify` | server/API/retrieve.js:146-147 | every selected line qualifies, the condition under which the counter reaches the number of lines (`QualifyingIdsSpec`) |
| `Allocation.InZoneEmpty` | server/API/retrieve.js:126-139 | a zone has no ids exactly when no id has that zone key |
| `Allocation.GroupedSpec` | server/API/retrieve.js:135-139 | each `rack-side` key lists exactly the ids of its zone in line order, absent zones have no key, and no key is repeated |
| `Allocation.PushTo` | server/API/retrieve.js:137-139 | `tempData[key] = tempData[key] ? [...tempData[key], id] : [id]`; `GroupedStep` and `GroupedSpec` state what it builds |
| `Allocation.Grouped` | server/API/retrieve.js:135-141 | the `PushTo` of each qualifying id in line order; `GroupedSpec` and `GroupedKeys` state that each key lists exactly its zone's ids |
| `Allocation.InZone` | server/API/retrieve.js:135-139 | the reference list of the ids whose zone key is the given key, in order, that `GroupedSpec` compares each key's list with |
| `Allocation.GroupedKeys` | server/API/retrieve.js:135-141 | a key exists exactly when some qualifying id lies in that zone |
| `Allocation.StorageOverSpec` | server/API/retrieve.js:102-158 | an SO number is in the reply exactly when it was looped over and all its pending lines qualified, and then it maps to their grouped cells |
| `Allocation.StorageAccepts` | server/API/retrieve.js:101-148 | an order is in the reply exactly when the station is a pigeonhole station, the order has a pending line, and every line `so_no = ?` selects for it qualifies; for a NULL SO number none is selected, so it is accepted with empty zones |
| `Allocation.NullSoAccepted` | server/API/retrieve.js:98-148 | a pending line with a NULL SO number puts NULL in the reply with no zones, whatever that line and the cells hold |
| `Allocation.OrderRowsNull` | server/API/retrieve.js:103-104 | `so_no = ?` bound to NULL selects no line |
| `Allocation.StorageZones` | server/API/retrieve.js:126-148 | an accepted order's zones list, under each key, its cells of that zone in line order, with one cell per line |
| `Allocation.StorageOver` | server/API/retrieve.js:102-158 | the outer loop over the pending SO numbers: an order whose counter equals its number of lines is added with its grouped zones and its first-zone dispatch; its meaning is stated by `StorageOverSpec` |
| `Allocation.GetStorageSpec` | server/API/retrieve.js:101-161 | the reply of `/get_storage`: the outer loop for a pigeonhole station, an empty reply for any other station type |
| `Allocation.FirstDispatch` | server/API/retrieve.js:150-156 | the fleet request for the first key of the zones only (the loop breaks after one), with rack and side split from it; none for empty zones |
| `Allocation.GroupOrder` | server/API/retrieve.js:106-144 | the inner loop's counter is the number of qualifying lines and reaches the number of lines exactly when all qualify; `tempData` is their cells grouped by zone |
| `Allocation.GetStorage` | server/API/retrieve.js:101-158 | the nested loops with `counter` and `tempData` compute the specified reply, including the first-zone fleet dispatch per accepted order |
| `Allocation.MatchedSpec` | server/API/retrieve.js:178-189 | an order code the cell holds is kept as often as the order lists it; a code it lacks is dropped; order-line order is kept |
| `Allocation.Matched` | server/API/retrieve.js:180-181 | the order's codes that `includes` finds in the cell's list, in order; its meaning is stated by `MatchedSpec` |
| `Allocation.SoItemCodes` | server/API/retrieve.js:168-169 | the item codes of every line of the SO number, whatever the status, compared with SQL `=` |
| `Allocation.LookupAll` | server/API/retrieve.js:182-187 | one item-row lookup per matched code, in order |
| `Allocation.GetItemSpec` | server/API/retrieve.js:164-197 | the `/get_item` reply: none for an unknown pigeonhole, else one item lookup per matched order code; `GetItemSpecMembers` and `MatchedSpec` state its content |
| `Allocation.GetItemSpecMembers` | server/API/retrieve.js:177-190 | every item in the reply is the item row of a code that is both one of the order's codes and in the cell's list |
| `Allocation.GetItem` | server/API/retrieve.js:168-190 | the loop returns the specified items; each entry is the item row of a code both in the order and in the cell's list; an unknown cell gives no reply |
| `Database.MarkDone` | server/API/retrieve.js:264-269 | every line of the order with the code is marked retrieved, every other line is unchanged |
| `Database.FindLine` | server/API/retrieve.js:233-240 | the lookup finds a line exactly when the table has a line with that SO number and code, whatever its status |
| `Database.HasLine` | server/API/retrieve.js:233-240 | the lookup of `so_no = ? AND item_code = ?` finds a row, whatever its status |
| `Database.Applies` | server/API/retrieve.js:240-248 | a pick is applied exactly when that row exists and the pigeonhole exists with a non-empty `item_code`; `CommitPickApplied` and `CommitPickIgnored` state both sides |
| `Database.Marks` | server/API/retrieve.js:264-269 | the lines the status `UPDATE` rewrites: the code matches and the SO number is SQL-equal |
| `Database.MarkLines` | server/API/retrieve.js:264-269 | the row-by-row update marks exactly the lines of the order with the code and keeps every other line |
| `Database.CommitPick` | server/API/retrieve.js:230-270 | one `dataSend` entry: with a matching line and a non-empty cell, the cell is rewritten by `removeItemCodes` and the lines are marked; otherwise nothing changes; stated by `CommitPickApplied` and `CommitPickIgnored` |
| `Database.CommitAll` | server/API/retrieve.js:229-272 | the entries of `dataSend` applied one after the other; stated by `CommitAllFrame` and `CommitAllMarksOnlyPicked` |
| `Database.CommitPickApplied` | server/API/retrieve.js:240-270 | an applied pick takes min(quantity, count) copies of its code out of the cell, keeps every other non-empty code's count, and marks that code's lines of the order retrieved |
| `Database.CommitPickIgnored` | server/API/retrieve.js:240-248 | without a matching line, or with a missing or empty cell, a pick changes nothing |
| `Database.CommitAllFrame` | server/API/retrieve.js:229-272 | over a whole `dataSend` the table keeps its lines and only sets statuses, no cell appears or disappears, and only the scanned cell changes |
| `Database.CommitAllMarksOnlyPicked` | server/API/retrieve.js:263-269 | a pending line stays pending unless it belongs to the order and its code is among the picks |
| `Database.Tables.AddOrder` | server/API/retrieve.js:16-77 | the duplicate-check loop and the insert loop leave the outcome and the table the import specifies, with the cells unchanged |
| `Database.Tables.UpdateRetrieve` | server/API/retrieve.js:229-272 | the per-entry loop (line lookup, cell read, `removeItemCodes`, status update) leaves both tables as the commit specifies |
| `ScanInput.EditRules` | client/src/components/station/Retrieve.jsx:235-236 | Backspace drops exactly the last character and keeps an empty buffer empty |
| `ScanInput.Edit` | client/src/components/station/Retrieve.jsx:235-244 | one keystroke other than Enter: Backspace is `slice(0, -1)`, Shift, Tab, CapsLock and Alt are skipped, any other key's name is appended; its laws are the `ScanInput` lemmas |
| `ScanInput.Ignored` | client/src/components/station/Retrieve.jsx:237-242 | the keys skipped without touching the buffer: Shift, Tab, CapsLock and Alt; `IgnoredKeysKeep` states their effect |
| `ScanInput.Typed` | client/src/components/station/Retrieve.jsx:235-244 | a run of non-Enter keystrokes applied one after the other; stated by `TypedAppend`, `TypingAppends`, `BackspacesErase` |
| `ScanInput.TypedAppend` | client/src/components/station/Retrieve.jsx:267-276 | typing two runs of keys is typing the first, then the second |
| `ScanInput.TypingAppends` | client/src/components/station/Retrieve.jsx:237-244 | the one-character keys of a scanned text append exactly that text |
| `ScanInput.BackspacesErase` | client/src/components/station/Retrieve.jsx:267-268 | n Backspaces drop the last n characters, leaving an empty buffer when it was shorter |
| `ScanInput.TypeThenErase` | client/src/components/station/Store.jsx:152-161 | backspacing over a scanned text restores the buffer |
| `ScanInput.IgnoredKeysKeep` | client/src/components/station/Store.jsx:193-202 | modifier keys alone never change the buffer |
| `RetrieveScreen.RackSideOfZoneKey` | client/src/components/station/Retrieve.jsx:123-131 | for a key built as `/get_storage` builds it (`ZoneKey`), the rack and side taken from it are the first and second parts of the pigeonhole id |
| `RetrieveScreen.RackSide` | client/src/components/station/Retrieve.jsx:126-131 | the rack and side the screen keeps: the first and second `-`-separated parts of the first zone key, a missing side printed as `undefined` |
| `RetrieveScreen.TotalQuantity` | client/src/components/station/Retrieve.jsx:193-196 | the quantity total exists exactly when every item row was found, and is then the sum of `item_quantity` |
| `RetrieveScreen.SumOf` | client/src/components/station/Retrieve.jsx:193-196 | the sum of `item_quantity` over found items, the reference total `TotalQuantity` is stated against |
| `RetrieveScreen.AfterItems` | client/src/components/station/Retrieve.jsx:185-200 | after the `/get_item` reply: the items are shown; the pigeonhole buffer is cleared when the request failed or a missing item row makes the total throw; nothing changes while no reply comes |
| `RetrieveScreen.LightQuantity` | client/src/components/station/Retrieve.jsx:172-217 | the quantity the bin light shows: the items' total, or the initial 0 when the reply failed, never came or the total threw |
| `RetrieveScreen.AfterSuccess` | client/src/components/station/Retrieve.jsx:279-294 | after a committed pick: the success notice names the pigeonhole, the green pigeonholes are refreshed when answered, no bin is expected, items and both buffers are cleared, first-scan mode |
| `RetrieveScreen.RetrieveStation.constructor` | client/src/components/station/Retrieve.jsx:22-40 | the initial screen: first-scan mode, empty buffers, no bin, no items |
| `RetrieveScreen.RetrieveStation.Start` | client/src/components/station/Retrieve.jsx:97-157 | no station: nothing; an error message or an empty reply raises "No item in pigeonhole"; otherwise the first SO number, the rack and side of its first zone key and that zone's cells become current; the start button is hidden only once the retrieve-rack request settles |
| `RetrieveScreen.AfterRack` | client/src/components/station/Retrieve.jsx:147-155 | the start button is hidden after the retrieve-rack reply or its error, and stays as it was while no reply comes |
| `RetrieveScreen.RetrieveStation.FirstScanKey` | client/src/components/station/Retrieve.jsx:171-245 | a pigeonhole outside the green ones raises "Wrong pigeonhole(..)", clears the buffer, sends nothing and stays in first-scan mode; a valid one with a bin switches to the bin scan and lights the bin with the items' total |
| `RetrieveScreen.RetrieveStation.SecondScanKey` | client/src/components/station/Retrieve.jsx:247-277 | a non-Enter key edits the bin buffer; Enter checks the bin |
| `RetrieveScreen.RetrieveStation.LightEvent` | client/src/components/station/Retrieve.jsx:62-95 | ignored in first-scan mode and unless both the location id and the expected bin id are set; otherwise sets the bin and checks it exactly as a typed bin |
| `RetrieveScreen.RetrieveStation.CheckBin` | client/src/components/station/Retrieve.jsx:249-265 | a wrong bin raises "Wrong bin(..)", commits nothing and keeps mode and buffer; the expected bin commits, and a failed commit clears only the bin |
| `RetrieveScreen.RetrieveStation.Succeed` | client/src/components/station/Retrieve.jsx:279-294 | back to first-scan mode with both buffers empty, no bin, no items, and the green pigeonholes refreshed |
| `RetrieveScreen.RetrieveStation.SetQuantities` | client/src/components/station/Retrieve.jsx:296-299 | the confirmed quantities replace `dataSend` and nothing else changes |
| `RetrieveScreen.CommitOnlyForExpectedBin` | client/src/components/station/Retrieve.jsx:249-259 | a commit is sent exactly when the bin is the expected one and a user is logged in, never in first-scan mode; a wrong bin keeps mode and buffer |
| `RetrieveScreen.BinChecked` | client/src/components/station/Retrieve.jsx:249-265 | Enter on the bin input: a bin other than the expected one only raises "Wrong bin(..)"; without a user the bin is cleared and nothing is sent; otherwise the commit is sent and its reply decides between `handleSuccess` and clearing the bin |
| `StoreScreen.StoreStation.constructor` | client/src/components/station/Store.jsx:21-35 | the initial screen: item-code mode, empty buffers, nothing offered |
| `StoreScreen.StoreStation.SelectStore` | client/src/components/station/Store.jsx:87-110 | the store becomes selected, and its list is loaded once its data has loaded |
| `StoreScreen.StoreStation.ItemCodeKey` | client/src/components/station/Store.jsx:112-162 | a code outside the store list raises an error and clears the buffer; a reply with a message clears it; otherwise the returned pigeonhole ids, in order, are offered and the mode switches |
| `StoreScreen.StoreStation.PigeonholeKey` | client/src/components/station/Store.jsx:164-203 | a non-Enter key edits the buffer; Enter checks the pigeonhole as specified |
| `StoreScreen.StoreStation.Succeed` | client/src/components/station/Store.jsx:209-225 | back to item-code mode with both buffers empty, no item and nothing offered; the store list is refreshed when a store is selected |
| `StoreScreen.StoreStation.Fail` | client/src/components/station/Store.jsx:227-231 | raises "Error updating store." and clears only the pigeonhole buffer |
| `StoreScreen.Truthy` | client/src/components/station/Store.jsx:220 | `if (selectedStoreNo)`: a store is selected and its number is not the empty text |
| `StoreScreen.AfterSuccess` | client/src/components/station/Store.jsx:209-225 | after a stored item: the success notice names the pigeonhole, item-code mode, both buffers and the item cleared, nothing offered, the store list replaced when a selected store's list was answered |
| `StoreScreen.AfterError` | client/src/components/station/Store.jsx:227-231 | after a failed update: the error notice, and only the pigeonhole buffer cleared |
| `StoreScreen.Consistent` | client/src/components/station/Store.jsx:141-147 | in item-code mode no pigeonhole is offered, the invariant every handler keeps (`StoreStation.Valid()`) |
| `StoreScreen.StoreStation.SetQuantities` | client/src/components/station/Store.jsx:205-207 | the confirmed quantities replace `dataSend` and nothing else changes |
| `StoreScreen.UpdateOnlyForOffered` | client/src/components/station/Store.jsx:168-192 | an update is sent only for an offered pigeonhole and carries `dataSend[0]`; only success leaves pigeonhole mode; a failure keeps the offer and the item |
| `StoreScreen.PigeonholeChecked` | client/src/components/station/Store.jsx:165-192 | Enter on the pigeonhole input: an id not offered clears the buffer and raises an error; an empty `dataSend` or a missing user fails before the request; otherwise `dataSend[0]` is sent and the reply decides between reset and error |
| `StoreScreen.NoUpdateWhileScanningItems` | client/src/components/station/Store.jsx:61-71 | on a screen that keeps the invariant, a pigeonhole handler still firing in item-code mode sends no update and leaves the mode, offer and item as they were |

## Left out

- HTTP, axios, express and socket.io are not modelled. Requests are returned as values and replies are parameters. The light-panel POST payload is reduced to its location id and quantity. `userId` is only checked for presence.
- `fleet(...)` and `getRackLayout` in `/get_storage` are external. The model records the dispatch of the first zone per accepted order. It does not model the layout, the message or the empty `storage` object.
- SQL text and `LIKE` are modelled as parameters: the cell lookup of `/get_storage` is a function parameter (the first cell whose text contains the code); item-row lookups are too.
- SQLite type affinity is not modelled. Neither are numeric-versus-text column comparisons or the loose `!=` between string and number ids. Ids and item codes are strings, and cell values are a four-case `Value`.
- Object keys are not stringified. `/get_storage` keys its reply by the SO number `Value`, so the number 5 and the text "5" stay distinct keys. JavaScript's ordering of integer-like keys first is also not modelled.
- In `/get_storage`, a missing `station` row throws before any reply; this is not modelled.
- Numbers are integers. Quantities written as text convert by a decimal reading that accepts only digits, optionally after `-`. Floats, exponents and whitespace are not modelled.
- Insert errors in `/add_order` (the `message` it returns) and the 500 reply of `/update_retrieve` are not modelled; the model's writes cannot fail. `datetime('now')` is a clock and is left out.
- `Orders.AddOrder`: a body with fewer than three rows throws before any write, and the model treats it as `Aborted` with the table unchanged. The sheet is modelled as rows of cells; a row that is not an array is not modelled.
- React rendering and listener re-registration on every render are not modelled. Neither are the stale closures or the socket created, and never closed, on each render (one light event can reach several handlers). The model treats every handler as seeing the current state.
- `StoreScreen.StoreStation.ItemCodeKey`: the synthetic Enter for `isBtnActionClick` is not modelled; its key event is a plain Enter.
- `handleStart`'s `alert`, the dialog and snackbar rendering, focus calls, `handleNextBtn`, `handleCompleteBtn`, `handleStartClick` and the layout, rack-layout and store data are not modelled. They are UI or display-only state.
- The server routes `/get_retrieve`, `/get_green_pigeonhole`, `/store/get_item_info`, `/store/update_store` and `/store/get_store_list` are not part of this model. Their replies are parameters.
- Put-away zone selection and capacity limits belong to the `/store` server routes, which are not part of this model.
- Concurrency between requests (`update_retrieve` writes entry by entry and is not atomic) is not modelled; each handler runs to completion.
- SQL `SELECT`s without `ORDER BY` (the `DISTINCT` one included) are modelled as returning rows in table order, and `DISTINCT` as keeping the first appearance. SQLite does not promise that order.
- A pigeonhole whose `item_code` is NULL is not modelled: cells map ids to text. For such a cell, `/get_item` throws at `split` and never answers, and `/update_retrieve` skips the cell.
- Sheet cells are text, integers, NULL or missing. A boolean cell, which `toString` turns into `"true"` or `"false"`, is not modelled.
- `Pigeonhole.Tally`: a code that names an `Object.prototype` member (`constructor`, `toString`, `valueOf`, `hasOwnProperty`, `__proto__`, …) is not modelled as the source treats it. There the tally starts from the inherited value, for example `"function Object() { [native code] }1"`, so `>=` is false and the line never qualifies; the model counts such a code like any other. SO numbers and zone keys naming such members (`pigeonhole["__proto__"] = …` sets the prototype instead of adding a key) are not modelled either.
