# Collaborative canvas: session state in Dafny

This project models the in-memory session state of the collaborative canvas
server: the shared drawing history with linear undo and redo
(`server/drawing-state.js`), and the room and membership registry with
round-robin colour assignment (`server/rooms.js`).

Each of the two classes is modelled twice.

- **As a value with one step function per mutating operation.**
  - `DrawingLog.LogState` with `Commit`, `UndoLast`, `RedoLast` and `Reset`.
  - `Rooms.Registry` with `EnsureRoom`, `Join` and `Leave`.
  - The lemmas about the system are stated over these functions.
- **As a Dafny class with the source's fields, updated in place.**
  - `DrawingLog.DrawingState` has `operations`, `undoStack` and `operationId`.
  - `Rooms.RoomManager` has `rooms`, plus `roomOrder`, the rooms' insertion order.
  - Each mutating method ensures that its result and the new field values are exactly what the step function gives for the old field values. It also keeps the class invariant (`Valid`).

The drawing history's invariant is `Consistent`.

- The timeline is the visible operations followed by the undone ones in reverse stack order.
- Its ids strictly increase.
- Every id is below the counter.

The registry's invariant is `RegistryValid`.

- Each room is stored under its own id.
- Each member is stored under its own id.
- The insertion-order sequences list every key exactly once.
- JavaScript `Map`s iterate in insertion order, and `getRoomUsers` returns its members in that order. This is why each map carries such a sequence.

Colour assignment is round-robin over the ten-entry palette, and colours are never reclaimed. So the only distinctness guarantee is for consecutive joins.

- Any ten or fewer consecutive joins into one room get distinct colours (`ConsecutiveJoinsDistinct`). The first ten joins into a new room get the palette in order, and the eleventh gets the first colour again (`FreshRoomColourCycle`).
- Two members present at the same time can still share a colour when only two are present. `PresentMembersShareColour` shows this: one member joins a fresh room, another joins and leaves nine times (or 19, 29, ...), and a third joiner then gets the first member's colour.
- The model follows the code here. Round-robin assignment is sometimes described as keeping present members' colours distinct while at most ten are present. The code does not guarantee that.

The single `DrawingState` instance that the server shares across all rooms is modelled as one log, as the code has it.

## Model

| member | source | states |
|---|---|---|
| DrawingLog.Commit | server/drawing-state.js:23-36 | The new operation carries the old counter as its id and the given time. It keeps every caller field except `id` and `timestamp` unchanged. It is appended to the visible list, the undo stack is emptied, and the counter grows by exactly one. |
| DrawingLog.UndoLast | server/drawing-state.js:42-55 | With no visible operations it reports nothing and changes nothing. Otherwise the last visible operation moves to the top of the undo stack, and the report names it with the shortened visible list. |
| DrawingLog.RedoLast | server/drawing-state.js:61-74 | With an empty undo stack it reports nothing and changes nothing. Otherwise the top of the undo stack moves to the end of the visible list, and the report names it with the lengthened visible list. |
| DrawingLog.Reset | server/drawing-state.js:87-90 | Both stacks become empty and the id counter is kept, so ids are never reused. |
| DrawingLog.InitialConsistent | server/drawing-state.js:7-16 | A fresh log (empty stacks, counter 0) satisfies the invariant. |
| DrawingLog.CommitKeepsConsistent | server/drawing-state.js:23-36 | A commit keeps the invariant. The new id exceeds every id the log held, and the undone operations leave the timeline. |
| DrawingLog.UndoKeepsTimeline | server/drawing-state.js:42-55 | Undo leaves the timeline (visible followed by reversed undo stack) and the counter exactly as they were. |
| DrawingLog.RedoKeepsTimeline | server/drawing-state.js:61-74 | Redo leaves the timeline and the counter exactly as they were. |
| DrawingLog.UndoKeepsConsistent | server/drawing-state.js:42-55 | Undo keeps the invariant. |
| DrawingLog.RedoKeepsConsistent | server/drawing-state.js:61-74 | Redo keeps the invariant. |
| DrawingLog.ResetKeepsConsistent | server/drawing-state.js:87-90 | Clear keeps the invariant. |
| DrawingLog.VisibleInCommitOrder | server/drawing-state.js:80-82 | In a consistent log the visible operations, which are replayed to joining clients, have strictly increasing ids below the counter. |
| DrawingLog.CommitKeepsTimeOrder | server/drawing-state.js:8-36 | When the commit time is no earlier than every held timestamp, a commit keeps the timeline and the visible list in non-decreasing timestamp order. |
| DrawingLog.UndoRedoResetKeepTimeOrder | server/drawing-state.js:42-90 | Undo, redo and clear keep a timestamp-ordered timeline in timestamp order. |
| DrawingLog.UndoThenRedo | server/drawing-state.js:42-74 | On a non-empty visible list, undo then redo restores both stacks and the counter exactly. Both report the same operation. |
| DrawingLog.RedoThenUndo | server/drawing-state.js:42-74 | On a non-empty undo stack, redo then undo restores the state exactly. Both report the same operation. |
| DrawingLog.CommitThenRedo | server/drawing-state.js:30-74 | Redo right after a commit reports nothing, because the commit discarded the pending redos. |
| DrawingLog.ResetThenUndoRedo | server/drawing-state.js:23-90 | After clear, both undo and redo report nothing. The next commit still gets the id the counter had before the clear. |
| DrawingLog.CommitCommitUndoRedo | server/drawing-state.js:23-74 | From a fresh log, two commits get ids 0 and 1. Undo reports the second commit and leaves only the first visible. Redo reports the second commit again and restores the state after both commits. |
| DrawingLog.DrawingState.constructor | server/drawing-state.js:7-16 | The fields start as two empty stacks and counter 0, and satisfy the invariant. |
| DrawingLog.DrawingState.AddOperation | server/drawing-state.js:23-36 | Returns and stores exactly what `Commit` gives for the old fields, and keeps the invariant. |
| DrawingLog.DrawingState.Undo | server/drawing-state.js:42-55 | Returns the report and moves the fields exactly as `UndoLast` says, and keeps the invariant. |
| DrawingLog.DrawingState.Redo | server/drawing-state.js:61-74 | Returns the report and moves the fields exactly as `RedoLast` says, and keeps the invariant. |
| DrawingLog.DrawingState.GetAllOperations | server/drawing-state.js:80-82 | Returns the visible operations, with strictly increasing ids all below the counter. |
| DrawingLog.DrawingState.Clear | server/drawing-state.js:87-90 | Empties both stacks and keeps the counter, as `Reset` says, and keeps the invariant. |
| DrawingLog.DrawingState.GetStateSummary | server/drawing-state.js:95-101 | Reports both stack sizes and the counter minus one, which is -1 before any commit. Every id the log holds is at most that value. |
| Rooms.HexInjective | server/rooms.js:15-26 | The ten palette entries are ten different colour strings. |
| Rooms.ColorForInPalette | server/rooms.js:56 | Every colour handed out is a palette entry. |
| Rooms.PaletteDistinct | server/rooms.js:15-26 | The palette has ten pairwise distinct entries. |
| Rooms.DisplayName | server/rooms.js:61 | A given non-empty name is kept. A missing or empty name becomes "User " followed by decimal digits only, with no leading zero, that read back as the member count before the join plus one. |
| Rooms.DecimalRoundTrip | server/rooms.js:61 | The decimal spelling used in fallback names reads back as the number it spells. |
| Rooms.EnsureRoom | server/rooms.js:34-43 | An existing room is returned and nothing changes. An unknown id gets an empty room with cursor 0, appended to the room order. No other room is touched. |
| Rooms.EnsureRoomIdempotent | server/rooms.js:34-43 | Calling getRoom twice is the same as calling it once. |
| Rooms.AddToRoom | server/rooms.js:55-66 | The joiner gets the palette entry at the room's cursor, and the cursor advances by exactly one. |
| Rooms.Join | server/rooms.js:52-69 | The user record has the given id, the display name for the room's prior size, the colour at the old cursor and the join time. It is stored under its id, the room's other members are unchanged, the cursor grows by one, a new room is appended to the room order, and every other room is unchanged. |
| Rooms.Leave | server/rooms.js:77-89 | An unknown room gives false and no change. Otherwise the result is true exactly when the user was a member. The user is deleted. The room disappears exactly when it is left empty and is not 'main', and only then leaves the room order. Every other room is unchanged. |
| Rooms.LeaveKeepsDefault | server/rooms.js:84-86 | The default room 'main' survives every removal. A non-default room that survives a removal still has members. |
| Rooms.LeaveKeepsCursors | server/rooms.js:77-89 | A removal changes no surviving room's cursor, so colours are not reclaimed. |
| Rooms.LeaveThenRecreate | server/rooms.js:84-86 | When the last member leaves a non-default room it is deleted. A later getRoom for that id creates a fresh room with cursor 0. |
| Rooms.Listing | server/rooms.js:100 | A room's members in insertion order: one entry per listed id, and exactly the stored users. |
| Rooms.RoomUsers | server/rooms.js:96-101 | An unknown room lists no one. A known room lists its members in insertion order, exactly the stored users. |
| Rooms.FindUser | server/rooms.js:109-114 | A user is found exactly when the room exists and holds that id. The result is the stored record. In a valid registry its id is the one asked for. |
| Rooms.EmptyRegistryValid | server/rooms.js:7-12 | The empty registry satisfies the invariant and counts zero users. |
| Rooms.EnsureRoomKeepsValid | server/rooms.js:34-43 | getRoom keeps the registry invariant. |
| Rooms.AddToRoomKeepsValid | server/rooms.js:55-66 | Adding a member keeps the room invariant and the room's id. |
| Rooms.RemoveFromRoomKeepsValid | server/rooms.js:81 | Deleting a member keeps the room invariant. |
| Rooms.JoinKeepsValid | server/rooms.js:52-69 | addUser keeps the registry invariant. |
| Rooms.DropRoomKeepsValid | server/rooms.js:84-86 | Tearing down a room keeps the registry invariant. |
| Rooms.LeaveKeepsValid | server/rooms.js:77-89 | removeUser keeps the registry invariant. |
| Rooms.JoinIntoRoundRobin | server/rooms.js:52-57 | One addUser into a room hands out the palette entry at that room's cursor and advances the cursor by one. |
| Rooms.JoinEachColours | server/rooms.js:56-57 | Repeated joins by any step that is round-robin for a room get the palette entries from that room's cursor on, in order, and move the cursor on by their number. |
| Rooms.JoinsColours | server/rooms.js:52-57 | Consecutive addUser calls into one room get the palette entries from its cursor on, in order, and advance the cursor by their number. |
| Rooms.JoinColourInRun | server/rooms.js:52-57 | The i-th of consecutive addUser calls into one room gets the palette entry at the starting cursor plus i. |
| Rooms.ColorForDistinct | server/rooms.js:56 | Two cursor values less than ten apart select different colours. |
| Rooms.PaletteRunDistinct | server/rooms.js:56 | Ten or fewer consecutive cursor values select pairwise distinct colours. |
| Rooms.ConsecutiveJoinsDistinct | server/rooms.js:52-57 | Ten or fewer consecutive addUser calls into one room get pairwise distinct colours. |
| Rooms.ColorForWraps | server/rooms.js:56 | A cursor ten further on selects the same colour. |
| Rooms.PaletteRunWraps | server/rooms.js:56 | A run of palette entries repeats itself after ten. |
| Rooms.PaletteWraps | server/rooms.js:52-57 | Among consecutive addUser calls into one room, the call ten after another gets the same colour. |
| Rooms.FreshRoomColourCycle | server/rooms.js:34-57 | Into a room that does not exist yet, the i-th addUser call gets palette entry i modulo ten: the first ten get the whole palette in order, and the eleventh gets the first entry again. |
| Rooms.JoinKeepsOther | server/rooms.js:52-69 | A join by someone else keeps a member's record, keeps the room, and advances its cursor by one. |
| Rooms.LeaveKeepsOther | server/rooms.js:77-89 | A leave by someone else keeps the room, a remaining member's record, and the cursor. |
| Rooms.IterateKeepsMember | server/rooms.js:57 | Repeating steps that each keep a member and advance the cursor by one keeps the member and advances the cursor by the number of steps. |
| Rooms.JoinAndLeaveKeepsOther | server/rooms.js:52-89 | One join-and-leave by someone else keeps a member and advances the cursor by one. |
| Rooms.ChurnAdvancesCursor | server/rooms.js:52-89 | While a member stays, any number of joins-and-leaves by another connection keep that member's record. The cursor grows by one per join: it never decreases and leaves do not reclaim colours. |
| Rooms.JoinFreshRoom | server/rooms.js:34-66 | The first join into a room that does not exist yet makes the joiner a member with the first palette entry and moves the cursor to 1. |
| Rooms.ColorForCompletesCycle | server/rooms.js:56 | A cursor that has reached a multiple of ten (one join followed by 9, 19, ... more) selects the first colour again. |
| Rooms.PresentMembersShareColour | server/rooms.js:52-89 | Two members present at the same time can have the same colour: a member joins a fresh room, another joins and leaves nine times (or 19, 29, ...), and a third joiner gets the first member's colour. |
| Rooms.JoinThenFind | server/rooms.js:52-69 | After addUser, getUser finds the returned record under its id. Every other lookup answers as before, in other rooms and in the joined room if it already existed. |
| Rooms.AddToRoomListing | server/rooms.js:66 | Adding a new id appends its record at the end of the listing. Re-adding an existing id replaces its record in place and keeps the order. |
| Rooms.JoinListsUser | server/rooms.js:52-69 | After addUser, getRoomUsers is the old list plus the new user at the end. For a known id it is the old list with that entry replaced in place. |
| Rooms.WithoutAt | server/rooms.js:81 | Deleting a key that sits at position p of a duplicate-free insertion order leaves the other keys in their order, with exactly that position cut out. |
| Rooms.RemoveFromRoomListing | server/rooms.js:81 | After a deletion, a room lists exactly its earlier members other than the one removed. Deleting an id that is not a member leaves the listing unchanged. |
| Rooms.ListingCut | server/rooms.js:81-100 | Deleting the member listed at position p leaves the listing with exactly that entry cut out, the others in their insertion order. |
| Rooms.LeaveListsRest | server/rooms.js:77-101 | After removeUser, getRoomUsers lists exactly the earlier members other than the one removed. For an id that was not a member it is unchanged. A torn-down room lists no one. |
| Rooms.LeaveListsRemoved | server/rooms.js:77-101 | After removeUser on an existing room, getRoomUsers gives the listing of that room with the member deleted, also when the room was torn down. |
| Rooms.LeaveCutsListing | server/rooms.js:77-101 | When the leaver is listed at position p, getRoomUsers after removeUser is the old list with exactly that entry cut out, the others keeping their insertion order. |
| Rooms.TotalUsers | server/rooms.js:120-126 | In a valid registry, every room's member count is at most the total, and the total is zero exactly when every room is empty. |
| Rooms.EnsureRoomKeepsTotal | server/rooms.js:34-43 | getRoom does not change the total user count. |
| Rooms.JoinTotal | server/rooms.js:52-69 | addUser adds one to the total exactly when the id was not yet in the room. |
| Rooms.RemoveCount | server/rooms.js:81 | Deleting a key takes one entry off a map exactly when the key was present. |
| Rooms.LeaveTotal | server/rooms.js:77-89 | removeUser takes one off the total exactly when it returns true. |
| Rooms.RoomManager.constructor | server/rooms.js:7-27 | The manager starts with no rooms and satisfies the invariant. |
| Rooms.RoomManager.GetRoom | server/rooms.js:34-43 | Returns the room and updates the fields exactly as `EnsureRoom` says, and keeps the invariant. |
| Rooms.RoomManager.AddUser | server/rooms.js:52-69 | Returns the user record and updates the fields exactly as `Join` says, and keeps the invariant. |
| Rooms.RoomManager.RemoveUser | server/rooms.js:77-89 | Returns the result and updates the fields exactly as `Leave` says, and keeps the invariant. |
| Rooms.RoomManager.GetRoomUsers | server/rooms.js:96-101 | An unknown room gives the empty list. A known room gives its members in insertion order, exactly the stored users. |
| Rooms.RoomManager.GetUser | server/rooms.js:109-114 | A result exists exactly when the room exists and holds that id. It is the stored record. |
| Rooms.RoomManager.GetTotalUsers | server/rooms.js:120-126 | The loop's total equals the sum of member counts over every room in the registry, each counted once. |

## Left out

- The clock becomes a parameter. `Date.now()` (server/drawing-state.js:27, server/rooms.js:63) is the `now` argument of `Commit`, `AddOperation`, `AddToRoom`, `Join` and `AddUser`. Nothing is assumed about its value.
- Rooms.EnsureRoom: the default argument `roomId = 'main'` of getRoom is not modelled, and callers always pass an id. The same holds for `Rooms.RoomManager.GetRoom`.
- Rooms.RoomManager.GetRoom returns a copy of the room, not a live reference. addUser mutates the room through that reference; `AddUser` instead writes the updated room back into the map, with the same effect.
- DrawingLog.DrawingState.GetAllOperations returns a snapshot of the visible list, not the live array. So does the `remainingOperations` of `Undo`/`Redo`. Later mutations seen through the live array (aliasing) are not modelled.
- Operation payloads are modelled as a map from property name to a simple JSON-like `Value`. Property order, nested objects and floating-point number behaviour are not modelled.
- DrawingLog.Commit: the history is in timestamp order only if the clock never goes back. `now` is unconstrained, so ordering is proved (`CommitKeepsTimeOrder`) only for a commit time no earlier than every held timestamp.
- Ids, counters and cursors are unbounded integers. The loss of precision of JavaScript numbers above 2^53 is not modelled.
- Palette entries are the `Color` datatype, and `Hex` gives the CSS string the server sends.
- Rooms.DisplayName: usernames are strings or missing, so only the falsy values `undefined`/`null` (missing) and `""` take the fallback. Other falsy non-string values are not modelled.
- Rooms.PresentMembersShareColour: the churning connection reuses one id. Real reconnects get fresh socket ids, which gives the same colours.
- server/server.js is not part of this model: the socket.io event handlers, broadcasting, static files and process signals. The same goes for the client code: canvas rendering, DOM wiring and the cursor throttle.
- Concurrency is not modelled. The server runs every handler to completion on one event loop, so each call is one atomic step here.
