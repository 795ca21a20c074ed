# Impostor word game server: room registry and anti-repeat word picker

This project models the core of `server.js`, the server of an "impostor"
party word game. It has two parts.

- **The anti-repeat word picker** `pickWordIndex` (module `Picker`). Every
  room keeps a history of recently used word indices per category. A pick
  draws uniformly among the indices missing from that history. When the
  history rules out every index, it is first cut to its newest
  `minHistory = min(100, floor(L / 2))` entries. The drawn index is appended
  and the history is capped at `max(minHistory, 200)` entries, so 200.
- **The room registry** (modules `Rooms` and `Server`). The global `rooms`
  object maps a room code to its players, host, current category and
  histories. It is the field `rooms` of the class `Server.Registry`, and
  each socket handler is a method of that class:
  - `createRoom`
  - `joinRoom`
  - `startRound`
  - `setCategory`
  - `disconnect`, plus the deferred cleanup it schedules
  - `leaveRoom`
  - `listCategories`

  Every method states the new `rooms` map in terms of its old value and keeps
  the class invariant `Valid()`. The invariant says:
  - session tokens are unique and non-empty in every room;
  - every player's `id` equals its `sessionId`;
  - every stored history belongs to a category of the word bank, and is
    bounded, in range and free of repeats.

  Each change to a single room is a function on `Room` values in `Rooms`, and
  the lemmas about it are stated there.

The outside world appears as parameters:
- the caller's socket id;
- the room code `makeRoomCode` would draw;
- the token `uuidv4` would return;
- the values `Math.random` would return, as reals in [0, 1);
- the order in which `for (const code in rooms)` visits the codes.

A handler returns the acknowledgement it passes to its callback (`Ack`) and
the messages it emits, in order (`Emit`). Each message goes either to one
socket or to a whole room. A value that JavaScript treats as false in `x || d`
(`undefined`, `null`, `""`) is the empty string.

The model follows the code where it does less than a fuller design would:
- `startRound` and `setCategory` check no host.
- `leaveRoom` never moves the host or deletes the room, even when the host or
  the last player leaves.
- There is no round counter.
- A presented session id that matches nobody is reused as the new player's
  token.
- `createRoom` replaces a room that already has the drawn code.
- `startRound` advances the category's history before it refuses a room with
  no players. A failed `startRound` can therefore still change state.
- `createRoom` does not validate the category. A later `startRound` then
  fails at `words[room.category][idx]`, which the model returns as
  `Ack.Threw` with nothing changed.

## Model

| member | source | states |
|---|---|---|
| Picker.MinHistory | server.js:21 | the number of entries kept by a reset is at most 100 and at most half the word count, and at least 1 once there are two words |
| Picker.HistoryCap | server.js:39 | the history bound max(minHistory, 200) is always 200 |
| Picker.RandIndex | server.js:35 | floor(rand * n) for rand in [0, 1) is a valid position among n items |
| Picker.Candidates | server.js:26-29 | every collected candidate is an index below L that the history does not hold |
| Picker.CandidatesComplete | server.js:26-29 | every index below L that the history does not hold is collected, and in increasing order |
| Picker.CandidatesEmptyIffCovers | server.js:29-30 | there are no candidates exactly when the history holds every index below L |
| Picker.CoverNeedsLength | server.js:30 | a history that holds every index below L has at least L entries |
| Picker.ShortHistoryLeavesCandidate | server.js:26-30 | a history shorter than the word list always leaves a candidate |
| Picker.Newest | server.js:39 | trimming keeps min(length, bound) entries |
| Picker.NewestIsSuffix | server.js:39 | the trimmed history is the old one with only its oldest entries dropped, order kept |
| Picker.RetainedHistory | server.js:21-32 | the history after a reset keeps at most minHistory entries and always leaves a candidate, for one-word categories too |
| Picker.RetainedHistoryIsSlice | server.js:21-32 | with two words or more the reset is exactly used.slice(-minHistory) |
| Picker.ChoiceHistory | server.js:30-33 | the history a pick finally draws against always leaves a candidate |
| Picker.ChoiceHistoryIsSuffix | server.js:30-33 | that history is the stored one when it leaves a candidate; otherwise it is the stored one's newest minHistory entries |
| Picker.DrawIndex | server.js:35 | a drawn index is in [0, L) |
| Picker.DrawIsFresh | server.js:35-39 | the drawn index is absent from the history drawn against; the new history ends with it, holds min(n + 1, 200) entries, and is that history plus the index with the oldest entries dropped |
| Picker.PickWordIndex | server.js:18-41 | the loop-and-retry method returns the index and histories of the pick specification `Pick` |
| Picker.PickAfterReset | server.js:30-33 | when nothing is left, storing the retained history and picking again gives the same result and now has a candidate |
| Picker.PickFromCandidates | server.js:35-40 | with a candidate left, the pick draws among the candidates and stores the history plus the draw, trimmed to 200 |
| Picker.PickOutcome | server.js:18-40 | -1 with no change exactly when the category is missing or empty; otherwise an index in range that the history drawn against does not hold, now the newest entry of that category's history, with the other histories unchanged |
| Picker.DrawKeepsHistoryValid | server.js:35-39 | a draw keeps a history bounded by 200, in range and free of repeats |
| Picker.PickKeepsHistoriesValid | server.js:18-40 | a pick keeps every stored history valid for its category |
| Picker.DrawRun | server.js:18-41 | consecutive picks from one category yield one index per pick |
| Picker.DrawAgesEntry | server.js:35-39 | a draw does not return any of the newest minHistory entries, and each such entry moves one step older |
| Picker.RecentNotRepeated | server.js:21-39 | an entry among the newest minHistory is not drawn again while it stays among them |
| Picker.FirstNotRepeated | server.js:21-39 | the first draw of a run is not repeated by the next minHistory draws |
| Picker.NoRepeatWithinMinHistory | server.js:17-41 | among any minHistory + 1 consecutive picks from one category no index is drawn twice |
| Picker.SliceFromEnd | server.js:32 | JavaScript's slice(-k): the last k entries, order kept, except that k = 0 keeps the whole array |
| Picker.Pick | server.js:18-40 | the pick specification: -1 exactly when the category is missing or has no words, otherwise an index inside the category's word list |
| Picker.PickRun | server.js:18-40 | consecutive picks from one category, each on the histories the previous one left, return one index per pick |
| Picker.PickRunIsDrawRun | server.js:18-40 | consecutive picks from a category with words are the draws `DrawRun` makes from its stored history |
| Picker.NoRepeatAcrossPicks | server.js:17-41 | among any minHistory + 1 consecutive picks from one category, as successive startRound calls make them, no index is returned twice |
| Picker.PickAsWritten | server.js:18-35 | the recursion as written, with a bound on nested calls, returns only indices inside the word list |
| Picker.PickAsWrittenRetriesOnce | server.js:30-33 | with two words or more the recursion as written returns within one retry, with the index `DrawIndex` draws |
| Picker.SingleWordPickNeverReturns | server.js:21-33 | in a one-word category whose history holds index 0, the recursion as written never returns |
| Picker.SingleWordSecondPickDiverges | server.js:21-37 | the second pick in any one-word category reaches that state |
| Rooms.FindIndex | server.js:141 | findIndex (also at line 119, and find at line 61): the first position whose player matches, or -1 when none does |
| Rooms.OrDefault | server.js:49-50 | `x || d`: the given string unless it is empty, and then the default, so never empty when the default is not |
| Rooms.Names | server.js:54 | players.map(p => p.name): one name per player, in player order |
| Rooms.ShownNames | server.js:124 | one name per player, in order, unmarked exactly when the player is connected |
| Rooms.ShownNamesMarkOffline | server.js:124 | the list disconnect shows equals the plain name list exactly when every player is connected |
| Rooms.NewRoom | server.js:47-51 | the room createRoom stores has one player, and that player holds the host token |
| Rooms.Rejoin | server.js:61-73 | a join adds no player when the presented token is found and one otherwise; afterwards the token it answers with is held by a player; host, category and histories are unchanged |
| Rooms.MarkedOffline | server.js:122 | disconnect keeps the player count, the player is then offline, and the host is unchanged |
| Rooms.Left | server.js:141-145 | leaving removes one player when the token is found and none otherwise; the host is unchanged |
| Rooms.WithCategory | server.js:108-110 | after setCategory the room's category is the requested one, and its history for it is the existing one or empty |
| Rooms.RoundDeliveries | server.js:91-100 | a round sends at most one message per player, each to a socket and each a roundData message |
| Rooms.NewRoomOutcome | server.js:47-51 | a new room holds one player, connected and the host, holding the token the reply carries and named as requested or "Anon"; its category is the requested one or, when none is given, "Ogólna", unvalidated; it has no history and is a valid room |
| Rooms.RejoinOutcome | server.js:61-73 | a known session is reconnected in place: new socket, name replaced only by a non-empty one, same player count, others untouched. Otherwise exactly one connected player is appended under the presented or fresh token, named as requested or "Anon", and earlier players are unchanged. Host, category and histories never change |
| Rooms.RejoinKeepsRoomValid | server.js:61-73 | a join keeps tokens unique and non-empty when the fresh token is new to the room |
| Rooms.SecondJoinReconnects | server.js:61-73 | joining again with the token a join answered with is a reconnect and adds no player |
| Rooms.JoinedRoomNotAllOffline | server.js:61-73 | after a join the room has a connected player, so a pending cleanup keeps it |
| Rooms.MarkedOfflineOutcome | server.js:119-122 | disconnecting a player clears only that player's socket and removes nobody; names, sessions, host, category and histories are kept, and so is validity |
| Rooms.ReconnectAfterDisconnect | server.js:61-64 | a player who went offline and presents their token again is back online in the same slot, with the room's size unchanged |
| Rooms.LeftOutcome | server.js:141-145 | leaving removes only the player holding the token and keeps the others in order. Host, category and histories are unchanged, and an unknown token changes nothing. In a valid room the token is gone afterwards |
| Rooms.WithCategoryOutcome | server.js:108-110 | switching category keeps that category's existing history, creates an empty one only if absent, leaves players, host and other histories alone, and keeps validity for a category of the bank |
| Rooms.WordAt | server.js:84 | words[category][idx] is a word exactly when idx is inside the list (-1 gives undefined) |
| Rooms.RoundDeliveriesShape | server.js:91-100 | a round sends one message per connected player; each message is the impostor's (no word) or the crew's, and every crew message carries the same word |
| Rooms.OnlinePlayerReceives | server.js:91-100 | every connected player receives the message for their role on their own socket |
| Rooms.DeliverySender | server.js:91-100 | every message of a round is the delivery of a connected player, so offline players receive nothing |
| Rooms.ExactlyOneImpostor | server.js:88-100 | with unique tokens, exactly one player is told they are the impostor when the chosen player is connected, and none otherwise |
| Rooms.NoImpostorWithoutSession | server.js:94-95 | players not holding the impostor's token are never told they are the impostor |
| Rooms.DeliverRound | server.js:91-100 | the forEach loop emits exactly the round's deliveries, in player order |
| Server.FirstRoomWith | server.js:117-133 | the room disconnect acts on has a player on that socket, and no earlier room in the enumeration has one; none is chosen only when no room has one |
| Server.Registry.constructor | server.js:10-11 | the registry starts with no rooms and the bank's categories listed once each |
| Server.Registry.CreateRoom | server.js:46-55 | stores the new room under the code and replaces any room there; answers with the code and token; emits roomCreated to the caller and the one-name list to the room |
| Server.Registry.JoinRoom | server.js:58-77 | an unknown code gets "Room not found" and nothing changes. Otherwise the room becomes its joined form; the answer carries the reconnected flag and the token; a reconnect also emits "reconnected", and the room always gets the name list |
| Server.Registry.StartRound | server.js:79-102 | unknown code gets "room not found". A category missing from the bank throws with nothing changed. Otherwise the history advances even when "no players" is then answered; with players, the player at the drawn position is the impostor and the emits are the round's deliveries |
| Server.Registry.SetCategory | server.js:104-113 | "room not found" or "category not found" change nothing; otherwise the room switches category as `WithCategory` says and the room is told |
| Server.Registry.Disconnect | server.js:115-136 | only the first room, in enumeration order, with a player on the socket changes: its first such player goes offline, the room gets the names with " (offline)" marks, and its code is returned for the cleanup check; with no match nothing changes |
| Server.Registry.CleanupCheck | server.js:126-132 | the room is deleted exactly when it still exists and none of its players is connected, an empty room included; nothing else changes |
| Server.Registry.LeaveRoom | server.js:138-147 | an unknown code is refused and nothing changes; otherwise the room becomes `Left`, the answer is ok, and the room is told only if someone left |
| Server.Registry.ListCategories | server.js:149-151 | the category names of the bank, each once, in the bank's key order |

## Left out

- Transport: Express, the HTTP server, socket.io, `socket.join` and the static UI under `public/`. Room broadcasts are `ToRoom(code, message)` values; who is subscribed to a room is not modelled.
- A missing callback (`cb && cb(...)`): every handler returns its acknowledgement whether or not one was passed.
- `makeRoomCode` and `uuidv4`: the code and the fresh token are parameters. `JoinRoom` requires the fresh token to be new to the room, as a UUID is.
- `Math.random` and floating point: a draw is an exact real in [0, 1), and `Math.floor(r * n)` is `RandIndex`. Rounding of the float product is not modelled.
- Loading `words.json`: the word bank is a constant map of the registry. `Object.keys(words)` is a constant sequence of its categories.
- The five-minute `setTimeout`: the deferred check is the method `CleanupCheck`, which the environment calls with the code that `Disconnect` returned. The delay itself and the interleaving of other events are not modelled.
- `io.sockets.sockets.get(p.socketId)`: a player whose socketId is set and non-empty counts as connected.
- `console.log` output.
- JavaScript object-key quirks: inherited keys such as `words["constructor"]`, and request fields that are not strings. Every field is a string, and `""` stands for every falsy value.
- What Node does with an exception thrown out of a handler: `StartRound` reports it as `Ack.Threw` with the state unchanged.
- Picker.PickWordIndex: one-word categories use the corrected reset from "## Findings". The stack overflow that the source's unbounded recursion ends in is modelled only through `Picker.PickAsWritten`.

## Findings

| source | as written | input that shows it | evidently intended | confidence | as-written member | corrected member |
|---|---|---|---|---|---|---|
| server.js:21-33 | With one word, minHistory is 0, and `used.slice(-0)` returns the whole history. The retry therefore recurses on the same state and never returns. | A one-word category: its first startRound stores index 0, and the second one recurses until the call stack overflows. | The reset keeps the newest minHistory entries, so none here. The retry then draws index 0 again. | not executed | Picker.SingleWordPickNeverReturns | Picker.RetainedHistory |
