# Room registry of the typing-race socket server

This is a Dafny model of the room logic in `server.js`, the socket.io server behind a multiplayer
typing-speed game. The server keeps one in-memory table, `rooms`, which maps a room code to an
ordered list of players. Each player has a socket id, a display name and a words-per-minute value.
Rooms hold at most `MAX_PLAYERS = 5` players. The server reacts to five socket events:
`createRoom`, `joinRoom`, `updateWpm`, `startGame` and `disconnect`.

The model has four modules:

- `Wrappers` defines `Option`.
- `Players` (`players.dfy`) defines the roster. It models the two array queries the handlers run:
  `find` (as `FindFirst`, `IndexOfName` and `IndexOfId`) and `filter` (as `Without`). It also models
  the reconnect-or-append upsert that `joinRoom` performs (`Upsert`).
- `Registry` (`registry.dfy`) defines the room table and the capacity. It also defines the outgoing
  events. Each event is either sent to the requesting socket (`socket.emit`) or broadcast to a room
  (`io.to(code).emit`). This module also holds room-code generation and `createRoom`.
- `Session` (`session.dfy`) models each remaining handler as a pure transition. A handler takes a
  table and returns the new table plus the events it emitted, in order. `disconnect` is modelled
  twice: as the table it produces (`Disconnected`) and as the `for..in` loop that deletes rooms
  while it iterates (`Disconnect`). A trace of events (`Run`) keeps the invariant that every roster
  is within capacity and name-unique.

The server has no host identity, no waiting/playing status, no start timestamp, no identity
token separate from the socket id, no explicit leave and no duplicate-name error. The model follows
the code, so it has none of them either:

- Reconnect is matched by display name, not by identity.
- `startGame` only broadcasts.
- `updateWpm` is silently ignored when the room or player is missing. No error is reported.

## Model

| member | source | states |
|---|---|---|
| `Players.FindFirst` | server.js:47 | `find`: returns the index of a matching player that comes before every other match, or `None` exactly when no player matches |
| `Players.IndexOfName` | server.js:47 | returns the first player whose name equals the joining name; `None` exactly when the name is not on the roster |
| `Players.IndexOfId` | server.js:62 | returns the first player whose id equals the reported id; `None` exactly when no player has that id |
| `Players.Without` | server.js:78-80 | keeps exactly the players whose id differs from the disconnecting socket, so none with that id remains; the result is the input when nobody had that id, and empty exactly when everybody did |
| `Players.WithoutAppend` | server.js:78-80 | filtering a concatenation equals concatenating the filtered parts, so the other players keep their relative order |
| `Players.WithoutKeepsNamesUnique` | server.js:78-80 | removing a socket's players never creates a duplicate name |
| `Players.Upsert` | server.js:46-52 | with a new name, the roster becomes the old roster plus `{id, name, wpm: 0}` at the end; with a known name, only the first player with that name gets the new id and everything else stays the same |
| `Players.UpsertKeepsNamesUnique` | server.js:46-52 | the upsert keeps names unique, keeps every earlier player's name and wpm, and leaves the joining name bound to the joining socket |
| `Players.UpsertFindsJoiner` | server.js:47-49 | after the upsert, looking up the name by `find` gives the player on the joining socket |
| `Registry.Substr` | server.js:18 | `substr(start, length)` returns exactly `length` characters when the string is long enough, the rest of the string when it ends inside the window, and nothing past the end; character `i` is the input string's character at `start + i`; positions are counted as in a base-36 rendering, one character per position |
| `Registry.UpperChar` | server.js:18 | `toUpperCase` on one character: `a`-`z` go to the matching `A`-`Z`, every other character is kept, and no lower-case ASCII letter comes out |
| `Registry.Upper` | server.js:18 | `toUpperCase` on a string: same length, and each character is raised as `UpperChar` raises it |
| `Registry.UpperIdempotent` | server.js:18 | raising an already raised string changes nothing |
| `Registry.CodeFromDraw` | server.js:18 | a room code is characters 2 to 7 of the draw, raised to upper case: 6 characters for a draw of 8 or more, `|draw| - 2` for a shorter one, none for a draw of 2 or fewer; base-36 digits give only upper-case letters and digits |
| `Registry.CodeOfFraction` | server.js:18 | for a draw rendered `"0."` followed by digits, the code is the first six digits (all of them if fewer) in upper case, and it is its own upper-case form |
| `Registry.GenerateRoomCode` | server.js:15-21 | the returned code is not a live room and comes from the first draw whose code was free; `None` exactly when every draw's code collides |
| `Registry.CreateRoom` | server.js:27-31 | the requester alone receives a code that was not live before; that code now maps to an empty roster and every other room is unchanged; nothing happens when every draw collides |
| `Registry.CreateRoomKeepsWellFormed` | server.js:27-31 | creating a room preserves the capacity and name-uniqueness invariant |
| `Session.Join` | server.js:34-56 | an unknown room gets `error` and a room with 5 or more players gets `roomFull`; in both cases only the requester is told and the table is unchanged; otherwise the room's roster stays within 5, contains the name on the joining socket, and is broadcast to the room; no room is created or deleted and no other room changes |
| `Session.JoinReconnectChangesOnlyId` | server.js:47-49 | when the name is already present, join keeps the roster's length, order, names and wpm values, and changes only the id of the first player with that name |
| `Session.JoinNewNameAppends` | server.js:50-51 | when the name is new, join appends `{id, name, 0}` behind the unchanged earlier players |
| `Session.JoinFullRefusesKnownName` | server.js:40-49 | the capacity check comes before the reconnect check, so a full room refuses even a name it already contains, and nothing changes |
| `Session.JoinKeepsWellFormed` | server.js:41-52 | join preserves the capacity and name-uniqueness invariant |
| `Session.JoinIdempotent` | server.js:34-56 | repeating a join leaves the table as a single join does |
| `Session.UpdateWpm` | server.js:59-68 | with an unknown room or an unknown id there is no change and no event; otherwise only the wpm of the first player with that id changes and the roster is broadcast to the room; no other room changes |
| `Session.UpdateWpmKeepsWellFormed` | server.js:59-68 | updateWpm preserves the capacity and name-uniqueness invariant |
| `Session.UpdateWpmIdempotent` | server.js:59-68 | repeating the same wpm report changes nothing further |
| `Session.StartGame` | server.js:71-73 | the table is unchanged and `gameStarted` is broadcast to the named room, whether or not that room is live |
| `Session.Notice` | server.js:82 | what one room is sent during a disconnect: a `playerList` addressed to that room, holding exactly the players of that room on other sockets, in roster order (the filtered roster, pinned down by `Players.WithoutAppend`), and empty exactly when every player was on the disconnecting socket |
| `Session.Disconnected` | server.js:76-88 | no live room is empty afterwards; a room survives exactly when it had a player on another socket; each surviving roster is the old roster filtered; no player with the socket's id remains anywhere |
| `Session.Disconnect` | server.js:76-88 | the `for..in` loop, which deletes entries while iterating, produces exactly `Disconnected`; every room that was live is sent its filtered list exactly once, including rooms the socket was not in |
| `Session.Notices` | server.js:77-82 | the events a disconnect sends, in visiting order: exactly one per visited room, and event `i` is room `i`'s `Notice` |
| `Session.DisconnectedKeepsWellFormed` | server.js:76-88 | disconnect preserves the capacity and name-uniqueness invariant |
| `Session.DisconnectedIdempotent` | server.js:76-88 | a second disconnect of the same socket changes nothing |
| `Session.JoinThenDisconnect` | server.js:34-56 | start from a table with no empty room, and join a name new to that room on a socket that no room contains; disconnecting that socket restores the original table, whether the join was accepted or refused as unknown or full |
| `Session.StrangerLeavingChangesNothing` | server.js:76-88 | disconnecting a socket that no room contains, from a table with no empty room, changes no roster and deletes no room |
| `Session.LeavingUndoesAppend` | server.js:76-88 | if a player was appended on a socket that no other player in any room uses, disconnecting that socket gives back the table from before the append, provided that table had no empty room |
| `Session.CreatedRoomLostOnUnrelatedDisconnect` | server.js:27-31 | a newly created room has no players until someone joins it; if any socket disconnects before then, the room is deleted and its creator's join fails with the unknown-room error |
| `Session.Apply` | server.js:23-89 | dispatches one event to its handler: only `createRoom` adds a room and the room it adds is empty, only `disconnect` removes rooms, and `startGame` changes nothing |
| `Session.ApplyKeepsWellFormed` | server.js:23-89 | each handler keeps every roster within capacity and name-unique |
| `Session.Run` | server.js:23-89 | handles events one at a time in arrival order; a trace with no `disconnect` removes no room, and a trace with no `createRoom` adds none |
| `Session.RunKeepsWellFormed` | server.js:23-89 | starting from a well-formed table (the empty table is one), any sequence of handled events keeps every roster within capacity and name-unique |

`Registry.WellFormed` (server.js:11-12) is the invariant these lemmas keep: every roster has at most
`MAX_PLAYERS` players and no repeated name.

### A consequence of the disconnect handler

The `disconnect` handler deletes every empty room. That includes rooms the disconnecting socket
was never in. A room that `createRoom` just made is empty until its creator joins it, so any
unrelated disconnect in that window removes it. `Session.CreatedRoomLostOnUnrelatedDisconnect`
proves this consequence. The handler's own comment ("delete the room if nobody is in it") matches
what the code does, so the model keeps the behaviour as written instead of reporting it as a defect.

## Left out

- Express, `http` and socket.io setup, CORS and `server.listen` (server.js:1-9, 92-94) are
  transport plumbing. Broadcasts appear only as `Outgoing` values with a `Requester` or `Room` target.
- `socket.join(roomId)` (server.js:54) changes transport-level room membership, not the table.
  It is not modelled.
- `console.log` lines are not modelled.
- `Math.random()` and `Number.prototype.toString(36)` are replaced by a caller-supplied list of
  draws, one rendered random number per retry.
- Registry.GenerateRoomCode: the JavaScript loop retries without bound, and the model stops when
  the list of draws runs out. `None` means the loop has not finished within those draws, and
  `Registry.CreateRoom` then leaves the table unchanged.
- Registry.Substr: lengths and positions are counted in Unicode scalar values, where JavaScript
  counts UTF-16 code units. The two agree on strings without characters outside the Basic
  Multilingual Plane, which covers every base-36 draw.
- Registry.UpperChar: only ASCII `a`-`z` are raised. `toUpperCase` also maps other letters, but a
  base-36 rendering contains none.
- wpm is an `int`. The server stores whatever value the client sends, including non-integers.
- A room code that names an `Object.prototype` property (such as `constructor`) passes the
  `!rooms[roomId]` test in JavaScript, and the handler then fails on `.players`. The model treats
  `rooms` as a map with only its own keys. Generated codes are upper-case, so they never collide
  with such names.
- Session.Disconnect: the order in which `for..in` visits the rooms is left open. JavaScript
  visits integer-like keys first in numeric order, then the other keys in insertion order. The
  method returns the order it used, and the contract holds for every order.
- Payload shapes that are missing or have the wrong type (for example an absent `playerName`) are
  not modelled. All handler arguments are strings or integers.
- The `dgramServer.js` UDP echo server is only socket I/O and logging. It is not part of this model.
