/** The per-connection handlers of server.js as transitions of the room
    table: each takes the table and the request, and returns the new table
    with the events it emitted. `sid` is the requesting socket's id. */
module Session {
  import opened Wrappers
  import opened Players
  import opened Registry

  /** The `joinRoom` handler. An unknown room and a full room are refused
      to the requester alone, in that order, before the roster is even
      searched; otherwise the name is reconnected or appended and the room
      is sent its new roster. */
  function Join(rooms: Rooms, sid: string, roomId: string, playerName: string): (s: Step)
    ensures s.rooms.Keys == rooms.Keys
    ensures forall code :: code in rooms && code != roomId ==> s.rooms[code] == rooms[code]
    ensures |s.out| == 1
    ensures roomId !in rooms ==> s.rooms == rooms && s.out[0] == Outgoing(Requester, Error(RoomMissingText))
    ensures roomId in rooms && |rooms[roomId]| >= MaxPlayers ==>
              s.rooms == rooms && s.out[0] == Outgoing(Requester, RoomFull(RoomFullText))
    ensures roomId in rooms && |rooms[roomId]| < MaxPlayers ==>
              && |s.rooms[roomId]| <= MaxPlayers
              && (exists i :: && 0 <= i < |s.rooms[roomId]| && s.rooms[roomId][i].name == playerName
                              && s.rooms[roomId][i].id == sid)
              && s.out[0] == Outgoing(Room(roomId), PlayerList(s.rooms[roomId]))
  {
    if roomId !in rooms then
      Step(rooms, [Outgoing(Requester, Error(RoomMissingText))])
    else if |rooms[roomId]| >= MaxPlayers then
      Step(rooms, [Outgoing(Requester, RoomFull(RoomFullText))])
    else
      var r := Upsert(rooms[roomId], playerName, sid);
      assert exists i :: 0 <= i < |r| && r[i].name == playerName && r[i].id == sid by {
        if i :| 0 <= i < |rooms[roomId]| && rooms[roomId][i].name == playerName {
          var k :| && 0 <= k < |rooms[roomId]| && rooms[roomId][k].name == playerName
                   && r == rooms[roomId][k := rooms[roomId][k].(id := sid)];
          assert r[k].name == playerName && r[k].id == sid;
        } else {
          assert r[|rooms[roomId]|] == Player(sid, playerName, 0);
        }
      }
      Step(rooms[roomId := r], [Outgoing(Room(roomId), PlayerList(r))])
  }

  /** A name already on the roster of a room below capacity only moves that
      player to the new connection: length, order, names and wpm values
      are as before. */
  lemma JoinReconnectChangesOnlyId(rooms: Rooms, sid: string, roomId: string, playerName: string)
    requires roomId in rooms && |rooms[roomId]| < MaxPlayers
    requires exists j :: 0 <= j < |rooms[roomId]| && rooms[roomId][j].name == playerName
    ensures var before := rooms[roomId];
            var after := Join(rooms, sid, roomId, playerName).rooms[roomId];
            && |after| == |before|
            && (forall j :: 0 <= j < |after| ==>
                  after[j].name == before[j].name && after[j].wpm == before[j].wpm)
            && exists i :: && 0 <= i < |before| && before[i].name == playerName
                           && (forall j :: 0 <= j < i ==> before[j].name != playerName)
                           && after[i].id == sid
                           && forall j :: 0 <= j < |after| && j != i ==> after[j] == before[j]
  {
  }

  /** A new name is appended with wpm 0 behind the unchanged earlier players. */
  lemma JoinNewNameAppends(rooms: Rooms, sid: string, roomId: string, playerName: string)
    requires roomId in rooms && |rooms[roomId]| < MaxPlayers
    requires forall j :: 0 <= j < |rooms[roomId]| ==> rooms[roomId][j].name != playerName
    ensures Join(rooms, sid, roomId, playerName).rooms[roomId] == rooms[roomId] + [Player(sid, playerName, 0)]
  {
  }

  /** The capacity check comes first: even a name already on a full roster
      is refused, and nothing changes. */
  lemma JoinFullRefusesKnownName(rooms: Rooms, sid: string, roomId: string, playerName: string)
    requires roomId in rooms && |rooms[roomId]| >= MaxPlayers
    requires exists j :: 0 <= j < |rooms[roomId]| && rooms[roomId][j].name == playerName
    ensures Join(rooms, sid, roomId, playerName) == Step(rooms, [Outgoing(Requester, RoomFull(RoomFullText))])
  {
  }

  /** Joining keeps every roster within capacity and its names distinct. */
  lemma JoinKeepsWellFormed(rooms: Rooms, sid: string, roomId: string, playerName: string)
    requires WellFormed(rooms)
    ensures WellFormed(Join(rooms, sid, roomId, playerName).rooms)
  {
    if roomId in rooms && |rooms[roomId]| < MaxPlayers {
      UpsertKeepsNamesUnique(rooms[roomId], playerName, sid);
    }
  }

  /** Sending the same join twice leaves the table as one join does (the
      second one reconnects the name to the same socket, or is refused
      because the first filled the room). */
  lemma JoinIdempotent(rooms: Rooms, sid: string, roomId: string, playerName: string)
    ensures var once := Join(rooms, sid, roomId, playerName).rooms;
            Join(once, sid, roomId, playerName).rooms == once
  {
    var once := Join(rooms, sid, roomId, playerName).rooms;
    if roomId in rooms && |rooms[roomId]| < MaxPlayers {
      var r := once[roomId];
      UpsertFindsJoiner(rooms[roomId], playerName, sid);
      var k := IndexOfName(r, playerName).value;
      assert Upsert(r, playerName, sid) == r[k := r[k].(id := sid)] == r;
    }
  }

  /** The `updateWpm` handler: the first player of the room on connection
      `playerId` gets the new wpm and the room is sent the roster; an
      unknown room or connection is ignored without any event. */
  function UpdateWpm(rooms: Rooms, roomId: string, playerId: string, wpm: int): (s: Step)
    ensures s.rooms.Keys == rooms.Keys
    ensures forall code :: code in rooms && code != roomId ==> s.rooms[code] == rooms[code]
    ensures (roomId !in rooms || forall j :: 0 <= j < |rooms[roomId]| ==> rooms[roomId][j].id != playerId) ==>
              s == Step(rooms, [])
    ensures (roomId in rooms && exists j :: 0 <= j < |rooms[roomId]| && rooms[roomId][j].id == playerId) ==>
              && (exists i :: && 0 <= i < |rooms[roomId]| && rooms[roomId][i].id == playerId
                              && (forall j :: 0 <= j < i ==> rooms[roomId][j].id != playerId)
                              && s.rooms[roomId] == rooms[roomId][i := rooms[roomId][i].(wpm := wpm)])
              && s.out == [Outgoing(Room(roomId), PlayerList(s.rooms[roomId]))]
  {
    if roomId !in rooms then Step(rooms, [])
    else
      match IndexOfId(rooms[roomId], playerId)
      case None => Step(rooms, [])
      case Some(i) =>
        var r := rooms[roomId][i := rooms[roomId][i].(wpm := wpm)];
        Step(rooms[roomId := r], [Outgoing(Room(roomId), PlayerList(r))])
  }

  /** Changing a wpm keeps every roster within capacity and name-unique. */
  lemma UpdateWpmKeepsWellFormed(rooms: Rooms, roomId: string, playerId: string, wpm: int)
    requires WellFormed(rooms)
    ensures WellFormed(UpdateWpm(rooms, roomId, playerId, wpm).rooms)
  {
    var s := UpdateWpm(rooms, roomId, playerId, wpm);
    if s.rooms != rooms {
      var r := rooms[roomId];
      var i :| && 0 <= i < |r| && r[i].id == playerId
               && (forall j :: 0 <= j < i ==> r[j].id != playerId)
               && s.rooms[roomId] == r[i := r[i].(wpm := wpm)];
      var r' := s.rooms[roomId];
      assert forall j :: 0 <= j < |r'| ==> r'[j].name == r[j].name;
    }
  }

  /** Repeating a wpm report changes nothing further. */
  lemma UpdateWpmIdempotent(rooms: Rooms, roomId: string, playerId: string, wpm: int)
    ensures var once := UpdateWpm(rooms, roomId, playerId, wpm).rooms;
            UpdateWpm(once, roomId, playerId, wpm).rooms == once
  {
    if roomId in rooms && IndexOfId(rooms[roomId], playerId).Some? {
      var r := rooms[roomId];
      var i := IndexOfId(r, playerId).value;
      var r' := r[i := r[i].(wpm := wpm)];
      assert forall j :: 0 <= j < |r| ==> r'[j].id == r[j].id;
      assert IndexOfId(r', playerId) == Some(i);
      assert r'[i := r'[i].(wpm := wpm)] == r';
    }
  }

  /** The `startGame` handler: the room (live or not) is told the game has
      started and the table is not touched. */
  function StartGame(rooms: Rooms, roomId: string): (s: Step)
    ensures s.rooms == rooms
    ensures s.out == [Outgoing(Room(roomId), GameStarted)]
  {
    Step(rooms, [Outgoing(Room(roomId), GameStarted)])
  }

  /** The table the `disconnect` handler leaves: socket `sid` is filtered
      out of every roster and every roster left empty is deleted, whether
      or not `sid` was in it. */
  function Disconnected(rooms: Rooms, sid: string): (res: Rooms)
    ensures NoEmptyRoom(res)
    ensures forall code :: code in res <==>
              code in rooms && exists j :: 0 <= j < |rooms[code]| && rooms[code][j].id != sid
    ensures forall code :: code in res ==> res[code] == Without(rooms[code], sid)
    ensures forall code, p :: code in res && p in res[code] ==> p.id != sid
  {
    map code | code in rooms && Without(rooms[code], sid) != [] :: Without(rooms[code], sid)
  }

  /** What `disconnect` sends room `code`: its roster without socket `sid`. */
  function Notice(rooms: Rooms, sid: string, code: string): (o: Outgoing)
    requires code in rooms
    ensures o.target == Room(code) && o.msg.PlayerList?
    ensures o.msg.players == [] <==> forall j :: 0 <= j < |rooms[code]| ==> rooms[code][j].id == sid
    ensures forall j :: 0 <= j < |o.msg.players| ==> o.msg.players[j].id != sid && o.msg.players[j] in rooms[code]
    ensures forall p :: p in o.msg.players <==> p in rooms[code] && p.id != sid
    ensures o.msg.players == Without(rooms[code], sid)
  {
    Outgoing(Room(code), PlayerList(Without(rooms[code], sid)))
  }

  /** What `disconnect` sends, room by room, when it visits the rooms in `order`. */
  function Notices(rooms: Rooms, sid: string, order: seq<string>): (out: seq<Outgoing>)
    requires forall i :: 0 <= i < |order| ==> order[i] in rooms
    ensures |out| == |order|
    ensures forall i :: 0 <= i < |order| ==> out[i] == Notice(rooms, sid, order[i])
  {
    seq(|order|, i requires 0 <= i < |order| => Notice(rooms, sid, order[i]))
  }

  /** The `disconnect` handler as written: a `for..in` over the room codes
      that filters each roster, sends it to the room, and deletes the room
      when it is left empty. JavaScript's key order is left open: `order`
      is the order the rooms were visited in, each live room exactly once,
      and `out[i]` is what room `order[i]` was sent. */
  method Disconnect(rooms: Rooms, sid: string) returns (after: Rooms, out: seq<Outgoing>, order: seq<string>)
    ensures after == Disconnected(rooms, sid)
    ensures forall code :: code in order <==> code in rooms
    ensures forall i, j :: 0 <= i < j < |order| ==> order[i] != order[j]
    ensures |out| == |order|
    ensures forall i :: 0 <= i < |order| ==> order[i] in rooms && out[i] == Notice(rooms, sid, order[i])
  {
    ghost var target := Disconnected(rooms, sid);
    var todo := rooms.Keys;
    after := rooms;
    out := [];
    order := [];
    SameRooms(rooms, Merge(rooms, target, todo));
    while todo != {}
      invariant Progress(rooms, sid, target, todo, after, out, order)
      decreases todo
    {
      var code :| code in todo;
      DisconnectStep(rooms, sid, target, todo, after, out, order, code);
      var players := Without(after[code], sid);
      after := after[code := players];
      out := out + [Outgoing(Room(code), PlayerList(players))];
      order := order + [code];
      if |players| == 0 {
        after := after - {code};
      }
      todo := todo - {code};
    }
    SameRooms(after, target);
  }

  /** What the `disconnect` loop knows between iterations: rooms in `todo`
      are unvisited; every visited room is in `order` exactly once and has
      been sent its notice; the table agrees with `target` on visited rooms. */
  ghost predicate Progress(rooms: Rooms, sid: string, target: Rooms, todo: set<string>,
                           after: Rooms, out: seq<Outgoing>, order: seq<string>)
  {
    && target == Disconnected(rooms, sid)
    && todo <= rooms.Keys
    && after == Merge(rooms, target, todo)
    && (forall code :: code in order <==> code in rooms && code !in todo)
    && (forall i, j :: 0 <= i < j < |order| ==> order[i] != order[j])
    && (forall i :: 0 <= i < |order| ==> order[i] in rooms)
    && out == Notices(rooms, sid, order)
  }

  /** One iteration of the `disconnect` loop keeps `Progress`. */
  lemma DisconnectStep(rooms: Rooms, sid: string, target: Rooms, todo: set<string>,
                       after: Rooms, out: seq<Outgoing>, order: seq<string>, code: string)
    requires Progress(rooms, sid, target, todo, after, out, order)
    requires code in todo
    ensures var players := Without(after[code], sid);
            var after' := if |players| == 0 then after[code := players] - {code} else after[code := players];
            Progress(rooms, sid, target, todo - {code}, after',
                     out + [Outgoing(Room(code), PlayerList(players))], order + [code])
  {
    MergeStep(rooms, target, todo, code);
    NoticesAppend(rooms, sid, order, code);
    var players := Without(after[code], sid);
    if |players| == 0 {
      assert code !in target;
      assert after[code := players] - {code} == after - {code};
    } else {
      assert code in target && target[code] == players;
    }
  }

  /** Visiting one more room sends one more notice. */
  lemma NoticesAppend(rooms: Rooms, sid: string, order: seq<string>, code: string)
    requires forall i :: 0 <= i < |order| ==> order[i] in rooms
    requires code in rooms
    ensures Notices(rooms, sid, order + [code]) == Notices(rooms, sid, order) + [Notice(rooms, sid, code)]
  {
  }

  /** The table part-way through the `disconnect` loop, heading for
      `target`: rooms still in `todo` are as they were in `rooms`, the
      others are as in `target`. */
  ghost function Merge(rooms: Rooms, target: Rooms, todo: set<string>): Rooms
  {
    map code | code in rooms.Keys + target.Keys && (if code in todo then code in rooms else code in target) ::
      if code in todo then rooms[code] else target[code]
  }

  /** One iteration of the `disconnect` loop moves one room from its value
      in `rooms` to its value in `target`, or out of the table when
      `target` lacks it. */
  lemma MergeStep(rooms: Rooms, target: Rooms, todo: set<string>, code: string)
    requires todo <= rooms.Keys && code in todo
    ensures var before := Merge(rooms, target, todo);
            && code in before && before[code] == rooms[code]
            && (code in target ==> before[code := target[code]] == Merge(rooms, target, todo - {code}))
            && (code !in target ==> before - {code} == Merge(rooms, target, todo - {code}))
  {
    var before := Merge(rooms, target, todo);
    var next := Merge(rooms, target, todo - {code});
    if code in target {
      SameRooms(before[code := target[code]], next);
    } else {
      SameRooms(before - {code}, next);
    }
  }

  /** Disconnecting keeps every roster within capacity and name-unique. */
  lemma DisconnectedKeepsWellFormed(rooms: Rooms, sid: string)
    requires WellFormed(rooms)
    ensures WellFormed(Disconnected(rooms, sid))
  {
    var res := Disconnected(rooms, sid);
    forall code | code in res ensures |res[code]| <= MaxPlayers && NamesUnique(res[code]) {
      WithoutKeepsNamesUnique(rooms[code], sid);
    }
  }

  /** A second disconnect of the same socket changes nothing. */
  lemma DisconnectedIdempotent(rooms: Rooms, sid: string)
    ensures Disconnected(Disconnected(rooms, sid), sid) == Disconnected(rooms, sid)
  {
    var once := Disconnected(rooms, sid);
    var twice := Disconnected(once, sid);
    forall code | code in once ensures code in twice && twice[code] == once[code] {
      DisconnectedRoomIsStable(rooms, sid, code);
    }
    SameRooms(twice, once);
  }

  /** A room that survived a disconnect survives a repeat of it unchanged. */
  lemma DisconnectedRoomIsStable(rooms: Rooms, sid: string, code: string)
    requires code in Disconnected(rooms, sid)
    ensures code in Disconnected(Disconnected(rooms, sid), sid)
    ensures Disconnected(Disconnected(rooms, sid), sid)[code] == Disconnected(rooms, sid)[code]
  {
    var once := Disconnected(rooms, sid);
    assert Without(once[code], sid) == once[code];
  }

  /** Two tables with the same codes and the same rosters are equal. */
  lemma SameRooms(a: Rooms, b: Rooms)
    requires a.Keys == b.Keys
    requires forall code :: code in a ==> a[code] == b[code]
    ensures a == b
  {
  }

  /** Disconnect undoes a fresh join: a new name joined on a connection no
      room knows, into a table without empty rooms, is removed again and
      the table is as before. A join that was refused (unknown or full
      room) left the table alone, and the disconnect leaves it alone too. */
  lemma {:induction false} JoinThenDisconnect(rooms: Rooms, sid: string, roomId: string, playerName: string)
    requires NoEmptyRoom(rooms)
    requires forall code, p :: code in rooms && p in rooms[code] ==> p.id != sid
    requires roomId in rooms ==> forall j :: 0 <= j < |rooms[roomId]| ==> rooms[roomId][j].name != playerName
    ensures Disconnected(Join(rooms, sid, roomId, playerName).rooms, sid) == rooms
  {
    if roomId in rooms && |rooms[roomId]| < MaxPlayers {
      var joined := Join(rooms, sid, roomId, playerName).rooms;
      JoinNewNameAppends(rooms, sid, roomId, playerName);
      var newcomer := Player(sid, playerName, 0);
      assert joined == rooms[roomId := rooms[roomId] + [newcomer]];
      LeavingUndoesAppend(rooms, sid, roomId, newcomer);
    } else {
      StrangerLeavingChangesNothing(rooms, sid);
    }
  }

  /** Disconnecting a socket that no room contains leaves a table without
      empty rooms as it is. */
  lemma {:induction false} StrangerLeavingChangesNothing(rooms: Rooms, sid: string)
    requires NoEmptyRoom(rooms)
    requires forall code, p :: code in rooms && p in rooms[code] ==> p.id != sid
    ensures Disconnected(rooms, sid) == rooms
  {
    var res := Disconnected(rooms, sid);
    forall code | code in rooms ensures code in res && res[code] == rooms[code] {
      var r := rooms[code];
      forall j | 0 <= j < |r| ensures r[j].id != sid {
        assert r[j] in r;
      }
      assert Without(r, sid) == r;
    }
    SameRooms(res, rooms);
  }

  /** Filtering out a socket that only the appended player `newcomer` uses
      gives back the table before the append. */
  lemma {:induction false} LeavingUndoesAppend(rooms: Rooms, sid: string, roomId: string, newcomer: Player)
    requires NoEmptyRoom(rooms)
    requires forall code, p :: code in rooms && p in rooms[code] ==> p.id != sid
    requires roomId in rooms && newcomer.id == sid
    ensures Disconnected(rooms[roomId := rooms[roomId] + [newcomer]], sid) == rooms
  {
    var joined := rooms[roomId := rooms[roomId] + [newcomer]];
    var res := Disconnected(joined, sid);
    forall code | code in rooms ensures code in res && res[code] == rooms[code] {
      LeavingUndoesAppendRoom(rooms, sid, roomId, newcomer, code);
    }
    assert res.Keys <= joined.Keys == rooms.Keys;
    SameRooms(res, rooms);
  }

  /** One room of `LeavingUndoesAppend`. */
  lemma {:induction false} LeavingUndoesAppendRoom(rooms: Rooms, sid: string, roomId: string, newcomer: Player, code: string)
    requires NoEmptyRoom(rooms)
    requires forall code, p :: code in rooms && p in rooms[code] ==> p.id != sid
    requires roomId in rooms && newcomer.id == sid
    requires code in rooms
    ensures var joined := rooms[roomId := rooms[roomId] + [newcomer]];
            Without(joined[code], sid) == rooms[code] && rooms[code] != []
  {
    var r := rooms[code];
    assert forall j :: 0 <= j < |r| ==> r[j].id != sid by {
      forall j | 0 <= j < |r| ensures r[j].id != sid {
        assert r[j] in r;
      }
    }
    if code == roomId {
      WithoutAppend(r, [newcomer], sid);
      assert Without([newcomer], sid) == [];
    }
  }

  /** A room just created and not yet joined is deleted by the disconnect of
      any socket at all, so its creator's `joinRoom` then fails with the
      unknown-room error. */
  lemma CreatedRoomLostOnUnrelatedDisconnect(rooms: Rooms, draws: seq<string>, creator: string, other: string, name: string)
    requires CreateRoom(rooms, draws).out != []
    ensures var code := CreateRoom(rooms, draws).out[0].msg.code;
            Join(Disconnected(CreateRoom(rooms, draws).rooms, other), creator, code, name).out
              == [Outgoing(Requester, Error(RoomMissingText))]
  {
    var code := CreateRoom(rooms, draws).out[0].msg.code;
    assert CreateRoom(rooms, draws).rooms[code] == [];
  }

  /** One inbound socket.io event, with the id of the socket it came on
      where the handler uses it. `CreateRoom` carries the random draws the
      code generator will consume. */
  datatype Event =
    | CreateRoomEvent(draws: seq<string>)
    | JoinRoomEvent(sid: string, roomId: string, playerName: string)
    | UpdateWpmEvent(roomId: string, playerId: string, wpm: int)
    | StartGameEvent(roomId: string)
    | DisconnectEvent(sid: string)

  /** The table after one event. Only `createRoom` adds a room, and the
      room it adds is empty; only `disconnect` removes rooms; `startGame`
      changes nothing. */
  function Apply(rooms: Rooms, e: Event): (r: Rooms)
    ensures forall code :: code in r && code !in rooms ==> e.CreateRoomEvent? && r[code] == []
    ensures !e.DisconnectEvent? ==> rooms.Keys <= r.Keys
    ensures e.StartGameEvent? ==> r == rooms
  {
    match e
    case CreateRoomEvent(draws) => CreateRoom(rooms, draws).rooms
    case JoinRoomEvent(sid, roomId, playerName) => Join(rooms, sid, roomId, playerName).rooms
    case UpdateWpmEvent(roomId, playerId, wpm) => UpdateWpm(rooms, roomId, playerId, wpm).rooms
    case StartGameEvent(roomId) => StartGame(rooms, roomId).rooms
    case DisconnectEvent(sid) => Disconnected(rooms, sid)
  }

  /** The table after the events, handled one at a time in arrival order.
      Without a `disconnect` no room goes away; without a `createRoom` no
      room appears. */
  function Run(rooms: Rooms, events: seq<Event>): (r: Rooms)
    ensures (forall i :: 0 <= i < |events| ==> !events[i].DisconnectEvent?) ==> rooms.Keys <= r.Keys
    ensures (forall i :: 0 <= i < |events| ==> !events[i].CreateRoomEvent?) ==> r.Keys <= rooms.Keys
    decreases |events|
  {
    if |events| == 0 then rooms
    else
      assert forall i :: 1 <= i < |events| ==> events[1..][i - 1] == events[i];
      Run(Apply(rooms, events[0]), events[1..])
  }

  /** Every handler keeps every roster within capacity and name-unique. */
  lemma ApplyKeepsWellFormed(rooms: Rooms, e: Event)
    requires WellFormed(rooms)
    ensures WellFormed(Apply(rooms, e))
  {
    match e {
      case CreateRoomEvent(draws) => CreateRoomKeepsWellFormed(rooms, draws);
      case JoinRoomEvent(sid, roomId, playerName) => JoinKeepsWellFormed(rooms, sid, roomId, playerName);
      case UpdateWpmEvent(roomId, playerId, wpm) => UpdateWpmKeepsWellFormed(rooms, roomId, playerId, wpm);
      case StartGameEvent(roomId) =>
      case DisconnectEvent(sid) => DisconnectedKeepsWellFormed(rooms, sid);
    }
  }

  /** From the empty table, every reachable table has every roster within
      capacity and free of duplicate names. */
  lemma {:induction false} RunKeepsWellFormed(rooms: Rooms, events: seq<Event>)
    requires WellFormed(rooms)
    ensures WellFormed(Run(rooms, events))
    decreases |events|
  {
    if |events| > 0 {
      ApplyKeepsWellFormed(rooms, events[0]);
      RunKeepsWellFormed(Apply(rooms, events[0]), events[1..]);
    }
  }
}
