/** The process-wide room table of server.js, what the handlers send back,
    and how a fresh room code is drawn and a room created. */
module Registry {
  import opened Wrappers
  import opened Players

  /** Capacity of one room. */
  const MaxPlayers: nat := 5

  /** `rooms`: room code to that room's roster. */
  type Rooms = map<string, Roster>

  /** Every roster within capacity and free of duplicate names: what every
      handler keeps true. */
  predicate WellFormed(rooms: Rooms)
  {
    forall code :: code in rooms ==> |rooms[code]| <= MaxPlayers && NamesUnique(rooms[code])
  }

  /** No live room has an empty roster. */
  predicate NoEmptyRoom(rooms: Rooms)
  {
    forall code :: code in rooms ==> rooms[code] != []
  }

  /** Who receives an outgoing event: the requesting socket alone
      (`socket.emit`) or every socket joined to a room (`io.to(code).emit`). */
  datatype Target = Requester | Room(code: string)

  /** The events the handlers emit, with their payloads. */
  datatype Message =
    | RoomCreated(code: string)
    | Error(text: string)
    | RoomFull(text: string)
    | PlayerList(players: Roster)
    | GameStarted

  datatype Outgoing = Outgoing(target: Target, msg: Message)

  /** The outcome of one handler: the new table and what it sent, in order. */
  datatype Step = Step(rooms: Rooms, out: seq<Outgoing>)

  /** Text of the `error` event for an unknown room ("this room does not exist"). */
  const RoomMissingText: string := "ห้องนี้ไม่มีอยู่"

  /** Text of the `roomFull` event ("this room is full"). */
  const RoomFullText: string := "ห้องนี้เต็มแล้ว"

  /** `String.prototype.substr(start, length)` for a non-negative start and
      length: at most `length` characters from `start`, fewer (possibly
      none) when the string ends first. Positions count Dafny characters
      (Unicode scalar values), so this agrees with JavaScript's UTF-16 code
      units on strings without astral characters, such as base-36 draws. */
  function Substr(s: string, start: nat, length: nat): (res: string)
    ensures |res| <= length
    ensures start + length <= |s| ==> |res| == length
    ensures |s| <= start ==> res == []
    ensures |res| == if |s| <= start then 0 else if start + length <= |s| then length else |s| - start
    ensures forall i :: 0 <= i < |res| ==> start + i < |s| && res[i] == s[start + i]
  {
    var from := if start <= |s| then start else |s|;
    var to := if from + length <= |s| then from + length else |s|;
    s[from..to]
  }

  /** `toUpperCase` on one character of a base-36 rendering: ASCII letters
      are raised, everything else is left alone. */
  function UpperChar(c: char): (res: char)
    ensures 'a' <= c <= 'z' ==> 'A' <= res <= 'Z' && res as int - c as int == 'A' as int - 'a' as int
    ensures !('a' <= c <= 'z') ==> res == c
    ensures !('a' <= res <= 'z')
  {
    if 'a' <= c <= 'z' then (c as int - 'a' as int + 'A' as int) as char else c
  }

  /** `toUpperCase` on a base-36 rendering, character by character. */
  function Upper(s: string): (res: string)
    ensures |res| == |s|
    ensures forall i :: 0 <= i < |s| ==> res[i] == UpperChar(s[i])
  {
    seq(|s|, i requires 0 <= i < |s| => UpperChar(s[i]))
  }

  /** Raising an already raised string changes nothing: a room code is its
      own upper-case form. */
  lemma UpperIdempotent(s: string)
    ensures Upper(Upper(s)) == Upper(s)
  {
    var once := Upper(s);
    forall i | 0 <= i < |s| ensures Upper(once)[i] == once[i] {
      assert !('a' <= once[i] <= 'z');
    }
  }

  /** A character `Number.prototype.toString(36)` uses for a digit. */
  predicate IsBase36Digit(c: char)
  {
    '0' <= c <= '9' || 'a' <= c <= 'z'
  }

  /** A character of a room code as clients see it. */
  predicate IsCodeChar(c: char)
  {
    '0' <= c <= '9' || 'A' <= c <= 'Z'
  }

  /** The room code one draw yields: `draw.substr(2, 6).toUpperCase()`,
      where `draw` is the string `Math.random().toString(36)` returned. */
  function CodeFromDraw(draw: string): (code: string)
    ensures |code| <= 6
    ensures |draw| >= 8 ==> |code| == 6
    ensures |code| == if |draw| <= 2 then 0 else if |draw| >= 8 then 6 else |draw| - 2
    ensures forall i :: 0 <= i < |code| ==> code[i] == UpperChar(draw[2 + i])
    ensures (forall i :: 2 <= i < |draw| ==> IsBase36Digit(draw[i])) ==>
              forall i :: 0 <= i < |code| ==> IsCodeChar(code[i])
  {
    Upper(Substr(draw, 2, 6))
  }

  /** A draw is rendered `"0."` followed by base-36 digits; its code is the
      first six of those digits (or all of them, if fewer) raised to upper
      case, and is its own upper-case form. */
  lemma CodeOfFraction(digits: string)
    ensures var code := CodeFromDraw("0." + digits);
            var kept := if |digits| <= 6 then digits else digits[..6];
            code == Upper(kept) && Upper(code) == code
  {
    var draw := "0." + digits;
    var kept := if |digits| <= 6 then digits else digits[..6];
    var code := CodeFromDraw(draw);
    assert |code| == |kept|;
    forall i | 0 <= i < |code| ensures code[i] == Upper(kept)[i] {
      assert draw[2 + i] == digits[i];
    }
    UpperIdempotent(kept);
  }

  /** `generateRoomCode`: the code of the first draw whose code is not a
      live room. The JavaScript loop retries forever; here the draws are a
      finite list and `None` means every one of them collided. */
  function GenerateRoomCode(rooms: Rooms, draws: seq<string>): (res: Option<string>)
    ensures res.Some? ==> res.value !in rooms
    ensures res.Some? ==>
              exists n :: && 0 <= n < |draws| && res.value == CodeFromDraw(draws[n])
                          && forall j :: 0 <= j < n ==> CodeFromDraw(draws[j]) in rooms
    ensures res.None? <==> forall j :: 0 <= j < |draws| ==> CodeFromDraw(draws[j]) in rooms
  {
    if |draws| == 0 then None
    else if CodeFromDraw(draws[0]) !in rooms then
      Some(CodeFromDraw(draws[0]))
    else
      var res := GenerateRoomCode(rooms, draws[1..]);
      assert forall j :: 1 <= j < |draws| ==> draws[j] == draws[1..][j - 1];
      if res.Some? then
        var n :| && 0 <= n < |draws[1..]| && res.value == CodeFromDraw(draws[1..][n])
                 && forall j :: 0 <= j < n ==> CodeFromDraw(draws[1..][j]) in rooms;
        assert res.value == CodeFromDraw(draws[n + 1]);
        res
      else
        res
  }

  /** The `createRoom` handler: a fresh code is bound to an empty roster and
      sent to the requester; every other room is untouched. With the draws
      exhausted nothing has happened yet. */
  function CreateRoom(rooms: Rooms, draws: seq<string>): (s: Step)
    ensures |s.out| <= 1
    ensures s.out == [] <==> forall j :: 0 <= j < |draws| ==> CodeFromDraw(draws[j]) in rooms
    ensures s.out == [] ==> s.rooms == rooms
    ensures s.out != [] ==>
              && s.out[0].target == Requester && s.out[0].msg.RoomCreated?
              && s.out[0].msg.code !in rooms
              && s.rooms.Keys == rooms.Keys + {s.out[0].msg.code}
              && s.rooms[s.out[0].msg.code] == []
              && forall code :: code in rooms ==> s.rooms[code] == rooms[code]
  {
    match GenerateRoomCode(rooms, draws)
    case None => Step(rooms, [])
    case Some(code) => Step(rooms[code := []], [Outgoing(Requester, RoomCreated(code))])
  }

  /** Creating a room keeps every roster within capacity and name-unique. */
  lemma CreateRoomKeepsWellFormed(rooms: Rooms, draws: seq<string>)
    requires WellFormed(rooms)
    ensures WellFormed(CreateRoom(rooms, draws).rooms)
  {
  }
}
