/** A room's roster: the ordered `players` array each room holds, and the
    two array queries the handlers run over it (`find` and `filter`). */
module Players {
  import opened Wrappers

  /** One entry of a roster: the socket id of the connection that last
      joined under this name, the display name, and the last reported
      words-per-minute (opaque to the server, so any integer). */
  datatype Player = Player(id: string, name: string, wpm: int)

  /** Players in join order; a fresh join is appended at the end. */
  type Roster = seq<Player>

  /** Index of the first player `matches` accepts, scanning in roster order
      as `Array.prototype.find` does; `None` when no player matches. */
  function FindFirst(r: Roster, matches: Player -> bool): (res: Option<nat>)
    ensures res.Some? ==> res.value < |r| && matches(r[res.value])
    ensures res.Some? ==> forall j :: 0 <= j < res.value ==> !matches(r[j])
    ensures res.None? <==> forall j :: 0 <= j < |r| ==> !matches(r[j])
  {
    if |r| == 0 then None
    else if matches(r[0]) then Some(0)
    else
      match FindFirst(r[1..], matches)
      case None => None
      case Some(i) => Some(i + 1)
  }

  /** The player `joinRoom` treats as reconnecting: the first one whose
      name is `name`. */
  function IndexOfName(r: Roster, name: string): (res: Option<nat>)
    ensures res.Some? ==> res.value < |r| && r[res.value].name == name
    ensures res.Some? ==> forall j :: 0 <= j < res.value ==> r[j].name != name
    ensures res.None? <==> forall j :: 0 <= j < |r| ==> r[j].name != name
  {
    FindFirst(r, (p: Player) => p.name == name)
  }

  /** The player `updateWpm` changes: the first one whose socket id is `id`. */
  function IndexOfId(r: Roster, id: string): (res: Option<nat>)
    ensures res.Some? ==> res.value < |r| && r[res.value].id == id
    ensures res.Some? ==> forall j :: 0 <= j < res.value ==> r[j].id != id
    ensures res.None? <==> forall j :: 0 <= j < |r| ==> r[j].id != id
  {
    FindFirst(r, (p: Player) => p.id == id)
  }

  /** The roster with every player on connection `id` removed, the others
      kept in their order: `players.filter(p => p.id !== id)`. */
  function Without(r: Roster, id: string): (res: Roster)
    ensures |res| <= |r|
    ensures forall p :: p in res <==> p in r && p.id != id
    ensures forall j :: 0 <= j < |res| ==> res[j].id != id
    ensures (forall j :: 0 <= j < |r| ==> r[j].id != id) ==> res == r
    ensures res == [] <==> forall j :: 0 <= j < |r| ==> r[j].id == id
  {
    if |r| == 0 then []
    else if r[0].id != id then [r[0]] + Without(r[1..], id)
    else Without(r[1..], id)
  }

  /** Filtering commutes with concatenation: together with its effect on a
      one-player roster this pins `Without` down as the order-preserving
      filter. */
  lemma {:induction false} WithoutAppend(a: Roster, b: Roster, id: string)
    ensures Without(a + b, id) == Without(a, id) + Without(b, id)
  {
    if |a| == 0 {
      assert a + b == b;
    } else {
      assert (a + b)[0] == a[0];
      assert (a + b)[1..] == a[1..] + b;
      WithoutAppend(a[1..], b, id);
    }
  }

  /** No two players of the roster share a name. */
  predicate NamesUnique(r: Roster)
  {
    forall i, j :: 0 <= i < j < |r| ==> r[i].name != r[j].name
  }

  /** Removing a connection's players never introduces a duplicate name. */
  lemma {:induction false} WithoutKeepsNamesUnique(r: Roster, id: string)
    requires NamesUnique(r)
    ensures NamesUnique(Without(r, id))
  {
    if |r| > 0 {
      var tail := r[1..];
      assert NamesUnique(tail) by {
        forall i, j | 0 <= i < j < |tail| ensures tail[i].name != tail[j].name {
          assert tail[i] == r[i + 1] && tail[j] == r[j + 1];
        }
      }
      WithoutKeepsNamesUnique(tail, id);
      if r[0].id != id {
        NameNotInTail(r);
        PrependKeepsNamesUnique(r[0], Without(tail, id));
      }
    }
  }

  /** The first player's name occurs nowhere else in a name-unique roster. */
  lemma NameNotInTail(r: Roster)
    requires |r| > 0 && NamesUnique(r)
    ensures forall p :: p in r[1..] ==> p.name != r[0].name
  {
    forall p | p in r[1..] ensures p.name != r[0].name {
      var k :| 0 <= k < |r[1..]| && r[1..][k] == p;
      assert r[k + 1] == p;
    }
  }

  /** A player whose name the (name-unique) rest does not use can go in front. */
  lemma PrependKeepsNamesUnique(q: Player, rest: Roster)
    requires NamesUnique(rest)
    requires forall p :: p in rest ==> p.name != q.name
    ensures NamesUnique([q] + rest)
  {
    var res := [q] + rest;
    forall i, j | 0 <= i < j < |res| ensures res[i].name != res[j].name {
      assert res[j] == rest[j - 1];
      if i > 0 {
        assert res[i] == rest[i - 1];
      } else {
        assert rest[j - 1] in rest;
      }
    }
  }

  /** The roster `joinRoom` leaves behind once it has passed its checks:
      the first player already named `name` takes over connection `id`
      (a reconnect), and otherwise a new player `{id, name, wpm: 0}` is
      appended. */
  function Upsert(r: Roster, name: string, id: string): (res: Roster)
    ensures (forall j :: 0 <= j < |r| ==> r[j].name != name) ==>
              res == r + [Player(id, name, 0)]
    ensures (exists j :: 0 <= j < |r| && r[j].name == name) ==>
              exists i :: && 0 <= i < |r| && r[i].name == name
                          && (forall j :: 0 <= j < i ==> r[j].name != name)
                          && res == r[i := r[i].(id := id)]
  {
    match IndexOfName(r, name)
    case None => r + [Player(id, name, 0)]
    case Some(i) => r[i := r[i].(id := id)]
  }

  /** After a join the name is on the roster exactly once and bound to the
      joining connection; every other player keeps name, wpm and position. */
  lemma UpsertKeepsNamesUnique(r: Roster, name: string, id: string)
    requires NamesUnique(r)
    ensures NamesUnique(Upsert(r, name, id))
    ensures forall j :: 0 <= j < |r| ==> Upsert(r, name, id)[j].name == r[j].name
    ensures forall j :: 0 <= j < |r| ==> Upsert(r, name, id)[j].wpm == r[j].wpm
    ensures exists i :: 0 <= i < |Upsert(r, name, id)| && Upsert(r, name, id)[i].name == name
                       && Upsert(r, name, id)[i].id == id
  {
    var res := Upsert(r, name, id);
    match IndexOfName(r, name)
    case None =>
      assert res[|r|].name == name;
    case Some(i) =>
      assert res[i].name == name;
  }

  /** In a roster a join produced, the player `find` returns for the
      joining name is the one on the joining connection. */
  lemma UpsertFindsJoiner(r: Roster, name: string, id: string)
    ensures var res := Upsert(r, name, id);
            IndexOfName(res, name).Some? && res[IndexOfName(res, name).value].id == id
  {
    var res := Upsert(r, name, id);
    match IndexOfName(r, name)
    case None =>
      assert res[|r|].name == name;
      assert forall j :: 0 <= j < |r| ==> res[j].name != name;
    case Some(m) =>
      assert res[m].name == name;
      assert forall j :: 0 <= j < |r| ==> res[j].name == r[j].name;
  }
}
