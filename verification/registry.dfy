/**
 * The state of the lobby server as values: player records, rooms, the
 * connection registry, and the transitions that the event handlers apply to
 * them, with the invariants those transitions keep. Module Server runs the
 * handlers over this state.
 */
module Registry {
  import opened RoomData

  /** A player record. It is shared between its room's player list and the
      connection registry, and its ready flag is flipped in place. */
  class Player {
    const id: string
    const name: string
    var ready: bool

    constructor (id: string, name: string)
      ensures this.id == id && this.name == name && !ready
    {
      this.id := id;
      this.name := name;
      ready := false;
    }

    /** The record `{id, name, ready}` as events carry it. */
    function Rec(): PlayerRec
      reads this
    {
      PlayerRec(id, name, ready)
    }
  }

  /** A room. Only the room dictionary refers to a room, so the handlers'
      in-place updates of its fields are modelled by storing the updated
      value back under its id. */
  datatype Room = Room(
    id: string,
    name: string,
    maxPlayers: int,
    password: Option<string>,
    gameMode: string,
    players: seq<Player>,
    status: Status,
    gameState: Option<GameState>)
  {
    function Rec(): RoomRec
    {
      RoomRec(id, name, gameMode, |players|, maxPlayers, password, status)
    }

    /** The `room_info` summary: it reports the number of players in the room. */
    function Info(): (i: RoomInfo)
      ensures i.currentPlayers == |players| && i.maxPlayers == maxPlayers
      ensures i.id == id && i.name == name && i.gameMode == gameMode && i.status == status
    {
      InfoOf(Rec())
    }
  }

  /** A new room: waiting, with no players and no game state. */
  function NewRoom(id: string, name: string, maxPlayers: int, password: Option<string>, gameMode: string): Room
  {
    Room(id, name, maxPlayers, password, gameMode, [], Waiting, None)
  }

  /** A connection's registry entry: its room id and its player record. */
  datatype Binding = Binding(roomId: string, player: Player)

  /** The records of a player list, as events carry them. */
  function Snapshot(ps: seq<Player>): (r: seq<PlayerRec>)
    reads ps
    ensures |r| == |ps|
    ensures forall i | 0 <= i < |ps| :: r[i] == ps[i].Rec()
  {
    if ps == [] then [] else [ps[0].Rec()] + Snapshot(ps[1..])
  }

  /** The player list without the records of connection `sid`. */
  function Without(ps: seq<Player>, sid: string): (r: seq<Player>)
    ensures |r| <= |ps|
    ensures forall p | p in r :: p in ps && p.id != sid
    ensures forall p | p in ps && p.id != sid :: p in r
  {
    if ps == [] then []
    else (if ps[0].id == sid then [] else [ps[0]]) + Without(ps[1..], sid)
  }

  /** Removing records distributes over concatenation, so the players that
      remain keep their order. */
  lemma {:induction false} WithoutAppend(ps: seq<Player>, qs: seq<Player>, sid: string)
    ensures Without(ps + qs, sid) == Without(ps, sid) + Without(qs, sid)
  {
    if ps == [] {
      assert ps + qs == qs;
    } else {
      assert (ps + qs)[1..] == ps[1..] + qs;
      WithoutAppend(ps[1..], qs, sid);
    }
  }

  /** A list that holds no record of `sid` is left as it is. */
  lemma {:induction false} WithoutAbsent(ps: seq<Player>, sid: string)
    requires forall i | 0 <= i < |ps| :: ps[i].id != sid
    ensures Without(ps, sid) == ps
  {
    if ps != [] {
      WithoutAbsent(ps[1..], sid);
    }
  }

  /** Leaving undoes joining: a connection with no record in a room that
      joins it and then leaves it restores the room's player list. */
  lemma JoinThenLeave(ps: seq<Player>, p: Player, sid: string)
    requires p.id == sid
    requires forall i | 0 <= i < |ps| :: ps[i].id != sid
    ensures Without(ps + [p], sid) == ps
  {
    WithoutAppend(ps, [p], sid);
    WithoutAbsent(ps, sid);
    assert Without([p], sid) == [] by {
      assert [p][1..] == [];
    }
  }

  /** Every player of the list is ready. */
  predicate AllReady(ps: seq<Player>)
    reads ps
  {
    forall i | 0 <= i < |ps| :: ps[i].ready
  }

  /** The condition that starts the game: at least two players, all ready. */
  predicate ReadyToStart(ps: seq<Player>)
    reads ps
  {
    AllReady(ps) && |ps| >= 2
  }

  /** The sequence without the occurrences of `x`. */
  function Erase(s: seq<string>, x: string): (r: seq<string>)
    ensures forall y | y in r :: y in s && y != x
    ensures forall y | y in s && y != x :: y in r
    ensures Distinct(s) ==> Distinct(r)
  {
    if s == [] then []
    else
      var rest := Erase(s[1..], x);
      assert Distinct(s) ==> Distinct(s[1..]) && s[0] !in rest by {
        if Distinct(s) {
          forall i, j | 0 <= i < j < |s[1..]| ensures s[1..][i] != s[1..][j] {
            assert s[1..][i] == s[i + 1] && s[1..][j] == s[j + 1];
          }
          assert s[0] !in s[1..];
        }
      }
      (if s[0] == x then [] else [s[0]]) + rest
  }

  /** Erasing distributes over concatenation, so the ids that remain keep their order. */
  lemma {:induction false} EraseAppend(s: seq<string>, t: seq<string>, x: string)
    ensures Erase(s + t, x) == Erase(s, x) + Erase(t, x)
  {
    if s == [] {
      assert s + t == t;
    } else {
      assert (s + t)[1..] == s[1..] + t;
      EraseAppend(s[1..], t, x);
    }
  }

  predicate Distinct(s: seq<string>)
  {
    forall i, j | 0 <= i < j < |s| :: s[i] != s[j]
  }

  /** A room holds no more players than its maximum, or none at all (a room
      created with a maximum below one can never be joined). */
  predicate WithinCapacity(r: Room)
  {
    r.players == [] || |r.players| <= r.maxPlayers
  }

  /** A room is waiting without a game state or playing with one; nothing
      makes it ended. */
  predicate StatusAgrees(r: Room)
  {
    r.status != Ended && (r.status == Waiting <==> r.gameState.None?)
  }

  /** A room once its game has started: playing, with a game state at turn 0
      whose current player is the room's first player and whose board
      follows the room's game mode; its players are unchanged. */
  function Started(r: Room): (s: Room)
    requires |r.players| >= 1
    ensures s.players == r.players && s.id == r.id && s.maxPlayers == r.maxPlayers
    ensures s.status == Playing && StatusAgrees(s)
    ensures s.gameState.Some? && s.gameState.value.turn == 0
    ensures s.gameState.value.currentPlayer == r.players[0].id
    ensures s.gameState.value.board == InitBoard(r.gameMode)
    ensures s == r.(status := Playing, gameState := s.gameState)
  {
    r.(status := Playing, gameState := Some(GameState(0, r.players[0].id, InitBoard(r.gameMode))))
  }

  /** The server's two dictionaries (rooms by id, connections by id) and the
      order in which the rooms were created, which is the rooms dictionary's
      iteration order. */
  datatype Store = Store(rooms: map<string, Room>, order: seq<string>, bindings: map<string, Binding>)

  /** Each room is stored under its own id, and `order` lists each stored id once. */
  ghost predicate WellFormed(st: Store)
  {
    && (forall id | id in st.rooms :: st.rooms[id].id == id)
    && (forall i | 0 <= i < |st.order| :: st.order[i] in st.rooms)
    && (forall id | id in st.rooms :: id in st.order)
    && Distinct(st.order)
  }

  /** Connection `sid` is bound to its own record, and that record is in the
      player list of the room it is bound to. */
  ghost predicate Holds(st: Store, sid: string)
    requires sid in st.bindings
  {
    var b := st.bindings[sid];
    b.player.id == sid && b.roomId in st.rooms && b.player in st.rooms[b.roomId].players
  }

  /** The invariants of the server: the registry agrees with the rooms, and
      every room is within its capacity and its status agrees with its game state. */
  ghost predicate Coherent(st: Store)
  {
    && WellFormed(st)
    && (forall sid | sid in st.bindings :: Holds(st, sid))
    && (forall id | id in st.rooms :: WithinCapacity(st.rooms[id]) && StatusAgrees(st.rooms[id]))
  }

  /** Connection `sid` is bound and its room still exists. */
  predicate Seated(st: Store, sid: string)
  {
    sid in st.bindings && st.bindings[sid].roomId in st.rooms
  }

  /** Creation: the new room is stored last in the dictionary. */
  function Open(st: Store, room: Room): Store
    requires room.id !in st.rooms
  {
    st.(rooms := st.rooms[room.id := room], order := st.order + [room.id])
  }

  /** An admitted join: `p` goes at the end of room `roomId`'s list and its
      connection is bound to it, replacing any earlier binding. */
  function Admit(st: Store, roomId: string, p: Player): Store
    requires roomId in st.rooms
  {
    var room := st.rooms[roomId];
    st.(rooms := st.rooms[roomId := room.(players := room.players + [p])],
        bindings := st.bindings[p.id := Binding(roomId, p)])
  }

  /** The room of connection `sid` once every record of `sid` has left it. */
  function Remaining(st: Store, sid: string): Room
    requires Seated(st, sid)
  {
    var room := st.rooms[st.bindings[sid].roomId];
    room.(players := Without(room.players, sid))
  }

  /** A leave: the records of `sid` leave its room, `sid` is unbound, and the
      room is deleted if no player remains. */
  function Depart(st: Store, sid: string): Store
    requires Seated(st, sid)
  {
    var rid := st.bindings[sid].roomId;
    var left := Remaining(st, sid);
    if left.players == [] then Store(st.rooms - {rid}, Erase(st.order, rid), st.bindings - {sid})
    else Store(st.rooms[rid := left], st.order, st.bindings - {sid})
  }

  /** A game start in room `rid`. */
  function Begin(st: Store, rid: string): Store
    requires rid in st.rooms && |st.rooms[rid].players| >= 1
  {
    st.(rooms := st.rooms[rid := Started(st.rooms[rid])])
  }

  lemma OpenKeepsInvariants(st: Store, room: Room)
    requires room.id !in st.rooms
    ensures WellFormed(st) ==> WellFormed(Open(st, room))
    ensures Coherent(st) && room.players == [] && StatusAgrees(room) ==> Coherent(Open(st, room))
  {
    var st' := Open(st, room);
    if WellFormed(st) {
      assert forall i | 0 <= i < |st.order| :: st'.order[i] == st.order[i];
      assert st'.order[|st.order|] == room.id;
    }
    if Coherent(st) && room.players == [] && StatusAgrees(room) {
      forall sid | sid in st'.bindings ensures Holds(st', sid) {
        assert Holds(st, sid);
      }
    }
  }

  lemma AdmitKeepsInvariants(st: Store, roomId: string, p: Player)
    requires roomId in st.rooms
    ensures WellFormed(st) ==> WellFormed(Admit(st, roomId, p))
    ensures Coherent(st) && |st.rooms[roomId].players| < st.rooms[roomId].maxPlayers ==>
      Coherent(Admit(st, roomId, p))
  {
    var st' := Admit(st, roomId, p);
    if Coherent(st) && |st.rooms[roomId].players| < st.rooms[roomId].maxPlayers {
      forall sid | sid in st'.bindings ensures Holds(st', sid) {
        if sid != p.id {
          assert Holds(st, sid);
          var b := st.bindings[sid];
          if b.roomId == roomId {
            assert st'.rooms[roomId].players == st.rooms[roomId].players + [p];
          }
        }
      }
    }
  }

  lemma DepartKeepsWellFormed(st: Store, sid: string)
    requires Seated(st, sid)
    ensures WellFormed(st) ==> WellFormed(Depart(st, sid))
  {
    var st' := Depart(st, sid);
    if WellFormed(st) && Remaining(st, sid).players == [] {
      assert forall i | 0 <= i < |st'.order| :: st'.order[i] in st'.order;
    }
  }

  /** After a leave, every connection still bound holds its own record in a stored room. */
  lemma DepartKeepsBindings(st: Store, sid: string)
    requires Seated(st, sid) && Coherent(st)
    ensures forall s | s in Depart(st, sid).bindings :: Holds(Depart(st, sid), s)
  {
    var st' := Depart(st, sid);
    var rid := st.bindings[sid].roomId;
    var left := Remaining(st, sid);
    forall s | s in st'.bindings ensures Holds(st', s) {
      assert Holds(st, s);
      if st.bindings[s].roomId == rid {
        assert st.bindings[s].player in left.players;
      }
    }
  }

  lemma DepartKeepsInvariants(st: Store, sid: string)
    requires Seated(st, sid)
    ensures WellFormed(st) ==> WellFormed(Depart(st, sid))
    ensures Coherent(st) ==> Coherent(Depart(st, sid))
  {
    DepartKeepsWellFormed(st, sid);
    if Coherent(st) {
      DepartKeepsBindings(st, sid);
      var st' := Depart(st, sid);
      var rid := st.bindings[sid].roomId;
      forall id | id in st'.rooms ensures WithinCapacity(st'.rooms[id]) && StatusAgrees(st'.rooms[id]) {
        if id == rid {
          assert st'.rooms[id] == Remaining(st, sid);
        }
      }
    }
  }

  lemma BeginKeepsInvariants(st: Store, rid: string)
    requires rid in st.rooms && |st.rooms[rid].players| >= 1
    ensures WellFormed(st) ==> WellFormed(Begin(st, rid))
    ensures Coherent(st) ==> Coherent(Begin(st, rid))
  {
    var st' := Begin(st, rid);
    if Coherent(st) {
      forall s | s in st'.bindings ensures Holds(st', s) {
        assert Holds(st, s);
      }
    }
  }

  /** An admitted join appends exactly `p` to its room's list, keeping the
      earlier players in their order, binds `p`'s connection to that room
      and `p`, and changes no other room, binding or the room order. */
  lemma AdmitAppendsOne(st: Store, roomId: string, p: Player)
    requires roomId in st.rooms
    ensures var st' := Admit(st, roomId, p);
      && st'.rooms.Keys == st.rooms.Keys && st'.order == st.order
      && st'.rooms[roomId].players == st.rooms[roomId].players + [p]
      && |st'.rooms[roomId].players| == |st.rooms[roomId].players| + 1
      && (forall i | 0 <= i < |st.rooms[roomId].players| ::
            st'.rooms[roomId].players[i] == st.rooms[roomId].players[i])
      && st'.rooms[roomId].players[|st.rooms[roomId].players|] == p
      && (forall id | id in st.rooms && id != roomId :: st'.rooms[id] == st.rooms[id])
      && st'.bindings[p.id] == Binding(roomId, p)
      && (forall s | s in st.bindings && s != p.id :: s in st'.bindings && st'.bindings[s] == st.bindings[s])
  {
  }

  /** A connection that joins a second room while bound to a first is
      rebound to the second, and its record stays in the first room's list:
      the first binding is overwritten, not left. */
  lemma JoinAgainLeavesOldRecord(st: Store, roomId: string, p: Player)
    requires Coherent(st) && roomId in st.rooms
    requires p.id in st.bindings && st.bindings[p.id].roomId != roomId
    ensures var first := st.bindings[p.id];
      var st' := Admit(st, roomId, p);
      && st'.bindings[p.id].roomId == roomId
      && first.roomId in st'.rooms && first.player in st'.rooms[first.roomId].players
  {
    assert Holds(st, p.id);
  }

  /** A leave deletes the room exactly when no player remains in it, and
      otherwise keeps it, with the remaining players in their order. */
  lemma DepartDeletesOnlyEmptied(st: Store, sid: string)
    requires Seated(st, sid)
    ensures var rid := st.bindings[sid].roomId;
      && (rid in Depart(st, sid).rooms <==> Without(st.rooms[rid].players, sid) != [])
      && (rid in Depart(st, sid).rooms ==> Depart(st, sid).rooms[rid].players == Without(st.rooms[rid].players, sid))
      && sid !in Depart(st, sid).bindings
      && (forall s | s in st.bindings && s != sid :: s in Depart(st, sid).bindings)
      && (forall id | id in st.rooms && id != rid :: id in Depart(st, sid).rooms && Depart(st, sid).rooms[id] == st.rooms[id])
  {
  }

  /** Leaving undoes joining: a connection that is not bound and has no
      record in a room that still has players, joining it and then leaving
      it, gives back the state it started from. */
  lemma DepartUndoesAdmit(st: Store, roomId: string, p: Player)
    requires roomId in st.rooms && p.id !in st.bindings
    requires forall i | 0 <= i < |st.rooms[roomId].players| :: st.rooms[roomId].players[i].id != p.id
    requires st.rooms[roomId].players != []
    ensures Seated(Admit(st, roomId, p), p.id)
    ensures Depart(Admit(st, roomId, p), p.id) == st
  {
    var room := st.rooms[roomId];
    JoinThenLeave(room.players, p, p.id);
    var st' := Admit(st, roomId, p);
    assert Remaining(st', p.id) == room;
    assert st'.bindings - {p.id} == st.bindings;
    assert st'.rooms[roomId := room] == st.rooms;
  }

  /** The summaries of the rooms `ids`, in that order. */
  function Summaries(rooms: map<string, Room>, ids: seq<string>): (rs: seq<RoomRec>)
    requires forall i | 0 <= i < |ids| :: ids[i] in rooms
    ensures |rs| == |ids|
    ensures forall i | 0 <= i < |ids| :: rs[i] == rooms[ids[i]].Rec()
  {
    if ids == [] then [] else [rooms[ids[0]].Rec()] + Summaries(rooms, ids[1..])
  }
}
