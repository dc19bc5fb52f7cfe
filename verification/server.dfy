/**
 * The lobby server: the rooms dictionary, the connection registry and the
 * event handlers that change them. Every handler runs as one atomic step,
 * and an emitted event is appended to a log instead of being delivered.
 * Each handler's effect on the dictionaries is one transition of module
 * Registry, which also proves the invariants those transitions keep.
 */
module Server {
  import opened RoomData
  import opened Registry

  class Lobby {
    /** The rooms by id. */
    var rooms: map<string, Room>
    /** The room ids in the order the rooms were created (the dictionary's order). */
    var order: seq<string>
    /** The connection registry: connection id to room id and player record. */
    var bindings: map<string, Binding>
    /** Every event emitted so far. */
    var log: seq<Event>

    /** The dictionaries as a value. */
    function State(): Store
      reads this`rooms, this`order, this`bindings
    {
      Store(rooms, order, bindings)
    }

    ghost predicate Valid()
      reads this`rooms, this`order, this`bindings
    {
      WellFormed(State())
    }

    ghost predicate Consistent()
      reads this`rooms, this`order, this`bindings
    {
      Coherent(State())
    }

    /** The summary fields of the room stored under `id`, if any. */
    function RecAt(id: string): Option<RoomRec>
      reads this`rooms
    {
      if id in rooms then Some(rooms[id].Rec()) else None
    }

    /** The player record of connection `sid` if it is seated, as a frame. */
    function SeatPlayer(sid: string): set<Player>
      reads this`rooms, this`bindings
    {
      if sid in bindings && bindings[sid].roomId in rooms then {bindings[sid].player} else {}
    }

    /** An empty server. */
    constructor ()
      ensures Consistent()
      ensures rooms == map[] && order == [] && bindings == map[] && log == []
    {
      rooms := map[];
      order := [];
      bindings := map[];
      log := [];
    }

    /** The public listing: one entry for exactly the waiting rooms, each
        reporting the room's current number of players, in the order the
        rooms were created (so no room is listed twice). */
    function ListRooms(): (r: seq<Listing>)
      requires Valid()
      reads this`rooms, this`order, this`bindings
      ensures forall l | l in r ::
        l.id in rooms && rooms[l.id].status == Waiting && l == ListingOf(rooms[l.id].Rec())
      ensures forall id | id in rooms && rooms[id].status == Waiting :: ListingOf(rooms[id].Rec()) in r
      ensures forall l | l in r :: l.currentPlayers == |rooms[l.id].players|
      ensures InOrder(r, order)
    {
      var rs := Summaries(rooms, order);
      assert forall k | 0 <= k < |rs| :: rs[k].id == order[k];
      ListWaitingKeepsOrder(rs, order);
      assert forall x | x in rs :: x.id in rooms && x == rooms[x.id].Rec() by {
        forall x | x in rs ensures x.id in rooms && x == rooms[x.id].Rec() {
          var i :| 0 <= i < |rs| && rs[i] == x;
          assert x == rooms[order[i]].Rec();
        }
      }
      assert forall id | id in rooms :: rooms[id].Rec() in rs by {
        forall id | id in rooms ensures rooms[id].Rec() in rs {
          var i :| 0 <= i < |order| && order[i] == id;
          assert rs[i] == rooms[id].Rec();
        }
      }
      ListWaiting(rs)
    }

    /** Create a room under the fresh id `freshId`. A missing or empty name is
        refused and nothing is stored; otherwise a waiting room without
        players is stored last, with game mode "classic" unless one is given. */
    method CreateRoom(freshId: string, name: Option<string>, maxPlayers: int,
                      password: Option<string>, gameMode: Option<string>)
      returns (reply: Result<Created, string>)
      requires Valid()
      requires freshId !in rooms
      modifies this`rooms, this`order
      ensures Valid()
      ensures old(Consistent()) ==> Consistent()
      ensures reply.Err? <==> CheckName(name).Err?
      ensures reply.Err? ==> reply.error == EmptyNameMessage && State() == old(State())
      ensures reply.Ok? ==>
        && var mode := if gameMode.Some? then gameMode.value else "classic";
        && State() == Open(old(State()), NewRoom(freshId, name.value, maxPlayers, password, mode))
        && reply.value == Created(freshId, name.value, maxPlayers, password.Some?)
    {
      if name.None? || name.value == "" {
        return Err(EmptyNameMessage);
      }
      var mode := if gameMode.Some? then gameMode.value else "classic";
      var room := NewRoom(freshId, name.value, maxPlayers, password, mode);
      OpenKeepsInvariants(State(), room);
      rooms := rooms[freshId := room];
      order := order + [freshId];
      reply := Ok(Created(room.id, room.name, room.maxPlayers, room.password.Some?));
    }

    /** Connection `sid` asks to join room `roomId`. A join that the room
        refuses (unknown id, wrong password, full) emits one error to the
        caller and changes nothing else. An admitted join appends a new
        player record, not ready, at the end of the room's list, binds the
        connection to it, tells the room's channel and then the caller. */
    method JoinRoom(sid: string, roomId: string, playerName: Option<string>, password: Option<string>)
      requires Valid()
      modifies this`rooms, this`bindings, this`log
      ensures Valid()
      ensures old(Consistent()) ==> Consistent()
      ensures var v := JoinVerdict(old(RecAt(roomId)), password);
        v.Some? ==>
          && State() == old(State())
          && log == old(log) + [Event(Caller(sid), Error(ErrorMessage(v.value)))]
      ensures var v := JoinVerdict(old(RecAt(roomId)), password);
        v.None? ==>
          && sid in bindings
          && var p := bindings[sid].player;
          && fresh(p) && p.id == sid && p.name == NameOrDefault(playerName, sid) && !p.ready
          && State() == Admit(old(State()), roomId, p)
          && |rooms[roomId].players| <= rooms[roomId].maxPlayers
          && log == old(log) + [Event(Channel(roomId), PlayerJoined(p.Rec(), rooms[roomId].Info())),
                                Event(Caller(sid), RoomJoined(rooms[roomId].Info(), Snapshot(rooms[roomId].players)))]
    {
      ghost var verdict := JoinVerdict(RecAt(roomId), password);
      if roomId !in rooms {
        assert verdict == Some(RoomNotFound);
        log := log + [Event(Caller(sid), Error(ErrorMessage(RoomNotFound)))];
        return;
      }
      var room := rooms[roomId];
      assert RecAt(roomId) == Some(room.Rec());
      if PasswordEnforced(room.password) && room.password != password {
        assert verdict == Some(WrongPassword);
        log := log + [Event(Caller(sid), Error(ErrorMessage(WrongPassword)))];
        return;
      }
      if |room.players| >= room.maxPlayers {
        assert verdict == Some(RoomFull);
        log := log + [Event(Caller(sid), Error(ErrorMessage(RoomFull)))];
        return;
      }
      assert verdict == None;
      Seat(sid, roomId, NameOrDefault(playerName, sid));
    }

    /** The admitted half of a join: a new record of `sid`, not ready, goes
        at the end of room `roomId`'s list, the connection is bound to it,
        and the room's channel and then the caller are told. */
    method Seat(sid: string, roomId: string, name: string)
      requires Valid()
      requires roomId in rooms && |rooms[roomId].players| < rooms[roomId].maxPlayers
      modifies this`rooms, this`bindings, this`log
      ensures Valid()
      ensures old(Consistent()) ==> Consistent()
      ensures sid in bindings
      ensures var p := bindings[sid].player;
        && fresh(p) && p.id == sid && p.name == name && !p.ready
        && State() == Admit(old(State()), roomId, p)
        && |rooms[roomId].players| <= rooms[roomId].maxPlayers
        && log == old(log) + [Event(Channel(roomId), PlayerJoined(p.Rec(), rooms[roomId].Info())),
                              Event(Caller(sid), RoomJoined(rooms[roomId].Info(), Snapshot(rooms[roomId].players)))]
    {
      var player := new Player(sid, name);
      AdmitKeepsInvariants(State(), roomId, player);
      ghost var next := Admit(State(), roomId, player);
      var room := rooms[roomId];
      room := room.(players := room.players + [player]);
      rooms := rooms[roomId := room];
      bindings := bindings[sid := Binding(roomId, player)];
      assert State() == next;
      var joined := Event(Channel(roomId), PlayerJoined(player.Rec(), room.Info()));
      var welcome := Event(Caller(sid), RoomJoined(room.Info(), Snapshot(room.players)));
      log := log + [joined, welcome];
      // Not needed for soundness; these two facts keep the proof well within its budget.
      assert joined.payload.player == player.Rec();
      assert welcome.payload.players == Snapshot(room.players);
    }

    /** Connection `sid` leaves its room. An unbound connection, or one whose
        room is gone, changes nothing. Otherwise the state becomes `Depart`'s:
        every record of `sid` leaves the room, the connection is unbound, and
        the room is deleted if it is left empty; the room's channel is told
        with the summary of the room as it was left. */
    method LeaveRoom(sid: string)
      requires Valid()
      modifies this`rooms, this`order, this`bindings, this`log
      ensures Valid()
      ensures old(Consistent()) ==> Consistent()
      ensures !Seated(old(State()), sid) ==> State() == old(State()) && log == old(log)
      ensures Seated(old(State()), sid) ==>
        && State() == Depart(old(State()), sid)
        && log == old(log) + [Event(Channel(old(bindings[sid].roomId)), PlayerLeft(sid, Remaining(old(State()), sid).Info()))]
    {
      if sid !in bindings {
        return;
      }
      var rid := bindings[sid].roomId;
      if rid !in rooms {
        return;
      }
      DepartKeepsInvariants(State(), sid);
      ghost var next := Depart(State(), sid);
      var room := rooms[rid];
      room := room.(players := Without(room.players, sid));
      assert room == Remaining(State(), sid);
      if |room.players| == 0 {
        rooms := rooms - {rid};
        order := Erase(order, rid);
      } else {
        rooms := rooms[rid := room];
      }
      bindings := bindings - {sid};
      assert State() == next;
      log := log + [Event(Channel(rid), PlayerLeft(sid, room.Info()))];
    }

    /** Connection `sid` flips its ready flag. An unbound connection, or one
        whose room is gone, changes nothing. Otherwise only that player's
        flag changes and the room's channel is told; when afterwards every
        player of the room is ready and there are at least two, the game is
        started, whatever the room's status was. */
    method ToggleReady(sid: string)
      requires Valid()
      modifies this`rooms, this`log, SeatPlayer(sid)
      ensures Valid()
      ensures old(Consistent()) ==> Consistent()
      ensures order == old(order) && bindings == old(bindings)
      ensures !Seated(old(State()), sid) ==> rooms == old(rooms) && log == old(log)
      ensures Seated(old(State()), sid) ==>
        var rid, p := bindings[sid].roomId, bindings[sid].player;
        var r := old(rooms[rid]);
        var told := Event(Channel(rid), PlayerReady(sid, p.ready, r.Info()));
        && p.ready == !old(p.ready)
        && (ReadyToStart(r.players) ==>
              && State() == Begin(old(State()), rid)
              && log == old(log) + [told, Event(Channel(rid), GameStarted(Started(r).gameState.value))])
        && (!ReadyToStart(r.players) ==> rooms == old(rooms) && log == old(log) + [told])
    {
      if sid !in bindings {
        return;
      }
      var rid := bindings[sid].roomId;
      var player := bindings[sid].player;
      if rid !in rooms {
        return;
      }
      var room := rooms[rid];
      player.ready := !player.ready;
      log := log + [Event(Channel(rid), PlayerReady(sid, player.ready, room.Info()))];
      if ReadyToStart(room.players) {
        StartGame(rid);
      }
    }

    /** Start the game of room `rid`, if it exists, and tell its channel.
        The source reads the room's first player unguarded, so callers must
        pass a room with at least one player. */
    method StartGame(rid: string)
      requires Valid()
      requires rid in rooms ==> |rooms[rid].players| >= 1
      modifies this`rooms, this`log
      ensures Valid()
      ensures old(Consistent()) ==> Consistent()
      ensures rid !in old(rooms) ==> rooms == old(rooms) && log == old(log)
      ensures rid in old(rooms) ==>
        && State() == Begin(old(State()), rid)
        && log == old(log) + [Event(Channel(rid), GameStarted(rooms[rid].gameState.value))]
    {
      if rid !in rooms {
        return;
      }
      BeginKeepsInvariants(State(), rid);
      var room := rooms[rid];
      room := room.(status := Playing);
      room := room.(gameState := Some(GameState(0, room.players[0].id, InitBoard(room.gameMode))));
      rooms := rooms[rid := room];
      log := log + [Event(Channel(rid), GameStarted(room.gameState.value))];
    }
  }
}
