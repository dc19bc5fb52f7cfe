# Game lobby rooms, modelled in Dafny

This project models the room and lobby core of `app.py`, a Flask and
Socket.IO game lobby server. The server keeps two dictionaries in memory:

- `rooms`: room id to room (name, maximum players, optional password, game
  mode, the list of player records, status, game state);
- `players`: connection id to the room the connection joined and its player record.

Four socket handlers change them: join, leave, toggle ready and start game.
Two HTTP handlers read and extend them: the waiting-room listing and room
creation. Emitted events are not delivered. Each one is appended to a log
as a target and a payload. The target is either the calling connection or a
room's channel.

Modules:

- `RoomData` (`room_data.dfy`) holds the pure values:
  - event payloads;
  - the join admission rule (`JoinVerdict`);
  - the name check of room creation;
  - the initial game board;
  - the `room_info` and listing summaries, and the waiting-room filter.
- `Registry` (`registry.dfy`) holds the state as a value (`Store`):
  - the `Player` class;
  - rooms and bindings;
  - the transitions the handlers apply (`Open`, `Admit`, `Depart`, `Begin`);
  - the invariants those transitions keep (`WellFormed`, `Coherent`);
  - the lemmas that relate the transitions.
- `Server` (`server.dfy`) holds the class `Lobby`:
  - its fields are the two dictionaries, the room order and the event log;
  - it has one method per handler;
  - each method's contract ties its new state to a `Registry` transition of its old state.

A player record is a `Player` object. It is shared between the room's list
and the connection's binding, and toggle flips its `ready` field in place,
as in the source. The source's dictionary iteration order, which the
listing follows, is kept as the sequence `order` of room ids in creation
order.

Behaviour is modelled as the code is written. Points of the code worth
knowing, each of which the model keeps:

- A join is refused as full when `len(players) >= max_players`, not only
  when the two are equal.
- An empty password is not enforced, so anyone may join. The listing and the
  creation reply still report `has_password` as true for it.
- A connection that joins a second room is rebound to it. Its record stays in
  the first room (`Registry.JoinAgainLeavesOldRecord`).
- Toggle ready does not check the room's status. A room that is already playing whose
  players are all ready again is started again: status, turn and current
  player are reset and a second `game_started` is emitted.
- `player_joined` goes to the room's channel after the joiner has entered
  it, so the joiner receives it too.
- Room creation accepts any maximum, and a new room has no players. So a
  room that never held a player persists, and a room with a maximum below one
  can never be joined. The capacity invariant is stated as "no players, or at
  most the maximum".
- Leave returns early without unbinding when the bound room is gone.

## Model

| member | source | states |
|---|---|---|
| RoomData.NameOrDefault | app.py:77 | a given player name is used as is; otherwise the name is "玩家-" followed by the first four characters of the connection id, or all of them if it is shorter |
| RoomData.CheckName | app.py:55-56 | creation is accepted exactly when the name is present and non-empty, keeps that name, and otherwise fails with the empty-name message |
| RoomData.EmptyNameMessage | app.py:56 | the message of a refused creation, "房间名称不能为空" (room name must not be empty); its use is stated by CheckName |
| RoomData.JoinVerdictCases | app.py:80-94 | a join fails with room-not-found exactly when the id is unknown; with wrong-password exactly when the room exists, its password is non-empty and differs from the one supplied; with room-full exactly when it passes those and holds at least its maximum of players; and is admitted exactly when none of these hold |
| RoomData.JoinVerdict | app.py:80-94 | the join admission rule: room-not-found, then wrong-password, then room-full, else admitted, checked in that order; each verdict's condition is stated by JoinVerdictCases |
| RoomData.PasswordEnforced | app.py:87 | a room's password is checked only when it is present and non-empty (the source's truthiness test); stated by JoinVerdictCases and EmptyPasswordAdmitsAnyone |
| RoomData.ErrorMessage | app.py:81-93 | the message sent to the caller for each refusal: "房间不存在" (room not found), "房间密码错误" (wrong password), "房间已满" (room full); JoinRoom states that a refusal sends exactly this message |
| RoomData.AdmittedWithinCapacity | app.py:92-94 | an admitted join leaves room for one more player within the maximum |
| RoomData.EmptyPasswordAdmitsAnyone | app.py:87-89 | a room whose password is absent or empty admits any supplied password while it has a free place |
| RoomData.InitBoard | app.py:194-202 | the board's type is "classic" or "team" for those modes and custom for every other mode, always in state "initial" |
| RoomData.InitBoardDistinguishesKnownModes | app.py:194-202 | two modes yield the same board exactly when they are equal or neither is a known mode |
| RoomData.ListWaiting | app.py:34-42 | the listing has only waiting entries, each one the entry of some waiting room, and it lists every waiting room |
| RoomData.InfoOf | app.py:206-213 | the room_info summary built from a room's fields; stated by Registry.Room.Info |
| RoomData.ListingOf | app.py:34-41 | the listing entry of a room, with has_password true for any present password, empty included; ListWaiting and Server.Lobby.ListRooms state the listing through it |
| RoomData.ListWaitingAppend | app.py:34-42 | the listing of a concatenation is the concatenation of the listings, so entries follow room order |
| RoomData.ListWaitingKeepsOrder | app.py:34-42 | of two listing entries, the earlier is the entry of the room that comes first in the iteration order |
| RoomData.ListWaitingSkipsStarted | app.py:42 | a room that is not waiting does not change the listing |
| Registry.Player.constructor | app.py:98-102 | a new player record carries the connection id and the name, and is not ready |
| Registry.Room.Info | app.py:204-213 | room_info reports the room's id, name, mode, maximum and status, and its current number of players |
| Registry.Snapshot | app.py:113-116 | the player list sent to a joiner has one record per player, in list order, each with the player's current fields |
| Registry.Without | app.py:132 | the filtered list holds exactly the players of the list whose id is not the leaving connection's |
| Registry.WithoutAppend | app.py:132 | filtering distributes over concatenation, so the remaining players keep their order |
| Registry.WithoutAbsent | app.py:132 | filtering a list with no record of the connection leaves it unchanged |
| Registry.JoinThenLeave | app.py:103 | appending a connection's record and then filtering it out restores a list that had none |
| Registry.Erase | app.py:145 | removing a room id from the order keeps exactly the other ids, and keeps them distinct |
| Registry.EraseAppend | app.py:145 | removing a room id distributes over concatenation, so the remaining ids keep their creation order |
| Registry.Started | app.py:180-187 | a started room is playing, with game state at turn 0, current player the first player's id and the board of the room's mode; every other field, players included, is unchanged |
| Registry.NewRoom | app.py:15-25 | a new room: the given id, name, maximum, password and mode, no players, waiting, no game state (created_at is dropped); OpenKeepsInvariants and CreateRoom state its use |
| Registry.ReadyToStart | app.py:171 | the start condition: every player of the room is ready and there are at least two; ToggleReady states that the game starts exactly when it holds |
| Registry.Open | app.py:58-59 | the creation transition: the new room is stored under its id and its id goes last in the order; properties in OpenKeepsInvariants |
| Registry.Admit | app.py:103-104 | the join transition: the record is appended to its room's list and its connection bound to it, replacing an earlier binding; properties in AdmitAppendsOne, AdmitKeepsInvariants, JoinAgainLeavesOldRecord |
| Registry.Depart | app.py:131-145 | the leave transition: sid's records are filtered out, sid is unbound, the room is deleted and its id erased from the order when no player remains; properties in DepartDeletesOnlyEmptied, DepartKeepsInvariants, DepartUndoesAdmit |
| Registry.Begin | app.py:179-187 | the start transition: the room is replaced by its started form; properties in Started and BeginKeepsInvariants |
| Registry.OpenKeepsInvariants | app.py:58-59 | storing a new room under a fresh id keeps the dictionary well formed and the registry coherent |
| Registry.AdmitKeepsInvariants | app.py:92-104 | an admitted join keeps the dictionary well formed and, when the room had a free place, keeps every binding valid and every room within its capacity |
| Registry.AdmitAppendsOne | app.py:98-104 | a join appends exactly the new record at the end of its room's list, keeps the earlier players in order, binds the connection to it, and changes no other room or binding |
| Registry.JoinAgainLeavesOldRecord | app.py:104 | a second join to another room overwrites the connection's binding and leaves its record in the first room |
| Registry.DepartKeepsWellFormed | app.py:144-145 | a leave keeps each room stored under its own id and the order listing each stored room once |
| Registry.DepartKeepsBindings | app.py:132-135 | after a leave every connection still bound holds its own record in a stored room |
| Registry.DepartKeepsInvariants | app.py:131-145 | a leave keeps the dictionary well formed and every remaining binding valid, and every room within capacity |
| Registry.DepartDeletesOnlyEmptied | app.py:132-145 | after a leave the room exists exactly when players remain in it, holding the filtered list; the connection is unbound, other bindings and rooms stay |
| Registry.DepartUndoesAdmit | app.py:103-135 | an unbound connection joining a non-empty room and then leaving restores the state before the join |
| Registry.BeginKeepsInvariants | app.py:179-187 | starting a game keeps the dictionary well formed and the registry coherent |
| Registry.Summaries | app.py:34-42 | the rooms are summarised one per id, in dictionary order |
| Server.Lobby.constructor | app.py:12-13 | the server starts with no rooms, no bindings and no events |
| Server.Lobby.ListRooms | app.py:32-44 | the listing has an entry for exactly the waiting rooms, each the room's own fields with current_players the length of its player list, in creation order and so each room once |
| Server.Lobby.CreateRoom | app.py:47-66 | a missing or empty name is refused and nothing changes; otherwise a waiting room without players is stored last under the fresh id, mode "classic" by default, and the reply reports id, name, maximum and whether a password was given |
| Server.Lobby.JoinRoom | app.py:74-116 | a refused join changes no dictionary and sends one error with the verdict's message to the caller; an admitted join adds a fresh not-ready record and binds it, stays within capacity, and sends player_joined to the channel then room_joined to the caller |
| Server.Lobby.Seat | app.py:96-116 | the admitted half of a join: the new state is the old one with the record appended and bound, the capacity bound holds, and the two events carry the new record, the room summary and the room's player records |
| Server.Lobby.LeaveRoom | app.py:119-145 | an unbound connection, or one whose room is gone, changes nothing; otherwise the state becomes the leave transition's and player_left goes to the channel with the summary of the room as left |
| Server.Lobby.ToggleReady | app.py:148-172 | only the caller's flag flips; player_ready goes to the channel; the game starts exactly when afterwards all players are ready and there are at least two, whatever the status; otherwise rooms are unchanged |
| Server.Lobby.StartGame | app.py:174-192 | an unknown room changes nothing; otherwise the room becomes the started room and game_started goes to the channel with its game state |

Every `Lobby` method keeps `Valid()`: each room is stored under its own id
and `order` lists each stored id once. Each method also keeps
`Consistent()`: every binding points to a stored room that holds the
connection's own record, every room is within its capacity, and a room is
waiting exactly when it has no game state.

## Left out

- Flask routes, `render_template`, `jsonify`, `request.json` and `socketio.run`
  are not modelled. They are I/O and library plumbing.
- Socket.IO channel membership (`join_room`, `leave_room`) is not modelled.
  Events addressed to a room are logged with the room id as target, and who
  receives them is not tracked.
- `handle_connect` and its `print` are not modelled. They have no state effect.
- The request's connection id and the fresh room id from `uuid4()` are
  parameters. `CreateRoom` requires the fresh id to be unused.
- `created_at` from `datetime.now()` is dropped. Nothing reads it.
- The `int(...)` parsing of `max_players`, with its default of 2, and the
  HTTP 400 response shape are not modelled. `CreateRoom` takes an integer
  maximum and returns the error message as `Err`.
- JSON `null` versus an absent key is not distinguished. Both are `None`.
- Request fields (`name`, `password`, `game_mode`, `room_id`, `player_name`)
  are modelled as strings or absent. Other JSON values are not modelled, so
  neither is Python's truthiness or equality on them: a numeric password `0`
  is not enforced, and a numeric password never equals the string a client
  sends; a name `0` is refused.
- `room_id` is always a string in the model. A missing one is looked up as
  `None` in the source and gets the room-not-found error, which is what any
  unused id gets in the model.
- Concurrency is not modelled. Each handler is one atomic step.
- Rooms are values in the `rooms` map rather than shared objects. Only the
  dictionary refers to a room, so storing the updated value back under its
  id has the same effect as the source's in-place updates.
- Server.Lobby.StartGame: requires a room that has at least one player. The
  source reads `room.players[0]` unguarded, and its only caller reaches it
  with at least two players.
- The `Ended` status is declared but never reached, as in the source.
