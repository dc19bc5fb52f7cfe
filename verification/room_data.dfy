/**
 * Values of the game lobby: the records that its events carry, the room
 * summaries that its listing and its events report, the join admission rule,
 * the validation of a new room's name, and the placeholder game board.
 * Everything here is pure; the player records, rooms and the store of
 * rooms and connections live in module Registry, the handlers in module Server.
 */
module RoomData {

  datatype Option<T> = None | Some(value: T)

  datatype Result<T, E> = Ok(value: T) | Err(error: E)

  /** A room's lifecycle. `Ended` is declared but no handler reaches it. */
  datatype Status = Waiting | Playing | Ended

  /** A player record `{id, name, ready}` as events carry it. */
  datatype PlayerRec = PlayerRec(id: string, name: string, ready: bool)

  /** The fields of a room that its summaries are computed from. */
  datatype RoomRec = RoomRec(
    id: string,
    name: string,
    gameMode: string,
    playerCount: nat,
    maxPlayers: int,
    password: Option<string>,
    status: Status)

  /** The `room_info` summary sent with events. */
  datatype RoomInfo = RoomInfo(
    id: string,
    name: string,
    gameMode: string,
    currentPlayers: nat,
    maxPlayers: int,
    status: Status)

  /** One entry of the public room listing. */
  datatype Listing = Listing(
    id: string,
    name: string,
    gameMode: string,
    currentPlayers: nat,
    maxPlayers: int,
    hasPassword: bool,
    status: Status)

  /** The reply to a successful room creation. */
  datatype Created = Created(roomId: string, name: string, maxPlayers: int, hasPassword: bool)

  datatype BoardKind = Classic | Team | Custom

  /** The placeholder board `{type, state}`. */
  datatype Board = Board(kind: BoardKind, state: string)

  /** The `game_state` built when a game starts. */
  datatype GameState = GameState(turn: int, currentPlayer: string, board: Board)

  /** The three ways a join is refused, in the order they are checked. */
  datatype JoinError = RoomNotFound | WrongPassword | RoomFull

  /** Where an event goes: back to the calling connection, or to a room's channel. */
  datatype Target = Caller(sid: string) | Channel(roomId: string)

  /** An event's payload; each constructor stands for the event name it is
      emitted under (`error`, `player_joined`, `room_joined`, `player_left`,
      `player_ready`, `game_started`). */
  datatype Payload =
    | Error(message: string)
    | PlayerJoined(player: PlayerRec, roomInfo: RoomInfo)
    | RoomJoined(room: RoomInfo, players: seq<PlayerRec>)
    | PlayerLeft(playerId: string, roomInfo: RoomInfo)
    | PlayerReady(playerId: string, isReady: bool, roomInfo: RoomInfo)
    | GameStarted(gameState: GameState)

  /** An emitted event; the server's output is the log of these, in order. */
  datatype Event = Event(target: Target, payload: Payload)

  /** The human-readable message of each join error ("room does not exist",
      "wrong room password", "room is full"). */
  function ErrorMessage(e: JoinError): string
  {
    match e
    case RoomNotFound => "\U{623F}\U{95F4}\U{4E0D}\U{5B58}\U{5728}"
    case WrongPassword => "\U{623F}\U{95F4}\U{5BC6}\U{7801}\U{9519}\U{8BEF}"
    case RoomFull => "\U{623F}\U{95F4}\U{5DF2}\U{6EE1}"
  }

  /** The message of a room creation without a name ("room name must not be empty"). */
  const EmptyNameMessage: string := "\U{623F}\U{95F4}\U{540D}\U{79F0}\U{4E0D}\U{80FD}\U{4E3A}\U{7A7A}"

  /** The name of a player who joins without one: "player-" and the first
      four characters of the connection id. */
  function NameOrDefault(given: Option<string>, sid: string): (name: string)
    ensures given.Some? ==> name == given.value
    ensures given.None? ==> |name| == 3 + (if |sid| < 4 then |sid| else 4)
    ensures given.None? ==>
      name[..3] == "\U{73A9}\U{5BB6}-" && name[3..] == sid[..if |sid| < 4 then |sid| else 4]
  {
    if given.Some? then given.value
    else "\U{73A9}\U{5BB6}-" + sid[..if |sid| < 4 then |sid| else 4]
  }

  // ---------------------------------------------------------------------
  // Room creation
  // ---------------------------------------------------------------------

  /** Room creation accepts a name only when it is present and non-empty. */
  function CheckName(name: Option<string>): (r: Result<string, string>)
    ensures r.Ok? <==> name.Some? && |name.value| > 0
    ensures r.Ok? ==> r.value == name.value
    ensures r.Err? ==> r.error == EmptyNameMessage
  {
    if name.None? || name.value == "" then Err(EmptyNameMessage) else Ok(name.value)
  }

  // ---------------------------------------------------------------------
  // Joining
  // ---------------------------------------------------------------------

  /** A password is enforced only when it is a non-empty string: a room
      created with the empty string as password admits anyone. */
  predicate PasswordEnforced(password: Option<string>)
  {
    password.Some? && password.value != ""
  }

  /** The verdict of a join against the room it names (None if the id is
      unknown): the error of the first check that fails, or None to admit. */
  function JoinVerdict(room: Option<RoomRec>, supplied: Option<string>): Option<JoinError>
  {
    if room.None? then Some(RoomNotFound)
    else if PasswordEnforced(room.value.password) && room.value.password != supplied then Some(WrongPassword)
    else if room.value.playerCount >= room.value.maxPlayers then Some(RoomFull)
    else None
  }

  /** Each verdict, stated as the condition that produces it: an unknown
      room; then an enforced password that differs from the one supplied;
      then a room already holding its maximum number of players; otherwise
      the join is admitted. */
  lemma JoinVerdictCases(room: Option<RoomRec>, supplied: Option<string>)
    ensures JoinVerdict(room, supplied) == Some(RoomNotFound) <==> room.None?
    ensures JoinVerdict(room, supplied) == Some(WrongPassword) <==>
      room.Some? && PasswordEnforced(room.value.password) && supplied != room.value.password
    ensures JoinVerdict(room, supplied) == Some(RoomFull) <==>
      room.Some? && (PasswordEnforced(room.value.password) ==> supplied == room.value.password)
      && room.value.playerCount >= room.value.maxPlayers
    ensures JoinVerdict(room, supplied).None? <==>
      room.Some? && (PasswordEnforced(room.value.password) ==> supplied == room.value.password)
      && room.value.playerCount < room.value.maxPlayers
  {
  }

  /** An admitted join leaves the room within its capacity. */
  lemma AdmittedWithinCapacity(room: RoomRec, supplied: Option<string>)
    requires JoinVerdict(Some(room), supplied).None?
    ensures room.playerCount + 1 <= room.maxPlayers
  {
  }

  /** A room whose password is absent or empty admits every caller while it
      has a free place, whatever password the caller supplies. */
  lemma EmptyPasswordAdmitsAnyone(room: RoomRec, supplied: Option<string>)
    requires room.password == None || room.password == Some("")
    requires room.playerCount < room.maxPlayers
    ensures JoinVerdict(Some(room), supplied) == None
  {
  }

  // ---------------------------------------------------------------------
  // Game board
  // ---------------------------------------------------------------------

  /** The `type` tag of a board kind. */
  function KindTag(k: BoardKind): string
  {
    match k
    case Classic => "classic"
    case Team => "team"
    case Custom => "custom"
  }

  /** The initial board of a game mode: the known modes "classic" and "team"
      get their own board, every other mode a custom one; all start "initial". */
  function InitBoard(mode: string): (b: Board)
    ensures b.state == "initial"
    ensures mode == "classic" || mode == "team" ==> KindTag(b.kind) == mode
    ensures mode != "classic" && mode != "team" ==> b.kind == Custom
  {
    if mode == "classic" then Board(Classic, "initial")
    else if mode == "team" then Board(Team, "initial")
    else Board(Custom, "initial")
  }

  /** Two modes get the same board exactly when they are equal or both unknown. */
  lemma InitBoardDistinguishesKnownModes(m1: string, m2: string)
    ensures InitBoard(m1) == InitBoard(m2) <==>
      m1 == m2 || (m1 !in {"classic", "team"} && m2 !in {"classic", "team"})
  {
  }

  // ---------------------------------------------------------------------
  // Summaries and the listing
  // ---------------------------------------------------------------------

  /** The `room_info` summary of a room. */
  function InfoOf(r: RoomRec): RoomInfo
  {
    RoomInfo(r.id, r.name, r.gameMode, r.playerCount, r.maxPlayers, r.status)
  }

  /** The listing entry of a room; `has_password` is true for any password
      that is present, even the empty one that is not enforced. */
  function ListingOf(r: RoomRec): Listing
  {
    Listing(r.id, r.name, r.gameMode, r.playerCount, r.maxPlayers, r.password.Some?, r.status)
  }

  /** The public listing: the entries of the waiting rooms, in room order. */
  function ListWaiting(rs: seq<RoomRec>): (r: seq<Listing>)
    ensures |r| <= |rs|
    ensures forall i | 0 <= i < |r| :: r[i].status == Waiting
    ensures forall x | x in rs && x.status == Waiting :: ListingOf(x) in r
    ensures forall l | l in r :: exists x | x in rs :: x.status == Waiting && l == ListingOf(x)
  {
    if rs == [] then []
    else (if rs[0].status == Waiting then [ListingOf(rs[0])] else []) + ListWaiting(rs[1..])
  }

  /** Listing a concatenation lists each part in turn. */
  lemma {:induction false} ListWaitingAppend(a: seq<RoomRec>, b: seq<RoomRec>)
    ensures ListWaiting(a + b) == ListWaiting(a) + ListWaiting(b)
  {
    if a == [] {
      assert a + b == b;
    } else {
      assert (a + b)[1..] == a[1..] + b;
      ListWaitingAppend(a[1..], b);
    }
  }

  /** The position of the first occurrence of `x` in `s`. */
  function IndexOf(s: seq<string>, x: string): (k: nat)
    requires x in s
    ensures k < |s| && s[k] == x
    ensures forall i | 0 <= i < k :: s[i] != x
  {
    if s[0] == x then 0 else 1 + IndexOf(s[1..], x)
  }

  /** An entry of the listing of the rooms after the first has an id after
      the first, one place further on in `ids` than in its tail. */
  lemma ListWaitingTailId(rs: seq<RoomRec>, ids: seq<string>, n: nat)
    requires |ids| == |rs| > 0 && forall k | 0 <= k < |rs| :: rs[k].id == ids[k]
    requires forall a, b | 0 <= a < b < |ids| :: ids[a] != ids[b]
    requires n < |ListWaiting(rs[1..])|
    ensures var l := ListWaiting(rs[1..])[n];
      l.id in ids[1..] && IndexOf(ids, l.id) == 1 + IndexOf(ids[1..], l.id)
  {
    var l := ListWaiting(rs[1..])[n];
    assert l in ListWaiting(rs[1..]);
    var x :| x in rs[1..] && x.status == Waiting && l == ListingOf(x);
    var k :| 0 <= k < |rs[1..]| && rs[1..][k] == x;
    assert ids[k + 1] == l.id;
  }

  /** The entries `r` follow the order of their ids in `ids`. */
  predicate InOrder(r: seq<Listing>, ids: seq<string>)
  {
    forall i, j | 0 <= i < j < |r| ::
      r[i].id in ids && r[j].id in ids && IndexOf(ids, r[i].id) < IndexOf(ids, r[j].id)
  }

  /** One step of the order proof: two entries of the listing are in
      order when the listing of the rooms after the first is. */
  lemma ListWaitingPairInOrder(rs: seq<RoomRec>, ids: seq<string>, i: nat, j: nat)
    requires |ids| == |rs| > 0 && forall k | 0 <= k < |rs| :: rs[k].id == ids[k]
    requires forall a, b | 0 <= a < b < |ids| :: ids[a] != ids[b]
    requires InOrder(ListWaiting(rs[1..]), ids[1..])
    requires i < j < |ListWaiting(rs)|
    ensures var r := ListWaiting(rs);
      r[i].id in ids && r[j].id in ids && IndexOf(ids, r[i].id) < IndexOf(ids, r[j].id)
  {
    var t := ListWaiting(rs[1..]);
    var r := ListWaiting(rs);
    var d := if rs[0].status == Waiting then 1 else 0;
    assert |r| == d + |t| && r[j] == t[j - d];
    ListWaitingTailId(rs, ids, j - d);
    if i < d {
      assert r[i].id == ids[0] && IndexOf(ids, r[i].id) == 0;
    } else {
      assert r[i] == t[i - d];
      ListWaitingTailId(rs, ids, i - d);
    }
  }

  /** The listing keeps room order: of two entries, the earlier one is the
      entry of the room that comes first in `ids`, the rooms' ids in order. */
  lemma {:induction false} ListWaitingKeepsOrder(rs: seq<RoomRec>, ids: seq<string>)
    requires |ids| == |rs| && forall k | 0 <= k < |rs| :: rs[k].id == ids[k]
    requires forall a, b | 0 <= a < b < |ids| :: ids[a] != ids[b]
    ensures InOrder(ListWaiting(rs), ids)
  {
    if rs != [] {
      ListWaitingKeepsOrder(rs[1..], ids[1..]);
      forall i, j | 0 <= i < j < |ListWaiting(rs)|
        ensures var r := ListWaiting(rs);
          r[i].id in ids && r[j].id in ids && IndexOf(ids, r[i].id) < IndexOf(ids, r[j].id)
      {
        ListWaitingPairInOrder(rs, ids, i, j);
      }
    }
  }

  /** A room that is not waiting never changes the listing. */
  lemma ListWaitingSkipsStarted(a: seq<RoomRec>, x: RoomRec, b: seq<RoomRec>)
    requires x.status != Waiting
    ensures ListWaiting(a + [x] + b) == ListWaiting(a + b)
  {
    ListWaitingAppend(a + [x], b);
    ListWaitingAppend(a, [x]);
    ListWaitingAppend(a, b);
    assert ListWaiting([x]) == [] by {
      assert [x][1..] == [];
    }
  }
}
