/**
 * The server's room and membership registry (server/rooms.js): rooms by id,
 * each with its members and a round-robin colour cursor.
 *
 * As in DrawingLog, the state is given as a value (`Registry`) with one
 * step function per mutating operation, and the class `RoomManager`
 * updates its fields in place exactly as those functions say. JavaScript
 * `Map`s iterate in insertion order, so each map is kept together with the
 * order in which its keys were first inserted.
 */
module Rooms {
  import opened Wrappers

  type RoomId = string
  type UserId = string

  /** The room every connection joins; it is never torn down. */
  const DefaultRoomId: RoomId := "main"

  /** The ten colours of the fixed palette. */
  datatype Color = Red | Teal | Blue | LightSalmon | Mint | Yellow | Purple | SkyBlue | Orange | Green

  /** The CSS colour string the server sends for each palette colour. */
  function Hex(c: Color): string
  {
    match c
    case Red => "#FF6B6B"
    case Teal => "#4ECDC4"
    case Blue => "#45B7D1"
    case LightSalmon => "#FFA07A"
    case Mint => "#98D8C8"
    case Yellow => "#F7DC6F"
    case Purple => "#BB8FCE"
    case SkyBlue => "#85C1E2"
    case Orange => "#F8B500"
    case Green => "#52C41A"
  }

  /** Distinct palette colours are sent as distinct strings. */
  lemma HexInjective(a: Color, b: Color)
    requires a != b
    ensures Hex(a) != Hex(b)
  {
  }

  /** The fixed palette handed out round-robin, in order. */
  const UserColors: seq<Color> := [Red, Teal, Blue, LightSalmon, Mint, Yellow, Purple, SkyBlue, Orange, Green]

  /** `userColors[colorIndex % userColors.length]`: the palette entry for a cursor value. */
  function ColorFor(colorIndex: nat): Color
  {
    UserColors[colorIndex % |UserColors|]
  }

  /** Every colour handed out is one of the palette's. */
  lemma ColorForInPalette(colorIndex: nat)
    ensures ColorFor(colorIndex) in UserColors
  {
  }

  datatype User = User(id: UserId, username: string, color: Color, joinedAt: int)

  /**
   * A room: its members by id, the ids in insertion order, and the index of
   * the next palette entry to hand out (it only grows; it is reduced modulo
   * the palette size when used).
   */
  datatype Room = Room(id: RoomId, users: map<UserId, User>, userOrder: seq<UserId>, colorIndex: nat)

  /** All rooms by id, and the ids in insertion order. */
  datatype Registry = Registry(rooms: map<RoomId, Room>, roomOrder: seq<RoomId>)

  /** The registry of a freshly constructed manager. */
  const EmptyRegistry := Registry(map[], [])

  predicate NoDuplicates<T(==)>(s: seq<T>)
  {
    forall i, j :: 0 <= i < j < |s| ==> s[i] != s[j]
  }

  /** `s` with `x` deleted, as `Map.prototype.delete` removes a key from the iteration order. */
  function Without<T(==,!new)>(s: seq<T>, x: T): (r: seq<T>)
    ensures forall y :: y in r <==> y in s && y != x
    ensures NoDuplicates(s) ==> NoDuplicates(r)
    ensures x !in s ==> r == s
    ensures NoDuplicates(s) && x in s ==> |r| == |s| - 1
  {
    if s == [] then []
    else if s[0] == x then Without(s[1..], x)
    else
      var rest := Without(s[1..], x);
      assert NoDuplicates(s) ==> s[0] !in s[1..];
      [s[0]] + rest
  }

  /** A non-empty sequence contains its first element. */
  lemma HeadListed<T>(s: seq<T>)
    ensures |s| > 0 ==> s[0] in s
  {
  }

  /** Deleting the entry at position `p` of a duplicate-free sequence keeps the others in their order. */
  lemma {:induction false} WithoutAt<T(!new)>(s: seq<T>, x: T, p: nat)
    requires NoDuplicates(s) && p < |s| && s[p] == x
    ensures Without(s, x) == s[..p] + s[p + 1..]
    decreases |s|
  {
    var tail := s[1..];
    assert NoDuplicates(tail) by {
      forall i, j | 0 <= i < j < |tail| ensures tail[i] != tail[j] {
        assert tail[i] == s[i + 1] && tail[j] == s[j + 1];
      }
    }
    if p == 0 {
      forall i | 0 <= i < |tail| ensures tail[i] != x {
        assert tail[i] == s[i + 1];
      }
      assert Without(s, x) == Without(tail, x) == tail;
    } else {
      assert s[0] != x;
      WithoutAt(tail, x, p - 1);
      assert Without(s, x) == [s[0]] + Without(tail, x);
      CutAfterHead(s, p);
    }
  }

  /** Cutting out position `p > 0` keeps the head and cuts position `p - 1` out of the tail. */
  lemma CutAfterHead<T>(s: seq<T>, p: nat)
    requires 0 < p < |s|
    ensures s[..p] + s[p + 1..] == [s[0]] + (s[1..][..p - 1] + s[1..][p..])
  {
    assert s[1..][..p - 1] == s[1..p];
    assert s[1..][p..] == s[p + 1..];
    assert s[..p] == [s[0]] + s[1..p];
  }

  // ---------------------------------------------------------------------
  // Display names: `User ${n}` with n written in decimal.

  function DigitChar(d: nat): (c: char)
    requires d < 10
    ensures '0' <= c <= '9' && c as int - '0' as int == d
  {
    ('0' as int + d) as char
  }

  /** The decimal spelling of `n`, as JavaScript's template literal writes a non-negative integer. */
  function DecimalString(n: nat): (s: string)
    ensures |s| >= 1
    ensures forall i :: 0 <= i < |s| ==> '0' <= s[i] <= '9'
    ensures n >= 1 ==> s[0] != '0'
  {
    if n < 10 then [DigitChar(n)] else DecimalString(n / 10) + [DigitChar(n % 10)]
  }

  /** The value of a string of decimal digits; the inverse of DecimalString. */
  function DecimalValue(s: string): nat
  {
    if s == [] then 0
    else
      var d := s[|s| - 1] as int - '0' as int;
      DecimalValue(s[..|s| - 1]) * 10 + (if 0 <= d < 10 then d else 0)
  }

  lemma {:induction false} DecimalRoundTrip(n: nat)
    ensures DecimalValue(DecimalString(n)) == n
  {
    var s := DecimalString(n);
    if n >= 10 {
      DecimalRoundTrip(n / 10);
      assert s[..|s| - 1] == DecimalString(n / 10);
    }
  }

  const FallbackPrefix := "User "

  /**
   * `username || \`User ${size + 1}\``: the name a joining user is shown
   * under, given the room's member count before the join. A given non-empty
   * name is kept; a missing or empty one (both falsy) becomes "User "
   * followed by the room's member count plus one.
   */
  function DisplayName(username: Option<string>, size: nat): (name: string)
    ensures name != []
    ensures username.Some? && username.value != [] ==> name == username.value
    ensures (username == None || username == Some([])) ==>
      && |name| > |FallbackPrefix|
      && name[..|FallbackPrefix|] == FallbackPrefix
      && DecimalValue(name[|FallbackPrefix|..]) == size + 1
      && (forall i :: |FallbackPrefix| <= i < |name| ==> '0' <= name[i] <= '9')
      && name[|FallbackPrefix|] != '0'
  {
    if username.Some? && username.value != [] then username.value
    else
      var digits := DecimalString(size + 1);
      DecimalRoundTrip(size + 1);
      assert (FallbackPrefix + digits)[|FallbackPrefix|..] == digits;
      FallbackPrefix + digits
  }

  // ---------------------------------------------------------------------
  // The registry invariant.

  function NewRoom(roomId: RoomId): (room: Room)
  {
    Room(roomId, map[], [], 0)
  }

  /** The iteration order lists each member once, and each member is stored under its own id. */
  ghost predicate RoomValid(room: Room)
  {
    && NoDuplicates(room.userOrder)
    && (forall u :: u in room.userOrder <==> u in room.users)
    && (forall u :: u in room.users ==> room.users[u].id == u)
  }

  ghost predicate RegistryValid(reg: Registry)
  {
    && NoDuplicates(reg.roomOrder)
    && (forall r :: r in reg.roomOrder <==> r in reg.rooms)
    && (forall r :: r in reg.rooms ==> reg.rooms[r].id == r && RoomValid(reg.rooms[r]))
  }

  /** The colour cursor of a room; an absent room will start at 0. */
  function Cursor(reg: Registry, roomId: RoomId): nat
  {
    if roomId in reg.rooms then reg.rooms[roomId].colorIndex else 0
  }

  // ---------------------------------------------------------------------
  // The operations, as step functions on the registry value.

  /** getRoom: get-or-create; a new room is empty with its cursor at 0, an existing one is left as it is. */
  function EnsureRoom(reg: Registry, roomId: RoomId): (r: (Room, Registry))
    ensures forall k :: k in r.1.rooms <==> k in reg.rooms || k == roomId
    ensures r.0 == r.1.rooms[roomId]
    ensures roomId in reg.rooms ==> r.1 == reg
    ensures roomId !in reg.rooms ==>
      && r.0.users == map[] && r.0.userOrder == [] && r.0.colorIndex == 0 && r.0.id == roomId
      && r.1.roomOrder == reg.roomOrder + [roomId]
    ensures forall k :: k in reg.rooms ==> r.1.rooms[k] == reg.rooms[k]
  {
    if roomId in reg.rooms then (reg.rooms[roomId], reg)
    else
      var room := NewRoom(roomId);
      (room, Registry(reg.rooms[roomId := room], reg.roomOrder + [roomId]))
  }

  /**
   * The part of addUser that works on the room itself: the user is stored
   * under its id with the palette entry at the room's cursor, and the cursor
   * advances by one; an earlier entry for that id is replaced and keeps its
   * place in the iteration order.
   */
  function AddToRoom(room: Room, userId: UserId, username: Option<string>, now: int): (r: (User, Room))
    ensures r.0.color == ColorFor(room.colorIndex)
    ensures r.1.colorIndex == room.colorIndex + 1
  {
    var user := User(userId, DisplayName(username, |room.users|), ColorFor(room.colorIndex), now);
    var order := if userId in room.users then room.userOrder else room.userOrder + [userId];
    (user, room.(users := room.users[userId := user], userOrder := order, colorIndex := room.colorIndex + 1))
  }

  /** The members of a room by id; an absent room has none. */
  function Members(reg: Registry, roomId: RoomId): map<UserId, User>
  {
    if roomId in reg.rooms then reg.rooms[roomId].users else map[]
  }

  /**
   * addUser: getRoom, then AddToRoom on the room it returns. The new user
   * record carries the display name for the room's size before the join,
   * the palette entry at the room's cursor and the join time; it is stored
   * under its id (replacing an earlier entry); the room's cursor advances by
   * one; a room created on the way is appended to the room order; every
   * other room is left as it was.
   */
  function Join(reg: Registry, roomId: RoomId, userId: UserId, username: Option<string>, now: int): (r: (User, Registry))
    ensures r.0 == User(userId, DisplayName(username, |Members(reg, roomId)|), ColorFor(Cursor(reg, roomId)), now)
    ensures roomId in r.1.rooms && r.1.rooms[roomId].users == Members(reg, roomId)[userId := r.0]
    ensures Cursor(r.1, roomId) == Cursor(reg, roomId) + 1
    ensures r.1.roomOrder == (if roomId in reg.rooms then reg.roomOrder else reg.roomOrder + [roomId])
    ensures forall k :: k != roomId ==> (k in r.1.rooms <==> k in reg.rooms)
    ensures forall k :: k in reg.rooms && k != roomId ==> r.1.rooms[k] == reg.rooms[k]
  {
    var (room, reg1) := EnsureRoom(reg, roomId);
    var (user, room') := AddToRoom(room, userId, username, now);
    (user, reg1.(rooms := reg1.rooms[roomId := room']))
  }

  /**
   * removeUser: delete the user; tear the room down if that left it empty,
   * unless it is the default room. An unknown room reports false and
   * changes nothing; otherwise the result says whether the user was a
   * member, and every other room is left as it was.
   */
  function Leave(reg: Registry, roomId: RoomId, userId: UserId): (r: (bool, Registry))
    ensures roomId !in reg.rooms ==> r == (false, reg)
    ensures r.0 <==> roomId in reg.rooms && userId in reg.rooms[roomId].users
    ensures roomId in reg.rooms ==>
      (roomId in r.1.rooms <==> roomId == DefaultRoomId || |reg.rooms[roomId].users - {userId}| > 0)
    ensures roomId in reg.rooms && roomId in r.1.rooms ==>
      var room := reg.rooms[roomId];
      r.1.rooms[roomId] == room.(users := room.users - {userId}, userOrder := Without(room.userOrder, userId))
    ensures r.1.roomOrder == (if roomId in reg.rooms && roomId !in r.1.rooms then Without(reg.roomOrder, roomId) else reg.roomOrder)
    ensures forall k :: k != roomId ==> (k in r.1.rooms <==> k in reg.rooms)
    ensures forall k :: k in reg.rooms && k != roomId ==> r.1.rooms[k] == reg.rooms[k]
  {
    if roomId !in reg.rooms then (false, reg)
    else
      var room := reg.rooms[roomId];
      var removed := userId in room.users;
      var room' := room.(users := room.users - {userId}, userOrder := Without(room.userOrder, userId));
      if |room'.users| == 0 && roomId != DefaultRoomId then
        (removed, Registry(reg.rooms - {roomId}, Without(reg.roomOrder, roomId)))
      else
        (removed, reg.(rooms := reg.rooms[roomId := room']))
  }

  /** The default room survives every removal, and a non-default room that survives one still has members. */
  lemma LeaveKeepsDefault(reg: Registry, roomId: RoomId, userId: UserId)
    ensures DefaultRoomId in reg.rooms ==> DefaultRoomId in Leave(reg, roomId, userId).1.rooms
    ensures var reg' := Leave(reg, roomId, userId).1;
      roomId != DefaultRoomId && roomId in reg.rooms && roomId in reg'.rooms ==> |reg'.rooms[roomId].users| > 0
  {
  }

  /** A removal moves no cursor: every room that survives it keeps its cursor. */
  lemma LeaveKeepsCursors(reg: Registry, roomId: RoomId, userId: UserId)
    ensures var reg' := Leave(reg, roomId, userId).1;
      forall k :: k in reg'.rooms ==> k in reg.rooms && reg'.rooms[k].colorIndex == reg.rooms[k].colorIndex
  {
  }

  /** A room's members in insertion order, as `Array.from(room.users.values())` lists them. */
  function Listing(room: Room): (r: seq<User>)
    requires RoomValid(room)
    ensures |r| == |room.userOrder|
    ensures forall i :: 0 <= i < |r| ==> r[i] == room.users[room.userOrder[i]]
    ensures forall u :: u in r <==> u in room.users.Values
  {
    var r := seq(|room.userOrder|, i requires 0 <= i < |room.userOrder| => room.users[room.userOrder[i]]);
    assert forall u :: u in room.users.Values ==> u in r by {
      forall u | u in room.users.Values ensures u in r {
        var k :| k in room.users && room.users[k] == u;
        var i :| 0 <= i < |room.userOrder| && room.userOrder[i] == k;
        assert r[i] == u;
      }
    }
    r
  }

  /** getRoomUsers: the members of a room in insertion order; an unknown room has none. */
  function RoomUsers(reg: Registry, roomId: RoomId): (r: seq<User>)
    requires RegistryValid(reg)
    ensures roomId !in reg.rooms ==> r == []
    ensures roomId in reg.rooms ==>
      var room := reg.rooms[roomId];
      && |r| == |room.userOrder|
      && (forall i :: 0 <= i < |r| ==> r[i] == room.users[room.userOrder[i]])
      && (forall u :: u in r <==> u in room.users.Values)
  {
    if roomId !in reg.rooms then [] else Listing(reg.rooms[roomId])
  }

  /** getUser: the member stored under `userId`, or nothing when the room or the member is unknown. */
  function FindUser(reg: Registry, roomId: RoomId, userId: UserId): (r: Option<User>)
    ensures r.Some? <==> roomId in reg.rooms && userId in reg.rooms[roomId].users
    ensures r.Some? ==> r.value == reg.rooms[roomId].users[userId]
    ensures r.Some? && RegistryValid(reg) ==> r.value.id == userId
  {
    if roomId !in reg.rooms then None
    else if userId !in reg.rooms[roomId].users then None
    else Some(reg.rooms[roomId].users[userId])
  }

  function RoomSize(rooms: map<RoomId, Room>, roomId: RoomId): nat
  {
    if roomId in rooms then |rooms[roomId].users| else 0
  }

  /** The member counts of the rooms listed in `ids`, added up; it bounds each of them, and is zero exactly when all are. */
  function SumSizes(rooms: map<RoomId, Room>, ids: seq<RoomId>): (n: nat)
    ensures forall i :: 0 <= i < |ids| ==> RoomSize(rooms, ids[i]) <= n
    ensures n == 0 <==> forall i :: 0 <= i < |ids| ==> RoomSize(rooms, ids[i]) == 0
  {
    if ids == [] then 0
    else
      var rest := SumSizes(rooms, ids[1..]);
      assert forall i :: 1 <= i < |ids| ==> ids[i] == ids[1..][i - 1];
      RoomSize(rooms, ids[0]) + rest
  }

  /**
   * getTotalUsers: the member counts of all rooms, added up. In a valid
   * registry every room's count is part of it, and it is zero exactly when
   * every room is empty.
   */
  function TotalUsers(reg: Registry): (total: nat)
    ensures RegistryValid(reg) ==> forall k :: k in reg.rooms ==> |reg.rooms[k].users| <= total
    ensures RegistryValid(reg) ==> (total == 0 <==> forall k :: k in reg.rooms ==> |reg.rooms[k].users| == 0)
  {
    SumSizes(reg.rooms, reg.roomOrder)
  }

  // ---------------------------------------------------------------------
  // Lemmas: the invariant is kept.

  lemma EmptyRegistryValid()
    ensures RegistryValid(EmptyRegistry) && TotalUsers(EmptyRegistry) == 0
  {
  }

  lemma EnsureRoomKeepsValid(reg: Registry, roomId: RoomId)
    requires RegistryValid(reg)
    ensures RegistryValid(EnsureRoom(reg, roomId).1)
  {
  }

  /** Adding a member keeps a room's invariant. */
  lemma AddToRoomKeepsValid(room: Room, userId: UserId, username: Option<string>, now: int)
    requires RoomValid(room)
    ensures RoomValid(AddToRoom(room, userId, username, now).1)
    ensures AddToRoom(room, userId, username, now).1.id == room.id
  {
    var room' := AddToRoom(room, userId, username, now).1;
    assert room'.users == room.users[userId := room'.users[userId]];
    if userId !in room.users {
      assert userId !in room.userOrder;
      assert room'.userOrder == room.userOrder + [userId];
    }
  }

  /** Removing a member keeps a room's invariant. */
  lemma RemoveFromRoomKeepsValid(room: Room, userId: UserId)
    requires RoomValid(room)
    ensures RoomValid(room.(users := room.users - {userId}, userOrder := Without(room.userOrder, userId)))
  {
  }

  lemma JoinKeepsValid(reg: Registry, roomId: RoomId, userId: UserId, username: Option<string>, now: int)
    requires RegistryValid(reg)
    ensures RegistryValid(Join(reg, roomId, userId, username, now).1)
  {
    var (room, reg1) := EnsureRoom(reg, roomId);
    EnsureRoomKeepsValid(reg, roomId);
    AddToRoomKeepsValid(room, userId, username, now);
    var room' := AddToRoom(room, userId, username, now).1;
    assert room'.id == roomId;
    ReplaceRoomKeepsValid(reg1, room');
    assert Join(reg, roomId, userId, username, now).1 == reg1.(rooms := reg1.rooms[roomId := room']);
  }

  /** Replacing a listed room by a valid room under the same id keeps the registry's invariant. */
  lemma ReplaceRoomKeepsValid(reg: Registry, room: Room)
    requires RegistryValid(reg) && room.id in reg.rooms && RoomValid(room)
    ensures RegistryValid(reg.(rooms := reg.rooms[room.id := room]))
  {
  }

  /** Tearing a room down, from the map and from the order, keeps the registry's invariant. */
  lemma DropRoomKeepsValid(reg: Registry, roomId: RoomId)
    requires RegistryValid(reg)
    ensures RegistryValid(Registry(reg.rooms - {roomId}, Without(reg.roomOrder, roomId)))
  {
  }

  lemma LeaveKeepsValid(reg: Registry, roomId: RoomId, userId: UserId)
    requires RegistryValid(reg)
    ensures RegistryValid(Leave(reg, roomId, userId).1)
  {
    if roomId in reg.rooms {
      var room := reg.rooms[roomId];
      var room' := room.(users := room.users - {userId}, userOrder := Without(room.userOrder, userId));
      if |room'.users| == 0 && roomId != DefaultRoomId {
        DropRoomKeepsValid(reg, roomId);
      } else {
        RemoveFromRoomKeepsValid(room, userId);
        ReplaceRoomKeepsValid(reg, room');
      }
    }
  }

  // ---------------------------------------------------------------------
  // Lemmas: colour assignment.

  /** One join request: the socket id, the requested name and the join time. */
  datatype Joiner = Joiner(userId: UserId, username: Option<string>, now: int)

  /** Applies a single-join step for each joiner in turn; the users it returns, and the registry afterwards. */
  function JoinEach(step: (Registry, Joiner) -> (User, Registry), reg: Registry, joiners: seq<Joiner>): (r: (seq<User>, Registry))
    ensures |r.0| == |joiners|
    decreases |joiners|
  {
    if joiners == [] then ([], reg)
    else
      var (user, reg') := step(reg, joiners[0]);
      var rest := JoinEach(step, reg', joiners[1..]);
      ([user] + rest.0, rest.1)
  }

  /** A single-join step that hands out the palette entry at room `roomId`'s cursor and advances that cursor by one. */
  ghost predicate RoundRobin(step: (Registry, Joiner) -> (User, Registry), roomId: RoomId)
  {
    forall reg: Registry, j: Joiner ::
      step(reg, j).0.color == ColorFor(Cursor(reg, roomId)) && Cursor(step(reg, j).1, roomId) == Cursor(reg, roomId) + 1
  }

  /** addUser into room `roomId`, for one joiner. */
  function JoinInto(roomId: RoomId): (Registry, Joiner) -> (User, Registry)
  {
    (reg: Registry, j: Joiner) => Join(reg, roomId, j.userId, j.username, j.now)
  }

  /** Consecutive addUser calls into one room, one per joiner: the users they return, and the registry afterwards. */
  function Joins(reg: Registry, roomId: RoomId, joiners: seq<Joiner>): (r: (seq<User>, Registry))
    ensures |r.0| == |joiners|
  {
    JoinEach(JoinInto(roomId), reg, joiners)
  }

  /** addUser is round-robin: it hands out the palette entry at the room's cursor and advances the cursor by one. */
  lemma JoinIntoRoundRobin(roomId: RoomId)
    ensures RoundRobin(JoinInto(roomId), roomId)
  {
    forall reg: Registry, j: Joiner
      ensures JoinInto(roomId)(reg, j).0.color == ColorFor(Cursor(reg, roomId))
      ensures Cursor(JoinInto(roomId)(reg, j).1, roomId) == Cursor(reg, roomId) + 1
    {
      assert JoinInto(roomId)(reg, j) == Join(reg, roomId, j.userId, j.username, j.now);
    }
  }

  /** The colours of the given users, in order. */
  function Colors(users: seq<User>): (r: seq<Color>)
    ensures |r| == |users|
  {
    if users == [] then [] else [users[0].color] + Colors(users[1..])
  }

  lemma {:induction false} ColorsAt(users: seq<User>, i: nat)
    requires i < |users|
    ensures Colors(users)[i] == users[i].color
  {
    if i > 0 {
      ColorsAt(users[1..], i - 1);
    }
  }

  /** The `n` palette entries a cursor at `start` hands out next, in order. */
  function PaletteRun(start: nat, n: nat): (r: seq<Color>)
    ensures |r| == n
    decreases n
  {
    if n == 0 then [] else [ColorFor(start)] + PaletteRun(start + 1, n - 1)
  }

  lemma {:induction false} PaletteRunAt(start: nat, n: nat, i: nat)
    requires i < n
    ensures PaletteRun(start, n)[i] == ColorFor(start + i)
    decreases n
  {
    if i > 0 {
      PaletteRunAt(start + 1, n - 1, i - 1);
      assert PaletteRun(start, n)[i] == PaletteRun(start + 1, n - 1)[i - 1];
      assert start + 1 + (i - 1) == start + i;
    }
  }

  lemma PaletteDistinct()
    ensures |UserColors| == 10
    ensures forall i, j :: 0 <= i < j < |UserColors| ==> UserColors[i] != UserColors[j]
  {
  }

  /** Two cursor values less than a palette length apart select different colours. */
  lemma ColorForDistinct(m: nat, n: nat)
    requires m < n < m + |UserColors|
    ensures ColorFor(m) != ColorFor(n)
  {
    PaletteDistinct();
    var a, b := m % 10, n % 10;
    assert a != b;
    if a < b {
      assert UserColors[a] != UserColors[b];
    } else {
      assert UserColors[b] != UserColors[a];
    }
  }

  /** A run of at most a palette's length never repeats a colour. */
  lemma PaletteRunDistinct(start: nat, n: nat)
    requires n <= |UserColors|
    ensures forall i, j :: 0 <= i < j < n ==> PaletteRun(start, n)[i] != PaletteRun(start, n)[j]
  {
    forall i, j | 0 <= i < j < n
      ensures PaletteRun(start, n)[i] != PaletteRun(start, n)[j]
    {
      PaletteRunAt(start, n, i);
      PaletteRunAt(start, n, j);
      ColorForDistinct(start + i, start + j);
    }
  }

  /** The cursor value after a full number of palette cycles selects the first colour again. */
  lemma ColorForCompletesCycle(times: nat)
    requires times % |UserColors| == |UserColors| - 1
    ensures ColorFor(1 + times) == ColorFor(0)
  {
    assert (1 + times) % |UserColors| == 0;
  }

  /** Any ten or fewer consecutive addUser calls into one room get pairwise distinct colours. */
  lemma ConsecutiveJoinsDistinct(reg: Registry, roomId: RoomId, joiners: seq<Joiner>)
    requires |joiners| <= |UserColors|
    ensures forall i, j :: 0 <= i < j < |joiners| ==>
      Joins(reg, roomId, joiners).0[i].color != Joins(reg, roomId, joiners).0[j].color
  {
    var users := Joins(reg, roomId, joiners).0;
    PaletteRunDistinct(Cursor(reg, roomId), |joiners|);
    forall i | 0 <= i < |joiners|
      ensures users[i].color == PaletteRun(Cursor(reg, roomId), |joiners|)[i]
    {
      JoinColourInRun(reg, roomId, joiners, i);
    }
  }

  /** A cursor a palette's length further on selects the same colour. */
  lemma ColorForWraps(m: nat)
    ensures ColorFor(m + |UserColors|) == ColorFor(m)
  {
    assert (m + |UserColors|) % |UserColors| == m % |UserColors|;
  }

  /** Round-robin joins get the palette entries from the room's cursor on, in order, and advance the cursor by their number. */
  lemma {:induction false} JoinEachColours(step: (Registry, Joiner) -> (User, Registry), roomId: RoomId, reg: Registry, joiners: seq<Joiner>)
    requires RoundRobin(step, roomId)
    ensures Colors(JoinEach(step, reg, joiners).0) == PaletteRun(Cursor(reg, roomId), |joiners|)
    ensures Cursor(JoinEach(step, reg, joiners).1, roomId) == Cursor(reg, roomId) + |joiners|
    decreases |joiners|
  {
    if joiners != [] {
      var start := Cursor(reg, roomId);
      var (user, reg') := step(reg, joiners[0]);
      assert user.color == ColorFor(start) && Cursor(reg', roomId) == start + 1;
      var rest := JoinEach(step, reg', joiners[1..]);
      JoinEachColours(step, roomId, reg', joiners[1..]);
      assert JoinEach(step, reg, joiners) == ([user] + rest.0, rest.1);
      ColorsCons(user, rest.0);
      assert PaletteRun(start, |joiners|) == [ColorFor(start)] + PaletteRun(start + 1, |joiners| - 1);
    }
  }

  /** Consecutive addUser calls into one room get the palette entries from its cursor on, in order, and advance it by their number. */
  lemma JoinsColours(reg: Registry, roomId: RoomId, joiners: seq<Joiner>)
    ensures Colors(Joins(reg, roomId, joiners).0) == PaletteRun(Cursor(reg, roomId), |joiners|)
    ensures Cursor(Joins(reg, roomId, joiners).1, roomId) == Cursor(reg, roomId) + |joiners|
  {
    JoinIntoRoundRobin(roomId);
    JoinEachColours(JoinInto(roomId), roomId, reg, joiners);
  }

  lemma ColorsCons(u: User, us: seq<User>)
    ensures Colors([u] + us) == [u.color] + Colors(us)
  {
    assert ([u] + us)[1..] == us;
  }

  /** The i-th of consecutive addUser calls into one room gets the colour at the room's starting cursor plus i. */
  lemma JoinColourInRun(reg: Registry, roomId: RoomId, joiners: seq<Joiner>, i: nat)
    requires i < |joiners|
    ensures Joins(reg, roomId, joiners).0[i].color == PaletteRun(Cursor(reg, roomId), |joiners|)[i]
  {
    JoinsColours(reg, roomId, joiners);
    ColorsAt(Joins(reg, roomId, joiners).0, i);
  }

  /** A run of palette entries repeats itself after a palette's length. */
  lemma PaletteRunWraps(start: nat, n: nat, i: nat)
    requires i + |UserColors| < n
    ensures PaletteRun(start, n)[i + |UserColors|] == PaletteRun(start, n)[i]
  {
    PaletteRunAt(start, n, i);
    PaletteRunAt(start, n, i + |UserColors|);
    ColorForWraps(start + i);
  }

  /** The palette wraps: the addUser call a palette's length after another into the same room gets the same colour. */
  lemma PaletteWraps(reg: Registry, roomId: RoomId, joiners: seq<Joiner>, i: nat)
    requires i + |UserColors| < |joiners|
    ensures Joins(reg, roomId, joiners).0[i + |UserColors|].color == Joins(reg, roomId, joiners).0[i].color
  {
    JoinColourInRun(reg, roomId, joiners, i);
    JoinColourInRun(reg, roomId, joiners, i + |UserColors|);
    PaletteRunWraps(Cursor(reg, roomId), |joiners|, i);
  }

  /**
   * Into a room that does not exist yet, the i-th addUser call gets palette
   * entry i modulo ten: the first ten get the palette in order, and the
   * eleventh gets the first entry again.
   */
  lemma FreshRoomColourCycle(reg: Registry, roomId: RoomId, joiners: seq<Joiner>)
    requires roomId !in reg.rooms
    ensures forall i :: 0 <= i < |joiners| ==> Joins(reg, roomId, joiners).0[i].color == UserColors[i % |UserColors|]
  {
    assert Cursor(reg, roomId) == 0;
    forall i | 0 <= i < |joiners|
      ensures Joins(reg, roomId, joiners).0[i].color == UserColors[i % |UserColors|]
    {
      JoinColourInRun(reg, roomId, joiners, i);
      PaletteRunAt(0, |joiners|, i);
      assert PaletteRun(0, |joiners|)[i] == ColorFor(i);
    }
  }

  /** One round of churn: `userId` joins the room without a name and leaves it again. */
  function JoinAndLeave(reg: Registry, roomId: RoomId, userId: UserId, now: int): Registry
  {
    Leave(Join(reg, roomId, userId, None, now).1, roomId, userId).1
  }

  /** `step` applied `times` times over, starting from `reg`. */
  function Iterate(step: Registry -> Registry, reg: Registry, times: nat): Registry
    decreases times
  {
    if times == 0 then reg else Iterate(step, step(reg), times - 1)
  }

  /** The same connection id joins the room and leaves it again, `times` times over. */
  function Churn(reg: Registry, roomId: RoomId, userId: UserId, now: int, times: nat): Registry
  {
    Iterate((r: Registry) => JoinAndLeave(r, roomId, userId, now), reg, times)
  }

  /** `other` is a member of room `roomId`. */
  predicate Present(reg: Registry, roomId: RoomId, other: UserId)
  {
    roomId in reg.rooms && other in reg.rooms[roomId].users
  }

  /** A join into a room leaves every other member's record as it was, and advances the cursor by one. */
  lemma JoinKeepsOther(reg: Registry, roomId: RoomId, userId: UserId, username: Option<string>, now: int, other: UserId)
    requires Present(reg, roomId, other) && other != userId
    ensures var reg' := Join(reg, roomId, userId, username, now).1;
      && roomId in reg'.rooms
      && other in reg'.rooms[roomId].users
      && reg'.rooms[roomId].users[other] == reg.rooms[roomId].users[other]
      && Cursor(reg', roomId) == Cursor(reg, roomId) + 1
  {
  }

  /** A leave by someone else keeps the room, the member's record and the cursor. */
  lemma LeaveKeepsOther(reg: Registry, roomId: RoomId, userId: UserId, other: UserId)
    requires Present(reg, roomId, other) && other != userId
    ensures var reg' := Leave(reg, roomId, userId).1;
      && roomId in reg'.rooms
      && other in reg'.rooms[roomId].users
      && reg'.rooms[roomId].users[other] == reg.rooms[roomId].users[other]
      && Cursor(reg', roomId) == Cursor(reg, roomId)
  {
    assert other in reg.rooms[roomId].users - {userId};
  }

  /**
   * From `reg` to `reg'` the room survives, `other` stays in it with the
   * same record, and the room's cursor moves on by `joins`.
   */
  predicate KeepsMember(reg: Registry, reg': Registry, roomId: RoomId, other: UserId, joins: nat)
  {
    && roomId in reg.rooms && other in reg.rooms[roomId].users
    && roomId in reg'.rooms && other in reg'.rooms[roomId].users
    && reg'.rooms[roomId].users[other] == reg.rooms[roomId].users[other]
    && Cursor(reg', roomId) == Cursor(reg, roomId) + joins
  }

  /** Steps that each keep `other` and advance the cursor by one, repeated, advance it by their number. */
  lemma {:induction false} IterateKeepsMember(step: Registry -> Registry, reg: Registry, times: nat, roomId: RoomId, other: UserId)
    requires Present(reg, roomId, other)
    requires forall r: Registry {:trigger Present(r, roomId, other)} :: Present(r, roomId, other) ==> KeepsMember(r, step(r), roomId, other, 1)
    ensures KeepsMember(reg, Iterate(step, reg, times), roomId, other, times)
    decreases times
  {
    if times > 0 {
      var next := step(reg);
      assert KeepsMember(reg, next, roomId, other, 1);
      assert Present(next, roomId, other);
      IterateKeepsMember(step, next, times - 1, roomId, other);
      assert Iterate(step, reg, times) == Iterate(step, next, times - 1);
    }
  }

  /** One round of churn keeps every other member, and advances the cursor by one. */
  lemma JoinAndLeaveKeepsOther(reg: Registry, roomId: RoomId, userId: UserId, now: int, other: UserId)
    requires Present(reg, roomId, other) && other != userId
    ensures KeepsMember(reg, JoinAndLeave(reg, roomId, userId, now), roomId, other, 1)
  {
    JoinKeepsOther(reg, roomId, userId, None, now, other);
    LeaveKeepsOther(Join(reg, roomId, userId, None, now).1, roomId, userId, other);
  }

  /**
   * While another member stays in the room, join-and-leave churn keeps that
   * member's record and the room itself, and advances the cursor by one per
   * join: colours are not reclaimed.
   */
  lemma ChurnAdvancesCursor(reg: Registry, roomId: RoomId, userId: UserId, now: int, times: nat, other: UserId)
    requires Present(reg, roomId, other) && other != userId
    ensures KeepsMember(reg, Churn(reg, roomId, userId, now, times), roomId, other, times)
  {
    var step := (r: Registry) => JoinAndLeave(r, roomId, userId, now);
    forall r: Registry | Present(r, roomId, other)
      ensures KeepsMember(r, step(r), roomId, other, 1)
    {
      JoinAndLeaveKeepsOther(r, roomId, userId, now, other);
    }
    IterateKeepsMember(step, reg, times, roomId, other);
  }

  /** The first join into a room that does not exist yet makes the joiner a member with the first palette entry, and moves the cursor to 1. */
  lemma JoinFreshRoom(reg: Registry, roomId: RoomId, userId: UserId, now: int)
    requires roomId !in reg.rooms
    ensures var (user, reg') := Join(reg, roomId, userId, None, now);
      && Present(reg', roomId, userId) && reg'.rooms[roomId].users[userId] == user
      && Cursor(reg', roomId) == 1 && user.color == ColorFor(0)
  {
  }

  /**
   * Two members present at the same time can share a colour although far
   * fewer than ten are present: `a` joins a fresh room, `b` joins and leaves
   * nine times (or 19, 29, ...), and then `k` joins and is given a's colour.
   */
  lemma PresentMembersShareColour(reg: Registry, roomId: RoomId, a: UserId, b: UserId, k: UserId, now: int, times: nat)
    requires roomId !in reg.rooms && a != b && a != k
    requires times % |UserColors| == |UserColors| - 1
    ensures var (userA, reg1) := Join(reg, roomId, a, None, now);
      var reg2 := Churn(reg1, roomId, b, now, times);
      var (userK, reg3) := Join(reg2, roomId, k, None, now);
      && a in reg3.rooms[roomId].users && k in reg3.rooms[roomId].users
      && reg3.rooms[roomId].users[a] == userA
      && userK.color == userA.color
  {
    var (userA, reg1) := Join(reg, roomId, a, None, now);
    JoinFreshRoom(reg, roomId, a, now);
    ChurnAdvancesCursor(reg1, roomId, b, now, times, a);
    var reg2 := Churn(reg1, roomId, b, now, times);
    assert Cursor(reg2, roomId) == 1 + times;
    JoinKeepsOther(reg2, roomId, k, None, now, a);
    var (userK, reg3) := Join(reg2, roomId, k, None, now);
    assert userK.color == ColorFor(1 + times);
    ColorForCompletesCycle(times);
  }

  // ---------------------------------------------------------------------
  // Lemmas: membership queries after each operation.

  /** After a join the user is found under its id, and every other lookup answers as before. */
  lemma JoinThenFind(reg: Registry, roomId: RoomId, userId: UserId, username: Option<string>, now: int, otherRoom: RoomId, otherUser: UserId)
    requires otherRoom != roomId || otherUser != userId
    ensures var (user, reg') := Join(reg, roomId, userId, username, now);
      && FindUser(reg', roomId, userId) == Some(user)
      && (otherRoom != roomId || roomId in reg.rooms ==> FindUser(reg', otherRoom, otherUser) == FindUser(reg, otherRoom, otherUser))
  {
  }

  /** Adding to a room appends a new member to its listing, or replaces an existing one in place. */
  lemma AddToRoomListing(room: Room, userId: UserId, username: Option<string>, now: int)
    requires RoomValid(room)
    ensures RoomValid(AddToRoom(room, userId, username, now).1)
    ensures var (user, room') := AddToRoom(room, userId, username, now);
      var before := Listing(room);
      var after := Listing(room');
      if userId !in room.users then after == before + [user]
      else |after| == |before| && forall i :: 0 <= i < |before| ==> after[i] == (if before[i].id == userId then user else before[i])
  {
    AddToRoomKeepsValid(room, userId, username, now);
    var (user, room') := AddToRoom(room, userId, username, now);
    var before := Listing(room);
    var after := Listing(room');
    if userId !in room.users {
      assert room'.userOrder == room.userOrder + [userId];
      assert |after| == |before| + 1;
      forall i | 0 <= i < |after| ensures after[i] == (before + [user])[i] {
      }
    }
  }

  /** A join appends a new member to the room's list, or replaces an existing one in place. */
  lemma JoinListsUser(reg: Registry, roomId: RoomId, userId: UserId, username: Option<string>, now: int)
    requires RegistryValid(reg)
    ensures RegistryValid(Join(reg, roomId, userId, username, now).1)
    ensures var (user, reg') := Join(reg, roomId, userId, username, now);
      var before := RoomUsers(reg, roomId);
      var after := RoomUsers(reg', roomId);
      if FindUser(reg, roomId, userId) == None then after == before + [user]
      else |after| == |before| && forall i :: 0 <= i < |before| ==> after[i] == (if before[i].id == userId then user else before[i])
  {
    JoinKeepsValid(reg, roomId, userId, username, now);
    var (room, reg1) := EnsureRoom(reg, roomId);
    EnsureRoomKeepsValid(reg, roomId);
    AddToRoomListing(room, userId, username, now);
    var room' := AddToRoom(room, userId, username, now).1;
    var reg' := Join(reg, roomId, userId, username, now).1;
    assert reg' == reg1.(rooms := reg1.rooms[roomId := room']);
    assert RoomUsers(reg, roomId) == Listing(room);
    assert RoomUsers(reg', roomId) == Listing(room');
    assert FindUser(reg, roomId, userId) == None <==> userId !in room.users;
  }

  /**
   * Removing from a room lists exactly its earlier members other than the
   * one that left; when the id was not a member the listing is unchanged.
   */
  lemma RemoveFromRoomListing(room: Room, userId: UserId)
    requires RoomValid(room)
    ensures RoomValid(room.(users := room.users - {userId}, userOrder := Without(room.userOrder, userId)))
    ensures forall u :: u in Listing(room.(users := room.users - {userId}, userOrder := Without(room.userOrder, userId))) <==>
      u in Listing(room) && u.id != userId
    ensures userId !in room.users ==>
      Listing(room.(users := room.users - {userId}, userOrder := Without(room.userOrder, userId))) == Listing(room)
  {
    RemoveFromRoomKeepsValid(room, userId);
    if userId !in room.users {
      assert room.users - {userId} == room.users;
      assert room.(users := room.users - {userId}, userOrder := Without(room.userOrder, userId)) == room;
    }
  }

  /** Removing the member listed at position `p` cuts exactly that entry out of the listing. */
  lemma ListingCut(room: Room, userId: UserId, p: nat)
    requires RoomValid(room) && p < |Listing(room)| && Listing(room)[p].id == userId
    ensures RoomValid(room.(users := room.users - {userId}, userOrder := Without(room.userOrder, userId)))
    ensures var room' := room.(users := room.users - {userId}, userOrder := Without(room.userOrder, userId));
      Listing(room') == Listing(room)[..p] + Listing(room)[p + 1..]
  {
    RemoveFromRoomKeepsValid(room, userId);
    var room' := room.(users := room.users - {userId}, userOrder := Without(room.userOrder, userId));
    var before := Listing(room);
    var after := Listing(room');
    assert room.userOrder[p] == userId;
    WithoutAt(room.userOrder, userId, p);
    forall i | 0 <= i < |after|
      ensures after[i] == (before[..p] + before[p + 1..])[i]
    {
      if i < p {
        assert room'.userOrder[i] == room.userOrder[i];
      } else {
        assert room'.userOrder[i] == room.userOrder[i + 1];
      }
    }
  }

  /**
   * After a leave, getRoomUsers lists exactly the room's earlier members
   * other than the one that left; when the id was not a member the list is
   * unchanged. A torn-down room lists no one.
   */
  lemma LeaveListsRest(reg: Registry, roomId: RoomId, userId: UserId)
    requires RegistryValid(reg)
    ensures RegistryValid(Leave(reg, roomId, userId).1)
    ensures forall u :: u in RoomUsers(Leave(reg, roomId, userId).1, roomId) <==> u in RoomUsers(reg, roomId) && u.id != userId
    ensures FindUser(reg, roomId, userId) == None ==> RoomUsers(Leave(reg, roomId, userId).1, roomId) == RoomUsers(reg, roomId)
  {
    LeaveKeepsValid(reg, roomId, userId);
    if roomId in reg.rooms {
      var room := reg.rooms[roomId];
      var room' := room.(users := room.users - {userId}, userOrder := Without(room.userOrder, userId));
      RemoveFromRoomListing(room, userId);
      LeaveListsRemoved(reg, roomId, userId);
    }
  }

  /** What getRoomUsers gives after a leave from an existing room: the listing of the room with the member removed. */
  lemma LeaveListsRemoved(reg: Registry, roomId: RoomId, userId: UserId)
    requires RegistryValid(reg) && roomId in reg.rooms
    ensures RegistryValid(Leave(reg, roomId, userId).1)
    ensures var room := reg.rooms[roomId];
      RoomValid(room.(users := room.users - {userId}, userOrder := Without(room.userOrder, userId)))
    ensures var room := reg.rooms[roomId];
      RoomUsers(Leave(reg, roomId, userId).1, roomId)
        == Listing(room.(users := room.users - {userId}, userOrder := Without(room.userOrder, userId)))
  {
    LeaveKeepsValid(reg, roomId, userId);
    var room := reg.rooms[roomId];
    var room' := room.(users := room.users - {userId}, userOrder := Without(room.userOrder, userId));
    RemoveFromRoomKeepsValid(room, userId);
    var reg' := Leave(reg, roomId, userId).1;
    if roomId !in reg'.rooms {
      assert room'.users == map[];
      HeadListed(room'.userOrder);
    }
  }

  /**
   * removeUser keeps the order of the members who stay: when the leaver is
   * listed at position `p`, getRoomUsers afterwards is the old list with
   * exactly that entry cut out.
   */
  lemma LeaveCutsListing(reg: Registry, roomId: RoomId, userId: UserId, p: nat)
    requires RegistryValid(reg) && p < |RoomUsers(reg, roomId)| && RoomUsers(reg, roomId)[p].id == userId
    ensures RegistryValid(Leave(reg, roomId, userId).1)
    ensures RoomUsers(Leave(reg, roomId, userId).1, roomId) == RoomUsers(reg, roomId)[..p] + RoomUsers(reg, roomId)[p + 1..]
  {
    LeaveListsRemoved(reg, roomId, userId);
    ListingCut(reg.rooms[roomId], userId, p);
  }

  /** Tearing down a room discards it: a later getRoom for that id creates a new, empty room with its cursor at 0. */
  lemma LeaveThenRecreate(reg: Registry, roomId: RoomId, userId: UserId)
    requires roomId in reg.rooms && roomId != DefaultRoomId
    requires reg.rooms[roomId].users.Keys <= {userId}
    ensures roomId !in Leave(reg, roomId, userId).1.rooms
    ensures EnsureRoom(Leave(reg, roomId, userId).1, roomId).0 == NewRoom(roomId)
  {
    var room := reg.rooms[roomId];
    assert (room.users - {userId}).Keys == {};
  }

  /** getRoom is idempotent. */
  lemma EnsureRoomIdempotent(reg: Registry, roomId: RoomId)
    ensures EnsureRoom(EnsureRoom(reg, roomId).1, roomId) == EnsureRoom(reg, roomId)
  {
  }

  // ---------------------------------------------------------------------
  // Lemmas: the total member count.

  lemma {:induction false} SumAgree(m1: map<RoomId, Room>, m2: map<RoomId, Room>, ids: seq<RoomId>)
    requires forall i :: 0 <= i < |ids| ==> RoomSize(m1, ids[i]) == RoomSize(m2, ids[i])
    ensures SumSizes(m1, ids) == SumSizes(m2, ids)
  {
    if ids != [] {
      SumAgree(m1, m2, ids[1..]);
    }
  }

  lemma {:induction false} SumAppend(m: map<RoomId, Room>, ids: seq<RoomId>, k: RoomId)
    ensures SumSizes(m, ids + [k]) == SumSizes(m, ids) + RoomSize(m, k)
  {
    if ids != [] {
      assert (ids + [k])[1..] == ids[1..] + [k];
      SumAppend(m, ids[1..], k);
    }
  }

  /** Replacing the room under one listed id changes the sum by the difference of the two member counts. */
  lemma {:induction false} SumUpdate(m: map<RoomId, Room>, ids: seq<RoomId>, k: RoomId, room: Room)
    requires NoDuplicates(ids) && k in ids
    ensures SumSizes(m[k := room], ids) + RoomSize(m, k) == SumSizes(m, ids) + |room.users|
  {
    if ids[0] == k {
      assert k !in ids[1..];
      SumAgree(m[k := room], m, ids[1..]);
    } else {
      SumUpdate(m, ids[1..], k, room);
    }
  }

  /** Deleting one listed room from both the map and the list takes its member count off the sum. */
  lemma {:induction false} SumRemove(m: map<RoomId, Room>, ids: seq<RoomId>, k: RoomId)
    requires NoDuplicates(ids) && k in ids
    ensures SumSizes(m - {k}, Without(ids, k)) + RoomSize(m, k) == SumSizes(m, ids)
  {
    if ids[0] == k {
      assert k !in ids[1..];
      assert Without(ids, k) == ids[1..];
      SumAgree(m - {k}, m, ids[1..]);
    } else {
      SumRemove(m, ids[1..], k);
    }
  }

  /** getRoom never changes the total. */
  lemma EnsureRoomKeepsTotal(reg: Registry, roomId: RoomId)
    requires RegistryValid(reg)
    ensures TotalUsers(EnsureRoom(reg, roomId).1) == TotalUsers(reg)
  {
    if roomId !in reg.rooms {
      var reg' := EnsureRoom(reg, roomId).1;
      SumAppend(reg'.rooms, reg.roomOrder, roomId);
      SumAgree(reg'.rooms, reg.rooms, reg.roomOrder);
    }
  }

  /** A join adds one to the total exactly when the user was not yet in the room. */
  lemma JoinTotal(reg: Registry, roomId: RoomId, userId: UserId, username: Option<string>, now: int)
    requires RegistryValid(reg)
    ensures TotalUsers(Join(reg, roomId, userId, username, now).1)
         == TotalUsers(reg) + (if FindUser(reg, roomId, userId) == None then 1 else 0)
  {
    var (room, reg1) := EnsureRoom(reg, roomId);
    EnsureRoomKeepsTotal(reg, roomId);
    EnsureRoomKeepsValid(reg, roomId);
    var reg2 := Join(reg, roomId, userId, username, now).1;
    SumUpdate(reg1.rooms, reg1.roomOrder, roomId, reg2.rooms[roomId]);
    assert reg2.rooms == reg1.rooms[roomId := reg2.rooms[roomId]];
  }

  /** Deleting a key removes one entry exactly when the key was present. */
  lemma RemoveCount(users: map<UserId, User>, userId: UserId)
    ensures |users - {userId}| + (if userId in users then 1 else 0) == |users|
  {
    if userId in users {
      assert (users - {userId}).Keys == users.Keys - {userId};
    } else {
      assert users - {userId} == users;
    }
  }

  /** A leave takes one off the total exactly when it reports that a user was removed. */
  lemma LeaveTotal(reg: Registry, roomId: RoomId, userId: UserId)
    requires RegistryValid(reg)
    ensures var (removed, reg') := Leave(reg, roomId, userId);
      TotalUsers(reg') + (if removed then 1 else 0) == TotalUsers(reg)
  {
    if roomId in reg.rooms {
      var room := reg.rooms[roomId];
      var room' := room.(users := room.users - {userId}, userOrder := Without(room.userOrder, userId));
      RemoveCount(room.users, userId);
      if |room'.users| == 0 && roomId != DefaultRoomId {
        SumRemove(reg.rooms, reg.roomOrder, roomId);
        assert Leave(reg, roomId, userId).1 == Registry(reg.rooms - {roomId}, Without(reg.roomOrder, roomId));
      } else {
        SumUpdate(reg.rooms, reg.roomOrder, roomId, room');
        assert Leave(reg, roomId, userId).1 == reg.(rooms := reg.rooms[roomId := room']);
      }
    }
  }

  // ---------------------------------------------------------------------

  /** The live registry, updated in place as server/rooms.js does. */
  class RoomManager {
    var rooms: map<RoomId, Room>
    var roomOrder: seq<RoomId>

    /** The fields, as a value. */
    function State(): Registry
      reads this
    {
      Registry(rooms, roomOrder)
    }

    ghost predicate Valid()
      reads this
    {
      RegistryValid(State())
    }

    constructor ()
      ensures State() == EmptyRegistry && Valid()
    {
      rooms := map[];
      roomOrder := [];
    }

    method GetRoom(roomId: RoomId) returns (room: Room)
      requires Valid()
      modifies this
      ensures Valid()
      ensures (room, State()) == EnsureRoom(old(State()), roomId)
    {
      ghost var before := State();
      if roomId !in rooms {
        rooms := rooms[roomId := NewRoom(roomId)];
        roomOrder := roomOrder + [roomId];
      }
      room := rooms[roomId];
      EnsureRoomKeepsValid(before, roomId);
    }

    method AddUser(roomId: RoomId, userId: UserId, username: Option<string>, now: int) returns (user: User)
      requires Valid()
      modifies this
      ensures Valid()
      ensures (user, State()) == Join(old(State()), roomId, userId, username, now)
    {
      ghost var before := State();
      var room := GetRoom(roomId);
      ghost var reg1 := State();
      ghost var expected := AddToRoom(room, userId, username, now);
      var color := ColorFor(room.colorIndex);
      room := room.(colorIndex := room.colorIndex + 1);
      user := User(userId, DisplayName(username, |room.users|), color, now);
      var order := if userId in room.users then room.userOrder else room.userOrder + [userId];
      room := room.(users := room.users[userId := user], userOrder := order);
      assert user == expected.0 && room == expected.1;
      rooms := rooms[roomId := room];
      assert State() == reg1.(rooms := reg1.rooms[roomId := room]);
      JoinKeepsValid(before, roomId, userId, username, now);
    }

    method RemoveUser(roomId: RoomId, userId: UserId) returns (removed: bool)
      requires Valid()
      modifies this
      ensures Valid()
      ensures (removed, State()) == Leave(old(State()), roomId, userId)
    {
      ghost var before := State();
      LeaveKeepsValid(before, roomId, userId);
      if roomId !in rooms {
        return false;
      }
      var room := rooms[roomId];
      removed := userId in room.users;
      room := room.(users := room.users - {userId}, userOrder := Without(room.userOrder, userId));
      if |room.users| == 0 && roomId != DefaultRoomId {
        rooms := rooms - {roomId};
        roomOrder := Without(roomOrder, roomId);
      } else {
        rooms := rooms[roomId := room];
      }
    }

    function GetRoomUsers(roomId: RoomId): (r: seq<User>)
      requires Valid()
      reads this
      ensures roomId !in rooms ==> r == []
      ensures roomId in rooms ==>
        && |r| == |rooms[roomId].userOrder|
        && (forall i :: 0 <= i < |r| ==> r[i] == rooms[roomId].users[rooms[roomId].userOrder[i]])
        && (forall u :: u in r <==> u in rooms[roomId].users.Values)
    {
      RoomUsers(State(), roomId)
    }

    function GetUser(roomId: RoomId, userId: UserId): (r: Option<User>)
      reads this
      ensures r.Some? <==> roomId in rooms && userId in rooms[roomId].users
      ensures r.Some? ==> r.value == rooms[roomId].users[userId]
    {
      FindUser(State(), roomId, userId)
    }

    /** Adds up the member counts room by room, in the rooms' insertion order. */
    method GetTotalUsers() returns (total: nat)
      requires Valid()
      ensures total == TotalUsers(State())
    {
      total := 0;
      var i := 0;
      while i < |roomOrder|
        invariant 0 <= i <= |roomOrder|
        invariant total + SumSizes(rooms, roomOrder[i..]) == SumSizes(rooms, roomOrder)
      {
        assert roomOrder[i..][1..] == roomOrder[i + 1..];
        total := total + |rooms[roomOrder[i]].users|;
        i := i + 1;
      }
    }
  }
}
