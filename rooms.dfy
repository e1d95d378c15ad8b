/**
 The room records of the registry and the messages the server sends, as
 values, with the room-level updates each handler makes and the functions
 that specify what the close handler leaves behind.
 */
module Rooms {
  import opened Wrappers
  import opened Questions
  import opened Scores
  import opened Ranking

  /** Identity of a connection; the source compares socket objects. */
  type SocketId = nat

  /** Handle returned by `setTimeout`. */
  type TimerId = nat

  datatype Client = Client(socket: SocketId, username: string)

  /** A room record. `questionStartTime` stays `None` (the source leaves the
      property undefined) until the first question is issued, and
      `questionTimer` is the last timer armed for the room. */
  datatype Room = Room(
    clients: seq<Client>,
    scores: Table,
    currentQuestion: Option<Question>,
    questionStartTime: Option<int>,
    difficulty: string,
    questionTimer: Option<TimerId>)

  /** The outbound message shapes. */
  datatype Outbound =
    | RoomJoined(roomCode: string)
    | Error(message: string)
    | PlayerJoined(players: seq<Entry>)
    | PlayerLeft(players: seq<Entry>)
    | NewQuestion(question: string)
    | TimeUp
    | CorrectAnswer(correctPlayer: string, leaderboard: seq<Entry>, points: int)
    | IncorrectAnswer(message: string)

  /** One message handed to the transport, with the sockets it goes to. */
  datatype Delivery = Deliver(to: seq<SocketId>, message: Outbound)

  const RoomMissingText := "Room does not exist!"
  const UsernameTakenText := "Username already taken in this room!"
  const NoQuestionText := "No active question!"
  const WrongAnswerText := "Wrong answer, try again!"

  /** The sockets `sendToRoom` writes to, in client order. */
  function Sockets(clients: seq<Client>): seq<SocketId>
  {
    seq(|clients|, i requires 0 <= i < |clients| => clients[i].socket)
  }

  /** `clients.some(client => client.username === username)`. */
  predicate UsernameTaken(clients: seq<Client>, username: string)
  {
    exists i :: 0 <= i < |clients| && clients[i].username == username
  }

  predicate HasSocket(clients: seq<Client>, sock: SocketId)
  {
    exists i :: 0 <= i < |clients| && clients[i].socket == sock
  }

  /** Index of `clients.find(client => client.socket === socket)`, or
      |clients| when there is none. */
  function FindBySocket(clients: seq<Client>, sock: SocketId): (i: nat)
    ensures i <= |clients|
    ensures i < |clients| ==> clients[i].socket == sock
    ensures forall k :: 0 <= k < i ==> clients[k].socket != sock
  {
    if clients == [] || clients[0].socket == sock then 0 else 1 + FindBySocket(clients[1..], sock)
  }

  /** `clients.filter(client => client.socket !== socket)`. */
  function WithoutSocket(clients: seq<Client>, sock: SocketId): (r: seq<Client>)
    ensures forall c :: c in r <==> c in clients && c.socket != sock
    ensures |r| <= |clients|
  {
    if clients == [] then []
    else (if clients[0].socket != sock then [clients[0]] else []) + WithoutSocket(clients[1..], sock)
  }

  /** `filter` keeps the clients it keeps in their order: filtering a
      concatenation concatenates the filtered parts. */
  lemma {:induction false} WithoutSocketAppend(a: seq<Client>, b: seq<Client>, sock: SocketId)
    ensures WithoutSocket(a + b, sock) == WithoutSocket(a, sock) + WithoutSocket(b, sock)
    decreases |a|
  {
    if a != [] {
      assert (a + b)[1..] == a[1..] + b;
      WithoutSocketAppend(a[1..], b, sock);
    } else {
      assert a + b == b;
    }
  }

  /** What every room in the registry satisfies. */
  predicate RoomValid(room: Room)
  {
    && |room.clients| > 0
    && Distinct(room.scores)
    && (room.currentQuestion.Some? ==> room.questionStartTime.Some?)
    && (room.currentQuestion.Some? ==> EvalText(room.currentQuestion.value.question) == Some(room.currentQuestion.value.answer))
    && UniqueNames(room.clients)
  }

  /** The room `create-room` stores: the creator as sole client with score
      0, no question yet, the requested difficulty or "basic". */
  function NewRoom(sock: SocketId, username: string, difficulty: Option<string>): (room: Room)
    ensures RoomValid(room)
    ensures Sockets(room.clients) == [sock] && UsernameTaken(room.clients, username) && UniqueNames(room.clients)
    ensures Lookup(room.scores, username) == Some(0) && |room.scores| == 1
    ensures OperandRange(room.difficulty) == OperandRange(if difficulty.Some? then difficulty.value else "basic")
    ensures room.currentQuestion.None? && room.questionTimer.None?
  {
    var room := Room([], [], None, None, StoredDifficulty(difficulty), None);
    assert (room.clients + [Client(sock, username)])[0].username == username;
    room.(clients := room.clients + [Client(sock, username)], scores := Put(room.scores, username, 0))
  }

  /** The room after `join-room` succeeds: one client appended, its score
      set to 0, everything else as it was. */
  function Joined(room: Room, sock: SocketId, username: string): (r: Room)
    ensures |r.clients| == |room.clients| + 1 && r.clients[..|room.clients|] == room.clients
    ensures r.clients[|room.clients|] == Client(sock, username)
    ensures Lookup(r.scores, username) == Some(0)
    ensures forall other :: other != username ==> Lookup(r.scores, other) == Lookup(room.scores, other)
    ensures r.currentQuestion == room.currentQuestion && r.questionTimer == room.questionTimer
    ensures r.difficulty == room.difficulty && r.questionStartTime == room.questionStartTime
    ensures r.scores == Put(room.scores, username, 0)
    ensures RoomValid(room) && !UsernameTaken(room.clients, username) ==> RoomValid(r)
  {
    room.(clients := room.clients + [Client(sock, username)], scores := Put(room.scores, username, 0))
  }

  /** No two clients of a room share a username. */
  predicate UniqueNames(clients: seq<Client>)
  {
    forall i, j :: 0 <= i < j < |clients| ==> clients[i].username != clients[j].username
  }

  /** `join-room` admits only a name that is not taken, so a room's
      usernames stay unique, and the names taken afterwards are the old
      ones and the new one. */
  lemma JoinKeepsNamesUnique(room: Room, sock: SocketId, username: string)
    requires UniqueNames(room.clients) && !UsernameTaken(room.clients, username)
    ensures UniqueNames(Joined(room, sock, username).clients)
    ensures forall name :: UsernameTaken(Joined(room, sock, username).clients, name) <==>
      UsernameTaken(room.clients, name) || name == username
  {
    var c := Joined(room, sock, username).clients;
    forall name | UsernameTaken(c, name) ensures UsernameTaken(room.clients, name) || name == username {
      var i :| 0 <= i < |c| && c[i].username == name;
      if i < |room.clients| {
        assert room.clients[i] == c[i];
      }
    }
    forall name | UsernameTaken(room.clients, name) ensures UsernameTaken(c, name) {
      var i :| 0 <= i < |room.clients| && room.clients[i].username == name;
      assert c[i] == room.clients[i];
    }
    assert c[|room.clients|].username == username;
  }

  /** Dropping the clients on a socket keeps a room's usernames unique. */
  lemma {:induction false} WithoutSocketKeepsNamesUnique(clients: seq<Client>, sock: SocketId)
    requires UniqueNames(clients)
    ensures UniqueNames(WithoutSocket(clients, sock))
  {
    if clients != [] {
      var rest := WithoutSocket(clients[1..], sock);
      WithoutSocketKeepsNamesUnique(clients[1..], sock);
      forall k | 0 <= k < |rest| ensures rest[k].username != clients[0].username {
        assert rest[k] in rest;
        var j :| 0 <= j < |clients[1..]| && clients[1..][j] == rest[k];
        assert clients[j + 1] == rest[k];
      }
    }
  }

  /** The room with a newly issued question and the timer armed for it. */
  function Issue(room: Room, d: Draw, now: int, timer: TimerId): (r: Room)
    requires d.num1 >= 1 && d.num2 >= 1
    ensures RoomValid(room) ==> RoomValid(r)
  {
    room.(currentQuestion := Some(Compose(d)), questionStartTime := Some(now), questionTimer := Some(timer))
  }

  /** The username of the client that leaves when `sock` closes. */
  function LeavingName(room: Room, sock: SocketId): string
    requires HasSocket(room.clients, sock)
  {
    room.clients[FindBySocket(room.clients, sock)].username
  }

  /** The room after the close handler handled `sock` in it: every client
      on that socket gone, and the score of the first one found deleted. */
  function Left(room: Room, sock: SocketId): (r: Room)
    requires HasSocket(room.clients, sock)
    ensures !HasSocket(r.clients, sock)
    ensures forall c :: c in r.clients <==> c in room.clients && c.socket != sock
    ensures Distinct(room.scores) ==> Lookup(r.scores, LeavingName(room, sock)) == None
    ensures forall other :: other != LeavingName(room, sock) ==> Lookup(r.scores, other) == Lookup(room.scores, other)
    ensures r.currentQuestion == room.currentQuestion && r.questionTimer == room.questionTimer
    ensures r.difficulty == room.difficulty && r.questionStartTime == room.questionStartTime
    ensures Distinct(room.scores) ==> Distinct(r.scores)
    ensures r.clients == WithoutSocket(room.clients, sock)
    ensures r.scores == Remove(room.scores, LeavingName(room, sock))
    ensures UniqueNames(room.clients) ==> UniqueNames(r.clients)
  {
    var r := room.(clients := WithoutSocket(room.clients, sock), scores := Remove(room.scores, LeavingName(room, sock)));
    assert forall i :: 0 <= i < |r.clients| ==> r.clients[i] in r.clients;
    assert UniqueNames(room.clients) ==> UniqueNames(r.clients) by {
      if UniqueNames(room.clients) {
        WithoutSocketKeepsNamesUnique(room.clients, sock);
      }
    }
    r
  }

  /** The close of `sock` leaves `room` without clients. */
  predicate Emptied(room: Room, sock: SocketId)
  {
    HasSocket(room.clients, sock) && |WithoutSocket(room.clients, sock)| == 0
  }

  /** A room is emptied exactly when it holds the socket and every one of
      its clients is on it. */
  lemma EmptiedIff(room: Room, sock: SocketId)
    ensures Emptied(room, sock) <==>
      |room.clients| > 0 && forall i :: 0 <= i < |room.clients| ==> room.clients[i].socket == sock
  {
    var w := WithoutSocket(room.clients, sock);
    if |w| > 0 {
      assert w[0] in w;
    }
    if |w| == 0 {
      forall i | 0 <= i < |room.clients| ensures room.clients[i].socket == sock {
        assert room.clients[i] in room.clients;
        assert room.clients[i] !in w;
      }
    }
    if |room.clients| > 0 {
      assert room.clients[0] in room.clients;
    }
  }

  /** The registry after the close handler: each room holding `sock` loses
      those clients and, when none remain, is deleted; other rooms stay. */
  function AfterClose(rooms: map<string, Room>, sock: SocketId): (r: map<string, Room>)
    ensures forall code :: code in r ==> code in rooms && !HasSocket(r[code].clients, sock)
    ensures forall code :: code in rooms && !HasSocket(rooms[code].clients, sock) ==> code in r && r[code] == rooms[code]
    ensures forall code :: code in rooms && HasSocket(rooms[code].clients, sock) ==>
      (code in r <==> !Emptied(rooms[code], sock))
    ensures forall code :: code in r && HasSocket(rooms[code].clients, sock) ==> r[code] == Left(rooms[code], sock)
    ensures (forall code :: code in rooms ==> RoomValid(rooms[code])) ==> forall code :: code in r ==> RoomValid(r[code])
  {
    var r := map code | code in rooms && !Emptied(rooms[code], sock) ::
      if HasSocket(rooms[code].clients, sock) then Left(rooms[code], sock) else rooms[code];
    assert forall code :: code in r && HasSocket(rooms[code].clients, sock) ==>
      |r[code].clients| == |WithoutSocket(rooms[code].clients, sock)|;
    r
  }

  /** The registry after the close handler has visited `code`: a room
      holding the socket loses its clients on it, and is deleted when that
      leaves it empty. */
  function Visit(rooms: map<string, Room>, sock: SocketId, code: string): map<string, Room>
  {
    if code !in rooms || !HasSocket(rooms[code].clients, sock) then rooms
    else if Emptied(rooms[code], sock) then rooms - {code}
    else rooms[code := Left(rooms[code], sock)]
  }

  /** Filtering out a socket that has no client in the list keeps every
      client. */
  lemma {:induction false} WithoutAbsentSocket(clients: seq<Client>, sock: SocketId)
    requires !HasSocket(clients, sock)
    ensures WithoutSocket(clients, sock) == clients
  {
    if clients != [] {
      assert clients[0].socket != sock;
      assert !HasSocket(clients[1..], sock) by {
        forall i | 0 <= i < |clients[1..]| ensures clients[1..][i].socket != sock {
          assert clients[1..][i] == clients[i + 1];
        }
      }
      WithoutAbsentSocket(clients[1..], sock);
      assert clients == [clients[0]] + clients[1..];
    }
  }

  /** What a visit of `code` does: no other room changes, and the visited
      room keeps exactly the clients not on `sock`, disappearing when none
      are left after it held the socket. */
  lemma VisitEffect(rooms: map<string, Room>, sock: SocketId, code: string)
    ensures Visit(rooms, sock, code).Keys <= rooms.Keys
    ensures forall c :: c in rooms && c != code ==> c in Visit(rooms, sock, code) && Visit(rooms, sock, code)[c] == rooms[c]
    ensures code in rooms ==>
      (code !in Visit(rooms, sock, code) <==> HasSocket(rooms[code].clients, sock) && WithoutSocket(rooms[code].clients, sock) == [])
    ensures code in Visit(rooms, sock, code) ==>
      Visit(rooms, sock, code)[code].clients == WithoutSocket(rooms[code].clients, sock)
  {
    if code in rooms && !HasSocket(rooms[code].clients, sock) {
      WithoutAbsentSocket(rooms[code].clients, sock);
    }
  }

  /** A visit keeps every room of the registry valid. */
  lemma VisitKeepsValid(rooms: map<string, Room>, sock: SocketId, code: string)
    requires forall c :: c in rooms ==> RoomValid(rooms[c])
    ensures forall c :: c in Visit(rooms, sock, code) ==> RoomValid(Visit(rooms, sock, code)[c])
  {
    if code in rooms && HasSocket(rooms[code].clients, sock) && !Emptied(rooms[code], sock) {
      assert |Left(rooms[code], sock).clients| > 0;
    }
  }

  /** The registry after the close handler has visited `keys` in order. */
  function Visited(rooms: map<string, Room>, sock: SocketId, keys: seq<string>): map<string, Room>
  {
    if keys == [] then rooms
    else Visit(Visited(rooms, sock, keys[..|keys| - 1]), sock, keys[|keys| - 1])
  }

  /** A room not among the visited codes is as it was. */
  lemma {:induction false} VisitedUntouched(rooms: map<string, Room>, sock: SocketId, keys: seq<string>, code: string)
    requires code !in keys
    ensures code in Visited(rooms, sock, keys) <==> code in rooms
    ensures code in rooms ==> Visited(rooms, sock, keys)[code] == rooms[code]
  {
    if keys != [] {
      assert keys[..|keys| - 1] + [keys[|keys| - 1]] == keys;
      VisitedUntouched(rooms, sock, keys[..|keys| - 1], code);
    }
  }

  /** Visiting distinct codes of the registry deletes a visited room
      exactly when the close empties it, and replaces a visited room holding
      the socket by what is left of it. */
  lemma {:induction false} VisitedAt(rooms: map<string, Room>, sock: SocketId, keys: seq<string>, code: string)
    requires forall i :: 0 <= i < |keys| ==> keys[i] in rooms
    requires forall i, j :: 0 <= i < j < |keys| ==> keys[i] != keys[j]
    ensures code in Visited(rooms, sock, keys) <==> code in rooms && !(code in keys && Emptied(rooms[code], sock))
    ensures code in Visited(rooms, sock, keys) ==>
      Visited(rooms, sock, keys)[code] ==
        if code in keys && HasSocket(rooms[code].clients, sock) then Left(rooms[code], sock) else rooms[code]
  {
    if keys != [] {
      var init, last := keys[..|keys| - 1], keys[|keys| - 1];
      assert keys == init + [last];
      if code == last {
        assert last !in init;
        VisitedUntouched(rooms, sock, init, last);
      } else {
        assert code in keys <==> code in init;
        VisitedAt(rooms, sock, init, code);
      }
    }
  }

  /** Visiting every code of the registry, each once, yields `AfterClose`. */
  lemma VisitedAll(rooms: map<string, Room>, sock: SocketId, keys: seq<string>)
    requires forall code :: code in rooms <==> code in keys
    requires forall i, j :: 0 <= i < j < |keys| ==> keys[i] != keys[j]
    ensures Visited(rooms, sock, keys) == AfterClose(rooms, sock)
  {
    var v, a := Visited(rooms, sock, keys), AfterClose(rooms, sock);
    forall code
      ensures code in v <==> code in a
      ensures code in v ==> v[code] == a[code]
    {
      VisitedAt(rooms, sock, keys, code);
    }
  }

  /** A timer the close handler clears when it visits `room`: the room's
      timer, if the room is deleted. */
  function TimerCleared(room: Room, sock: SocketId): set<TimerId>
  {
    if Emptied(room, sock) && room.questionTimer.Some? then {room.questionTimer.value} else {}
  }

  /** The timers the close handler clears while visiting `keys`. */
  function ClosedTimers(rooms: map<string, Room>, sock: SocketId, keys: seq<string>): set<TimerId>
    requires forall i :: 0 <= i < |keys| ==> keys[i] in rooms
  {
    if keys == [] then {}
    else ClosedTimers(rooms, sock, keys[..|keys| - 1]) + TimerCleared(rooms[keys[|keys| - 1]], sock)
  }

  /** The pending timers left once the close handler has visited `keys`. */
  function TimersAfterVisits<V>(timers: map<TimerId, V>, rooms: map<string, Room>, sock: SocketId, keys: seq<string>): map<TimerId, V>
    requires forall i :: 0 <= i < |keys| ==> keys[i] in rooms
  {
    if keys == [] then timers
    else TimersAfterVisits(timers, rooms, sock, keys[..|keys| - 1]) - TimerCleared(rooms[keys[|keys| - 1]], sock)
  }

  /** Clearing room by room removes exactly `ClosedTimers`. */
  lemma {:induction false} TimersAfterVisitsAre<V>(timers: map<TimerId, V>, rooms: map<string, Room>, sock: SocketId, keys: seq<string>)
    requires forall i :: 0 <= i < |keys| ==> keys[i] in rooms
    ensures TimersAfterVisits(timers, rooms, sock, keys) == timers - ClosedTimers(rooms, sock, keys)
  {
    if keys != [] {
      TimersAfterVisitsAre(timers, rooms, sock, keys[..|keys| - 1]);
    }
  }

  /** The cleared timers are exactly those of the visited rooms that the
      close leaves empty. */
  lemma {:induction false} ClosedTimersAre(rooms: map<string, Room>, sock: SocketId, keys: seq<string>)
    requires forall i :: 0 <= i < |keys| ==> keys[i] in rooms
    ensures forall t :: t in ClosedTimers(rooms, sock, keys) <==>
      exists i :: 0 <= i < |keys| && Emptied(rooms[keys[i]], sock) && rooms[keys[i]].questionTimer == Some(t)
  {
    if keys != [] {
      var init := keys[..|keys| - 1];
      ClosedTimersAre(rooms, sock, init);
      assert forall i :: 0 <= i < |init| ==> init[i] == keys[i];
    }
  }

  /** The `player-left` message a room holding `sock` broadcasts: to the
      clients that remain, with the leaderboard of the remaining scores. */
  function LeftNotice(room: Room, sock: SocketId): Delivery
    requires HasSocket(room.clients, sock)
  {
    var r := Left(room, sock);
    Deliver(Sockets(r.clients), PlayerLeft(Leaderboard(r.scores)))
  }

  /** The keys, in visiting order, of the rooms that hold `sock`: the rooms
      in which the close handler finds the disconnected player. */
  function LeftCodes(rooms: map<string, Room>, sock: SocketId, keys: seq<string>): (r: seq<string>)
    requires forall i :: 0 <= i < |keys| ==> keys[i] in rooms
    ensures |r| <= |keys|
    ensures forall code :: code in r <==> code in keys && HasSocket(rooms[code].clients, sock)
    ensures forall i :: 0 <= i < |r| ==> r[i] in rooms && HasSocket(rooms[r[i]].clients, sock)
  {
    if keys == [] then []
    else
      var last := keys[|keys| - 1];
      var earlier := LeftCodes(rooms, sock, keys[..|keys| - 1]);
      assert keys == keys[..|keys| - 1] + [last];
      earlier + (if HasSocket(rooms[last].clients, sock) then [last] else [])
  }

  /** The rooms holding the socket are listed in visiting order: the codes
      of a concatenation are those of its parts, one after the other. */
  lemma {:induction false} LeftCodesAppend(rooms: map<string, Room>, sock: SocketId, a: seq<string>, b: seq<string>)
    requires forall i :: 0 <= i < |a| ==> a[i] in rooms
    requires forall i :: 0 <= i < |b| ==> b[i] in rooms
    ensures forall i :: 0 <= i < |a + b| ==> (a + b)[i] in rooms
    ensures LeftCodes(rooms, sock, a + b) == LeftCodes(rooms, sock, a) + LeftCodes(rooms, sock, b)
    decreases |b|
  {
    assert forall i :: 0 <= i < |a + b| ==> (a + b)[i] in rooms by {
      forall i | 0 <= i < |a + b| ensures (a + b)[i] in rooms {
        if i < |a| { assert (a + b)[i] == a[i]; } else { assert (a + b)[i] == b[i - |a|]; }
      }
    }
    if b == [] {
      assert a + b == a;
    } else {
      var init := b[..|b| - 1];
      assert (a + b)[..|a + b| - 1] == a + init;
      assert (a + b)[|a + b| - 1] == b[|b| - 1];
      LeftCodesAppend(rooms, sock, a, init);
    }
  }

  /** The `player-left` broadcasts of the rooms `codes`, in that order. */
  function LeftNotices(rooms: map<string, Room>, sock: SocketId, codes: seq<string>): (r: seq<Delivery>)
    requires forall i :: 0 <= i < |codes| ==> codes[i] in rooms && HasSocket(rooms[codes[i]].clients, sock)
  {
    seq(|codes|, i requires 0 <= i < |codes| => LeftNotice(rooms[codes[i]], sock))
  }

  lemma LeftNoticesAppend(rooms: map<string, Room>, sock: SocketId, codes: seq<string>, code: string)
    requires forall i :: 0 <= i < |codes| ==> codes[i] in rooms && HasSocket(rooms[codes[i]].clients, sock)
    requires code in rooms && HasSocket(rooms[code].clients, sock)
    ensures LeftNotices(rooms, sock, codes + [code]) == LeftNotices(rooms, sock, codes) + [LeftNotice(rooms[code], sock)]
  {
  }
}
