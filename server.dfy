/**
 The server's state and its message handlers. The global `rooms` object is
 the `rooms` map of a `Server`; the timers armed with `setTimeout` are the
 pending callbacks in `timers`, each with the room code it closes over;
 everything written to a socket is appended to `outbox`. Each handler runs
 to completion, as in the source's single-threaded event loop.
 */
module TriviaServer {
  import opened Wrappers
  import opened Questions
  import opened Scoring
  import opened Scores
  import opened Ranking
  import opened Rooms

  class Server {
    /** The registry: room code to room record. */
    var rooms: map<string, Room>
    /** Timers armed and not yet cleared or fired, with the room code their
        callback looks up. */
    var timers: map<TimerId, string>
    /** The handle the next `setTimeout` returns. */
    var nextTimer: TimerId
    /** Every message sent so far, in order. */
    var outbox: seq<Delivery>

    ghost predicate Valid()
      reads this
    {
      && (forall code :: code in rooms ==> RoomValid(rooms[code]))
      && (forall t :: t in timers ==> t < nextTimer)
    }

    /** `let rooms = {}`. */
    constructor ()
      ensures Valid()
      ensures rooms == map[] && timers == map[] && outbox == []
    {
      rooms, timers, nextTimer, outbox := map[], map[], 0, [];
    }

    /** `socket.send(...)` to the connection a message came from. */
    method Reply(sock: SocketId, message: Outbound)
      modifies this`outbox
      ensures outbox == old(outbox) + [Deliver([sock], message)]
    {
      outbox := outbox + [Deliver([sock], message)];
    }

    /** `sendToRoom`: one message to every client of the room, if it exists. */
    method SendToRoom(code: string, message: Outbound)
      modifies this`outbox
      ensures outbox == old(outbox) + if code in rooms then [Deliver(Sockets(rooms[code].clients), message)] else []
    {
      if code in rooms {
        outbox := outbox + [Deliver(Sockets(rooms[code].clients), message)];
      }
    }

    /** `clearTimeout(handle)`; an absent handle is ignored. */
    method ClearTimeout(handle: Option<TimerId>)
      modifies this`timers
      ensures timers == if handle.Some? then old(timers) - {handle.value} else old(timers)
    {
      if handle.Some? {
        timers := timers - {handle.value};
      }
    }

    /** `sendNewQuestion`: stores the question composed from an admissible
        draw and the time it was issued, broadcasts its text and arms a new
        timer for the room. A timer armed earlier is not cleared here. */
    method SendNewQuestion(code: string, draw: Draw, now: int)
      requires Valid() && code in rooms
      requires Admissible(draw, rooms[code].difficulty)
      modifies this
      ensures Valid()
      ensures rooms == old(rooms)[code := Issue(old(rooms)[code], draw, now, old(nextTimer))]
      ensures old(nextTimer) !in old(timers)
      ensures timers == old(timers)[old(nextTimer) := code] && nextTimer == old(nextTimer) + 1
      ensures outbox == old(outbox) + [Deliver(Sockets(old(rooms)[code].clients), NewQuestion(Compose(draw).question))]
    {
      rooms := rooms[code := Issue(rooms[code], draw, now, nextTimer)];
      SendToRoom(code, NewQuestion(rooms[code].currentQuestion.value.question));
      timers := timers[nextTimer := code];
      nextTimer := nextTimer + 1;
    }

    /** `create-room`: stores a new room under `code`, replacing any room
        already there, with the sender as its only client. */
    method CreateRoom(sock: SocketId, code: string, username: string, difficulty: Option<string>)
      requires Valid()
      modifies this
      ensures Valid()
      ensures rooms == old(rooms)[code := NewRoom(sock, username, difficulty)]
      ensures timers == old(timers) && nextTimer == old(nextTimer)
      ensures outbox == old(outbox) + [Deliver([sock], RoomJoined(code))]
    {
      rooms := rooms[code := NewRoom(sock, username, difficulty)];
      Reply(sock, RoomJoined(code));
    }

    /** `join-room`: fails without any change when the room does not exist
        or the username is already a client's; otherwise appends the client
        with score 0, confirms to the sender and broadcasts the leaderboard. */
    method JoinRoom(sock: SocketId, code: string, username: string)
      requires Valid()
      modifies this
      ensures Valid()
      ensures timers == old(timers) && nextTimer == old(nextTimer)
      ensures code !in old(rooms) ==>
        rooms == old(rooms) && outbox == old(outbox) + [Deliver([sock], Error(RoomMissingText))]
      ensures code in old(rooms) && UsernameTaken(old(rooms)[code].clients, username) ==>
        rooms == old(rooms) && outbox == old(outbox) + [Deliver([sock], Error(UsernameTakenText))]
      ensures code in old(rooms) && !UsernameTaken(old(rooms)[code].clients, username) ==>
        && rooms == old(rooms)[code := Joined(old(rooms)[code], sock, username)]
        && outbox == old(outbox) + [Deliver([sock], RoomJoined(code)),
             Deliver(Sockets(rooms[code].clients), PlayerJoined(Leaderboard(rooms[code].scores)))]
    {
      if code !in rooms {
        Reply(sock, Error(RoomMissingText));
        return;
      }
      if UsernameTaken(rooms[code].clients, username) {
        Reply(sock, Error(UsernameTakenText));
        return;
      }
      rooms := rooms[code := Joined(rooms[code], sock, username)];
      Reply(sock, RoomJoined(code));
      SendToRoom(code, PlayerJoined(Leaderboard(rooms[code].scores)));
    }

    /** `start-game`: issues a question in an existing room, and does
        nothing for an unknown code. */
    method StartGame(code: string, draw: Draw, now: int)
      requires Valid()
      requires code in rooms ==> Admissible(draw, rooms[code].difficulty)
      modifies this
      ensures Valid()
      ensures code !in old(rooms) ==>
        rooms == old(rooms) && timers == old(timers) && nextTimer == old(nextTimer) && outbox == old(outbox)
      ensures code in old(rooms) ==>
        && rooms == old(rooms)[code := Issue(old(rooms)[code], draw, now, old(nextTimer))]
        && timers == old(timers)[old(nextTimer) := code] && nextTimer == old(nextTimer) + 1
        && outbox == old(outbox) + [Deliver(Sockets(old(rooms)[code].clients), NewQuestion(Compose(draw).question))]
    {
      if code !in rooms {
        return;
      }
      SendNewQuestion(code, draw, now);
    }

    /** `answer`: without a current question (or a room) the sender gets an
        error; a wrong answer gets a reply and changes nothing; a correct
        one credits the points left, broadcasts the leaderboard, clears the
        room's timer and issues the next question from `draw`. The handler
        reads the clock twice: `now` when it scores the answer and
        `issuedAt` when `sendNewQuestion` stamps the next question. */
    method Answer(sock: SocketId, code: string, username: string, answer: int, now: int, issuedAt: int, draw: Draw)
      requires Valid()
      requires code in rooms && rooms[code].currentQuestion.Some? && answer == rooms[code].currentQuestion.value.answer
        ==> Admissible(draw, rooms[code].difficulty)
      modifies this
      ensures Valid()
      ensures code !in old(rooms) || old(rooms)[code].currentQuestion.None? ==>
        && rooms == old(rooms) && timers == old(timers) && nextTimer == old(nextTimer)
        && outbox == old(outbox) + [Deliver([sock], Error(NoQuestionText))]
      ensures (code in old(rooms) && old(rooms)[code].currentQuestion.Some? &&
               answer != old(rooms)[code].currentQuestion.value.answer) ==>
        && rooms == old(rooms) && timers == old(timers) && nextTimer == old(nextTimer)
        && outbox == old(outbox) + [Deliver([sock], IncorrectAnswer(WrongAnswerText))]
      ensures (code in old(rooms) && old(rooms)[code].currentQuestion.Some? &&
               answer == old(rooms)[code].currentQuestion.value.answer) ==>
        var room := old(rooms)[code];
        var points := Points(now, room.questionStartTime.value);
        var credited := room.(scores := Credit(room.scores, username, points));
        && rooms == old(rooms)[code := Issue(credited, draw, issuedAt, old(nextTimer))]
        && timers == (if room.questionTimer.Some? then old(timers) - {room.questionTimer.value} else old(timers))[old(nextTimer) := code]
        && nextTimer == old(nextTimer) + 1
        && outbox == old(outbox) + [
             Deliver(Sockets(room.clients), CorrectAnswer(username, Leaderboard(credited.scores), points)),
             Deliver(Sockets(room.clients), NewQuestion(Compose(draw).question))]
    {
      if code !in rooms || rooms[code].currentQuestion.None? {
        Reply(sock, Error(NoQuestionText));
        return;
      }
      if answer == rooms[code].currentQuestion.value.answer {
        AnswerCorrect(code, username, now, issuedAt, draw);
      } else {
        Reply(sock, IncorrectAnswer(WrongAnswerText));
      }
    }

    /** The branch of `answer` taken on a correct answer. */
    method AnswerCorrect(code: string, username: string, now: int, issuedAt: int, draw: Draw)
      requires Valid() && code in rooms && rooms[code].currentQuestion.Some?
      requires Admissible(draw, rooms[code].difficulty)
      modifies this
      ensures Valid()
      ensures
        var room := old(rooms)[code];
        var points := Points(now, room.questionStartTime.value);
        var credited := room.(scores := Credit(room.scores, username, points));
        && rooms == old(rooms)[code := Issue(credited, draw, issuedAt, old(nextTimer))]
        && timers == (if room.questionTimer.Some? then old(timers) - {room.questionTimer.value} else old(timers))[old(nextTimer) := code]
        && nextTimer == old(nextTimer) + 1
        && outbox == old(outbox) + [
             Deliver(Sockets(room.clients), CorrectAnswer(username, Leaderboard(credited.scores), points)),
             Deliver(Sockets(room.clients), NewQuestion(Compose(draw).question))]
    {
      ghost var room := rooms[code];
      ghost var credited := room.(scores := Credit(room.scores, username, Points(now, room.questionStartTime.value)));
      ghost var rooms0 := rooms;
      CreditAnswer(code, username, now);
      assert rooms == rooms0[code := credited];
      SendNewQuestion(code, draw, issuedAt);
      assert rooms == rooms0[code := credited][code := Issue(credited, draw, issuedAt, old(nextTimer))];
    }

    /** The first half of a correct answer: the points are credited, the
        room gets the leaderboard and the room's timer is cleared. */
    method CreditAnswer(code: string, username: string, now: int)
      requires Valid() && code in rooms && rooms[code].currentQuestion.Some?
      modifies this
      ensures Valid()
      ensures
        var room := old(rooms)[code];
        var points := Points(now, room.questionStartTime.value);
        var credited := room.(scores := Credit(room.scores, username, points));
        && rooms == old(rooms)[code := credited]
        && timers == (if room.questionTimer.Some? then old(timers) - {room.questionTimer.value} else old(timers))
        && nextTimer == old(nextTimer)
        && outbox == old(outbox) + [Deliver(Sockets(room.clients), CorrectAnswer(username, Leaderboard(credited.scores), points))]
    {
      var room := rooms[code];
      var points := Points(now, room.questionStartTime.value);
      var credited := room.(scores := Credit(room.scores, username, points));
      assert RoomValid(credited);
      rooms := rooms[code := credited];
      SendToRoom(code, CorrectAnswer(username, Leaderboard(credited.scores), points));
      ClearTimeout(room.questionTimer);
    }

    /** The callback of a timer that fires: if its room still exists, the
        room is told time is up and gets a new question. */
    method TimerFired(handle: TimerId, draw: Draw, now: int)
      requires Valid() && handle in timers
      requires timers[handle] in rooms ==> Admissible(draw, rooms[timers[handle]].difficulty)
      modifies this
      ensures Valid()
      ensures old(timers)[handle] !in old(rooms) ==>
        && rooms == old(rooms) && timers == old(timers) - {handle}
        && nextTimer == old(nextTimer) && outbox == old(outbox)
      ensures old(timers)[handle] in old(rooms) ==>
        var code := old(timers)[handle];
        var room := old(rooms)[code];
        && rooms == old(rooms)[code := Issue(room, draw, now, old(nextTimer))]
        && timers == (old(timers) - {handle})[old(nextTimer) := code]
        && nextTimer == old(nextTimer) + 1
        && outbox == old(outbox) + [Deliver(Sockets(room.clients), TimeUp),
             Deliver(Sockets(room.clients), NewQuestion(Compose(draw).question))]
    {
      var code := timers[handle];
      timers := timers - {handle};
      if code in rooms {
        SendToRoom(code, TimeUp);
        SendNewQuestion(code, draw, now);
      }
    }

    /** The close handler's visit of one room: if `sock` has a client in
        it, those clients go, the first one's score is deleted and the room
        gets the new leaderboard; a room left empty has its timer cleared
        and is deleted. */
    method CloseRoom(sock: SocketId, code: string)
      requires Valid() && code in rooms
      modifies this
      ensures Valid()
      ensures var room := old(rooms)[code];
        && rooms == Visit(old(rooms), sock, code)
        && timers == old(timers) - TimerCleared(room, sock)
        && outbox == old(outbox) + (if HasSocket(room.clients, sock) then [LeftNotice(room, sock)] else [])
      ensures nextTimer == old(nextTimer)
    {
      var room := rooms[code];
      var found := FindBySocket(room.clients, sock);
      if found < |room.clients| {
        assert HasSocket(room.clients, sock);
        var left := Left(room, sock);
        rooms := rooms[code := left];
        SendToRoom(code, PlayerLeft(Leaderboard(left.scores)));
        if |left.clients| == 0 {
          ClearTimeout(room.questionTimer);
          rooms := rooms - {code};
        }
      }
      VisitKeepsValid(old(rooms), sock, code);
    }

    /** The `close` handler. `keys` is the order in which `Object.keys`
        lists the registry's codes. Every room holding the socket loses its
        clients on it and the score of the first one found, and broadcasts
        the new leaderboard; a room left without clients has its timer
        cleared and is deleted. */
    method Close(sock: SocketId, keys: seq<string>)
      requires Valid()
      requires forall code :: code in rooms <==> code in keys
      requires forall i, j :: 0 <= i < j < |keys| ==> keys[i] != keys[j]
      modifies this
      ensures Valid()
      ensures rooms == AfterClose(old(rooms), sock)
      ensures timers == old(timers) - ClosedTimers(old(rooms), sock, keys)
      ensures nextTimer == old(nextTimer)
      ensures outbox == old(outbox) + LeftNotices(old(rooms), sock, LeftCodes(old(rooms), sock, keys))
    {
      ghost var rooms0, timers0, outbox0 := rooms, timers, outbox;
      var i := 0;
      while i < |keys|
        invariant 0 <= i <= |keys|
        invariant Visiting(sock, keys, i, rooms0, timers0, outbox0)
        invariant nextTimer == old(nextTimer)
      {
        CloseNext(sock, keys, i, rooms0, timers0, outbox0);
        i := i + 1;
      }
      assert keys[..|keys|] == keys;
      VisitedAll(rooms0, sock, keys);
      TimersAfterVisitsAre(timers0, rooms0, sock, keys);
    }

    /** The state of the close handler once it has visited the first `i`
        codes of `keys`, starting from `rooms0`, `timers0` and `outbox0`. */
    ghost predicate Visiting(sock: SocketId, keys: seq<string>, i: nat, rooms0: map<string, Room>,
                             timers0: map<TimerId, string>, outbox0: seq<Delivery>)
      reads this
    {
      && i <= |keys|
      && (forall k :: 0 <= k < |keys| ==> keys[k] in rooms0)
      && Valid()
      && rooms == Visited(rooms0, sock, keys[..i])
      && timers == TimersAfterVisits(timers0, rooms0, sock, keys[..i])
      && outbox == outbox0 + LeftNotices(rooms0, sock, LeftCodes(rooms0, sock, keys[..i]))
    }

    /** One visit of the close handler's loop. */
    method CloseNext(sock: SocketId, keys: seq<string>, i: nat, ghost rooms0: map<string, Room>,
                     ghost timers0: map<TimerId, string>, ghost outbox0: seq<Delivery>)
      requires i < |keys| && (forall j, k :: 0 <= j < k < |keys| ==> keys[j] != keys[k])
      requires Visiting(sock, keys, i, rooms0, timers0, outbox0)
      modifies this
      ensures Visiting(sock, keys, i + 1, rooms0, timers0, outbox0)
      ensures nextTimer == old(nextTimer)
    {
      assert keys[i] !in keys[..i];
      VisitedUntouched(rooms0, sock, keys[..i], keys[i]);
      CloseRoom(sock, keys[i]);
      CloseStep(rooms0, timers0, sock, keys, i);
    }
  }

  /** What the close handler's visit of `keys[i]` adds to the timers it
      clears and to the rooms it notifies. */
  lemma CloseStep(rooms: map<string, Room>, timers: map<TimerId, string>, sock: SocketId, keys: seq<string>, i: nat)
    requires i < |keys| && forall k :: 0 <= k < |keys| ==> keys[k] in rooms
    ensures TimersAfterVisits(timers, rooms, sock, keys[..i + 1]) ==
      TimersAfterVisits(timers, rooms, sock, keys[..i]) - TimerCleared(rooms[keys[i]], sock)
    ensures Visited(rooms, sock, keys[..i + 1]) == Visit(Visited(rooms, sock, keys[..i]), sock, keys[i])
    ensures ClosedTimers(rooms, sock, keys[..i + 1]) == ClosedTimers(rooms, sock, keys[..i]) + TimerCleared(rooms[keys[i]], sock)
    ensures LeftNotices(rooms, sock, LeftCodes(rooms, sock, keys[..i + 1])) ==
      LeftNotices(rooms, sock, LeftCodes(rooms, sock, keys[..i])) +
        if HasSocket(rooms[keys[i]].clients, sock) then [LeftNotice(rooms[keys[i]], sock)] else []
  {
    assert keys[..i + 1][..i] == keys[..i];
    if HasSocket(rooms[keys[i]].clients, sock) {
      LeftNoticesAppend(rooms, sock, LeftCodes(rooms, sock, keys[..i]), keys[i]);
    }
  }
}
