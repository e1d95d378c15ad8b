/**
 Runs of the server through its handlers: a wrong and a right answer in
 a basic room, and the last player of a room disconnecting.
 */
module Scenarios {
  import opened Wrappers
  import opened Questions
  import opened Scoring
  import opened Scores
  import opened Rooms
  import opened TriviaServer

  /** Room "ABCDE", basic tier, question "3 + 4" issued at t = 1000: an
      answer of 8 is refused and the question stays. */
  method WrongAnswer() returns (shown: string, reply: Outbound, after: string)
    ensures shown == "3 + 4" && after == "3 + 4"
    ensures reply == IncorrectAnswer(WrongAnswerText)
  {
    var server := new Server();
    server.CreateRoom(1, "ABCDE", "ann", Some("basic"));
    server.StartGame("ABCDE", Draw(Add, 3, 4), 1000);
    ThreePlusFour();
    shown := server.rooms["ABCDE"].currentQuestion.value.question;
    server.Answer(1, "ABCDE", "ann", 8, 3000, 3000, Draw(Add, 1, 1));
    reply := server.outbox[|server.outbox| - 1].message;
    after := server.rooms["ABCDE"].currentQuestion.value.question;
  }

  /** The same room: an answer of 7 at t = 5500, with 15500 ms of the
      budget left, earns 15 points, and the next question is stamped with
      the clock's second reading, t = 5501. */
  method RightAnswer() returns (points: int, score: Option<int>, next: string, nextIssued: Option<int>)
    ensures points == 15 && score == Some(15)
    ensures next == "2 * 5" && nextIssued == Some(5501)
  {
    var server := new Server();
    server.CreateRoom(1, "ABCDE", "ann", Some("basic"));
    ghost var created := server.rooms["ABCDE"];
    assert Lookup(created.scores, "ann") == Some(0);
    server.StartGame("ABCDE", Draw(Add, 3, 4), 1000);
    ThreePlusFour();
    TwoTimesFive();
    FifteenPointsLeft();
    server.Answer(1, "ABCDE", "ann", 7, 5500, 5501, Draw(Mul, 2, 5));
    points := server.outbox[|server.outbox| - 2].message.points;
    assert server.rooms["ABCDE"].scores == Credit(created.scores, "ann", 15);
    score := Lookup(server.rooms["ABCDE"].scores, "ann");
    next := server.rooms["ABCDE"].currentQuestion.value.question;
    nextIssued := server.rooms["ABCDE"].questionStartTime;
  }

  /** The draw (+, 3, 4) shows "3 + 4" with answer 7. */
  lemma ThreePlusFour()
    ensures Compose(Draw(Add, 3, 4)) == Question("3 + 4", 7)
  {
    assert Digits(3) == "3" && Digits(4) == "4";
  }

  /** The draw (*, 2, 5) shows "2 * 5". */
  lemma TwoTimesFive()
    ensures Compose(Draw(Mul, 2, 5)) == Question("2 * 5", 10)
  {
    assert Digits(2) == "2" && Digits(5) == "5";
  }

  /** Answered 4500 ms after issue, a question earns 15 points. */
  lemma FifteenPointsLeft()
    ensures Points(5500, 1000) == 15
  {
  }

  /** The only player of room "XYZ12" disconnects while a question is
      pending: the room is deleted, its timer is cleared, and nobody is
      left to notify. */
  method LastPlayerLeaves() returns (roomGone: bool, timerCleared: bool, noticeTo: seq<SocketId>)
    ensures roomGone && timerCleared && noticeTo == []
  {
    var server := SoloRoom();
    var timer := server.rooms["XYZ12"].questionTimer.value;
    assert server.rooms.Keys == {"XYZ12"};
    SoleRoomCloses(server.rooms, 7, "bo", "XYZ12");
    server.Close(7, ["XYZ12"]);
    roomGone := "XYZ12" !in server.rooms;
    timerCleared := timer !in server.timers;
    noticeTo := server.outbox[|server.outbox| - 1].to;
  }

  /** Room "XYZ12" created by "bo" on socket 7, its game started with a
      pending question. */
  method SoloRoom() returns (server: Server)
    ensures fresh(server) && server.Valid()
    ensures server.rooms.Keys == {"XYZ12"} && server.rooms["XYZ12"].clients == [Client(7, "bo")]
    ensures server.rooms["XYZ12"].questionTimer.Some?
  {
    server := new Server();
    server.CreateRoom(7, "XYZ12", "bo", None);
    server.StartGame("XYZ12", Draw(Sub, 2, 5), 0);
  }

  /** A registry holding one room, whose only client is on `sock`: the
      socket's close deletes the room, clears its timer and sends one
      player-left notice, to nobody. */
  lemma SoleRoomCloses(rooms: map<string, Room>, sock: SocketId, name: string, code: string)
    requires rooms.Keys == {code} && rooms[code].clients == [Client(sock, name)]
    ensures AfterClose(rooms, sock) == map[]
    ensures rooms[code].questionTimer.Some? ==> rooms[code].questionTimer.value in ClosedTimers(rooms, sock, [code])
    ensures LeftNotices(rooms, sock, LeftCodes(rooms, sock, [code])) == [LeftNotice(rooms[code], sock)]
    ensures LeftNotice(rooms[code], sock).to == []
  {
    var room := rooms[code];
    assert room.clients[0].socket == sock;
    assert WithoutSocket(room.clients, sock) == [];
    assert Emptied(room, sock);
    assert [code][..0] == [];
    assert LeftCodes(rooms, sock, [code]) == [code];
  }
}
