# Trivia server model

A Dafny model of the game core of a WebSocket arithmetic-trivia server
(`server.js`). Players create or join rooms identified by a five-character
code. A started game shows the room a question such as `3 + 4`. The first
correct answer earns points for the seconds left of a 20-second budget, the
room gets the leaderboard, and a new question follows. A disconnect removes the
player from every room, and a room left empty is deleted along with its
timer.

Modules:

- `Questions`: the `sendNewQuestion` arithmetic. It covers the difficulty →
  operand range table, the operator table, the `do … while` resampling loop
  (a method over a finite sequence of random draws), the subtraction swap,
  and the `(question, answer)` pair. The text `"num1 op num2"` is modelled as
  characters, with a reader for it, so the model can prove that the stored
  answer is what the shown text evaluates to.
- `Scoring`: the time-decay points formula, with the clock as a parameter.
  It also holds the source's score update written out as JavaScript
  dictionary arithmetic: `undefined + points` is `NaN`.
- `Scores`: a room's `scores` object, modelled as its list of entries in key
  insertion order. It supports lookup, assignment, `delete`, and the
  corrected `+=`.
- `Ranking`: `getLeaderboard`, defined as a stable insertion sort by
  non-increasing score. The module proves that this is the only ordering that
  is both sorted and stable.
- `Rooms`: room records, outbound messages, the room-level effect of each
  handler, and the functions that specify the close handler.
- `TriviaServer`: class `Server`. Its fields are:
  - the `rooms` registry, a `map`;
  - the `timers` armed with `setTimeout` and not yet cleared or fired, each
    with the room code its callback closes over;
  - the next timer handle;
  - the `outbox` of everything sent.

  Each message handler is a method with a `modifies` clause and a
  postcondition that gives the whole new state. Every handler keeps the
  invariant `Valid`, under which each room (`RoomValid`) has at least one
  client, distinct score keys and unique usernames, and its current
  question's answer is the value of its text. The `forEach` of the close
  handler is a loop proved against `AfterClose`.
- `Scenarios`: short runs of the server through its handlers:
  - wrong and right answers to `3 + 4` in room `ABCDE`;
  - the last player leaving room `XYZ12`.

Where a description of the system and the code disagree, the model follows
the code:

- The leaderboard is ordered by *non-increasing* score, not strictly
  descending. Equal scores keep the order of the score table (the sort is
  stable).
- A correct answer does not always raise the score. It earns 0 points once
  less than a whole second is left (`Scoring.NoPointsIff`).
- The operand loop for division has no bound, so nothing guarantees it ends.
- `create-room` overwrites a room already stored under the same code.

Behaviours kept as the source has them:

- A second `start-game` in a room arms a second timer and does not clear the
  first. The earlier timer stays pending and fires later (`Server.TimerFired`).
- When one socket holds several clients of a room under different usernames,
  closing it removes all of those clients but deletes only the first one's
  score.

## Model

| member | source | states |
|---|---|---|
| Questions.OperatorAt | server.js:21-22 | the drawn index 0..3 picks `+`, `-`, `*`, `/` in the order of the `operators` array |
| Questions.StoredDifficulty | server.js:100 | the `data.difficulty` or `"basic"` default: a given non-empty difficulty is stored as it is; an absent or empty one becomes `"basic"`; the stored value is never empty |
| Questions.OperandRange | server.js:27-43 | every difficulty has a non-empty range of positive operands, so a divisor is never 0 |
| Questions.TierRanges | server.js:24-43 | basic 1–9, medium 10–99, advanced 100–999; every other stored value, and a room created with no difficulty or an empty one (stored as `"basic"`), gets 1–9 |
| Questions.Operand | server.js:46-47 | an operand is at least the tier's minimum, and lies in the tier's range exactly when the scaled random offset is below the range's size |
| Questions.AcceptsExactDivision | server.js:48 | the loop's exit test `Accepts` lets a division through exactly when the divisor times the quotient is the dividend; every other operator is accepted at once |
| Questions.DrawOperands | server.js:45-48 | returns the first admissible draw from the sequence of draws (both operands in range, and the division exact), after rejecting all earlier ones; if every draw is rejected it reports that; for `+`, `-` and `*` the first draw is taken |
| Questions.Digits | server.js:60 | the decimal text of an operand is a non-empty string of digits with no leading zero |
| Questions.DigitsRoundTrip | server.js:60 | reading back the decimal text of `n` gives `n` |
| Questions.ParseShown | server.js:60 | the text `${num1} ${operator} ${num2}` parses back to exactly those operands and that operator |
| Questions.Ordered | server.js:53 | the shown operands are the drawn ones, possibly swapped; a subtraction shows the larger first; other operators keep the drawn order |
| Questions.Answer | server.js:50-58 | `Answer` applied to non-negative operands, with the smaller one second in a subtraction, is never negative |
| Questions.DivisionRoundsDown | server.js:57 | a division's `Answer` is `Math.floor(num1 / num2)`: the quotient times the divisor is at most the dividend and within one divisor of it |
| Questions.Compose | server.js:50-60 | the question `Compose` stores has an answer equal to the value of its text |
| Questions.ComposeCorrect | server.js:50-60 | the stored answer equals the value of the shown text; the text shows a subtraction with its larger operand first; the answer is never negative; an accepted division's answer times the divisor is the dividend |
| Questions.AnswerFacts | server.js:50-58 | for each operator the answer is the operator applied to the shown operands, and it is non-negative; for an exact division it is the exact quotient |
| Questions.AdmissibleComposes | server.js:45-60 | any draw that leaves the resampling loop for a room's difficulty has positive operands and gives a question whose answer matches its text |
| Scoring.Remaining | server.js:144-145 | the time left is never negative, and never more than 20000 ms when the clock has not gone backwards |
| Scoring.PointsAreWholeSecondsLeft | server.js:144-146 | `Points`: the points are the remaining milliseconds divided by 1000 and rounded down; at most 20; 0 once the 20 s budget is spent |
| Scoring.PointsDecay | server.js:144-146 | a later correct answer to the same question never earns more |
| Scoring.ImmediateAnswerEarnsAll | server.js:144-146 | an answer at the moment the question is issued earns 20 points |
| Scoring.NoPointsIff | server.js:145-146 | a correct answer earns 0 points exactly when more than 19000 ms have passed |
| Scoring.CreditAsWritten | server.js:148 | `scores[username] += points` adds the points to an existing finite score, leaves every other entry as it was, and creates an entry with value NaN for a username with no entry |
| Scoring.CreditForStrangerIsNaN | server.js:148 | a correct answer under a name not on the table adds that name with a NaN score |
| Scores.IndexOf | server.js:82 | the position of a name's entry is its first occurrence; the result is the table's length when the name is absent |
| Scores.Put | server.js:103 | `scores[name] = value` makes the name map to the value and leaves every other name as it was; an existing key keeps its place and a new key is appended; keys stay distinct |
| Scores.Remove | server.js:182 | `delete scores[name]` removes that name's entry, leaves every other name's score as it was, shortens the table by one exactly when the name was present, keeps the remaining entries in their order, and keeps keys distinct |
| Scores.Credit | server.js:148 | a present name's score rises by the points; an absent name stays absent; every other name and every position is unchanged |
| Ranking.Insert | server.js:84 | inserting into a sorted list keeps it sorted, adds exactly one element, and puts the new entry ahead of the existing entries of the same score |
| Ranking.Leaderboard | server.js:81-85 | the leaderboard is sorted by non-increasing score |
| Ranking.LeaderboardPermutes | server.js:82-84 | the leaderboard is a permutation of the score table, and for every score it lists that score's entries in table order (stability) |
| Ranking.HeadIsMax | server.js:84 | the first entry of a sorted list has the highest score |
| Ranking.StableSortUnique | server.js:84 | two sorted lists with, for every score, the same entries in the same order are equal |
| Ranking.LeaderboardIsTheStableOrder | server.js:81-85 | any stable ordering of the table by non-increasing score is the leaderboard |
| Ranking.LeaderboardIdempotent | server.js:81-85 | ranking a leaderboard again returns it unchanged |
| Ranking.LeaderboardEntries | server.js:82-83 | an entry is on the leaderboard exactly when it is on the table |
| Rooms.FindBySocket | server.js:176 | `clients.find` by socket returns the first client on that socket, or none |
| Rooms.WithoutSocket | server.js:181 | `clients.filter` keeps exactly the clients on other sockets |
| Rooms.WithoutSocketAppend | server.js:181 | the filter keeps the kept clients in their order: filtering a concatenation concatenates the filtered parts |
| Rooms.WithoutAbsentSocket | server.js:181 | filtering out a socket that has no client in the room keeps every client |
| Rooms.JoinKeepsNamesUnique | server.js:114-119 | the `some` check lets a name join only when `UsernameTaken` is false for it, so a room's usernames stay unique; afterwards the taken names are the old ones and the new one |
| Rooms.WithoutSocketKeepsNamesUnique | server.js:181 | removing a socket's clients keeps a room's usernames unique |
| Rooms.NewRoom | server.js:96-103 | a created room has the creator as its only client (so its usernames are unique), a one-entry score table with score 0, no question, no timer, and the requested tier's operand range (basic when none is given) |
| Rooms.Joined | server.js:114-119 | joining appends exactly one client and changes no other field; the score table becomes `Put` of the name with 0, so a new name's entry is appended and an existing one keeps its place; a valid room joined under a name not taken stays valid, its usernames still unique |
| Rooms.Issue | server.js:60-67 | issuing a question keeps a room valid, including that the current question's answer is the value of its text |
| Rooms.Left | server.js:176-182 | every client on the socket goes and no other client does, the rest keeping their order (`WithoutSocket`); the first such client's score is deleted, the other entries keeping their order (`Remove`); the question, the timer and the difficulty are unchanged; unique usernames stay unique |
| Rooms.EmptiedIff | server.js:181-193 | a close empties a room exactly when all of its clients are on the closing socket |
| Rooms.AfterClose | server.js:172-199 | after a close, no room holds the socket; a room without it is unchanged; a room with it survives exactly when it keeps a client, as what is left of it; valid rooms stay valid |
| Rooms.VisitEffect | server.js:173-198 | `Visit` of one code changes no other room; the visited room keeps exactly its clients on other sockets, and is deleted exactly when it held the socket and no client is left |
| Rooms.VisitKeepsValid | server.js:173-198 | handling a close in one room keeps every room valid |
| Rooms.VisitedUntouched | server.js:172-199 | a room the loop has not reached yet is as it was |
| Rooms.VisitedAt | server.js:172-199 | after the loop has visited some distinct codes, a visited room is deleted exactly when the close empties it, and a visited room that held the socket is replaced by what is left of it |
| Rooms.VisitedAll | server.js:172-199 | visiting every code once, in any order, leaves the registry `AfterClose` describes |
| Rooms.TimersAfterVisitsAre | server.js:193-195 | clearing timers room by room removes exactly the timers `ClosedTimers` names |
| Rooms.ClosedTimersAre | server.js:193-195 | the close clears a timer exactly when it belongs to a visited room that the close empties |
| Rooms.LeftCodes | server.js:172-177 | the rooms that send `player-left` are exactly the visited rooms that held the socket |
| Rooms.LeftCodesAppend | server.js:172-177 | `LeftCodes` keeps visiting order: for a concatenation of key lists it is the concatenation of their codes |
| Rooms.LeftNoticesAppend | server.js:187-190 | each such room adds one `player-left` message, carrying the leaderboard of its remaining scores, to its remaining clients |
| TriviaServer.Server.constructor | server.js:5 | the server starts with no rooms, no timers and nothing sent |
| TriviaServer.Server.Reply | server.js:105 | `socket.send` appends one message for the sender, and nothing else |
| TriviaServer.Server.SendToRoom | server.js:8-16 | one message goes to the sockets of all of a room's clients, and nothing is sent when the room does not exist |
| TriviaServer.Server.ClearTimeout | server.js:158 | the given timer is no longer pending; clearing no timer does nothing |
| TriviaServer.Server.SendNewQuestion | server.js:19-73 | the room gets the composed question, the time it was issued and a fresh timer; every other room is unchanged; the earlier timer stays pending; `new-question` goes to the room's clients |
| TriviaServer.Server.CreateRoom | server.js:94-106 | the code maps to a new room, replacing any room already stored under it; the sender gets `room-joined`; timers are unchanged |
| TriviaServer.Server.JoinRoom | server.js:108-123 | for an unknown room, and for a taken username, nothing changes and the sender gets the matching error; otherwise only that room changes (as `Joined`), the sender gets `room-joined`, and the room gets the leaderboard |
| TriviaServer.Server.StartGame | server.js:125-130 | for an unknown room nothing happens; otherwise it does exactly what `SendNewQuestion` does |
| TriviaServer.Server.Answer | server.js:132-165 | with no room or no question, nothing changes and the sender gets `No active question!`; for a wrong answer, nothing changes and the sender gets `Wrong answer, try again!`; for a right answer, as `AnswerCorrect`, with the score computed at the first clock reading `now` and the next question stamped with the second one, `issuedAt` |
| TriviaServer.Server.AnswerCorrect | server.js:143-161 | only the answerer's score rises, by the points left at `now`; the room is told the answerer, the new leaderboard and the points; the room's timer is cleared and a new question and timer are issued, stamped `issuedAt` |
| TriviaServer.Server.CreditAnswer | server.js:144-158 | the first part of a correct answer: the score is credited, the leaderboard goes to the room, the room's timer is cleared, and nothing else changes |
| TriviaServer.Server.TimerFired | server.js:67-72 | the fired timer is no longer pending; if its room still exists, the room gets `time-up` and a new question with a new timer; otherwise nothing else happens |
| TriviaServer.Server.CloseRoom | server.js:173-198 | one room's part of the close: the room becomes `Visit` of it, its timer is cleared if the room is deleted, and a room that held the socket sends one `player-left` |
| TriviaServer.Server.CloseNext | server.js:172-199 | one step of the close loop keeps the state equal to what the visited prefix of the codes describes |
| TriviaServer.Server.Close | server.js:169-200 | the registry becomes `AfterClose`; exactly the timers of deleted rooms are cleared; the `player-left` messages go out in visiting order |
| TriviaServer.CloseStep | server.js:172-199 | visiting one more code adds that room's effect to the registry, the timers and the messages |
| Scenarios.ThreePlusFour | server.js:50-60 | the draw `+, 3, 4` shows `3 + 4` with answer 7 |
| Scenarios.TwoTimesFive | server.js:50-60 | the draw `*, 2, 5` shows `2 * 5` with answer 10 |
| Scenarios.FifteenPointsLeft | server.js:144-146 | a correct answer 4500 ms after issue earns 15 points |
| Scenarios.WrongAnswer | server.js:132-165 | in room `ABCDE` with question `3 + 4`, the answer 8 gets `incorrect-answer` and the question stays `3 + 4` |
| Scenarios.RightAnswer | server.js:143-161 | the answer 7 at 4500 ms earns 15 points, the answerer's score becomes 15, and the next question `2 * 5` is issued stamped with the second clock reading, 5501 |
| Scenarios.SoleRoomCloses | server.js:172-195 | closing the only client's socket in a registry of one room deletes the room, clears its timer, and sends one `player-left` to nobody |
| Scenarios.LastPlayerLeaves | server.js:169-200 | when the only player of `XYZ12` disconnects, the room is deleted, its timer is cleared, and the `player-left` message goes to nobody |

## Left out

- The WebSocket server, `JSON.parse`, `JSON.stringify` and `socket.send`: network I/O. Sent messages are appended to `outbox` as typed values with the sockets they go to.
- The `readyState === OPEN` check in `sendToRoom`: every client is treated as connected, because connection state belongs to the transport.
- `parseInt(data.answer)`: the answer arrives as an integer. A non-numeric answer, which the source parses as `NaN` and then treats as wrong, is not represented.
- `Math.random` (operator index, operands, room code) and `generateRoomCode`: randomness and float formatting. The room code, the operator index and the operand offsets are parameters.
- `Date.now()`: the current time is a parameter. The `answer` handler reads the clock twice, once to score the answer and once in `sendNewQuestion`, so `Server.Answer` takes both readings, `now` and `issuedAt`.
- `setTimeout`'s 20-second delay: asynchronous scheduling. The model keeps the set of pending callbacks; firing one is `Server.TimerFired`, called with the handle that fired.
- `console.log`: logging only.
- `data.difficulty` values that are not strings, and other falsy ones besides the empty string: the difficulty arrives as an optional string.
- Properties inherited from `Object.prototype`: `rooms` and each room's `scores` are plain JavaScript objects, but the model's registry and score-table lookups find only keys that were stored. A room code naming an inherited property, such as `"constructor"`, is not modelled: in the source it passes the `!rooms[roomCode]` tests of `join-room` and `start-game`, and the handler then throws a TypeError. `Server.JoinRoom` instead replies `Room does not exist!` and `Server.StartGame` does nothing. The username `__proto__` is not modelled either: in the source, `scores["__proto__"] = 0` in `create-room` and `join-room` runs the prototype setter and creates no entry, while `Rooms.NewRoom`, `Rooms.Joined` and `Scores.Put` create one.
- The enumeration order of object keys: JavaScript lists integer-like keys first. The score table is kept in insertion order, and the close handler takes the `Object.keys` order as its `keys` parameter.
- DrawOperands: the source resamples without bound. The model consumes a finite sequence of draws and reports the case where every draw was rejected. The handlers take the accepted draw as a parameter.
- Rooms.Issue: its contract says only that the room stays valid, a validity that includes the question's answer matching its text. What it stores is stated by `SendNewQuestion` and `ComposeCorrect`.
- Socket identity is reduced to a number.

## Findings

| source | as written | input that shows it | evidently intended | confidence | as-written member | corrected member |
|---|---|---|---|---|---|---|
| server.js:148 | `rooms[roomCode].scores[data.username] += points` credits whatever username the answer message carries | a correct answer in a room whose table is `{ann: 0}`, sent with username `bob`: `undefined + 14` stores `bob: NaN` | only a player on the room's table is credited, and no entry is created | high for the input, not executed | Scoring.CreditForStrangerIsNaN | Scores.Credit |

The server model uses the corrected `Scores.Credit`. A correct answer under an
unknown name therefore changes no score: the question still moves on and the
room still gets the `correct-answer` message.
