/**
 Time-pressure scoring of a correct answer: the points are the whole
 seconds left of the question's 20-second budget. The clock is a parameter.
 */
module Scoring {
  /** Milliseconds a question may take; after that it earns nothing. */
  const BudgetMs: int := 20000

  const MsPerPoint: int := 1000

  /** Milliseconds left of the budget when answered at `now`: `Math.max(0, 20000 - timeTaken)`. */
  function Remaining(now: int, questionStart: int): (ms: int)
    ensures 0 <= ms
    ensures now - questionStart >= 0 ==> ms <= BudgetMs
  {
    var elapsed := now - questionStart;
    if BudgetMs - elapsed > 0 then BudgetMs - elapsed else 0
  }

  /** Points for a correct answer at `now` to a question issued at
      `questionStart`: the remaining time rounded down to whole seconds. */
  function Points(now: int, questionStart: int): nat
  {
    Remaining(now, questionStart) / MsPerPoint
  }

  /** The points are the whole seconds left, at most the budget's 20, and
      none once the budget is spent. */
  lemma PointsAreWholeSecondsLeft(now: int, questionStart: int)
    ensures var points := Points(now, questionStart);
      && points * MsPerPoint <= Remaining(now, questionStart) < (points + 1) * MsPerPoint
      && (now >= questionStart ==> points <= BudgetMs / MsPerPoint)
      && (now - questionStart >= BudgetMs ==> points == 0)
  {
  }

  /** A later correct answer to the same question never earns more. */
  lemma PointsDecay(questionStart: int, early: int, late: int)
    requires early <= late
    ensures Points(late, questionStart) <= Points(early, questionStart)
  {
  }

  /** An answer at the very moment of issue earns the full 20 points. */
  lemma ImmediateAnswerEarnsAll(questionStart: int)
    ensures Points(questionStart, questionStart) == 20
  {
  }

  /** A correct answer earns nothing exactly when less than one whole
      second of the budget is left. */
  lemma NoPointsIff(now: int, questionStart: int)
    ensures Points(now, questionStart) == 0 <==> now - questionStart > BudgetMs - MsPerPoint
  {
  }

  // ---------------------------------------------------------------------
  // `scores[username] += points` as the source writes it

  /** A JavaScript number, as far as score arithmetic goes. */
  datatype JsNumber = Finite(value: int) | NaN

  /** The source's update of a score object seen as a dictionary. Reading
      a username that has no entry yields `undefined`, and `undefined +
      points` is NaN, so the update creates an entry whose score is NaN. */
  function CreditAsWritten(scores: map<string, JsNumber>, username: string, points: int): (r: map<string, JsNumber>)
    ensures r.Keys == scores.Keys + {username}
    ensures forall u :: u in scores && u != username ==> r[u] == scores[u]
    ensures username in scores && scores[username].Finite? ==> r[username] == Finite(scores[username].value + points)
    ensures username !in scores ==> r[username] == NaN
  {
    var before := if username in scores then scores[username] else NaN;
    scores[username := if before.Finite? then Finite(before.value + points) else NaN]
  }

  /** A correct answer sent under a name that is not on the room's score
      table (it never joined, or its entry was deleted on close) adds a
      player to the table, and that player's score is not a number. */
  lemma CreditForStrangerIsNaN()
    ensures var r := CreditAsWritten(map["ann" := Finite(0)], "bob", 14);
      r.Keys == {"ann", "bob"} && r["bob"] == NaN
  {
  }
}
