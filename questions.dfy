/**
 Question construction (`sendNewQuestion`): the operand range of a
 difficulty tier, the operator table, the resampling of operands until a
 division is exact, and the `(question, answer)` pair that becomes a room's
 current question. The random draws are parameters of this model.
 */
module Questions {
  import opened Wrappers

  /** The four operators, in the order of the source's `operators` array. */
  datatype Op = Add | Sub | Mul | Div

  /** One random draw: the operator and the two operands, before any swap. */
  datatype Draw = Draw(op: Op, num1: int, num2: int)

  /** A room's current question: the text shown to players and its answer. */
  datatype Question = Question(question: string, answer: int)

  /** The character an operator is displayed with. */
  function Symbol(op: Op): char
  {
    match op
    case Add => '+'
    case Sub => '-'
    case Mul => '*'
    case Div => '/'
  }

  /** `operators[i]` for the index drawn from [0, 4). */
  function OperatorAt(i: nat): (op: Op)
    requires i < 4
    ensures Symbol(op) == "+-*/"[i]
  {
    [Add, Sub, Mul, Div][i]
  }

  // ---------------------------------------------------------------------
  // Difficulty tiers

  /** The difficulty a new room stores: `data.difficulty || "basic"`, so an
      absent or empty value becomes "basic". */
  function StoredDifficulty(requested: Option<string>): (stored: string)
    ensures stored != ""
    ensures requested.Some? && requested.value != "" ==> stored == requested.value
    ensures requested.None? || requested.value == "" ==> stored == "basic"
  {
    if requested.Some? && requested.value != "" then requested.value else "basic"
  }

  /** The inclusive operand range `(min, max)` of a difficulty; any value
      other than the three tier names falls back to the basic range. */
  function OperandRange(difficulty: string): (r: (int, int))
    ensures 1 <= r.0 <= r.1
  {
    if difficulty == "medium" then (10, 99)
    else if difficulty == "advanced" then (100, 999)
    else (1, 9)
  }

  /** Number of values a single operand draw can take. */
  function Span(difficulty: string): nat
  {
    OperandRange(difficulty).1 - OperandRange(difficulty).0 + 1
  }

  predicate InRange(difficulty: string, n: int)
  {
    OperandRange(difficulty).0 <= n <= OperandRange(difficulty).1
  }

  /** The resampling loop's exit condition: every draw is kept except a
      division whose dividend is not a multiple of the divisor. */
  predicate Accepts(d: Draw)
  {
    d.op != Div || (d.num2 != 0 && d.num1 % d.num2 == 0)
  }

  /** With a divisor of at least 1, the loop accepts a division exactly
      when the dividend is a whole multiple of the divisor, so that the
      quotient is a whole number. */
  lemma AcceptsExactDivision(d: Draw)
    requires d.num2 >= 1
    ensures Accepts(d) <==> d.op != Div || (d.num1 / d.num2) * d.num2 == d.num1
  {
    assert d.num1 == d.num2 * (d.num1 / d.num2) + d.num1 % d.num2;
  }

  /** What a draw that leaves the resampling loop satisfies. */
  predicate Admissible(d: Draw, difficulty: string)
  {
    InRange(difficulty, d.num1) && InRange(difficulty, d.num2) && Accepts(d)
  }

  /** The tiers: basic 1-9, medium 10-99, advanced 100-999, and the basic
      range for every other stored difficulty, including the default of a
      room created without one. */
  lemma TierRanges(difficulty: string)
    ensures OperandRange("basic") == (1, 9)
    ensures OperandRange("medium") == (10, 99)
    ensures OperandRange("advanced") == (100, 999)
    ensures difficulty !in {"medium", "advanced"} ==> OperandRange(difficulty) == (1, 9)
    ensures OperandRange(StoredDifficulty(None)) == (1, 9)
    ensures OperandRange(StoredDifficulty(Some(""))) == (1, 9)
  {
  }

  /** The operand drawn from a scaled random value `offset`, which is
      `Math.floor(Math.random() * (max - min + 1))`. */
  function Operand(difficulty: string, offset: nat): (n: int)
    ensures n >= OperandRange(difficulty).0
    ensures offset < Span(difficulty) <==> InRange(difficulty, n)
  {
    OperandRange(difficulty).0 + offset
  }

  /** The `do ... while` loop: draws operand pairs from `offsets` until the
      operator accepts one. The source keeps drawing for ever; here the
      draws are a finite sequence and `None` means every one was rejected.
      `tries` is how many draws were consumed. */
  method DrawOperands(op: Op, difficulty: string, offsets: seq<(nat, nat)>)
    returns (r: Option<Draw>, tries: nat)
    requires forall i :: 0 <= i < |offsets| ==> offsets[i].0 < Span(difficulty) && offsets[i].1 < Span(difficulty)
    ensures tries <= |offsets|
    ensures r.Some? ==> 1 <= tries && Admissible(r.value, difficulty)
    ensures r.Some? ==> r.value == Draw(op, Operand(difficulty, offsets[tries - 1].0), Operand(difficulty, offsets[tries - 1].1))
    ensures r.Some? ==> forall i :: 0 <= i < tries - 1 ==>
      !Accepts(Draw(op, Operand(difficulty, offsets[i].0), Operand(difficulty, offsets[i].1)))
    ensures r.None? ==> tries == |offsets| && forall i :: 0 <= i < |offsets| ==>
      !Accepts(Draw(op, Operand(difficulty, offsets[i].0), Operand(difficulty, offsets[i].1)))
    ensures op != Div && |offsets| > 0 ==> r.Some? && tries == 1
  {
    tries := 0;
    while tries < |offsets|
      invariant tries <= |offsets|
      invariant op != Div ==> tries == 0
      invariant forall i :: 0 <= i < tries ==>
        !Accepts(Draw(op, Operand(difficulty, offsets[i].0), Operand(difficulty, offsets[i].1)))
    {
      var d := Draw(op, Operand(difficulty, offsets[tries].0), Operand(difficulty, offsets[tries].1));
      tries := tries + 1;
      if Accepts(d) {
        return Some(d), tries;
      }
    }
    return None, tries;
  }

  // ---------------------------------------------------------------------
  // Decimal text of an operand, and reading it back

  predicate IsDigit(c: char)
  {
    '0' <= c <= '9'
  }

  predicate AllDigits(s: string)
  {
    forall i :: 0 <= i < |s| ==> IsDigit(s[i])
  }

  function DigitChar(d: nat): (c: char)
    requires d < 10
    ensures IsDigit(c) && c as int - '0' as int == d
  {
    ('0' as int + d) as char
  }

  /** The decimal text of a non-negative integer, as in `${n}`. */
  function Digits(n: nat): (s: string)
    ensures |s| >= 1 && AllDigits(s)
    ensures s[0] == '0' ==> n == 0
    decreases n
  {
    if n < 10 then [DigitChar(n)] else Digits(n / 10) + [DigitChar(n % 10)]
  }

  /** The number a string of decimal digits denotes. */
  function DigitsValue(s: string): nat
    requires AllDigits(s)
  {
    if |s| == 0 then 0 else 10 * DigitsValue(s[..|s| - 1]) + (s[|s| - 1] as int - '0' as int)
  }

  lemma {:induction false} DigitsRoundTrip(n: nat)
    ensures DigitsValue(Digits(n)) == n
    decreases n
  {
    if n >= 10 {
      var s := Digits(n);
      assert s[..|s| - 1] == Digits(n / 10);
      DigitsRoundTrip(n / 10);
    }
  }

  /** Index of the first space in `s`, or |s| when there is none. */
  function SpaceIndex(s: string): (i: nat)
    ensures i <= |s|
    ensures i < |s| ==> s[i] == ' '
    ensures forall k :: 0 <= k < i ==> s[k] != ' '
  {
    if |s| == 0 || s[0] == ' ' then 0 else 1 + SpaceIndex(s[1..])
  }

  /** A displayed expression `left symbol right`. */
  datatype Expr = Expr(left: nat, symbol: char, right: nat)

  /** The text a question displays: `${num1} ${operator} ${num2}`. */
  function Shown(e: Expr): string
  {
    Digits(e.left) + [' ', e.symbol, ' '] + Digits(e.right)
  }

  /** Reads a question text back: digits, a space, one operator character,
      a space, digits. */
  function ParseExpr(s: string): Option<Expr>
  {
    var i := SpaceIndex(s);
    if 0 < i && i + 3 < |s| && AllDigits(s[..i]) && s[i + 2] == ' ' && AllDigits(s[i + 3..])
    then Some(Expr(DigitsValue(s[..i]), s[i + 1], DigitsValue(s[i + 3..])))
    else None
  }

  lemma ParseShown(e: Expr)
    ensures ParseExpr(Shown(e)) == Some(e)
  {
    var a, b := Digits(e.left), Digits(e.right);
    var s := Shown(e);
    assert s[|a|] == ' ';
    assert forall k :: 0 <= k < |a| ==> s[k] == a[k];
    assert SpaceIndex(s) == |a|;
    assert s[..|a|] == a;
    assert s[|a| + 3..] == b;
    DigitsRoundTrip(e.left);
    DigitsRoundTrip(e.right);
  }

  /** The value of a displayed expression, as a player would compute it:
      division of non-negative integers is exact only when the quotient is
      whole, and Dafny's `/` on them is the floor the source takes. */
  function Eval(e: Expr): Option<int>
  {
    match e.symbol
    case '+' => Some(e.left + e.right)
    case '-' => Some(e.left - e.right)
    case '*' => Some(e.left * e.right)
    case '/' => if e.right == 0 then None else Some(e.left / e.right)
    case _ => None
  }

  /** The value of a question text, or `None` if it is not an expression. */
  function EvalText(s: string): Option<int>
  {
    match ParseExpr(s)
    case None => None
    case Some(e) => Eval(e)
  }

  /** The operands in displayed order: a subtraction whose first operand is
      the smaller has them swapped. */
  function Ordered(d: Draw): (r: (int, int))
    ensures multiset{r.0, r.1} == multiset{d.num1, d.num2}
    ensures d.op == Sub ==> r.0 >= r.1
    ensures d.op != Sub ==> r == (d.num1, d.num2)
  {
    if d.op == Sub && d.num1 < d.num2 then (d.num2, d.num1) else (d.num1, d.num2)
  }

  /** The answer `sendNewQuestion` computes from the displayed operands. */
  function Answer(op: Op, a: int, b: int): (r: int)
    requires b != 0
    ensures a >= 0 && b >= 1 && (op == Sub ==> a >= b) ==> r >= 0
  {
    match op
    case Add => a + b
    case Sub => a - b
    case Mul => ProductSign(a, b); a * b
    case Div => a / b
  }

  lemma ProductSign(a: int, b: int)
    ensures a >= 0 && b >= 0 ==> a * b >= 0
  {
  }

  /** A division's answer is `Math.floor(num1 / num2)`: the largest whole
      number of divisors that fit in the dividend. */
  lemma DivisionRoundsDown(a: int, b: int)
    requires a >= 0 && b >= 1
    ensures var q := Answer(Div, a, b); q * b <= a < q * b + b
  {
    assert a == b * (a / b) + a % b;
  }

  /** The question `sendNewQuestion` stores for a draw. */
  function Compose(d: Draw): (q: Question)
    requires d.num1 >= 1 && d.num2 >= 1
    ensures EvalText(q.question) == Some(q.answer)
  {
    var e := Expr(Ordered(d).0, Symbol(d.op), Ordered(d).1);
    ParseShown(e);
    AnswerFacts(d);
    Question(Shown(e), Answer(d.op, e.left, e.right))
  }

  /** The stored answer is what the displayed text evaluates to, the text
      shows the operands in the order they were subtracted or divided, the
      answer is never negative, and a division's answer is the exact
      quotient when the draw was accepted. */
  lemma ComposeCorrect(d: Draw)
    requires d.num1 >= 1 && d.num2 >= 1
    ensures var q := Compose(d);
      && ParseExpr(q.question) == Some(Expr(Ordered(d).0, Symbol(d.op), Ordered(d).1))
      && EvalText(q.question) == Some(q.answer)
      && q.answer >= 0
      && (d.op == Sub ==> q.answer == Ordered(d).0 - Ordered(d).1 && Ordered(d).0 >= Ordered(d).1)
      && (d.op == Div && Accepts(d) ==> q.answer * d.num2 == d.num1)
  {
    ParseShown(Expr(Ordered(d).0, Symbol(d.op), Ordered(d).1));
    AnswerFacts(d);
  }

  lemma AnswerFacts(d: Draw)
    requires d.num1 >= 1 && d.num2 >= 1
    ensures Ordered(d).0 >= 1 && Ordered(d).1 >= 1
    ensures Eval(Expr(Ordered(d).0, Symbol(d.op), Ordered(d).1)) == Some(Answer(d.op, Ordered(d).0, Ordered(d).1))
    ensures Answer(d.op, Ordered(d).0, Ordered(d).1) >= 0
    ensures d.op == Div && Accepts(d) ==> Answer(d.op, Ordered(d).0, Ordered(d).1) * d.num2 == d.num1
  {
    if d.op == Div && Accepts(d) {
      assert d.num1 == d.num2 * (d.num1 / d.num2) + d.num1 % d.num2;
    }
  }

  /** Every admissible draw can be composed, and its answer matches the
      text for the room's difficulty. */
  lemma AdmissibleComposes(d: Draw, difficulty: string)
    requires Admissible(d, difficulty)
    ensures d.num1 >= 1 && d.num2 >= 1
    ensures EvalText(Compose(d).question) == Some(Compose(d).answer)
  {
    ComposeCorrect(d);
  }
}
