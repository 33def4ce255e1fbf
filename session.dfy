/** The interactive analysis session: the `__main__` question loop and the
    branch structure of `generate_summary`. The language model and DuckDB
    are collaborators this model does not see into: they are function-valued
    fields of `Services`, so every property below holds whatever they answer. */
module Session {
  import opened Text
  import opened Fence
  import opened Guard

  /** The bound `enforce_limit` applies when called with its default. */
  const DefaultLimit := 10
  /** How many rows `generate_summary` shows the model (`head(10)`). */
  const PreviewSize := 10
  /** The reply to a question whose statement returned no rows. */
  const NoRecordsMessage := "No records matched the query."

  /** What `execute_query` gives back: the rows, or the error DuckDB raises. */
  datatype Execution<Row> = Rows(rows: seq<Row>) | Raised(message: string)

  /** The opaque collaborators of one session. `sqlReply` is the model's raw
      reply to `generate_select_sql`'s prompt for a question (the schema in
      that prompt is fixed for the session); `summaryReply` is its raw reply to
      `generate_summary`'s prompt for a question and a row preview. */
  datatype Services<!Row> = Services(
    sqlReply: string -> string,
    execute: string -> Execution<Row>,
    summaryReply: (string, seq<Row>) -> string)

  /** `generate_select_sql(question, metadata)`: the reply, stripped, then
      passed through the fence extractor. */
  function SynthesizeSql(question: string, sqlReply: string -> string): (candidate: string)
    ensures candidate == StripSqlMarkdown(sqlReply(question))
  {
    PreStripIsRedundant(sqlReply(question));
    StripSqlMarkdown(Strip(sqlReply(question)))
  }

  /** `result_df.head(10)`. */
  function Preview<Row>(rows: seq<Row>): (p: seq<Row>)
    ensures |p| == if |rows| < PreviewSize then |rows| else PreviewSize
    ensures forall k :: 0 <= k < |p| ==> p[k] == rows[k]
  {
    if |rows| <= PreviewSize then rows else rows[..PreviewSize]
  }

  /** The outcome of `generate_summary`: the fixed reply, or the model's
      trimmed reply together with the rows it was shown. */
  datatype Summary<Row> = NoRecords | Summarized(preview: seq<Row>, text: string)

  /** The text `generate_summary` returns. */
  function SummaryText<Row>(s: Summary<Row>): string {
    match s
    case NoRecords => NoRecordsMessage
    case Summarized(_, text) => text
  }

  /** `generate_summary(question, result_df)`. */
  function GenerateSummary<Row>(question: string, rows: seq<Row>,
                                summaryReply: (string, seq<Row>) -> string): (s: Summary<Row>)
    ensures s.NoRecords? <==> |rows| == 0
    ensures s.Summarized? ==> s.preview == Preview(rows) && s.text == Strip(summaryReply(question, s.preview))
  {
    if |rows| == 0 then NoRecords
    else
      var preview := Preview(rows);
      Summarized(preview, Strip(summaryReply(question, preview)))
  }

  /** An empty result gives exactly the fixed reply and
      does not depend on the model at all. */
  lemma EmptyResultSkipsModel<Row>(question: string, rows: seq<Row>,
                                  one: (string, seq<Row>) -> string, other: (string, seq<Row>) -> string)
    requires |rows| == 0
    ensures GenerateSummary(question, rows, one) == GenerateSummary(question, rows, other)
    ensures SummaryText(GenerateSummary(question, rows, one)) == "No records matched the query."
  {
  }

  /** The model is shown the question and the first min(10, n) rows in
      order and nothing else, so two results agreeing on those rows give it
      the same prompt; with a reply that is a function of the prompt, they
      get the same summary. */
  lemma SummaryDependsOnlyOnPreview<Row>(question: string, rows: seq<Row>, others: seq<Row>,
                                        summaryReply: (string, seq<Row>) -> string)
    requires |rows| > 0 && |others| > 0
    requires |rows| < PreviewSize || |others| < PreviewSize ==> |rows| == |others|
    requires forall k :: 0 <= k < |rows| && k < |others| && k < PreviewSize ==> rows[k] == others[k]
    ensures GenerateSummary(question, rows, summaryReply).Summarized?
    ensures GenerateSummary(question, others, summaryReply).Summarized?
    ensures GenerateSummary(question, rows, summaryReply).preview == GenerateSummary(question, others, summaryReply).preview
    ensures GenerateSummary(question, rows, summaryReply) == GenerateSummary(question, others, summaryReply)
  {
    assert Preview(rows) == Preview(others);
  }

  /** The loop's stop word, compared after `lower()`. */
  predicate IsExit(line: string) {
    Lower(line) == "exit"
  }

  /** `exit` ends the loop in any mix of cases, and only a four-character
      line whose characters lower-case to those of `exit` does. */
  lemma ExitInAnyCase(line: string)
    ensures IsExit(line) <==> |line| == 4 && forall k :: 0 <= k < 4 ==> LowerChar(line[k]) == "exit"[k]
  {
    if |line| == 4 && forall k :: 0 <= k < 4 ==> LowerChar(line[k]) == "exit"[k] {
      assert forall k :: 0 <= k < 4 ==> Lower(line)[k] == "exit"[k];
    }
  }

  /** Four spellings of the stop word. */
  lemma ExitSpellings(line: string)
    requires line in ["exit", "EXIT", "Exit", "eXiT"]
    ensures IsExit(line)
  {
    ExitInAnyCase(line);
    assert LowerChar('E') == 'e' && LowerChar('X') == 'x' && LowerChar('I') == 'i' && LowerChar('T') == 't';
  }

  /** One question's course through the loop body, once it is not `exit`. */
  datatype Turn<Row> =
    | Blocked(question: string, candidate: string)
    | Answered(question: string, candidate: string, statement: string, rows: seq<Row>, summary: Summary<Row>)
    | Failed(question: string, candidate: string, statement: string, message: string)

  /** The body of the `while True` loop for a question other than `exit`. */
  function TakeTurn<Row>(question: string, sv: Services<Row>): Turn<Row> {
    var candidate := SynthesizeSql(question, sv.sqlReply);
    if !IsSafeQuery(candidate) then
      Blocked(question, candidate)
    else
      var statement := EnforceLimit(candidate, DefaultLimit);
      match sv.execute(statement)
      case Raised(message) => Failed(question, candidate, statement, message)
      case Rows(rows) => Answered(question, candidate, statement, rows, GenerateSummary(question, rows, sv.summaryReply))
  }

  /** What one loop body does, field by field: the candidate is the
      extracted reply, it is executed exactly when it passes the gate, and
      what is executed is the bounded candidate. */
  lemma TurnShape<Row>(question: string, sv: Services<Row>)
    ensures var t := TakeTurn(question, sv);
            && t.question == question && t.candidate == StripSqlMarkdown(sv.sqlReply(question))
            && (t.Blocked? <==> !IsSafeQuery(t.candidate))
            && (!t.Blocked? ==> t.statement == EnforceLimit(t.candidate, DefaultLimit))
            && (t.Answered? ==> && sv.execute(t.statement) == Rows(t.rows)
                                && t.summary == GenerateSummary(question, t.rows, sv.summaryReply))
            && (t.Failed? <==> !t.Blocked? && sv.execute(t.statement).Raised?)
            && (t.Failed? ==> sv.execute(t.statement) == Raised(t.message))
  {
  }

  /** A statement a turn executes still passes the gate
      after bounding and carries `LIMIT`. */
  lemma TurnExecutesSafeStatement<Row>(question: string, sv: Services<Row>)
    ensures var t := TakeTurn(question, sv);
            !t.Blocked? ==> IsSafeQuery(t.candidate) && IsSafeQuery(t.statement) && HasLimit(t.statement)
  {
    TurnShape(question, sv);
    var t := TakeTurn(question, sv);
    if !t.Blocked? {
      EnforceLimitPreservesSafety(t.candidate, DefaultLimit);
    }
  }

  /** How the loop ends: `exit` was typed, `input()` found no more lines
      (it raises EOFError), or `execute_query` raised (line 309 has no
      handler, so the error leaves the loop). */
  datatype Ending = ExitTyped | InputExhausted | ExecutionRaised

  /** The session over the lines the user types, given what one loop body
      does with a question that is not `exit`. */
  function Run<Row>(lines: seq<string>, turn: string -> Turn<Row>): (seq<Turn<Row>>, Ending)
    decreases |lines|
  {
    if |lines| == 0 then ([], InputExhausted)
    else if IsExit(lines[0]) then ([], ExitTyped)
    else
      var t := turn(lines[0]);
      if t.Failed? then ([t], ExecutionRaised)
      else
        var rest := Run(lines[1..], turn);
        ([t] + rest.0, rest.1)
  }

  /** The loop body of a session with the given collaborators. */
  function TurnOf<Row>(sv: Services<Row>): string -> Turn<Row> {
    question => TakeTurn(question, sv)
  }

  /** The `__main__` session as a specification. */
  function Session<Row>(lines: seq<string>, sv: Services<Row>): (seq<Turn<Row>>, Ending) {
    Run(lines, TurnOf(sv))
  }

  /** One step of a session: a line that is not `exit` produces its turn,
      and the session goes on with the next line unless the turn raised. */
  lemma RunStep<Row>(lines: seq<string>, turn: string -> Turn<Row>)
    requires |lines| > 0 && !IsExit(lines[0])
    ensures Run(lines, turn) == if turn(lines[0]).Failed? then ([turn(lines[0])], ExecutionRaised)
                                else ([turn(lines[0])] + Run(lines[1..], turn).0, Run(lines[1..], turn).1)
  {
  }

  /** The turns answer the typed lines one by one, in
      order, none of them `exit`. */
  lemma {:induction false} RunFollowsLines<Row>(lines: seq<string>, turn: string -> Turn<Row>)
    ensures |Run(lines, turn).0| <= |lines|
    ensures forall k :: 0 <= k < |Run(lines, turn).0| ==>
              !IsExit(lines[k]) && Run(lines, turn).0[k] == turn(lines[k])
    decreases |lines|
  {
    if |lines| > 0 && !IsExit(lines[0]) && !turn(lines[0]).Failed? {
      RunFollowsLines(lines[1..], turn);
      var rest := Run(lines[1..], turn).0;
      forall k | 1 <= k < |Run(lines, turn).0|
        ensures !IsExit(lines[k]) && Run(lines, turn).0[k] == turn(lines[k])
      {
        assert lines[1..][k - 1] == lines[k];
      }
    }
  }

  /** How the session ends is read off its turns; only
      the last turn can have raised, an `exit` ending stops at an `exit`
      line, and running out of input means every line was answered. */
  lemma {:induction false} RunEnding<Row>(lines: seq<string>, turn: string -> Turn<Row>)
    ensures forall k :: 0 <= k < |Run(lines, turn).0| - 1 ==> !Run(lines, turn).0[k].Failed?
    ensures Run(lines, turn).1 == ExecutionRaised <==>
              |Run(lines, turn).0| > 0 && Run(lines, turn).0[|Run(lines, turn).0| - 1].Failed?
    ensures Run(lines, turn).1 == ExitTyped ==>
              |Run(lines, turn).0| < |lines| && IsExit(lines[|Run(lines, turn).0|])
    ensures Run(lines, turn).1 == InputExhausted ==> |Run(lines, turn).0| == |lines|
    decreases |lines|
  {
    if |lines| > 0 && !IsExit(lines[0]) && !turn(lines[0]).Failed? {
      RunEnding(lines[1..], turn);
      var rest := Run(lines[1..], turn);
      if rest.1 == ExitTyped {
        assert lines[1..][|rest.0|] == lines[|rest.0| + 1];
      }
    }
  }

  /** No line after an `exit` is ever acted on. */
  lemma ExitStopsSession<Row>(lines: seq<string>, turn: string -> Turn<Row>, k: nat)
    requires k < |lines| && IsExit(lines[k])
    ensures |Run(lines, turn).0| <= k
    ensures Run(lines, turn).1 != InputExhausted
  {
    RunFollowsLines(lines, turn);
    RunEnding(lines, turn);
  }

  /** Every statement the session hands to
      `execute_query` passed the gate, still passes it after bounding, and
      carries `LIMIT`; a blocked candidate is never executed. */
  lemma SessionExecutesOnlySafeStatements<Row>(lines: seq<string>, sv: Services<Row>)
    ensures forall t :: t in Session(lines, sv).0 ==>
              if t.Blocked? then !IsSafeQuery(t.candidate)
              else IsSafeQuery(t.candidate) && IsSafeQuery(t.statement) && HasLimit(t.statement)
  {
    RunFollowsLines(lines, TurnOf(sv));
    var turns := Session(lines, sv).0;
    forall k | 0 <= k < |turns|
      ensures if turns[k].Blocked? then !IsSafeQuery(turns[k].candidate)
              else IsSafeQuery(turns[k].candidate) && IsSafeQuery(turns[k].statement) && HasLimit(turns[k].statement)
    {
      TurnShape(lines[k], sv);
      TurnExecutesSafeStatement(lines[k], sv);
    }
  }

  /** The statements handed to `execute_query` over a sequence of turns, in
      order: one per turn that passed the gate. */
  function Executed<Row>(turns: seq<Turn<Row>>): seq<string> {
    if |turns| == 0 then []
    else
      var t := turns[|turns| - 1];
      Executed(turns[..|turns| - 1]) + (if t.Blocked? then [] else [t.statement])
  }

  lemma ExecutedAppend<Row>(turns: seq<Turn<Row>>, t: Turn<Row>)
    ensures Executed(turns + [t]) == Executed(turns) + (if t.Blocked? then [] else [t.statement])
  {
    assert (turns + [t])[..|turns|] == turns;
  }

  /** Every statement in the log of a sequence of turns comes from a turn
      that passed the gate, so it passes the gate and names `LIMIT` when
      those turns' statements do. */
  lemma {:induction false} ExecutedSafe<Row>(turns: seq<Turn<Row>>)
    requires forall t :: t in turns && !t.Blocked? ==> IsSafeQuery(t.statement) && HasLimit(t.statement)
    ensures forall k :: 0 <= k < |Executed(turns)| ==> IsSafeQuery(Executed(turns)[k]) && HasLimit(Executed(turns)[k])
  {
    if |turns| > 0 {
      var front := turns[..|turns| - 1];
      assert forall t :: t in front ==> t in turns;
      ExecutedSafe(front);
    }
  }

  /** The log of the statements a whole session executes: each passed the
      gate and names `LIMIT`. */
  lemma SessionLogIsSafe<Row>(lines: seq<string>, sv: Services<Row>)
    ensures forall k :: 0 <= k < |Executed(Session(lines, sv).0)| ==>
              IsSafeQuery(Executed(Session(lines, sv).0)[k]) && HasLimit(Executed(Session(lines, sv).0)[k])
  {
    SessionExecutesOnlySafeStatements(lines, sv);
    ExecutedSafe(Session(lines, sv).0);
  }

  lemma AppendOne<T>(done: seq<T>, t: T, rest: seq<T>)
    ensures done + ([t] + rest) == (done + [t]) + rest
  {
  }

  /** The `__main__` loop over the lines the user types. `executed` logs,
      in order, every statement the loop hands to `execute_query`. */
  method QuestionLoop<Row>(lines: seq<string>, sv: Services<Row>)
    returns (turns: seq<Turn<Row>>, ending: Ending, ghost executed: seq<string>)
    ensures (turns, ending) == Session(lines, sv)
    ensures executed == Executed(turns)
    ensures forall k :: 0 <= k < |executed| ==> IsSafeQuery(executed[k]) && HasLimit(executed[k])
  {
    ghost var turn := TurnOf(sv);
    SessionLogIsSafe(lines, sv);
    turns := [];
    executed := [];
    var next := 0;
    assert lines[next..] == lines;
    assert Session(lines, sv) == Run(lines, turn);
    assert turns + Run(lines, turn).0 == Run(lines, turn).0;
    while true
      invariant 0 <= next <= |lines|
      invariant Session(lines, sv) == (turns + Run(lines[next..], turn).0, Run(lines[next..], turn).1)
      invariant executed == Executed(turns)
      decreases |lines| - next
    {
      if next == |lines| {
        assert turns + [] == turns;
        ending := InputExhausted;
        return;
      }
      var userInput := lines[next];
      assert lines[next..][1..] == lines[next + 1..];
      next := next + 1;
      if Lower(userInput) == "exit" {
        assert turns + [] == turns;
        ending := ExitTyped;
        return;
      }
      TurnShape(userInput, sv);
      RunStep(lines[next - 1..], turn);
      ghost var t := turn(userInput);
      assert t == TakeTurn(userInput, sv);
      ghost var rest := Run(lines[next..], turn);
      assert Run(lines[next - 1..], turn) == if t.Failed? then ([t], ExecutionRaised) else ([t] + rest.0, rest.1);
      var candidate := SynthesizeSql(userInput, sv.sqlReply);
      if !IsSafeQuery(candidate) {
        assert t == Blocked(userInput, candidate);
        AppendOne(turns, t, rest.0);
        ExecutedAppend(turns, t);
        turns := turns + [Blocked(userInput, candidate)];
        continue;
      }
      var sqlQuery := EnforceLimit(candidate, DefaultLimit);
      executed := executed + [sqlQuery];
      var result := sv.execute(sqlQuery);
      if result.Raised? {
        assert t == Failed(userInput, candidate, sqlQuery, result.message);
        ExecutedAppend(turns, t);
        turns := turns + [Failed(userInput, candidate, sqlQuery, result.message)];
        ending := ExecutionRaised;
        return;
      }
      var summary := GenerateSummary(userInput, result.rows, sv.summaryReply);
      assert t == Answered(userInput, candidate, sqlQuery, result.rows, summary);
      AppendOne(turns, t, rest.0);
      ExecutedAppend(turns, t);
      turns := turns + [Answered(userInput, candidate, sqlQuery, result.rows, summary)];
    }
  }
}
