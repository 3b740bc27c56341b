/** The shell's command lists: statements, && and ||, early exit, and the joining of outputs. */
module Evaluator {
  import opened Text
  import opened Splitter

  datatype CommandResult = CommandResult(output: string, exitSession: bool, exitCode: int, path: string) {
    predicate Ok() {
      exitCode == 0
    }
  }

  const NO_COMMAND := CommandResult("", false, 0, "vfs")

  // ------------------------------------------------------------------ joining outputs

  function LineBreak(text: string): string {
    if text != "" && text[|text| - 1] != '\n' then "\n" else ""
  }

  /** Put one output after another, on a line of its own. */
  function Glue(a: string, b: string): string {
    if b == "" then a else a + LineBreak(a) + b
  }

  function JoinAll(chunks: seq<string>): string {
    if chunks == [] then "" else Glue(JoinAll(chunks[..|chunks| - 1]), chunks[|chunks| - 1])
  }

  method JoinOutputs(chunks: seq<string>) returns (merged: string)
    ensures merged == JoinAll(chunks)
  {
    merged := "";
    for i := 0 to |chunks|
      invariant merged == JoinAll(chunks[..i])
    {
      assert chunks[..i + 1][..i] == chunks[..i];
      var chunk := chunks[i];
      if chunk == "" {
        continue;
      }
      if merged != "" && merged[|merged| - 1] != '\n' {
        merged := merged + "\n";
      }
      merged := merged + chunk;
    }
    assert chunks[..|chunks|] == chunks;
  }

  /** Joining is a monoid on strings with the empty output as its unit. */
  lemma GlueIsMonoid(a: string, b: string, c: string)
    ensures Glue(Glue(a, b), c) == Glue(a, Glue(b, c))
    ensures Glue("", a) == a == Glue(a, "")
  {
    if b != "" && c != "" {
      var ab, s, t := Glue(a, b), LineBreak(a), LineBreak(b);
      assert ab[|ab| - 1] == b[|b| - 1];
      assert LineBreak(ab) == t;
      assert a + s + b + t + c == a + s + (b + t + c);
    }
  }

  /** Each output is kept whole and begins a line, with at most one line break added to separate the two. */
  lemma GlueKeepsLines(a: string, b: string)
    requires a != "" && b != ""
    ensures var g := Glue(a, b); var n := |g| - |b|;
      && 0 < n <= |a| + 1 && g[n..] == b && g[n - 1] == '\n' && a <= g
      && (a[|a| - 1] == '\n' ==> g == a + b)
  {
  }

  lemma {:induction false} JoinOfConcat(xs: seq<string>, ys: seq<string>)
    ensures JoinAll(xs + ys) == Glue(JoinAll(xs), JoinAll(ys))
    decreases |ys|
  {
    if ys == [] {
      assert xs + ys == xs;
    } else {
      var shorter, last := ys[..|ys| - 1], ys[|ys| - 1];
      assert (xs + ys)[..|xs + ys| - 1] == xs + shorter;
      JoinOfConcat(xs, shorter);
      GlueIsMonoid(JoinAll(xs), JoinAll(shorter), last);
    }
  }

  /** Leaving out empty outputs before joining makes no difference. */
  function NonEmpty(chunks: seq<string>): seq<string> {
    if chunks == [] then []
    else
      var before, last := NonEmpty(chunks[..|chunks| - 1]), chunks[|chunks| - 1];
      if last == "" then before else before + [last]
  }

  lemma {:induction false} JoinOfNonEmpty(chunks: seq<string>)
    ensures JoinAll(NonEmpty(chunks)) == JoinAll(chunks)
    decreases |chunks|
  {
    if chunks != [] {
      var shorter, last := chunks[..|chunks| - 1], chunks[|chunks| - 1];
      JoinOfNonEmpty(shorter);
      if last != "" {
        assert (NonEmpty(shorter) + [last])[..|NonEmpty(shorter)|] == NonEmpty(shorter);
      }
    }
  }

  function Flatten(groups: seq<seq<string>>): seq<string> {
    if groups == [] then [] else Flatten(groups[..|groups| - 1]) + groups[|groups| - 1]
  }

  function JoinEach(groups: seq<seq<string>>): seq<string> {
    seq(|groups|, i requires 0 <= i < |groups| => JoinAll(groups[i]))
  }

  /** Joining group by group and then the joined groups is one flat join. */
  lemma {:induction false} NestedJoinIsFlat(groups: seq<seq<string>>)
    ensures JoinAll(JoinEach(groups)) == JoinAll(Flatten(groups))
    decreases |groups|
  {
    if groups != [] {
      var shorter, last := groups[..|groups| - 1], groups[|groups| - 1];
      assert JoinEach(groups)[..|groups| - 1] == JoinEach(shorter);
      NestedJoinIsFlat(shorter);
      JoinOfConcat(Flatten(shorter), last);
    }
  }

  // ------------------------------------------------------------------ the reference evaluator

  /** A command list as the grammar reads it: && and || associate to the left. */
  datatype Chain = Nothing | Link(left: Chain, operator: string, command: string)

  function ChainOf(segments: seq<Fragment>): Chain {
    if segments == [] then Nothing
    else
      var last := segments[|segments| - 1];
      Link(ChainOf(segments[..|segments| - 1]), last.operator, last.command)
  }

  /** The state left behind, the last result, and the results of everything that ran, in order. */
  datatype Outcome<S> = Outcome(state: S, last: CommandResult, ran: seq<CommandResult>)

  predicate Skips(operator: string, ok: bool) {
    (operator == "&&" && !ok) || (operator == "||" && ok)
  }

  function Eval<S>(run: (S, string) -> (S, CommandResult), chain: Chain, s: S): Outcome<S> {
    match chain
    case Nothing => Outcome(s, NO_COMMAND, [])
    case Link(left, operator, command) =>
      var before := Eval(run, left, s);
      if before.last.exitSession || Skips(operator, before.last.Ok()) then before
      else
        var (after, result) := run(before.state, command);
        Outcome(after, result, before.ran + [result])
  }

  /** Statements one after another, until one ends the session. */
  function EvalAll<S>(run: (S, string) -> (S, CommandResult), chains: seq<Chain>, s: S): Outcome<S> {
    if chains == [] then Outcome(s, NO_COMMAND, [])
    else
      var before := EvalAll(run, chains[..|chains| - 1], s);
      if before.last.exitSession then before
      else
        var here := Eval(run, chains[|chains| - 1], before.state);
        Outcome(here.state, here.last, before.ran + here.ran)
  }

  function Outputs(results: seq<CommandResult>): seq<string> {
    seq(|results|, i requires 0 <= i < |results| => results[i].output)
  }

  /** What a finished evaluation is reported as. */
  function Report<S>(o: Outcome<S>): CommandResult {
    CommandResult(JoinAll(Outputs(o.ran)), o.last.exitSession, o.last.exitCode, o.last.path)
  }

  function ChainsOf(statements: seq<Fragment>): seq<Chain> {
    seq(|statements|, i requires 0 <= i < |statements| => ChainOf(SplitBy(CONDITIONALS, statements[i].command)))
  }

  function Parse(line: string): seq<Chain> {
    ChainsOf(SplitBy(STATEMENTS, Strip(line)))
  }

  // ------------------------------------------------------------------ the code

  /** A shell whose pipelines act on its state in a given way. */
  class Shell<S> {
    var state: S
    const run: (S, string) -> (S, CommandResult)

    constructor (state: S, run: (S, string) -> (S, CommandResult))
      ensures this.state == state && this.run == run
    {
      this.state, this.run := state, run;
    }

    method ExecutePipeline(command: string) returns (r: CommandResult)
      modifies this`state
      ensures (state, r) == run(old(state), command)
    {
      var (after, result) := run(state, command);
      state := after;
      r := result;
    }

    method Execute(line: string) returns (r: CommandResult)
      modifies this`state
      ensures var o := EvalAll(run, Parse(line), old(state)); state == o.state && r == Report(o)
    {
      hide SplitBy, Eval, ChainOf, JoinAll, Outputs, Strip;
      NothingToReport();
      var stripped := Strip(line);
      if stripped == "" {
        NothingToParse(line);
        return NO_COMMAND;
      }
      var statements := SplitOperators(stripped, [";"]);
      ghost var chains, o := Parse(line), Outcome(state, NO_COMMAND, []);
      var outputs, last := [], NO_COMMAND;
      for i := 0 to |statements|
        invariant o == EvalAll(run, chains[..i], old(state)) && state == o.state
        invariant JoinAll(outputs) == JoinAll(Outputs(o.ran)) && SameStatus(last, o.last) && !last.exitSession
      {
        ghost var here := Eval(run, chains[i], o.state);
        assert chains[..i + 1][..i] == chains[..i];
        last := ExecuteConditionals(statements[i].command);
        AddOutput(outputs, o.ran, last.output, here.ran);
        o := Outcome(here.state, here.last, o.ran + here.ran);
        if last.output != "" {
          outputs := outputs + [last.output];
        }
        if last.exitSession {
          ExitEndsStatements(run, chains, old(state), i + 1);
          break;
        }
      }
      assert chains[..|chains|] == chains;
      var output := JoinOutputs(outputs);
      r := CommandResult(output, last.exitSession, last.exitCode, last.path);
    }

    method ExecuteConditionals(statement: string) returns (r: CommandResult)
      modifies this`state
      ensures var o := Eval(run, ChainOf(SplitBy(CONDITIONALS, statement)), old(state)); state == o.state && r == Report(o)
    {
      hide SplitBy, JoinAll, Outputs, ChainOf;
      NothingToReport();
      var segments := SplitOperators(statement, ["&&", "||"]);
      NoChain(segments);
      if segments == [] {
        return NO_COMMAND;
      }
      ghost var ran: seq<CommandResult> := [];
      var outputs, last, lastOk := [], NO_COMMAND, true;
      for i := 0 to |segments|
        invariant Eval(run, ChainOf(segments[..i]), old(state)) == Outcome(state, last, ran)
        invariant JoinAll(outputs) == JoinAll(Outputs(ran)) && !last.exitSession && lastOk == last.Ok()
      {
        ChainGrows(segments, i);
        var segment := segments[i];
        if segment.operator == "&&" && !lastOk {
          continue;
        }
        if segment.operator == "||" && lastOk {
          continue;
        }
        last := ExecutePipeline(segment.command);
        lastOk := last.Ok();
        OneOutput(last);
        AddOutput(outputs, ran, last.output, [last]);
        ran := ran + [last];
        if last.output != "" {
          outputs := outputs + [last.output];
        }
        if last.exitSession {
          ExitEndsChain(run, segments, old(state), i + 1);
          break;
        }
      }
      assert segments[..|segments|] == segments;
      var output := JoinOutputs(outputs);
      r := CommandResult(output, last.exitSession, last.exitCode, last.path);
    }
  }

  predicate SameStatus(a: CommandResult, b: CommandResult) {
    a.exitSession == b.exitSession && a.exitCode == b.exitCode && a.path == b.path
  }

  // ------------------------------------------------------------------ lemmas for the code

  lemma NoChain(segments: seq<Fragment>)
    ensures ChainOf(segments[..0]) == Nothing == ChainOf([])
  {
  }

  lemma ChainGrows(segments: seq<Fragment>, i: nat)
    requires i < |segments|
    ensures ChainOf(segments[..i + 1]) == Link(ChainOf(segments[..i]), segments[i].operator, segments[i].command)
  {
    assert segments[..i + 1][..i] == segments[..i];
  }

  lemma NothingToReport()
    ensures JoinAll([]) == JoinAll(Outputs([])) == ""
  {
    assert Outputs([]) == [];
  }

  lemma NothingToParse(line: string)
    requires Strip(line) == ""
    ensures Parse(line) == []
  {
    hide Strip;
    assert Pieces(STATEMENTS, "", 0, "") == [Fragment("", "")];
    assert Strip("") == "" by {
      StripTwice(line);
    }
    assert [Fragment("", "")][1..] == [] && Kept([]) == [];
    assert SplitBy(STATEMENTS, "") == [];
  }

  lemma OneOutput(r: CommandResult)
    ensures JoinAll(Outputs([r])) == r.output
  {
    assert Outputs([r]) == [r.output];
    assert [r.output][..0] == [];
    assert JoinAll([]) == "";
  }

  /** Adding an output if it is not empty, when it is itself the join of what has just run. */
  lemma AddOutput(outputs: seq<string>, ran: seq<CommandResult>, output: string, more: seq<CommandResult>)
    requires JoinAll(outputs) == JoinAll(Outputs(ran)) && output == JoinAll(Outputs(more))
    ensures JoinAll(if output == "" then outputs else outputs + [output]) == JoinAll(Outputs(ran + more))
  {
    assert Outputs(ran + more) == Outputs(ran) + Outputs(more);
    JoinOfConcat(Outputs(ran), Outputs(more));
    assert (outputs + [output])[..|outputs|] == outputs;
  }

  /** Once the session is to end, what follows in the list does not run. */
  lemma {:induction false} ExitEndsChain<S>(run: (S, string) -> (S, CommandResult), segments: seq<Fragment>, s: S, n: nat)
    requires n <= |segments| && Eval(run, ChainOf(segments[..n]), s).last.exitSession
    ensures Eval(run, ChainOf(segments), s) == Eval(run, ChainOf(segments[..n]), s)
    decreases |segments|
  {
    if n == |segments| {
      assert segments[..n] == segments;
    } else {
      var shorter := segments[..|segments| - 1];
      assert shorter[..n] == segments[..n];
      ExitEndsChain(run, shorter, s, n);
    }
  }

  lemma {:induction false} ExitEndsStatements<S>(run: (S, string) -> (S, CommandResult), chains: seq<Chain>, s: S, n: nat)
    requires n <= |chains| && EvalAll(run, chains[..n], s).last.exitSession
    ensures EvalAll(run, chains, s) == EvalAll(run, chains[..n], s)
    decreases |chains|
  {
    if n == |chains| {
      assert chains[..n] == chains;
    } else {
      var shorter := chains[..|chains| - 1];
      assert shorter[..n] == chains[..n];
      ExitEndsStatements(run, shorter, s, n);
    }
  }

  // ------------------------------------------------------------------ what evaluation promises

  /** Only the last thing that runs can end the session, and it is what the whole line reports. */
  lemma {:induction false} ExitComesLast<S>(run: (S, string) -> (S, CommandResult), chain: Chain, s: S)
    ensures var o := Eval(run, chain, s);
      && (o.ran == [] ==> o.last == NO_COMMAND && o.state == s)
      && (o.ran != [] ==> o.last == o.ran[|o.ran| - 1])
      && forall i :: 0 <= i < |o.ran| - 1 ==> !o.ran[i].exitSession
  {
    if chain.Link? {
      ExitComesLast(run, chain.left, s);
    }
  }

  /** A list is evaluated by running what is left of any point, then what is right of it. */
  function Resume<S>(run: (S, string) -> (S, CommandResult), o: Outcome<S>, segments: seq<Fragment>): Outcome<S>
    decreases segments
  {
    if segments == [] || o.last.exitSession then o
    else if Skips(segments[0].operator, o.last.Ok()) then Resume(run, o, segments[1..])
    else
      var (after, result) := run(o.state, segments[0].command);
      Resume(run, Outcome(after, result, o.ran + [result]), segments[1..])
  }

  lemma {:induction false} ListsSplitAnywhere<S>(run: (S, string) -> (S, CommandResult), first: seq<Fragment>, rest: seq<Fragment>, s: S)
    ensures Eval(run, ChainOf(first + rest), s) == Resume(run, Eval(run, ChainOf(first), s), rest)
    decreases |rest|
  {
    if rest == [] {
      assert first + rest == first;
    } else {
      var more := first + [rest[0]];
      assert more[..|first|] == first && more + rest[1..] == first + rest;
      ListsSplitAnywhere(run, more, rest[1..], s);
      if Eval(run, ChainOf(first), s).last.exitSession {
        assert (first + rest)[..|first|] == first;
        ExitEndsChain(run, first + rest, s, |first|);
      }
    }
  }

  /**
   * What runs next. As long as nothing has ended the session, a command after && runs if and only if the last one
   * that ran exited with 0, a command after || if and only if it did not, and any other command always; what does
   * not run changes nothing. The first command finds exit code 0.
   */
  lemma NextCommandExactly<S>(run: (S, string) -> (S, CommandResult), first: seq<Fragment>, f: Fragment, s: S)
    ensures var o, next := Eval(run, ChainOf(first), s), Eval(run, ChainOf(first + [f]), s);
      var result := run(o.state, f.command);
      if o.last.exitSession then next == o
      else if (f.operator == "&&" && o.last.exitCode != 0) || (f.operator == "||" && o.last.exitCode == 0) then next == o
      else next == Outcome(result.0, result.1, o.ran + [result.1])
    ensures Eval(run, ChainOf([]), s) == Outcome(s, CommandResult("", false, 0, "vfs"), [])
  {
    assert (first + [f])[..|first|] == first;
  }

  /**
   * Statements do run one after another whatever their exit codes, until one ends the session; each starts from the
   * state the last one left, and what is reported is the last statement's.
   */
  lemma NextStatementExactly<S>(run: (S, string) -> (S, CommandResult), first: seq<Chain>, c: Chain, s: S)
    ensures var o, next := EvalAll(run, first, s), EvalAll(run, first + [c], s);
      var here := Eval(run, c, o.state);
      if o.last.exitSession then next == o else next == Outcome(here.state, here.last, o.ran + here.ran)
    ensures EvalAll(run, [], s) == Outcome(s, CommandResult("", false, 0, "vfs"), [])
  {
    assert (first + [c])[..|first|] == first;
  }

  /**
   * Short circuit: a row of && after a failure is skipped whole, up to the next ||, and a row of || after a success
   * up to the next &&.
   */
  lemma {:induction false} ShortCircuit<S>(run: (S, string) -> (S, CommandResult), first: seq<Fragment>, skipped: seq<Fragment>, s: S)
    requires var o := Eval(run, ChainOf(first), s);
      || (o.last.exitCode != 0 && forall i :: 0 <= i < |skipped| ==> skipped[i].operator == "&&")
      || (o.last.exitCode == 0 && forall i :: 0 <= i < |skipped| ==> skipped[i].operator == "||")
    ensures Eval(run, ChainOf(first + skipped), s) == Eval(run, ChainOf(first), s)
    decreases |skipped|
  {
    hide ChainOf, Eval;
    if skipped == [] {
      assert first + skipped == first;
    } else {
      var shorter, last := skipped[..|skipped| - 1], skipped[|skipped| - 1];
      assert first + skipped == (first + shorter) + [last];
      ShortCircuit(run, first, shorter, s);
      NextCommandExactly(run, first + shorter, last, s);
    }
  }

  /** A line is its statements between semicolons, each a list of commands between && and ||. */
  lemma LineExactly(line: string)
    ensures var statements := SplitBy(Operators([";"]), Strip(line));
      && |Parse(line)| == |statements|
      && forall i :: 0 <= i < |statements| ==>
           Parse(line)[i] == ChainOf(SplitBy(Operators(["&&", "||"]), statements[i].command))
  {
    hide SplitBy, ChainOf;
  }

  /** What a line reports: all outputs that are not empty, joined, and the status of the last command that ran. */
  lemma ReportExactly<S>(o: Outcome<S>)
    ensures Report(o).exitSession == o.last.exitSession && Report(o).exitCode == o.last.exitCode && Report(o).path == o.last.path
    ensures Report(o).output == JoinAll(NonEmpty(Outputs(o.ran)))
    ensures |Outputs(o.ran)| == |o.ran| && forall i :: 0 <= i < |o.ran| ==> Outputs(o.ran)[i] == o.ran[i].output
  {
    JoinOfNonEmpty(Outputs(o.ran));
  }
}
