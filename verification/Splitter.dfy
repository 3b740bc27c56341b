/** The shell's quote-aware splitters: what they cut, and that they lose nothing. */
module Splitter {
  import opened Text

  // ------------------------------------------------------------------ quoting

  /** Where a character stands: in the open, just after an unquoted backslash, or inside a quotation. */
  datatype Lexing = Plain | Escaped | Quoted(mark: char)

  predicate IsMark(c: char) {
    c == '\'' || c == '"'
  }

  function Lex(state: Lexing, c: char): Lexing {
    match state
    case Plain => if c == '\\' then Escaped else if IsMark(c) then Quoted(c) else Plain
    case Escaped => Plain
    case Quoted(mark) => if c == mark then Plain else state
  }

  function StateAfter(text: string): Lexing {
    if text == "" then Plain else Lex(StateAfter(text[..|text| - 1]), text[|text| - 1])
  }

  function StateAt(line: string, i: nat): Lexing
    requires i <= |line|
  {
    StateAfter(line[..i])
  }

  lemma NextState(line: string, i: nat)
    requires i < |line|
    ensures StateAt(line, i + 1) == Lex(StateAt(line, i), line[i])
  {
    assert line[..i + 1][..i] == line[..i];
  }

  /** The quoting rules: a backslash escapes one character in the open, either quote runs to its next occurrence. */
  lemma QuotingExactly(line: string, i: nat)
    requires i < |line|
    ensures StateAt(line, 0) == Plain
    ensures StateAt(line, i + 1) ==
      match StateAt(line, i)
      case Plain => if line[i] == '\\' then Escaped else if line[i] == '"' || line[i] == '\'' then Quoted(line[i]) else Plain
      case Escaped => Plain
      case Quoted(mark) => if line[i] == mark then Plain else Quoted(mark)
  {
    assert line[..0] == "";
    NextState(line, i);
  }

  /** A text met in the open reads the same there as on its own. */
  lemma {:induction false} StateOfPart(line: string, start: nat, i: nat)
    requires start <= i <= |line| && StateAt(line, start) == Plain
    ensures StateAt(line, i) == StateAt(line[start..], i - start)
    decreases i
  {
    if i == start {
      assert line[start..][..0] == "";
    } else {
      StateOfPart(line, start, i - 1);
      NextState(line, i - 1);
      NextState(line[start..], i - 1 - start);
    }
  }

  lemma StateOfPrefix(line: string, stop: nat, i: nat)
    requires i <= stop <= |line|
    ensures StateAt(line[..stop], i) == StateAt(line, i)
  {
    assert line[..stop][..i] == line[..i];
  }

  // ------------------------------------------------------------------ where a line is cut

  /** What to cut at: any of these operators, longest first, or a bar with no other bar after it. */
  datatype Rule = Operators(list: seq<string>) | SingleBar

  const STATEMENTS := Operators([";"])
  const CONDITIONALS := Operators(["&&", "||"])
  const BARS := Operators(["|"])

  predicate Inert(c: char) {
    c != '\\' && !IsMark(c)
  }

  /** Operators are not empty and contain no character of the quoting syntax. */
  ghost predicate ProperList(list: seq<string>) {
    forall op :: op in list ==> op != "" && forall c :: c in op ==> Inert(c)
  }

  ghost predicate Proper(rule: Rule) {
    rule.Operators? ==> ProperList(rule.list)
  }

  /** The longest of the operators that begin the text, or nothing. */
  function Longest(list: seq<string>, text: string): (op: string)
    ensures op <= text && (op != "" ==> op in list)
    ensures forall other :: other in list && other <= text ==> |other| <= |op|
  {
    if list == [] then ""
    else
      var best := Longest(list[1..], text);
      if list[0] <= text && |list[0]| >= |best| then list[0] else best
  }

  /** What is cut out at this position if it stands in the open. */
  function MatchAt(rule: Rule, line: string, i: nat): (op: string)
    requires i <= |line|
    ensures op <= line[i..]
  {
    match rule
    case Operators(list) => Longest(list, line[i..])
    case SingleBar => if "|" <= line[i..] && !("||" <= line[i..]) then "|" else ""
  }

  predicate CutAt(rule: Rule, line: string, i: nat) {
    i < |line| && StateAt(line, i) == Plain && MatchAt(rule, line, i) != ""
  }

  /**
   * Where a line is cut: in the open, where some operator begins, at the longest that does; or, for pipelines, at a
   * bar with no bar after it.
   */
  lemma CutExactly(list: seq<string>, line: string, i: nat)
    requires ProperList(list) && i <= |line|
    ensures CutAt(Operators(list), line, i) <==> i < |line| && StateAt(line, i) == Plain && exists op :: op in list && op <= line[i..]
    ensures CutAt(Operators(list), line, i) ==>
      var cut := MatchAt(Operators(list), line, i);
      cut in list && cut <= line[i..] && forall op :: op in list && op <= line[i..] ==> |op| <= |cut|
    ensures CutAt(SingleBar, line, i) <==>
      i < |line| && StateAt(line, i) == Plain && line[i] == '|' && (i + 1 < |line| ==> line[i + 1] != '|')
    ensures CutAt(SingleBar, line, i) ==> MatchAt(SingleBar, line, i) == "|"
  {
    hide StateAt, Longest;
    if i < |line| {
      assert line[i..][0] == line[i];
      assert i + 1 < |line| ==> line[i..][1] == line[i + 1];
    }
  }

  function NextCut(rule: Rule, line: string, i: nat): (j: nat)
    requires i <= |line|
    ensures i <= j <= |line| && (j < |line| ==> CutAt(rule, line, j))
    ensures forall k :: i <= k < j ==> !CutAt(rule, line, k)
    decreases |line| - i
  {
    if i == |line| || CutAt(rule, line, i) then i else NextCut(rule, line, i + 1)
  }

  datatype Fragment = Fragment(operator: string, command: string)

  /** The raw pieces between cuts, each with the operator that came before it. */
  function Pieces(rule: Rule, line: string, start: nat, incoming: string): (pieces: seq<Fragment>)
    requires start <= |line|
    ensures pieces != []
    decreases |line| - start
  {
    var j := NextCut(rule, line, start);
    if j == |line| then [Fragment(incoming, line[start..])]
    else
      var op := MatchAt(rule, line, j);
      [Fragment(incoming, line[start..j])] + Pieces(rule, line, j + |op|, op)
  }

  /** Pieces are stripped, and dropped if nothing is left. */
  function Kept(pieces: seq<Fragment>): seq<Fragment> {
    if pieces == [] then []
    else
      var command := Strip(pieces[0].command);
      (if command == "" then [] else [Fragment(pieces[0].operator, command)]) + Kept(pieces[1..])
  }

  function SplitBy(rule: Rule, line: string): seq<Fragment> {
    Kept(Pieces(rule, line, 0, ""))
  }

  function Commands(fragments: seq<Fragment>): seq<string> {
    seq(|fragments|, i requires 0 <= i < |fragments| => fragments[i].command)
  }

  // ------------------------------------------------------------------ the code

  /** sorted(operators, key=len, reverse=True), which is stable. */
  function Insert(op: string, list: seq<string>): seq<string> {
    if list == [] || |op| >= |list[0]| then [op] + list else [list[0]] + Insert(op, list[1..])
  }

  function LongestFirst(operators: seq<string>): seq<string> {
    if operators == [] then [] else Insert(operators[0], LongestFirst(operators[1..]))
  }

  /** Part of the way through a line: what has been cut off, and where we stand. */
  ghost predicate Scanning(rule: Rule, line: string, start: nat, index: nat, incoming: string, buf: string, quote: Lexing,
                           fragments: seq<Fragment>) {
    && start <= index <= |line| && buf == line[start..index]
    && !quote.Escaped? && (index < |line| ==> StateAt(line, index) == quote)
    && fragments + Kept(Pieces(rule, line, start, incoming)) == SplitBy(rule, line)
    && NextCut(rule, line, start) == NextCut(rule, line, index)
  }

  method SplitOperators(line: string, operators: seq<string>) returns (fragments: seq<Fragment>)
    requires ProperList(operators)
    ensures fragments == SplitBy(Operators(operators), line)
  {
    hide Scanning, Strip, Longest, StateAt, SplitBy, KeptOne;
    var seps := LongestFirst(operators);
    ghost var rule := Operators(operators);
    fragments := [];
    var buf, incoming, quote, index := "", "", Plain, 0;
    ghost var start: nat := 0;
    ScanBegins(rule, line);
    while index < |line|
      invariant index <= |line| && Scanning(rule, line, start, index, incoming, buf, quote, fragments)
      decreases |line| - index
    {
      ScanState(rule, line, start, index, incoming, buf, quote, fragments);
      var c := line[index];
      if quote == Plain && c == '\\' {
        ScanEscape(rule, line, start, index, incoming, buf, fragments);
        if index + 1 < |line| {
          buf := buf + [c, line[index + 1]];
          index := index + 2;
        } else {
          buf := buf + [c];
          index := index + 1;
        }
        continue;
      }
      ScanOne(rule, line, start, index, incoming, buf, quote, fragments);
      if quote != Plain {
        buf := buf + [c];
        if c == quote.mark {
          quote := Plain;
        }
        index := index + 1;
        continue;
      }
      if IsMark(c) {
        quote := Quoted(c);
        buf := buf + [c];
        index := index + 1;
        continue;
      }
      var matched := FirstMatch(seps, line, index);
      SortedFindsLongest(operators, line[index..]);
      if matched != "" {
        ScanCut(rule, line, start, index, incoming, buf, fragments);
        var command := Strip(buf);
        if command != "" {
          fragments := fragments + [Fragment(incoming, command)];
        }
        incoming := matched;
        buf := "";
        index := index + |matched|;
        start := index;
        continue;
      }
      buf := buf + [c];
      index := index + 1;
    }
    ScanEnds(rule, line, start, incoming, buf, quote, fragments);
    var command := Strip(buf);
    if command != "" {
      fragments := fragments + [Fragment(incoming, command)];
    }
  }

  method FirstMatch(seps: seq<string>, line: string, index: nat) returns (matched: string)
    requires index <= |line|
    ensures matched == FirstOf(seps, line[index..])
  {
    for i := 0 to |seps|
      invariant FirstOf(seps, line[index..]) == FirstOf(seps[i..], line[index..])
    {
      if seps[i] <= line[index..] {
        return seps[i];
      }
    }
    matched := "";
  }

  method SplitPipeline(line: string) returns (stages: seq<string>)
    ensures stages == Commands(SplitBy(SingleBar, line))
  {
    hide Scanning, Strip, StateAt, SplitBy, Commands, KeptOne;
    stages := [];
    var buf, quote, index := "", Plain, 0;
    ghost var start: nat := 0;
    ghost var incoming, fragments: seq<Fragment> := "", [];
    ScanBegins(SingleBar, line);
    NoCommands();
    while index < |line|
      invariant index <= |line| && Scanning(SingleBar, line, start, index, incoming, buf, quote, fragments)
      invariant stages == Commands(fragments)
      decreases |line| - index
    {
      ScanState(SingleBar, line, start, index, incoming, buf, quote, fragments);
      var c := line[index];
      if quote == Plain && c == '\\' {
        ScanEscape(SingleBar, line, start, index, incoming, buf, fragments);
        if index + 1 < |line| {
          buf := buf + [c, line[index + 1]];
          index := index + 2;
        } else {
          buf := buf + [c];
          index := index + 1;
        }
        continue;
      }
      ScanOne(SingleBar, line, start, index, incoming, buf, quote, fragments);
      if quote != Plain {
        buf := buf + [c];
        if c == quote.mark {
          quote := Plain;
        }
        index := index + 1;
        continue;
      }
      if IsMark(c) {
        quote := Quoted(c);
        buf := buf + [c];
        index := index + 1;
        continue;
      }
      if c == '|' && !(index + 1 < |line| && line[index + 1] == '|') {
        ScanCut(SingleBar, line, start, index, incoming, buf, fragments);
        var stage := Strip(buf);
        if stage != "" {
          MoreCommands(fragments, Fragment(incoming, stage));
          stages := stages + [stage];
          fragments := fragments + [Fragment(incoming, stage)];
        }
        buf := "";
        index := index + 1;
        start, incoming := index, "|";
        continue;
      }
      buf := buf + [c];
      index := index + 1;
    }
    ScanEnds(SingleBar, line, start, incoming, buf, quote, fragments);
    var stage := Strip(buf);
    if stage != "" {
      MoreCommands(fragments, Fragment(incoming, stage));
      stages := stages + [stage];
    }
  }

  // ------------------------------------------------------------------ lemmas for the code

  lemma NoCommands()
    ensures Commands([]) == []
  {
  }

  lemma MoreCommands(fragments: seq<Fragment>, last: Fragment)
    ensures Commands(fragments + [last]) == Commands(fragments) + [last.command]
  {
  }

  function FirstOf(list: seq<string>, text: string): string {
    if list == [] then "" else if list[0] <= text then list[0] else FirstOf(list[1..], text)
  }

  predicate Descending(list: seq<string>) {
    |list| >= 2 ==> |list[0]| >= |list[1]| && Descending(list[1..])
  }

  lemma {:induction false} InsertKeepsOrder(op: string, list: seq<string>)
    requires Descending(list)
    ensures Descending(Insert(op, list))
  {
    if list == [] || |op| >= |list[0]| {
      assert ([op] + list)[1..] == list;
    } else {
      InsertKeepsOrder(op, list[1..]);
      assert ([list[0]] + Insert(op, list[1..]))[1..] == Insert(op, list[1..]);
    }
  }

  lemma {:induction false} InsertFindsLonger(op: string, list: seq<string>, text: string)
    requires Descending(list)
    ensures FirstOf(Insert(op, list), text) ==
      if op <= text && |op| >= |FirstOf(list, text)| then op else FirstOf(list, text)
  {
    FirstIsShort(list, text);
    if list == [] || |op| >= |list[0]| {
      assert ([op] + list)[1..] == list;
    } else {
      InsertFindsLonger(op, list[1..], text);
      assert ([list[0]] + Insert(op, list[1..]))[1..] == Insert(op, list[1..]);
    }
  }

  lemma {:induction false} FirstIsShort(list: seq<string>, text: string)
    requires Descending(list)
    ensures list != [] ==> |FirstOf(list, text)| <= |list[0]|
  {
    if list != [] && !(list[0] <= text) {
      FirstIsShort(list[1..], text);
    }
  }

  /** Trying the operators longest first finds the longest that matches. */
  lemma {:induction false} SortedFindsLongest(operators: seq<string>, text: string)
    ensures Descending(LongestFirst(operators))
    ensures FirstOf(LongestFirst(operators), text) == Longest(operators, text)
  {
    if operators != [] {
      SortedFindsLongest(operators[1..], text);
      InsertKeepsOrder(operators[0], LongestFirst(operators[1..]));
      InsertFindsLonger(operators[0], LongestFirst(operators[1..]), text);
    }
  }

  /** Nothing is cut at a quoting character. */
  lemma MatchIsInert(rule: Rule, line: string, i: nat)
    requires Proper(rule) && i < |line| && MatchAt(rule, line, i) != ""
    ensures Inert(line[i])
  {
    var op := MatchAt(rule, line, i);
    assert op[0] == line[i..][0] == line[i];
    assert op[0] in op;
  }

  /** A position that is not a cut is passed over. */
  lemma SkipOne(rule: Rule, line: string, i: nat)
    requires Proper(rule) && i < |line|
    ensures StateAt(line, i + 1) == Lex(StateAt(line, i), line[i])
    ensures StateAt(line, i) != Plain || !Inert(line[i]) || MatchAt(rule, line, i) == ""
      ==> NextCut(rule, line, i) == NextCut(rule, line, i + 1)
  {
    NextState(line, i);
    if MatchAt(rule, line, i) != "" {
      MatchIsInert(rule, line, i);
    }
  }

  lemma SkipEscape(rule: Rule, line: string, i: nat)
    requires Proper(rule) && i < |line| && line[i] == '\\' && StateAt(line, i) == Plain
    ensures i + 1 < |line| ==> StateAt(line, i + 2) == Plain && NextCut(rule, line, i) == NextCut(rule, line, i + 2)
    ensures StateAt(line, i + 1) == Escaped && NextCut(rule, line, i) == NextCut(rule, line, i + 1)
  {
    SkipOne(rule, line, i);
    if i + 1 < |line| {
      SkipOne(rule, line, i + 1);
    }
  }

  /** Reading inert characters in the open leaves us in the open. */
  lemma {:induction false} InertStaysPlain(line: string, i: nat, j: nat)
    requires i <= j <= |line| && StateAt(line, i) == Plain
    requires forall k :: i <= k < j ==> Inert(line[k])
    ensures StateAt(line, j) == Plain
    decreases j
  {
    if i < j {
      InertStaysPlain(line, i, j - 1);
      NextState(line, j - 1);
    }
  }

  /** After a cut we are in the open again. */
  lemma PlainAfterCut(rule: Rule, line: string, i: nat)
    requires Proper(rule) && CutAt(rule, line, i)
    ensures i + |MatchAt(rule, line, i)| <= |line| && StateAt(line, i + |MatchAt(rule, line, i)|) == Plain
    ensures line[i..i + |MatchAt(rule, line, i)|] == MatchAt(rule, line, i)
  {
    hide StateAt, Longest, Lex;
    var op := MatchAt(rule, line, i);
    assert forall k :: 0 <= k < |op| ==> op[k] == line[i..][k] == line[i + k];
    forall k | i <= k < i + |op|
      ensures Inert(line[k])
    {
      assert line[k] == op[k - i];
      assert line[k] in op;
    }
    InertStaysPlain(line, i, i + |op|);
  }

  function KeptOne(operator: string, raw: string): seq<Fragment> {
    if Strip(raw) == "" then [] else [Fragment(operator, Strip(raw))]
  }

  function WithPiece(done: seq<Fragment>, operator: string, raw: string): (r: seq<Fragment>)
    ensures r == done + KeptOne(operator, raw)
  {
    if Strip(raw) == "" then done else done + [Fragment(operator, Strip(raw))]
  }

  lemma CutHere(rule: Rule, line: string, start: nat, i: nat, incoming: string)
    requires Proper(rule) && start <= i && CutAt(rule, line, i) && NextCut(rule, line, start) == NextCut(rule, line, i)
    ensures var op := MatchAt(rule, line, i);
      && i + |op| <= |line| && StateAt(line, i + |op|) == Plain
      && Kept(Pieces(rule, line, start, incoming)) == KeptOne(incoming, line[start..i]) + Kept(Pieces(rule, line, i + |op|, op))
  {
    hide StateAt, MatchAt, Strip;
    PlainAfterCut(rule, line, i);
    var op := MatchAt(rule, line, i);
    var rest := Pieces(rule, line, i + |op|, op);
    assert ([Fragment(incoming, line[start..i])] + rest)[1..] == rest;
  }

  lemma LastPiece(rule: Rule, line: string, start: nat, incoming: string)
    requires start <= |line| && NextCut(rule, line, start) == |line|
    ensures Kept(Pieces(rule, line, start, incoming)) == KeptOne(incoming, line[start..])
  {
    assert Kept([]) == [];
  }

  lemma ScanBegins(rule: Rule, line: string)
    ensures Scanning(rule, line, 0, 0, "", "", Plain, [])
  {
    assert line[..0] == "";
  }

  lemma ScanState(rule: Rule, line: string, start: nat, i: nat, incoming: string, buf: string, quote: Lexing, done: seq<Fragment>)
    requires i < |line| && Scanning(rule, line, start, i, incoming, buf, quote, done)
    ensures quote == StateAt(line, i) && !quote.Escaped?
  {
  }

  lemma ScanOne(rule: Rule, line: string, start: nat, i: nat, incoming: string, buf: string, quote: Lexing, done: seq<Fragment>)
    requires Proper(rule) && i < |line| && Scanning(rule, line, start, i, incoming, buf, quote, done)
    ensures quote != Plain || (line[i] != '\\' && (!Inert(line[i]) || MatchAt(rule, line, i) == "")) ==>
      Scanning(rule, line, start, i + 1, incoming, buf + [line[i]], Lex(quote, line[i]), done)
  {
    hide StateAt, MatchAt, Kept, Pieces, SplitBy;
    SkipOne(rule, line, i);
    assert line[start..i + 1] == line[start..i] + [line[i]];
  }

  lemma ScanEscape(rule: Rule, line: string, start: nat, i: nat, incoming: string, buf: string, done: seq<Fragment>)
    requires Proper(rule) && i < |line| && line[i] == '\\' && Scanning(rule, line, start, i, incoming, buf, Plain, done)
    ensures i + 1 == |line| ==> Scanning(rule, line, start, i + 1, incoming, buf + [line[i]], Plain, done)
    ensures i + 1 < |line| ==> Scanning(rule, line, start, i + 2, incoming, buf + [line[i], line[i + 1]], Plain, done)
  {
    hide StateAt, MatchAt, Kept, Pieces, SplitBy;
    SkipEscape(rule, line, i);
    assert line[start..i + 1] == line[start..i] + [line[i]];
    if i + 1 < |line| {
      assert line[start..i + 2] == line[start..i] + [line[i], line[i + 1]];
    }
  }

  lemma ScanCut(rule: Rule, line: string, start: nat, i: nat, incoming: string, buf: string, done: seq<Fragment>)
    requires Proper(rule) && i < |line| && Scanning(rule, line, start, i, incoming, buf, Plain, done)
    requires MatchAt(rule, line, i) != ""
    ensures var op := MatchAt(rule, line, i);
      && i + |op| <= |line|
      && Scanning(rule, line, i + |op|, i + |op|, op, "", Plain, WithPiece(done, incoming, buf))
  {
    hide StateAt, MatchAt, Strip, KeptOne, Kept, Pieces, NextCut, SplitBy;
    CutHere(rule, line, start, i, incoming);
    var n := i + |MatchAt(rule, line, i)|;
    assert line[n..n] == "";
    assert done + (KeptOne(incoming, buf) + Kept(Pieces(rule, line, n, MatchAt(rule, line, i))))
        == (done + KeptOne(incoming, buf)) + Kept(Pieces(rule, line, n, MatchAt(rule, line, i)));
  }

  lemma ScanEnds(rule: Rule, line: string, start: nat, incoming: string, buf: string, quote: Lexing, done: seq<Fragment>)
    requires Scanning(rule, line, start, |line|, incoming, buf, quote, done)
    ensures SplitBy(rule, line) == WithPiece(done, incoming, buf)
  {
    LastPiece(rule, line, start, incoming);
    assert line[start..|line|] == line[start..];
  }

  // ------------------------------------------------------------------ what splitting promises

  /** Operators and raw pieces written out again in order. */
  function Rebuild(pieces: seq<Fragment>): string {
    if pieces == [] then "" else pieces[0].operator + pieces[0].command + Rebuild(pieces[1..])
  }

  lemma {:induction false} RebuildFrom(rule: Rule, line: string, start: nat, incoming: string)
    requires start <= |line|
    ensures Rebuild(Pieces(rule, line, start, incoming)) == incoming + line[start..]
    decreases |line| - start
  {
    hide CutAt, NextCut, MatchAt, Pieces, Rebuild;
    var j := NextCut(rule, line, start);
    if j == |line| {
      PiecesAtEnd(rule, line, start, incoming);
      RebuildStep(Fragment(incoming, line[start..]), []);
      NothingToRebuild();
      assert [Fragment(incoming, line[start..])] + [] == [Fragment(incoming, line[start..])];
    } else {
      var op := MatchAt(rule, line, j);
      CutIsPart(rule, line, j);
      PiecesAtCut(rule, line, start, incoming, j, op);
      RebuildFrom(rule, line, j + |op|, op);
      RebuildStep(Fragment(incoming, line[start..j]), Pieces(rule, line, j + |op|, op));
      Rejoin(incoming, line, start, j);
    }
  }

  lemma NothingToRebuild()
    ensures Rebuild([]) == ""
  {
  }

  lemma CutIsPart(rule: Rule, line: string, j: nat)
    requires CutAt(rule, line, j)
    ensures 0 < |MatchAt(rule, line, j)| <= |line| - j
    ensures line[j..] == MatchAt(rule, line, j) + line[j + |MatchAt(rule, line, j)|..]
  {
  }

  /** Splitting loses nothing: the raw pieces and the operators between them make up the line again. */
  lemma SplittingIsLossless(rule: Rule, line: string)
    ensures Rebuild(Pieces(rule, line, 0, "")) == line
  {
    RebuildFrom(rule, line, 0, "");
    assert line[0..] == line;
  }

  /** A raw piece, standing at this place of the line with nothing to cut in it. */
  ghost predicate Stands(rule: Rule, line: string, at: nat, raw: string) {
    && at + |raw| <= |line| && raw == line[at..at + |raw|] && StateAt(line, at) == Plain
    && forall i :: at <= i < at + |raw| ==> !CutAt(rule, line, i)
  }

  lemma {:induction false} PieceStands(rule: Rule, line: string, start: nat, incoming: string, k: nat)
    requires Proper(rule) && start <= |line| && StateAt(line, start) == Plain
    requires k < |Pieces(rule, line, start, incoming)|
    ensures var pieces := Pieces(rule, line, start, incoming);
            var at := start + |Rebuild(pieces[..k])| - |incoming|;
      && (k > 0 ==> 0 <= at && CutAt(rule, line, at) && pieces[k].operator == MatchAt(rule, line, at))
      && 0 <= at + |pieces[k].operator| && Stands(rule, line, at + |pieces[k].operator|, pieces[k].command)
    decreases k
  {
    hide StateAt, MatchAt, CutAt, Stands;
    var pieces := Pieces(rule, line, start, incoming);
    var j := NextCut(rule, line, start);
    if k == 0 {
      assert pieces[..0] == [];
      FirstStands(rule, line, start, incoming);
    } else {
      PlainAfterCut(rule, line, j);
      var op := MatchAt(rule, line, j);
      var rest := Pieces(rule, line, j + |op|, op);
      assert pieces == [Fragment(incoming, line[start..j])] + rest;
      PieceStands(rule, line, j + |op|, op, k - 1);
      assert pieces[..k] == [Fragment(incoming, line[start..j])] + rest[..k - 1];
      RebuildStep(Fragment(incoming, line[start..j]), rest[..k - 1]);
      if k == 1 {
        assert Rebuild(rest[..0]) == "";
      }
    }
  }

  lemma RebuildStep(first: Fragment, rest: seq<Fragment>)
    ensures Rebuild([first] + rest) == first.operator + first.command + Rebuild(rest)
  {
    assert ([first] + rest)[1..] == rest;
  }

  lemma FirstStands(rule: Rule, line: string, start: nat, incoming: string)
    requires start <= |line| && StateAt(line, start) == Plain
    ensures Pieces(rule, line, start, incoming)[0].operator == incoming
    ensures Stands(rule, line, start, Pieces(rule, line, start, incoming)[0].command)
  {
    hide StateAt, MatchAt, CutAt;
  }

  /**
   * Where a line is cut, exactly: every operator cut out stands outside quotes and not after an unquoted
   * backslash, is the longest that matches there, and every position between two cuts is no place to cut.
   */
  lemma CutsAreExact(rule: Rule, line: string, k: nat)
    requires Proper(rule) && k < |Pieces(rule, line, 0, "")|
    ensures var pieces := Pieces(rule, line, 0, "");
            var at := |Rebuild(pieces[..k])|;
      && (k > 0 ==> CutAt(rule, line, at) && pieces[k].operator == MatchAt(rule, line, at))
      && Stands(rule, line, at + |pieces[k].operator|, pieces[k].command)
  {
    hide CutAt, Stands, MatchAt, Rebuild, Pieces, StateAt;
    BeginsPlain(line);
    PieceStands(rule, line, 0, "", k);
  }

  lemma BeginsPlain(line: string)
    ensures StateAt(line, 0) == Plain
  {
    assert line[..0] == "";
  }

  lemma {:induction false} KeptFrom(pieces: seq<Fragment>, f: Fragment) returns (k: nat)
    requires f in Kept(pieces)
    ensures k < |pieces| && f == Fragment(pieces[k].operator, Strip(pieces[k].command)) && f.command != ""
  {
    if Strip(pieces[0].command) != "" && f == Fragment(pieces[0].operator, Strip(pieces[0].command)) {
      k := 0;
    } else {
      var n := KeptFrom(pieces[1..], f);
      k := n + 1;
    }
  }

  lemma {:induction false} KeptHolds(pieces: seq<Fragment>, k: nat)
    requires k < |pieces| && Strip(pieces[k].command) != ""
    ensures Fragment(pieces[k].operator, Strip(pieces[k].command)) in Kept(pieces)
  {
    if k > 0 {
      assert pieces[1..][k - 1] == pieces[k];
      KeptHolds(pieces[1..], k - 1);
    }
  }

  /** Stripping and dropping act on each piece by itself and keep the order. */
  lemma {:induction false} KeptPieceByPiece(a: seq<Fragment>, b: seq<Fragment>)
    ensures Kept(a + b) == Kept(a) + Kept(b)
    ensures |a| == 1 ==> Kept(a) == KeptOne(a[0].operator, a[0].command)
  {
    hide Strip;
    assert Kept([]) == [];
    if a == [] {
      assert a + b == b;
    } else {
      assert (a + b)[1..] == a[1..] + b;
      KeptPieceByPiece(a[1..], b);
    }
  }

  /** A place reads the same in a part of a line that begins in the open as in the line. */
  lemma StateInPart(line: string, at: nat, stop: nat, i: nat)
    requires at <= stop <= |line| && i <= stop - at && StateAt(line, at) == Plain
    ensures StateAt(line[at..stop], i) == StateAt(line, at + i)
  {
    StateOfPart(line, at, at + i);
    assert line[at..stop] == line[at..][..stop - at];
    StateOfPrefix(line[at..], stop - at, i);
  }

  ghost predicate Uncut(rule: Rule, text: string) {
    forall i :: !CutAt(rule, text, i)
  }

  /** What is nowhere cut in a line is nowhere cut on its own. */
  lemma UncutPart(rule: Rule, line: string, at: nat, stop: nat)
    requires rule.Operators? && at <= stop <= |line| && StateAt(line, at) == Plain
    requires forall i :: at <= i < stop ==> !CutAt(rule, line, i)
    ensures Uncut(rule, line[at..stop])
  {
    var part := line[at..stop];
    forall i | 0 <= i < |part|
      ensures !CutAt(rule, part, i)
    {
      StateInPart(line, at, stop, i);
      var op := MatchAt(rule, part, i);
      assert part[i..] <= line[at + i..];
      assert !CutAt(rule, line, at + i);
    }
  }

  /** What stripping leaves of a standing piece also stands in the open. */
  lemma StrippedStands(rule: Rule, line: string, at: nat, raw: string)
    requires Stands(rule, line, at, raw)
    ensures Stands(rule, line, at + Leading(raw), Strip(raw))
  {
    hide StateAt, Strip, Leading, CutAt;
    var lead := Leading(raw);
    forall i | at <= i < at + lead
      ensures Inert(line[i])
    {
      assert IsSpace(raw[i - at]);
    }
    InertStaysPlain(line, at, at + lead);
    StripIsSlice(raw);
    SliceOfSlice(line, at, at + |raw|, lead, lead + |Strip(raw)|);
  }

  lemma FragmentStands(rule: Rule, line: string, f: Fragment) returns (at: nat)
    requires Proper(rule) && f in SplitBy(rule, line)
    ensures Stands(rule, line, at, f.command) && Strip(f.command) == f.command != ""
  {
    hide Pieces, Stands, Proper, Rebuild, CutAt, MatchAt, StateAt, Kept, Strip;
    var pieces := Pieces(rule, line, 0, "");
    var k := KeptFrom(pieces, f);
    CutsAreExact(rule, line, k);
    var from := |Rebuild(pieces[..k])| + |pieces[k].operator|;
    StrippedStands(rule, line, from, pieces[k].command);
    StripTwice(pieces[k].command);
    at := from + Leading(pieces[k].command);
  }

  lemma UncutIsWhole(rule: Rule, text: string)
    requires Uncut(rule, text)
    requires text != "" && Strip(text) == text
    ensures SplitBy(rule, text) == [Fragment("", text)]
  {
    hide Strip, CutAt;
    var whole := [Fragment("", text)];
    assert NextCut(rule, text, 0) == |text| && text[0..] == text;
    assert whole[1..] == [] && Kept([]) == [];
    assert Pieces(rule, text, 0, "") == whole;
  }

  lemma FragmentIsUncut(rule: Rule, line: string, f: Fragment)
    requires rule.Operators? && Proper(rule) && f in SplitBy(rule, line)
    ensures Uncut(rule, f.command) && Strip(f.command) == f.command != ""
  {
    hide SplitBy, CutAt, Uncut, ProperList, Strip, StateAt;
    var at := FragmentStands(rule, line, f);
    UncutPart(rule, line, at, at + |f.command|);
  }

  /** Every fragment, split again by the same operators, yields itself alone. */
  lemma FragmentsAreAtomic(list: seq<string>, line: string, f: Fragment)
    requires ProperList(list) && f in SplitBy(Operators(list), line)
    ensures SplitBy(Operators(list), f.command) == [Fragment("", f.command)]
  {
    hide SplitBy, Stands, CutAt, Uncut, ProperList, Strip;
    FragmentIsUncut(Operators(list), line, f);
    UncutIsWhole(Operators(list), f.command);
  }

  lemma {:induction false} InsideQuotes(line: string, i: nat, k: nat)
    requires i < k <= |line| && StateAt(line, i) == Plain && (line[i] == '"' || line[i] == '\'')
    requires forall n :: i < n < k ==> line[n] != line[i]
    ensures StateAt(line, k) == Quoted(line[i])
    decreases k
  {
    QuotingExactly(line, k - 1);
    if i + 1 < k {
      InsideQuotes(line, i, k - 1);
    }
  }

  /** Nothing is cut from a quote up to its match, whatever stands between, backslashes included. */
  lemma QuotesProtect(rule: Rule, line: string, i: nat, j: nat)
    requires Proper(rule) && i < j < |line| && StateAt(line, i) == Plain
    requires (line[i] == '"' || line[i] == '\'') && line[j] == line[i] && forall n :: i < n < j ==> line[n] != line[i]
    ensures forall k :: i <= k <= j ==> !CutAt(rule, line, k)
    ensures StateAt(line, j + 1) == Plain
  {
    hide StateAt, MatchAt;
    forall k | i <= k <= j
      ensures !CutAt(rule, line, k)
    {
      if k > i {
        InsideQuotes(line, i, k);
      } else if MatchAt(rule, line, i) != "" {
        MatchIsInert(rule, line, i);
      }
    }
    InsideQuotes(line, i, j);
    QuotingExactly(line, j);
  }

  /** Nothing is cut at an unquoted backslash or at the character after it, and the one after that stands in the open. */
  lemma BackslashProtects(rule: Rule, line: string, i: nat)
    requires Proper(rule) && i + 1 < |line| && StateAt(line, i) == Plain && line[i] == '\\'
    ensures !CutAt(rule, line, i) && !CutAt(rule, line, i + 1) && StateAt(line, i + 2) == Plain
  {
    hide StateAt, MatchAt;
    QuotingExactly(line, i);
    QuotingExactly(line, i + 1);
    if MatchAt(rule, line, i) != "" {
      MatchIsInert(rule, line, i);
    }
  }

  // ------------------------------------------------------------------ the two ways to split at a bar

  /** Two bars in a row, outside quotes and not after a backslash. */
  ghost predicate DoubledBar(line: string, i: nat) {
    i < |line| && StateAt(line, i) == Plain && "||" <= line[i..]
  }

  /** The two rules cut this line at the same places, and cut out the same there. */
  ghost predicate SameCuts(a: Rule, b: Rule, line: string) {
    && (forall i :: CutAt(a, line, i) <==> CutAt(b, line, i))
    && forall i :: CutAt(a, line, i) ==> MatchAt(a, line, i) == MatchAt(b, line, i)
  }

  lemma {:induction false} SamePieces(a: Rule, b: Rule, line: string, start: nat, incoming: string)
    requires start <= |line|
    requires SameCuts(a, b, line)
    ensures Pieces(a, line, start, incoming) == Pieces(b, line, start, incoming)
    decreases |line| - start
  {
    hide CutAt, MatchAt, NextCut, SameCuts, Pieces;
    var j := NextCut(a, line, start);
    SameNextCut(a, b, line, start);
    if j < |line| {
      CutIsPart(a, line, j);
      var op := MatchAt(a, line, j);
      SamePieces(a, b, line, j + |op|, op);
      PiecesAtCut(a, line, start, incoming, j, op);
      PiecesAtCut(b, line, start, incoming, j, op);
    } else {
      PiecesAtEnd(a, line, start, incoming);
      PiecesAtEnd(b, line, start, incoming);
    }
  }

  lemma PiecesAtCut(rule: Rule, line: string, start: nat, incoming: string, j: nat, op: string)
    requires start <= j && j + |op| <= |line| && j < |line|
    requires j == NextCut(rule, line, start) && op == MatchAt(rule, line, j)
    ensures Pieces(rule, line, start, incoming) == [Fragment(incoming, line[start..j])] + Pieces(rule, line, j + |op|, op)
  {
    hide CutAt, MatchAt, NextCut;
  }

  lemma PiecesAtEnd(rule: Rule, line: string, start: nat, incoming: string)
    requires start <= |line| && NextCut(rule, line, start) == |line|
    ensures Pieces(rule, line, start, incoming) == [Fragment(incoming, line[start..])]
  {
    hide CutAt, MatchAt, NextCut;
  }

  lemma SameNextCut(a: Rule, b: Rule, line: string, start: nat)
    requires start <= |line|
    requires SameCuts(a, b, line)
    ensures NextCut(a, line, start) == NextCut(b, line, start)
    ensures var j := NextCut(a, line, start); j < |line| ==> MatchAt(a, line, j) == MatchAt(b, line, j)
  {
    hide CutAt;
  }

  lemma {:induction false} PieceHolding(rule: Rule, line: string, start: nat, incoming: string, i: nat) returns (k: nat, at: nat)
    requires Proper(rule) && start <= i < |line| && StateAt(line, start) == Plain
    requires forall j :: start <= j <= i && CutAt(rule, line, j) ==> j + |MatchAt(rule, line, j)| <= i
    ensures k < |Pieces(rule, line, start, incoming)|
    ensures Stands(rule, line, at, Pieces(rule, line, start, incoming)[k].command)
    ensures at <= i < at + |Pieces(rule, line, start, incoming)[k].command|
    decreases |line| - start
  {
    hide StateAt, MatchAt, CutAt, Stands;
    var j := NextCut(rule, line, start);
    if i < j {
      k, at := 0, start;
      FirstStands(rule, line, start, incoming);
    } else {
      PlainAfterCut(rule, line, j);
      CutIsPart(rule, line, j);
      var n, there := PieceHolding(rule, line, j + |MatchAt(rule, line, j)|, MatchAt(rule, line, j), i);
      k, at := n + 1, there;
    }
  }

  /** A doubled bar leaves a bar inside some stage. */
  lemma DoubledBarStays(line: string, i: nat) returns (f: Fragment, at: nat)
    requires DoubledBar(line, i)
    ensures f in SplitBy(SingleBar, line) && CutAt(BARS, f.command, at)
  {
    hide Pieces, Strip, Leading, Kept, Stands;
    BeginsPlain(line);
    BarsBefore(line, i);
    var k, from := PieceHolding(SingleBar, line, 0, "", i);
    var piece := Pieces(SingleBar, line, 0, "")[k];
    at := BarInPiece(line, from, piece.command, i);
    KeptHolds(Pieces(SingleBar, line, 0, ""), k);
    f := Fragment(piece.operator, Strip(piece.command));
  }

  lemma BarsBefore(line: string, i: nat)
    requires DoubledBar(line, i)
    ensures forall j: nat :: j <= i && CutAt(SingleBar, line, j) ==> j + |MatchAt(SingleBar, line, j)| <= i
  {
    hide StateAt;
  }

  lemma BarInPiece(line: string, from: nat, raw: string, i: nat) returns (at: nat)
    requires Stands(SingleBar, line, from, raw) && from <= i < from + |raw| && DoubledBar(line, i)
    ensures CutAt(BARS, Strip(raw), at) && Strip(raw) != ""
  {
    hide StateAt, Strip, CutAt;
    assert raw[i - from] == line[i] == line[i..][0] == '|';
    StripKeeps(raw, i - from);
    at := i - from - Leading(raw);
    StrippedStands(SingleBar, line, from, raw);
    BarInPart(line, from + Leading(raw), Strip(raw), at);
  }

  lemma BarInPart(line: string, from: nat, part: string, at: nat)
    requires Stands(SingleBar, line, from, part) && at < |part|
    requires StateAt(line, from + at) == Plain && line[from + at] == '|'
    ensures CutAt(BARS, part, at)
  {
    StateInPart(line, from, from + |part|, at);
    assert part[at..][0] == line[from + at];
    assert "|" <= part[at..];
  }

  lemma NoDoubledBarSameCuts(line: string, i: nat)
    requires !DoubledBar(line, i)
    ensures CutAt(SingleBar, line, i) <==> CutAt(BARS, line, i)
    ensures CutAt(SingleBar, line, i) ==> MatchAt(SingleBar, line, i) == MatchAt(BARS, line, i)
  {
    hide StateAt;
  }

  /** The pipeline splitter agrees with the general splitter exactly on lines without a doubled bar in the open. */
  lemma PipelineSplitAgreesExactly(line: string)
    ensures SplitBy(SingleBar, line) == SplitBy(BARS, line) <==> forall i :: !DoubledBar(line, i)
  {
    hide SplitBy, DoubledBar;
    if i :| DoubledBar(line, i) {
      DoubledBarDiffers(line, i);
    } else {
      NoDoubledBarAgrees(line);
    }
  }

  lemma DoubledBarDiffers(line: string, i: nat)
    requires DoubledBar(line, i)
    ensures SplitBy(SingleBar, line) != SplitBy(BARS, line)
  {
    hide SplitBy, DoubledBar, CutAt;
    var f, at := DoubledBarStays(line, i);
    if f in SplitBy(BARS, line) {
      FragmentIsUncut(BARS, line, f);
      assert false;
    }
  }

  lemma NoDoubledBarAgrees(line: string)
    requires forall i :: !DoubledBar(line, i)
    ensures SplitBy(SingleBar, line) == SplitBy(BARS, line)
  {
    hide DoubledBar, StateAt, MatchAt, Pieces;
    forall i: nat
      ensures CutAt(SingleBar, line, i) <==> CutAt(BARS, line, i)
      ensures CutAt(SingleBar, line, i) ==> MatchAt(SingleBar, line, i) == MatchAt(BARS, line, i)
    {
      NoDoubledBarSameCuts(line, i);
    }
    SamePieces(SingleBar, BARS, line, 0, "");
  }

  /** What the shell relies on: on every fragment between && and ||, the two splitters agree. */
  lemma PipelinesOfConditionals(line: string, f: Fragment)
    requires f in SplitBy(CONDITIONALS, line)
    ensures SplitBy(SingleBar, f.command) == SplitBy(BARS, f.command)
  {
    hide SplitBy, DoubledBar, CutAt;
    FragmentIsUncut(CONDITIONALS, line, f);
    forall i
      ensures !DoubledBar(f.command, i)
    {
      DoubledBarIsConditional(f.command, i);
    }
    PipelineSplitAgreesExactly(f.command);
  }

  lemma DoubledBarIsConditional(text: string, i: nat)
    ensures DoubledBar(text, i) ==> CutAt(CONDITIONALS, text, i)
  {
    hide StateAt;
    assert "||" in CONDITIONALS.list;
  }

  /** On its own, the pipeline splitter cuts a doubled bar at its second bar. */
  lemma PipelineSplitOfOr()
    ensures SplitBy(SingleBar, "a||b") == [Fragment("", "a|"), Fragment("|", "b")]
    ensures SplitBy(BARS, "a||b") == [Fragment("", "a"), Fragment("|", "b")]
  {
    hide CutAt, MatchAt, NextCut, Strip;
    var line := "a||b";
    CutsOfOr();
    assert line[0..2] == "a|" && line[0..1] == "a" && line[2..2] == "" && line[3..] == "b";
    StripsOfOr();
    assert Pieces(SingleBar, line, 3, "|") == [Fragment("|", "b")] == Pieces(BARS, line, 3, "|");
    assert Pieces(SingleBar, line, 0, "") == [Fragment("", "a|"), Fragment("|", "b")];
    assert Pieces(BARS, line, 2, "|") == [Fragment("|", ""), Fragment("|", "b")];
    assert Pieces(BARS, line, 0, "") == [Fragment("", "a"), Fragment("|", ""), Fragment("|", "b")];
    KeptOfTwo(Fragment("", "a|"), Fragment("|", "b"));
    KeptOfThree(Fragment("", "a"), Fragment("|", ""), Fragment("|", "b"));
  }

  lemma KeptOfTwo(a: Fragment, b: Fragment)
    ensures Kept([a, b]) == KeptOne(a.operator, a.command) + KeptOne(b.operator, b.command)
  {
    hide Strip;
    assert [a, b][1..] == [b] && [b][1..] == [] && Kept([]) == [];
    assert Kept([b]) == KeptOne(b.operator, b.command);
  }

  lemma KeptOfThree(a: Fragment, b: Fragment, c: Fragment)
    ensures Kept([a, b, c]) == KeptOne(a.operator, a.command) + (KeptOne(b.operator, b.command) + KeptOne(c.operator, c.command))
  {
    hide Strip;
    assert [a, b, c][1..] == [b, c];
    KeptOfTwo(b, c);
  }

  lemma StripsOfOr()
    ensures Strip("a|") == "a|" && Strip("a") == "a" && Strip("b") == "b" && Strip("") == ""
  {
    hide Leading, Trimmed;
    StripsNothing("a|");
    StripsNothing("a");
    StripsNothing("b");
    StripsNothing("");
  }

  lemma CutsOfOr()
    ensures NextCut(SingleBar, "a||b", 0) == 2 && MatchAt(SingleBar, "a||b", 2) == "|" && NextCut(SingleBar, "a||b", 3) == 4
    ensures NextCut(BARS, "a||b", 0) == 1 && MatchAt(BARS, "a||b", 1) == "|"
    ensures NextCut(BARS, "a||b", 2) == 2 && MatchAt(BARS, "a||b", 2) == "|" && NextCut(BARS, "a||b", 3) == 4
  {
    hide StateAt;
    var line := "a||b";
    assert line[0..] == "a||b" && line[1..] == "||b" && line[2..] == "|b" && line[3..] == "b";
    assert line[2..][0] == '|' && !("||" <= line[2..]) && "|" <= line[2..];
    BeginsPlain(line);
    InertStaysPlain(line, 0, 1);
    InertStaysPlain(line, 0, 2);
    assert !CutAt(SingleBar, line, 0) && !CutAt(SingleBar, line, 1) && CutAt(SingleBar, line, 2) && !CutAt(SingleBar, line, 3);
    assert !CutAt(BARS, line, 0) && CutAt(BARS, line, 1) && CutAt(BARS, line, 2) && !CutAt(BARS, line, 3);
  }
}
