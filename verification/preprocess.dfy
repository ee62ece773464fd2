/** The conditional preprocessor for linker scripts: a stack of flags against the nesting it stands for. */
module Preprocess {
  import opened Wrappers

  /** A line after trimming, as the preprocessor sees it. */
  datatype Line = If(condition: string) | Else | EndIf | Plain

  predicate IsSpace(c: char) {
    c == ' ' || c == '\t' || c == '\r' || c == '\n'
  }

  function TrimStart(s: string): string {
    if s != [] && IsSpace(s[0]) then TrimStart(s[1..]) else s
  }

  function TrimEnd(s: string): string {
    if s != [] && IsSpace(s[|s| - 1]) then TrimEnd(s[..|s| - 1]) else s
  }

  function Classify(line: string): Line {
    var trimmed := TrimEnd(TrimStart(line));
    if "#IF " <= trimmed then If(trimmed[4..])
    else if trimmed == "#ELSE" then Else
    else if trimmed == "#ENDIF" then EndIf
    else Plain
  }

  predicate AllSpace(s: string) {
    forall i :: 0 <= i < |s| ==> s[i] in " \t\r\n"
  }

  /** A string that starts and ends with something else than space. */
  predicate Solid(t: string) {
    t != [] && t[0] !in " \t\r\n" && t[|t| - 1] !in " \t\r\n"
  }

  lemma {:induction false} TrimStartDrops(a: string, t: string)
    requires AllSpace(a) && Solid(t)
    ensures forall b :: TrimStart(a + (t + b)) == t + b
  {
    forall b ensures TrimStart(a + (t + b)) == t + b {
      if a == [] {
        assert a + (t + b) == t + b && (t + b)[0] == t[0];
      } else {
        assert (a + (t + b))[1..] == a[1..] + (t + b);
        TrimStartDrops(a[1..], t);
      }
    }
  }

  lemma {:induction false} TrimEndDrops(t: string, b: string)
    requires AllSpace(b) && Solid(t)
    ensures TrimEnd(t + b) == t
  {
    if b == [] {
      assert t + b == t;
    } else {
      var n := |b| - 1;
      assert (t + b)[..|t| + n] == t + b[..n] && (t + b)[|t| + n] == b[n];
      TrimEndDrops(t, b[..n]);
    }
  }

  /** What counts of a line is what lies between the space around it. */
  lemma Trimmed(a: string, t: string, b: string)
    requires AllSpace(a) && AllSpace(b) && Solid(t)
    ensures TrimEnd(TrimStart(a + t + b)) == t
  {
    assert a + t + b == a + (t + b);
    TrimStartDrops(a, t);
    TrimEndDrops(t, b);
  }

  /** The directives, with any space around them. */
  lemma Directives(a: string, b: string, condition: string)
    requires AllSpace(a) && AllSpace(b)
    ensures Classify(a + "#ELSE" + b) == Else && Classify(a + "#ENDIF" + b) == EndIf
    ensures condition != [] && condition[|condition| - 1] !in " \t\r\n" ==>
              Classify(a + ("#IF " + condition) + b) == If(condition)
  {
    hide TrimStart, TrimEnd;
    assert "#IF "[1] == 'I' && "#ELSE"[1] == 'E' && "#ENDIF"[1] == 'E' && |"#ELSE"| != |"#ENDIF"|;
    Trimmed(a, "#ELSE", b);
    Trimmed(a, "#ENDIF", b);
    if condition != [] && condition[|condition| - 1] !in " \t\r\n" {
      Trimmed(a, "#IF " + condition, b);
      assert ("#IF " + condition)[4..] == condition;
    }
  }

  /** Anything else is text: also a line that only contains a directive, and `#IF` without a condition. */
  lemma Text(a: string, t: string, b: string)
    requires AllSpace(a) && AllSpace(b) && Solid(t)
    ensures t != "#ELSE" && t != "#ENDIF" && !("#IF " <= t) ==> Classify(a + t + b) == Plain
    ensures t[0] != '#' ==> Classify(a + t + b) == Plain
    ensures Classify(a + "#IF" + b) == Plain
  {
    hide TrimStart, TrimEnd;
    Trimmed(a, t, b);
    Trimmed(a, "#IF", b);
    assert "#IF"[0] == '#' && "#IF "[0] == '#' && "#ELSE"[0] == '#' && "#ENDIF"[0] == '#';
  }

  // The stack machine.

  predicate All(take: seq<bool>) {
    forall i :: 0 <= i < |take| ==> take[i]
  }

  /** The stack after a directive; `None` where the code panics on an empty stack. */
  function Turn(take: seq<bool>, line: Line, config: set<string>): (r: Option<seq<bool>>) {
    var n := |take| - 1;
    match line
    case If(condition) => Some(take + [All(take) && condition in config])
    case Else => if take == [] then None else Some(take[..n] + [All(take[..n]) && !take[n]])
    case EndIf => Some(if take == [] then take else take[..n])
    case Plain => if take == [] then None else Some(take)
  }

  function Written(take: seq<bool>, line: string): seq<string> {
    if Classify(line) == Plain && take != [] && take[|take| - 1] then [line] else []
  }

  type Result = Option<(seq<bool>, seq<string>)>

  function Prepended(a: seq<string>, r: Result): Result {
    match r
    case None => None
    case Some((end, rest)) => Some((end, a + rest))
  }

  /** The stack at the end and the lines written, from stack `take`. */
  function Run(take: seq<bool>, lines: seq<string>, config: set<string>): (r: Result)
    decreases |lines|
  {
    if lines == [] then Some((take, []))
    else
      match Turn(take, Classify(lines[0]), config)
      case None => None
      case Some(next) => Prepended(Written(take, lines[0]), Run(next, lines[1..], config))
  }

  /** What follows the first line. */
  function Rest(take: seq<bool>, lines: seq<string>, config: set<string>): Result
    requires lines != []
  {
    match Turn(take, Classify(lines[0]), config)
    case None => None
    case Some(next) => Run(next, lines[1..], config)
  }

  method PreprocessFile(config: set<string>, lines: seq<string>) returns (out: Option<seq<string>>)
    ensures var r := Run([true], lines, config); out == if r == None then None else Some(r.value.1)
  {
    hide Classify, Prepended, Run, All;
    var take := [true];
    var written: seq<string> := [];
    var k := 0;
    assert lines[0..] == lines;
    PrependNothing(Run(take, lines, config));
    while k < |lines|
      invariant k <= |lines|
      invariant Run([true], lines, config) == Prepended(written, Run(take, lines[k..], config))
    {
      assert lines[k..][1..] == lines[k + 1..] && lines[k..][0] == lines[k];
      RunFirst(take, lines[k..], config);
      PrependTwice(written, Written(take, lines[k]), Rest(take, lines[k..], config));
      var line := lines[k];
      match Classify(line) {
        case If(condition) =>
          take := take + [All(take) && condition in config];
        case Else =>
          if take == [] {
            return None;
          }
          var taken := take[|take| - 1];
          take := take[..|take| - 1];
          take := take + [All(take) && !taken];
        case EndIf =>
          if take != [] {
            take := take[..|take| - 1];
          }
        case Plain =>
          if take == [] {
            return None;
          }
          if take[|take| - 1] {
            written := written + [line];
          }
      }
      k := k + 1;
    }
    assert lines[k..] == [];
    RunNothing(take, written, config);
    out := Some(written);
  }

  lemma RunFirst(take: seq<bool>, lines: seq<string>, config: set<string>)
    requires lines != []
    ensures Run(take, lines, config) == Prepended(Written(take, lines[0]), Rest(take, lines, config))
    ensures forall a :: Prepended(a, None) == None
  {
  }

  lemma RunNothing(take: seq<bool>, written: seq<string>, config: set<string>)
    ensures Prepended(written, Run(take, [], config)) == Some((take, written))
  {
    assert written + [] == written;
  }

  lemma PrependNothing(r: Result)
    ensures Prepended([], r) == r
  {
    if r.Some? {
      assert [] + r.value.1 == r.value.1;
    }
  }

  lemma PrependTwice(a: seq<string>, b: seq<string>, r: Result)
    ensures Prepended(a, Prepended(b, r)) == Prepended(a + b, r)
    ensures Prepended([], r) == r && a + [] == a
  {
    if r.Some? {
      assert [] + r.value.1 == r.value.1;
    }
    if r.Some? {
      assert a + (b + r.value.1) == (a + b) + r.value.1;
    }
  }

  // The nesting.

  /** A script whose conditionals are properly nested; a conditional may have any number of `#ELSE` parts. */
  datatype Script =
    | End
    | Text(line: string, rest: Script)
    | Conditional(opening: string, parts: Parts, closing: string, rest: Script)

  datatype Parts = Last(script: Script) | More(script: Script, separator: string, parts: Parts)

  predicate WellFormed(s: Script) {
    match s
    case End => true
    case Text(line, rest) => Classify(line) == Plain && WellFormed(rest)
    case Conditional(opening, parts, closing, rest) =>
      Classify(opening).If? && WellFormedParts(parts) && Classify(closing) == EndIf && WellFormed(rest)
  }

  predicate WellFormedParts(p: Parts) {
    match p
    case Last(s) => WellFormed(s)
    case More(s, separator, more) => WellFormed(s) && Classify(separator) == Else && WellFormedParts(more)
  }

  function Lines(s: Script): seq<string> {
    match s
    case End => []
    case Text(line, rest) => [line] + Lines(rest)
    case Conditional(opening, parts, closing, rest) => [opening] + PartLines(parts) + [closing] + Lines(rest)
  }

  function PartLines(p: Parts): seq<string> {
    match p
    case Last(s) => Lines(s)
    case More(s, separator, more) => Lines(s) + [separator] + PartLines(more)
  }

  /** What the script means: the parts of a conditional are taken alternately, starting with its condition. */
  function Meaning(s: Script, config: set<string>): seq<string>
    requires WellFormed(s)
  {
    match s
    case End => []
    case Text(line, rest) => [line] + Meaning(rest, config)
    case Conditional(opening, parts, _, rest) =>
      PartsMeaning(parts, Classify(opening).condition in config, config) + Meaning(rest, config)
  }

  function PartsMeaning(p: Parts, taken: bool, config: set<string>): seq<string>
    requires WellFormedParts(p)
  {
    match p
    case Last(s) => if taken then Meaning(s, config) else []
    case More(s, _, more) => (if taken then Meaning(s, config) else []) + PartsMeaning(more, !taken, config)
  }

  lemma {:induction false} RunJoin(take: seq<bool>, a: seq<string>, b: seq<string>, config: set<string>)
    ensures var r := Run(take, a, config);
            Run(take, a + b, config) == if r == None then None else Prepended(r.value.1, Run(r.value.0, b, config))
    decreases |a|
  {
    if a == [] {
      assert a + b == b;
      PrependTwice([], [], Run(take, b, config));
    } else {
      assert (a + b)[1..] == a[1..] + b;
      var turn := Turn(take, Classify(a[0]), config);
      if turn.Some? {
        RunJoin(turn.value, a[1..], b, config);
        var rest := Run(turn.value, a[1..], config);
        if rest.Some? {
          PrependTwice(Written(take, a[0]), rest.value.1, Run(rest.value.0, b, config));
        }
      }
    }
  }

  // One line at the first level of nesting.

  lemma StepIf(line: string, rest: seq<string>, config: set<string>)
    requires Classify(line).If?
    ensures Run([true], [line] + rest, config) == Run([true, Classify(line).condition in config], rest, config)
  {
    hide Classify;
    assert ([line] + rest)[1..] == rest;
    assert [true] + [Classify(line).condition in config] == [true, Classify(line).condition in config];
    PrependNothing(Run([true, Classify(line).condition in config], rest, config));
  }

  lemma StepElse(taken: bool, line: string, rest: seq<string>, config: set<string>)
    requires Classify(line) == Else
    ensures Run([true, taken], [line] + rest, config) == Run([true, !taken], rest, config)
  {
    hide Classify;
    assert ([line] + rest)[1..] == rest && [true, taken][..1] == [true] && [true] + [!taken] == [true, !taken];
    PrependNothing(Run([true, !taken], rest, config));
  }

  lemma StepEnd(taken: bool, line: string, rest: seq<string>, config: set<string>)
    requires Classify(line) == EndIf
    ensures Run([true, taken], [line] + rest, config) == Run([true], rest, config)
  {
    hide Classify;
    assert ([line] + rest)[1..] == rest && [true, taken][..1] == [true];
    PrependNothing(Run([true], rest, config));
  }

  lemma StepText(taken: bool, line: string, rest: seq<string>, config: set<string>)
    requires Classify(line) == Plain
    ensures Run([true, taken], [line] + rest, config)
         == Prepended(if taken then [line] else [], Run([true, taken], rest, config))
  {
    hide Classify;
    assert ([line] + rest)[1..] == rest;
  }

  /** A conditional keeps the text before `#ELSE` if its condition is configured, and the text behind it if not. */
  lemma OneConditional(config: set<string>, condition: string, yes: string, no: string)
    requires Solid(condition) && Solid(yes) && Solid(no) && yes[0] != '#' && no[0] != '#'
    ensures Run([true], ["#IF " + condition] + ([yes] + (["#ELSE"] + ([no] + (["#ENDIF"] + [])))), config)
         == Some(([true], [if condition in config then yes else no]))
  {
    hide Classify, Solid, Run;
    Directives("", "", condition);
    Text("", yes, "");
    Text("", no, "");
    assert "" + "#ELSE" + "" == "#ELSE" && "" + "#ENDIF" + "" == "#ENDIF";
    assert "" + ("#IF " + condition) + "" == "#IF " + condition && "" + yes + "" == yes && "" + no + "" == no;
    var c := condition in config;
    SolidEnd(condition);
    StepIf("#IF " + condition, [yes] + (["#ELSE"] + ([no] + (["#ENDIF"] + []))), config);
    StepText(c, yes, ["#ELSE"] + ([no] + (["#ENDIF"] + [])), config);
    StepElse(c, "#ELSE", [no] + (["#ENDIF"] + []), config);
    StepText(!c, no, ["#ENDIF"] + [], config);
    StepEnd(!c, "#ENDIF", [], config);
    RunEnds([true], config);
    assert [yes] + ([] + []) == [yes] && [] + ([no] + []) == [no];
  }

  lemma SolidEnd(t: string)
    requires Solid(t)
    ensures t != [] && t[|t| - 1] !in " \t\r\n"
  {
  }

  lemma RunEnds(take: seq<bool>, config: set<string>)
    ensures Run(take, [], config) == Some((take, []))
  {
  }

  /** The top of the stack speaks for all of it. */
  predicate Settled(take: seq<bool>) {
    take != [] && (take[|take| - 1] <==> All(take))
  }

  function Shown(taken: bool, lines: seq<string>): seq<string> {
    if taken then lines else []
  }

  lemma RunOne(take: seq<bool>, line: string, config: set<string>)
    ensures var turn := Turn(take, Classify(line), config);
            Run(take, [line], config) == if turn == None then None else Some((turn.value, Written(take, line)))
  {
    var turn := Turn(take, Classify(line), config);
    assert [line][1..] == [];
    if turn.Some? {
      assert Run(turn.value, [line][1..], config) == Some((turn.value, []));
      PrependTwice(Written(take, line), [], None);
    }
  }

  lemma RunChain(take: seq<bool>, a: seq<string>, mid: seq<bool>, wa: seq<string>, b: seq<string>, end: seq<bool>,
                 wb: seq<string>, config: set<string>)
    requires Run(take, a, config) == Some((mid, wa)) && Run(mid, b, config) == Some((end, wb))
    ensures Run(take, a + b, config) == Some((end, wa + wb))
  {
    RunJoin(take, a, b, config);
  }

  /** In any surroundings the stack machine writes a script's meaning, or nothing, and leaves the stack as it was. */
  lemma {:induction false} RunsScript(take: seq<bool>, s: Script, config: set<string>)
    requires WellFormed(s) && Settled(take)
    ensures Run(take, Lines(s), config) == Some((take, Shown(All(take), Meaning(s, config))))
    decreases s
  {
    match s
    case End =>
    case Text(line, rest) =>
      RunsScript(take, rest, config);
      RunOne(take, line, config);
      RunChain(take, [line], take, Shown(All(take), [line]), Lines(rest), take, Shown(All(take), Meaning(rest, config)),
               config);
    case Conditional(opening, parts, closing, rest) =>
      RunsConditional(take, opening, parts, closing, config);
      RunsScript(take, rest, config);
      var taken := Classify(opening).condition in config;
      RunChain(take, [opening] + PartLines(parts) + [closing], take, Shown(All(take), PartsMeaning(parts, taken,
          config)),
               Lines(rest), take, Shown(All(take), Meaning(rest, config)), config);
  }

  lemma RunsConditional(take: seq<bool>, opening: string, parts: Parts, closing: string, config: set<string>)
    requires Classify(opening).If? && WellFormedParts(parts) && Classify(closing) == EndIf && Settled(take)
    ensures Run(take, [opening] + PartLines(parts) + [closing], config)
         == Some((take, Shown(All(take), PartsMeaning(parts, Classify(opening).condition in config, config))))
    decreases parts, 1
  {
    hide Run, PartLines, PartsMeaning, Classify, LastTaken;
    var taken := Classify(opening).condition in config;
    var inner, last := take + [All(take) && taken], take + [All(take) && LastTaken(parts, taken)];
    var shown := Shown(All(take), PartsMeaning(parts, taken, config));
    RunOne(take, opening, config);
    RunsParts(take, taken, parts, config);
    RunOne(last, closing, config);
    assert last[..|last| - 1] == take;
    RunChain(take, [opening], inner, [], PartLines(parts), last, shown, config);
    RunChain(take, [opening] + PartLines(parts), last, [] + shown, [closing], take, [], config);
    assert [] + shown + [] == shown;
  }

  predicate LastTaken(p: Parts, taken: bool) {
    match p
    case Last(_) => taken
    case More(_, _, more) => LastTaken(more, !taken)
  }

  lemma PushSettled(take: seq<bool>, b: bool)
    requires b ==> All(take)
    ensures Settled(take + [b]) && (All(take + [b]) <==> b)
  {
    assert (take + [b])[|take|] == b;
  }

  lemma {:induction false} RunsParts(take: seq<bool>, taken: bool, p: Parts, config: set<string>)
    requires WellFormedParts(p) && Settled(take)
    ensures Run(take + [All(take) && taken], PartLines(p), config)
         == Some((take + [All(take) && LastTaken(p, taken)], Shown(All(take), PartsMeaning(p, taken, config))))
    decreases p, 0
  {
    hide Run, Classify, Lines, Meaning;
    var inner := take + [All(take) && taken];
    PushSettled(take, All(take) && taken);
    match p
    case Last(s) =>
      RunsScript(inner, s, config);
    case More(s, separator, more) =>
      var next := take + [All(take) && !taken];
      var first := Shown(All(inner), Meaning(s, config));
      var others := Shown(All(take), PartsMeaning(more, !taken, config));
      RunsScript(inner, s, config);
      RunOne(inner, separator, config);
      assert inner[..|inner| - 1] == take && inner[|inner| - 1] == (All(take) && taken);
      assert Turn(inner, Else, config) == Some(next);
      RunsParts(take, !taken, more, config);
      RunChain(inner, Lines(s), inner, first, [separator], next, [], config);
      RunChain(inner, Lines(s) + [separator], next, first + [], PartLines(more),
               take + [All(take) && LastTaken(more, !taken)], others, config);
      assert first + [] == first;
      assert first + others == Shown(All(take), PartsMeaning(p, taken, config));
  }

  /** Preprocessing a properly nested script yields its meaning. */
  lemma ScriptsPreprocess(s: Script, config: set<string>)
    requires WellFormed(s)
    ensures Run([true], Lines(s), config) == Some(([true], Meaning(s, config)))
  {
    RunsScript([true], s, config);
  }

  /** More `#ENDIF` than were opened, the last one even closing the outermost level, with text or `#ELSE` after it. */
  predicate Underflows(depth: nat, lines: seq<string>)
    decreases |lines|
  {
    lines != [] &&
    match Classify(lines[0])
    case If(_) => Underflows(depth + 1, lines[1..])
    case EndIf => Underflows(if depth == 0 then 0 else depth - 1, lines[1..])
    case _ => depth == 0 || Underflows(depth, lines[1..])
  }

  /** The preprocessor panics exactly on such scripts. */
  lemma {:induction false} PanicsOnUnderflow(take: seq<bool>, lines: seq<string>, config: set<string>)
    ensures Run(take, lines, config) == None <==> Underflows(|take|, lines)
    decreases |lines|
  {
    if lines != [] {
      var turn := Turn(take, Classify(lines[0]), config);
      if turn.Some? {
        PanicsOnUnderflow(turn.value, lines[1..], config);
      }
    }
  }
}
