/**
 The statement grammar of section 6.3 of RFC 7950 over tokens, and the parser's
 own reading of a token stream, proved to accept exactly that grammar.
 */
module Grammar {
  import opened Lexing
  import opened LexerMachine
  import opened Wrappers

  datatype Statement = Statement(Keyword: string, HasArgument: bool, Argument: string, statements: seq<Statement>)

  // ---------------------------------------------------------------- derivations

  /** An argument: an unquoted string, or quoted strings joined by plus signs. */
  datatype Arg = NoArg | Plain(text: string) | Joined(parts: seq<Token>)

  /** statement = keyword [argument] (";" / "{" *statement "}") */
  datatype Deriv = Deriv(keyword: string, arg: Arg, block: bool, subs: seq<Deriv>)

  function JoinedYield(parts: seq<Token>): seq<Token> {
    if |parts| <= 1 then parts
    else [parts[0], Word("+")] + JoinedYield(parts[1..])
  }

  function JoinedText(parts: seq<Token>): string {
    if parts == [] || !parts[0].Quoted? then ""
    else parts[0].text + JoinedText(parts[1..])
  }

  function ArgYield(a: Arg): seq<Token> {
    match a
    case NoArg => []
    case Plain(text) => [Word(text)]
    case Joined(parts) => JoinedYield(parts)
  }

  /** The tokens a derivation covers. */
  function Yield(d: Deriv): seq<Token>
    decreases d, 0
  {
    [Word(d.keyword)] + ArgYield(d.arg) +
    if d.block then [Punct('{')] + YieldAll(d.subs) + [Punct('}')] else [Punct(';')]
  }

  function YieldAll(ds: seq<Deriv>): seq<Token>
    decreases ds
  {
    if ds == [] then [] else Yield(ds[0]) + YieldAll(ds[1..])
  }

  /** Quoted strings only, with escapes outside the language only in a pattern. */
  predicate LegalParts(parts: seq<Token>, pattern: bool) {
    forall i :: 0 <= i < |parts| ==> parts[i].Quoted? && (parts[i].badEscape ==> pattern)
  }

  predicate Legal(d: Deriv)
    decreases d, 0
  {
    && (d.arg.Joined? ==> d.arg.parts != [] && LegalParts(d.arg.parts, d.keyword == "pattern"))
    && (!d.block ==> d.subs == [])
    && LegalAll(d.subs)
  }

  predicate LegalAll(ds: seq<Deriv>)
    decreases ds
  {
    ds == [] || (Legal(ds[0]) && LegalAll(ds[1..]))
  }

  /** The statement tree a derivation stands for. */
  function Tree(d: Deriv): Statement
    decreases d, 0
  {
    match d.arg
    case NoArg => Statement(d.keyword, false, "", Forest(d.subs))
    case Plain(text) => Statement(d.keyword, true, text, Forest(d.subs))
    case Joined(parts) => Statement(d.keyword, true, JoinedText(parts), Forest(d.subs))
  }

  function Forest(ds: seq<Deriv>): seq<Statement>
    decreases ds
  {
    if ds == [] then [] else [Tree(ds[0])] + Forest(ds[1..])
  }

  /** `ds` derives the token stream `ts`. */
  predicate Derives(ds: seq<Deriv>, ts: seq<Token>) {
    LegalAll(ds) && YieldAll(ds) == ts
  }

  // ---------------------------------------------------------------- the parser's reading

  /** A string after joining: its value and the tokens left, or a faulty token. */
  datatype Concatenation = Fault | Concatenation(text: string, rest: seq<Token>)

  /** `text` followed by every `+ string` at the front of `ts`. */
  function Concatenate(text: string, ts: seq<Token>, pattern: bool): (c: Concatenation)
    ensures c.Concatenation? ==> |c.rest| <= |ts|
    decreases |ts|
  {
    if ts == [] then Concatenation(text, [])
    else if Faulty(ts[0], pattern) then Fault
    else if ts[0] != Word("+") || |ts| == 1 then Concatenation(text, ts)
    else if Faulty(ts[1], pattern) then Fault
    else if ts[1].Quoted? then Concatenate(text + ts[1].text, ts[2..], pattern)
    else Concatenation(text, ts)
  }

  lemma ConcatenateStep(text: string, ts: seq<Token>, pattern: bool)
    ensures var c := Concatenate(text, ts, pattern);
            if ts == [] then c == Concatenation(text, [])
            else if Faulty(ts[0], pattern) then c == Fault
            else if ts[0] != Word("+") || |ts| == 1 then c == Concatenation(text, ts)
            else if Faulty(ts[1], pattern) then c == Fault
            else if ts[1].Quoted? then c == Concatenate(text + ts[1].text, ts[2..], pattern)
            else c == Concatenation(text, ts)
  {
  }

  datatype Parsed =
    | Failed
    | EndOfInput(open: nat)
    | ClosingBrace(rest: seq<Token>)
    | Node(s: Statement, rest: seq<Token>)

  /** What follows the keyword and argument of `s`. */
  function ParseRest(s: Statement, ts: seq<Token>): (p: Parsed)
    ensures p.ClosingBrace? ==> false
    ensures p.Node? ==> |p.rest| < |ts|
    decreases |ts|, 1
  {
    if ts == [] then Failed
    else if ts[0] == Punct(';') then Node(s, ts[1..])
    else if ts[0] == Punct('{') then ParseBlock(s, ts[1..])
    else Failed
  }

  /** The sub-statements of `s` up to the closing brace. */
  function ParseBlock(s: Statement, ts: seq<Token>): (p: Parsed)
    ensures p.ClosingBrace? ==> false
    ensures p.Node? ==> |p.rest| < |ts|
    decreases |ts|, 3
  {
    match ParseStatement(ts)
    case Failed => Failed
    case EndOfInput(open) => EndOfInput(open + 1)
    case ClosingBrace(rest) => Node(s, rest)
    case Node(sub, rest) => ParseBlock(s.(statements := s.statements + [sub]), rest)
  }

  /** The next statement of `ts`. */
  function ParseStatement(ts: seq<Token>): (p: Parsed)
    ensures p.Node? || p.ClosingBrace? ==> |p.rest| < |ts|
    decreases |ts|, 2
  {
    if ts == [] then EndOfInput(0)
    else if ts[0] == Punct('}') then ClosingBrace(ts[1..])
    else if !ts[0].Word? || |ts| == 1 then Failed
    else
      var kw := ts[0].text;
      var pattern := kw == "pattern";
      if Faulty(ts[1], pattern) then Failed
      else if ts[1].Word? then ParseRest(Statement(kw, true, ts[1].text, []), ts[2..])
      else if ts[1].Quoted? then
        match Concatenate(ts[1].text, ts[2..], pattern)
        case Fault => Failed
        case Concatenation(text, rest) => ParseRest(Statement(kw, true, text, []), rest)
      else ParseRest(Statement(kw, false, "", []), ts[1..])
  }

  /** A statement after its keyword. */
  lemma StatementStep(keyword: string, ts: seq<Token>)
    ensures var p, pattern := ParseStatement([Word(keyword)] + ts), keyword == "pattern";
            if ts == [] then p == Failed == ParseRest(Statement(keyword, false, "", []), [])
            else if Faulty(ts[0], pattern) then p == Failed
            else if ts[0].Word? then p == ParseRest(Statement(keyword, true, ts[0].text, []), ts[1..])
            else if !ts[0].Quoted? then p == ParseRest(Statement(keyword, false, "", []), ts)
            else
              var c := Concatenate(ts[0].text, ts[1..], pattern);
              p == if c.Fault? then Failed else ParseRest(Statement(keyword, true, c.text, []), c.rest)
  {
    hide Concatenate, ParseBlock;
    var us := [Word(keyword)] + ts;
    assert us[1..] == ts;
    if ts != [] { assert us[1] == ts[0] && us[2..] == ts[1..]; }
  }

  lemma BlockStep(s: Statement, ts: seq<Token>)
    ensures var p := ParseStatement(ts);
            ParseBlock(s, ts) == if p.Failed? then Failed
                                 else if p.EndOfInput? then EndOfInput(p.open + 1)
                                 else if p.ClosingBrace? then Node(s, p.rest)
                                 else ParseBlock(s.(statements := s.statements + [p.s]), p.rest)
  {
  }

  /** The statements of a whole source, after those of `acc`. */
  function ParseAll(acc: seq<Statement>, ts: seq<Token>): Option<seq<Statement>>
    decreases |ts|
  {
    match ParseStatement(ts)
    case EndOfInput(open) => if open == 0 then Some(acc) else None
    case Node(s, rest) => ParseAll(acc + [s], rest)
    case _ => None
  }

  function ParseText(input: string): Option<seq<Statement>> {
    ParseAll([], Tokens(input))
  }

  // ---------------------------------------------------------------- completeness

  /** A statement's terminator cannot continue a string. */
  predicate Terminates(ts: seq<Token>) {
    ts != [] && (ts[0] == Punct(';') || ts[0] == Punct('{'))
  }

  lemma ConcatenateNext(text: string, q: Token, ts: seq<Token>, pattern: bool)
    requires q.Quoted? && !Faulty(q, pattern)
    ensures Concatenate(text, [Word("+"), q] + ts, pattern) == Concatenate(text + q.text, ts, pattern)
  {
    assert ([Word("+"), q] + ts)[2..] == ts;
  }

  lemma JoinedSplit(text: string, parts: seq<Token>, rest: seq<Token>)
    requires |parts| > 1 && parts[1].Quoted?
    ensures JoinedYield(parts[1..]) != [] && JoinedYield(parts[1..])[0] == parts[1]
    ensures JoinedYield(parts)[0] == parts[0]
    ensures JoinedYield(parts)[1..] + rest == [Word("+"), parts[1]] + (JoinedYield(parts[1..])[1..] + rest)
    ensures (text + parts[1].text) + JoinedText(parts[1..][1..]) == text + JoinedText(parts[1..])
  {
    hide JoinedText;
    JoinedFirst(parts[1..]);
    var next := JoinedYield(parts[1..]);
    assert next == [parts[1]] + next[1..];
    Regroup(parts[0], Word("+"), parts[1], next[1..], rest);
    JoinedTextNext(text, parts);
  }

  lemma JoinedFirst(parts: seq<Token>)
    requires parts != []
    ensures JoinedYield(parts) != [] && JoinedYield(parts)[0] == parts[0]
  {
  }

  lemma JoinedTextNext(text: string, parts: seq<Token>)
    requires |parts| > 1 && parts[1].Quoted?
    ensures (text + parts[1].text) + JoinedText(parts[1..][1..]) == text + JoinedText(parts[1..])
  {
  }

  lemma Regroup<T>(a: T, b: T, c: T, more: seq<T>, rest: seq<T>)
    ensures ([a, b] + ([c] + more))[1..] + rest == [b, c] + (more + rest)
  {
  }

  lemma {:induction false} ConcatenateComplete(text: string, parts: seq<Token>, rest: seq<Token>, pattern: bool)
    requires parts != [] && LegalParts(parts, pattern) && Terminates(rest)
    ensures JoinedYield(parts)[0] == parts[0]
    ensures Concatenate(text, JoinedYield(parts)[1..] + rest, pattern)
         == Concatenation(text + JoinedText(parts[1..]), rest)
    decreases |parts|
  {
    if |parts| == 1 {
      assert JoinedYield(parts)[1..] + rest == rest;
      assert text + JoinedText(parts[1..]) == text;
    } else {
      var tail := JoinedYield(parts[1..])[1..] + rest;
      ConcatenateComplete(text + parts[1].text, parts[1..], rest, pattern);
      JoinedSplit(text, parts, rest);
      ConcatenateNext(text, parts[1], tail, pattern);
    }
  }

  lemma ArgumentComplete(kw: string, arg: Arg, tail: seq<Token>)
    requires arg.Joined? ==> arg.parts != [] && LegalParts(arg.parts, kw == "pattern")
    requires Terminates(tail)
    ensures ParseStatement([Word(kw)] + ArgYield(arg) + tail) == ParseRest(Tree(Deriv(kw, arg, false, [])), tail)
  {
    hide ParseRest, Concatenate, JoinedYield;
    var ts := [Word(kw)] + ArgYield(arg) + tail;
    match arg
    case NoArg =>
      assert ts[1..] == tail;
    case Plain(text) =>
      assert ts[1] == Word(text) && ts[2..] == tail;
    case Joined(parts) =>
      ConcatenateComplete(parts[0].text, parts, tail, kw == "pattern");
      JoinedFirst(parts);
      assert ts[1] == parts[0] && ts[2..] == JoinedYield(parts)[1..] + tail;
  }

  lemma {:induction false} StatementComplete(d: Deriv, rest: seq<Token>)
    requires Legal(d)
    ensures ParseStatement(Yield(d) + rest) == Node(Tree(d), rest)
    decreases d, 1
  {
    hide ParseStatement, ParseRest, ArgYield, YieldAll, LegalAll, Forest;
    var end := if d.block then [Punct('{')] + YieldAll(d.subs) + [Punct('}')] else [Punct(';')];
    assert Yield(d) + rest == [Word(d.keyword)] + ArgYield(d.arg) + (end + rest);
    ArgumentComplete(d.keyword, d.arg, end + rest);
    EmptyForest();
    RestComplete(d, rest);
  }

  lemma EmptyForest()
    ensures Forest([]) == []
  {
  }

  lemma {:induction false} RestComplete(d: Deriv, rest: seq<Token>)
    requires Legal(d)
    ensures var end := if d.block then [Punct('{')] + YieldAll(d.subs) + [Punct('}')] else [Punct(';')];
            ParseRest(Tree(d).(statements := []), end + rest) == Node(Tree(d), rest)
    decreases d, 0
  {
    hide ParseBlock, ParseStatement, YieldAll, LegalParts, ArgYield;
    var s := Tree(d).(statements := []);
    if d.block {
      var ts := [Punct('{')] + YieldAll(d.subs) + [Punct('}')] + rest;
      BlockComplete(s, d.subs, rest);
      assert ts[1..] == YieldAll(d.subs) + ([Punct('}')] + rest);
      assert s.(statements := [] + Forest(d.subs)) == Tree(d);
    } else {
      assert ([Punct(';')] + rest)[1..] == rest;
    }
  }

  lemma CloseStep(rest: seq<Token>)
    ensures ParseStatement([Punct('}')] + rest) == ClosingBrace(rest)
  {
    assert ([Punct('}')] + rest)[1..] == rest;
  }

  lemma FirstOfForest(ds: seq<Deriv>)
    ensures ds == [] ==> YieldAll(ds) == [] && Forest(ds) == []
    ensures ds != [] ==>
              && YieldAll(ds) == Yield(ds[0]) + YieldAll(ds[1..])
              && Forest(ds) == [Tree(ds[0])] + Forest(ds[1..])
  {
    hide Yield, Tree;
  }

  lemma {:induction false} BlockComplete(s: Statement, ds: seq<Deriv>, rest: seq<Token>)
    requires LegalAll(ds)
    ensures ParseBlock(s, YieldAll(ds) + ([Punct('}')] + rest))
         == Node(s.(statements := s.statements + Forest(ds)), rest)
    decreases ds
  {
    hide ParseRest, ParseStatement, ParseBlock, Yield, YieldAll, Forest, Tree, Legal;
    var close := [Punct('}')] + rest;
    var ts := YieldAll(ds) + close;
    BlockStep(s, ts);
    FirstOfForest(ds);
    if ds == [] {
      assert ts == close;
      CloseStep(rest);
      assert s.statements + [] == s.statements;
    } else {
      var after := YieldAll(ds[1..]) + close;
      assert ts == Yield(ds[0]) + after;
      StatementComplete(ds[0], after);
      var s1 := s.(statements := s.statements + [Tree(ds[0])]);
      BlockComplete(s1, ds[1..], rest);
      assert s1.statements + Forest(ds[1..]) == s.statements + Forest(ds);
    }
  }

  lemma {:induction false} AllComplete(acc: seq<Statement>, ds: seq<Deriv>)
    requires LegalAll(ds)
    ensures ParseAll(acc, YieldAll(ds)) == Some(acc + Forest(ds))
    decreases ds
  {
    hide ParseStatement;
    if ds == [] {
      EmptyStatement();
      assert acc + [] == acc;
    } else {
      StatementComplete(ds[0], YieldAll(ds[1..]));
      AllComplete(acc + [Tree(ds[0])], ds[1..]);
      assert acc + [Tree(ds[0])] + Forest(ds[1..]) == acc + Forest(ds);
    }
  }

  lemma EmptyStatement()
    ensures ParseStatement([]) == EndOfInput(0)
  {
  }

  // ---------------------------------------------------------------- soundness

  lemma {:induction false} ConcatenateSound(text: string, ts: seq<Token>, pattern: bool) returns (parts: seq<Token>)
    requires Concatenate(text, ts, pattern).Concatenation?
    ensures LegalParts(parts, pattern)
    ensures Concatenate(text, ts, pattern).text == text + JoinedText(parts)
    ensures forall q: Token :: [q] + ts == JoinedYield([q] + parts) + Concatenate(text, ts, pattern).rest
    decreases |ts|
  {
    hide Concatenate;
    ConcatenateStep(text, ts, pattern);
    var c := Concatenate(text, ts, pattern);
    if |ts| >= 2 && ts[0] == Word("+") && ts[1].Quoted? {
      var more := ConcatenateSound(text + ts[1].text, ts[2..], pattern);
      parts := [ts[1]] + more;
      assert parts[1..] == more;
      assert text + ts[1].text + JoinedText(more) == text + JoinedText(parts);
      forall q: Token
        ensures [q] + ts == JoinedYield([q] + parts) + c.rest
      {
        assert ([q] + parts)[1..] == parts;
        assert ts[1..] == [ts[1]] + ts[2..];
        assert [q] + ts == [q, Word("+")] + ([ts[1]] + ts[2..]);
      }
    } else {
      parts := [];
      assert text + "" == text;
    }
  }

  /** What the parser reads as a keyword and an argument is one of the grammar. */
  lemma StatementShape(ts: seq<Token>) returns (arg: Arg, us: seq<Token>)
    requires ParseStatement(ts).Node?
    ensures ts[0].Word? && |us| < |ts|
    ensures arg.Joined? ==> arg.parts != [] && LegalParts(arg.parts, ts[0].text == "pattern")
    ensures ParseStatement(ts) == ParseRest(Tree(Deriv(ts[0].text, arg, false, [])), us)
    ensures ts == [Word(ts[0].text)] + ArgYield(arg) + us
  {
    hide ParseBlock, ParseRest, Concatenate;
    var kw := ts[0].text;
    if ts[1].Word? {
      arg, us := Plain(ts[1].text), ts[2..];
      assert ts == [Word(kw)] + [Word(ts[1].text)] + us;
    } else if ts[1].Quoted? {
      var c := Concatenate(ts[1].text, ts[2..], kw == "pattern");
      var parts := ConcatenateSound(ts[1].text, ts[2..], kw == "pattern");
      arg, us := Joined([ts[1]] + parts), c.rest;
      assert ([ts[1]] + parts)[1..] == parts;
      assert [ts[1]] + ts[2..] == JoinedYield([ts[1]] + parts) + us;
      assert ts == [Word(kw)] + ([ts[1]] + ts[2..]);
    } else {
      arg, us := NoArg, ts[1..];
      assert ts == [Word(kw)] + [] + us;
    }
  }

  lemma {:induction false} StatementSound(ts: seq<Token>) returns (d: Deriv)
    requires ParseStatement(ts).Node?
    ensures Legal(d) && Tree(d) == ParseStatement(ts).s
    ensures ts == Yield(d) + ParseStatement(ts).rest
    decreases |ts|, 2
  {
    hide *;
    var arg, us := StatementShape(ts);
    d := RestSound(ts[0].text, arg, us);
  }

  /** The tree and the tokens of a derivation with or without a block. */
  lemma YieldOf(kw: string, arg: Arg, block: bool, ds: seq<Deriv>, rest: seq<Token>)
    ensures var d := Deriv(kw, arg, block, ds);
            && Tree(d) == Tree(Deriv(kw, arg, false, [])).(statements := Forest(ds))
            && Tree(Deriv(kw, arg, false, [])).statements == [] && Forest([]) == []
            && Yield(d) + rest
               == [Word(kw)] + ArgYield(arg)
                  + if block then [Punct('{')] + YieldAll(ds) + [Punct('}')] + rest else [Punct(';')] + rest
  {
    hide ArgYield, YieldAll;
    var end := if block then [Punct('{')] + YieldAll(ds) + [Punct('}')] else [Punct(';')];
    assert [Word(kw)] + ArgYield(arg) + end + rest == [Word(kw)] + ArgYield(arg) + (end + rest);
  }

  lemma {:induction false} RestSound(kw: string, arg: Arg, ts: seq<Token>) returns (d: Deriv)
    requires arg.Joined? ==> arg.parts != [] && LegalParts(arg.parts, kw == "pattern")
    requires ParseRest(Tree(Deriv(kw, arg, false, [])), ts).Node?
    ensures Legal(d) && Tree(d) == ParseRest(Tree(Deriv(kw, arg, false, [])), ts).s
    ensures [Word(kw)] + ArgYield(arg) + ts == Yield(d) + ParseRest(Tree(Deriv(kw, arg, false, [])), ts).rest
    decreases |ts|, 1
  {
    hide ParseBlock, ParseStatement, Yield, YieldAll, ArgYield, Tree, LegalParts;
    var s := Tree(Deriv(kw, arg, false, []));
    var rest := ParseRest(s, ts).rest;
    if ts[0] == Punct(';') {
      d := Deriv(kw, arg, false, []);
      assert ts == [Punct(';')] + rest;
      YieldOf(kw, arg, false, [], rest);
    } else {
      var ds := BlockSound(s, ts[1..]);
      d := Deriv(kw, arg, true, ds);
      assert ts == [Punct('{')] + ts[1..];
      assert ts == [Punct('{')] + YieldAll(ds) + [Punct('}')] + rest;
      YieldOf(kw, arg, true, ds, rest);
    }
  }

  lemma ClosingShape(ts: seq<Token>)
    requires ParseStatement(ts).ClosingBrace?
    ensures ts == [Punct('}')] + ParseStatement(ts).rest
  {
    hide ParseRest, Concatenate;
  }

  lemma {:induction false} BlockSound(s: Statement, ts: seq<Token>) returns (ds: seq<Deriv>)
    requires ParseBlock(s, ts).Node?
    ensures LegalAll(ds)
    ensures ParseBlock(s, ts).s == s.(statements := s.statements + Forest(ds))
    ensures ts == YieldAll(ds) + [Punct('}')] + ParseBlock(s, ts).rest
    decreases |ts|, 3
  {
    hide ParseRest, ParseStatement, Yield, Tree, Legal;
    match ParseStatement(ts)
    case ClosingBrace(rest) =>
      ds := [];
      assert s.statements + [] == s.statements;
      ClosingShape(ts);
    case Node(sub, rest) =>
      var d := StatementSound(ts);
      var s1 := s.(statements := s.statements + [sub]);
      var more := BlockSound(s1, rest);
      ds := [d] + more;
      assert ds[1..] == more;
      assert s1.statements + Forest(more) == s.statements + Forest(ds);
  }

  lemma {:induction false} AllSound(acc: seq<Statement>, ts: seq<Token>) returns (ds: seq<Deriv>)
    requires ParseAll(acc, ts).Some?
    ensures Derives(ds, ts) && ParseAll(acc, ts).value == acc + Forest(ds)
    decreases |ts|
  {
    hide ParseBlock, ParseRest, Concatenate;
    match ParseStatement(ts)
    case EndOfInput(open) =>
      ds := [];
      EndIsEmpty(ts);
      assert acc + [] == acc;
    case Node(s, rest) =>
      var d := StatementSound(ts);
      var more := AllSound(acc + [s], rest);
      ds := [d] + more;
      assert ds[1..] == more;
      assert acc + [s] + Forest(more) == acc + Forest(ds);
  }

  /** The input ends outside all braces only when no token is left. */
  lemma EndIsEmpty(ts: seq<Token>)
    requires ParseStatement(ts) == EndOfInput(0)
    ensures ts == []
  {
    if ts != [] {
      forall s: Statement, us: seq<Token> | ParseRest(s, us).EndOfInput?
        ensures ParseRest(s, us).open > 0
      {
        RestLeavesOpen(s, us);
      }
    }
  }

  lemma RestLeavesOpen(s: Statement, ts: seq<Token>)
    requires ParseRest(s, ts).EndOfInput?
    ensures ParseRest(s, ts).open > 0
  {
    BlockLeavesOpen(s, ts[1..]);
  }

  lemma {:induction false} BlockLeavesOpen(s: Statement, ts: seq<Token>)
    requires ParseBlock(s, ts).EndOfInput?
    ensures ParseBlock(s, ts).open > 0
    decreases |ts|
  {
    match ParseStatement(ts)
    case EndOfInput(open) =>
    case Node(sub, rest) => BlockLeavesOpen(s.(statements := s.statements + [sub]), rest);
  }

  // ---------------------------------------------------------------- main results

  /** Parsing succeeds exactly on the derivable token streams, and yields the derived forest. */
  lemma ParserIsExact(input: string, forest: seq<Statement>)
    ensures ParseText(input) == Some(forest)
       <==> exists ds :: Derives(ds, Tokens(input)) && Forest(ds) == forest
  {
    hide ParseAll, Tokens, YieldAll, LegalAll, Forest;
    var ts := Tokens(input);
    if ParseText(input) == Some(forest) {
      var ds := AllSound([], ts);
      assert [] + Forest(ds) == Forest(ds);
      assert Derives(ds, ts) && Forest(ds) == forest;
    }
    forall ds | Derives(ds, ts)
      ensures ParseText(input) == Some(Forest(ds))
    {
      AllComplete([], ds);
      assert [] + Forest(ds) == Forest(ds);
    }
  }

  /** A token stream has at most one reading. */
  lemma GrammarIsUnambiguous(ds: seq<Deriv>, es: seq<Deriv>, ts: seq<Token>)
    requires Derives(ds, ts) && Derives(es, ts)
    ensures Forest(ds) == Forest(es)
  {
    AllComplete([], ds);
    AllComplete([], es);
    assert [] + Forest(ds) == Forest(ds) && [] + Forest(es) == Forest(es);
  }

  /** From `depth` open braces on, no brace closes too early and none stays open. */
  predicate Balanced(ts: seq<Token>, depth: nat) {
    if ts == [] then depth == 0
    else if ts[0] == Punct('{') then Balanced(ts[1..], depth + 1)
    else if ts[0] == Punct('}') then depth > 0 && Balanced(ts[1..], depth - 1)
    else Balanced(ts[1..], depth)
  }

  predicate Braceless(ts: seq<Token>) {
    forall t :: t in ts ==> t != Punct('{') && t != Punct('}')
  }

  lemma {:induction false} BracelessBalanced(us: seq<Token>, rest: seq<Token>, depth: nat)
    requires Braceless(us)
    ensures Balanced(us + rest, depth) == Balanced(rest, depth)
  {
    if us == [] {
      assert us + rest == rest;
    } else {
      assert us[0] in us;
      assert (us + rest)[1..] == us[1..] + rest;
      assert forall t :: t in us[1..] ==> t in us;
      BracelessBalanced(us[1..], rest, depth);
    }
  }

  lemma {:induction false} JoinedBraceless(parts: seq<Token>, pattern: bool)
    requires LegalParts(parts, pattern)
    ensures Braceless(JoinedYield(parts))
  {
    if |parts| > 1 {
      JoinedBraceless(parts[1..], pattern);
    }
  }

  lemma {:induction false} YieldBalanced(d: Deriv, rest: seq<Token>, depth: nat)
    requires Legal(d)
    ensures Balanced(Yield(d) + rest, depth) == Balanced(rest, depth)
    decreases d, 0
  {
    hide LegalAll, YieldAll, Balanced, JoinedYield;
    var head := [Word(d.keyword)] + ArgYield(d.arg);
    if d.arg.Joined? {
      JoinedBraceless(d.arg.parts, d.keyword == "pattern");
    }
    assert Braceless(head);
    if d.block {
      var body := YieldAll(d.subs) + ([Punct('}')] + rest);
      assert Yield(d) + rest == head + ([Punct('{')] + body);
      BracelessBalanced(head, [Punct('{')] + body, depth);
      BalancedOpen(body, depth);
      AllBalanced(d.subs, [Punct('}')] + rest, depth + 1);
      BalancedClose(rest, depth);
    } else {
      assert Yield(d) + rest == (head + [Punct(';')]) + rest;
      BracelessBalanced(head + [Punct(';')], rest, depth);
    }
  }

  lemma BalancedOpen(ts: seq<Token>, depth: nat)
    ensures Balanced([Punct('{')] + ts, depth) == Balanced(ts, depth + 1)
  {
    assert ([Punct('{')] + ts)[1..] == ts;
  }

  lemma BalancedClose(ts: seq<Token>, depth: nat)
    ensures Balanced([Punct('}')] + ts, depth + 1) == Balanced(ts, depth)
  {
    assert ([Punct('}')] + ts)[1..] == ts;
  }

  lemma {:induction false} AllBalanced(ds: seq<Deriv>, rest: seq<Token>, depth: nat)
    requires LegalAll(ds)
    ensures Balanced(YieldAll(ds) + rest, depth) == Balanced(rest, depth)
    decreases ds
  {
    hide Balanced, Yield, Legal;
    if ds == [] {
      assert [] + rest == rest;
    } else {
      var after := YieldAll(ds[1..]) + rest;
      assert YieldAll(ds) + rest == Yield(ds[0]) + after;
      YieldBalanced(ds[0], after, depth);
      AllBalanced(ds[1..], rest, depth);
    }
  }

  /** Unbalanced braces always fail. */
  lemma ParsedIsBalanced(input: string)
    ensures ParseText(input).Some? ==> Balanced(Tokens(input), 0)
  {
    if ParseText(input).Some? {
      var ds := AllSound([], Tokens(input));
      assert YieldAll(ds) + [] == Tokens(input);
      AllBalanced(ds, [], 0);
    }
  }
}
