/**
 The recursive-descent parser of pkg/yang/parse.go: a stack of pushed-back
 tokens over the lexer, proved to compute `ParseText`.
 */
module ParserMachine {
  import opened Lexing
  import opened LexerMachine
  import opened Wrappers
  import opened Grammar

  /** What nextStatement returns; `HitBrace` and `Ignored` are its two sentinels. */
  datatype NextResult = NoStatement | HitBrace | Ignored | Parsed(s: Statement)

  /** The error-recovery statement. */
  const IGNORE_ME := Statement("", false, "", [])

  class Parser {
    const lex: Lexer
    var tokens: seq<Lexeme>   // stack of pushed tokens, the last one on top
    var statementDepth: int

    /** In a run without errors the lexer's queue is empty between calls. */
    ghost predicate Valid()
      reads this, lex
    {
      && lex.Valid()
      && (lex.state == Ground || lex.state == Halt)
      && (lex.errout == 0 ==> lex.items == [])
    }

    /** The pushed tokens and those of the lexer are together `ts`. */
    ghost predicate Pending(ts: seq<Token>)
      requires lex.Valid()
      reads this, lex
    {
      && |tokens| <= |ts|
      && (forall i :: 0 <= i < |tokens| ==> Matches(tokens[|tokens| - 1 - i], ts[i]))
      && lex.Rest() == ts[|tokens|..]
    }

    ghost function Fuel(): nat
      requires lex.Valid()
      reads this, lex
    {
      lex.Fuel() + |tokens|
    }

    constructor (input: string)
      ensures Valid() && tokens == [] && statementDepth == 0 && fresh(lex)
      ensures lex.errout == 0 && lex.Rest() == Tokens(input) && !lex.inPattern
    {
      lex := new Lexer(input);
      tokens := [];
      statementDepth := 0;
    }

    /** Writes a message to the buffer shared with the lexer. */
    method Report()
      requires Valid()
      modifies lex`errout
      ensures Valid() && lex.errout == old(lex.errout) + 1
    {
      lex.errout := lex.errout + 1;
    }

    /** The next lexer token that is no error token. */
    method NextUnprocessed() returns (r: Option<Lexeme>)
      requires Valid()
      modifies lex
      ensures Valid() && lex.errout >= old(lex.errout) && lex.inPattern == old(lex.inPattern)
      ensures r.Some? ==> r.value.code != TError
      ensures if r.Some? then lex.Fuel() < old(lex.Fuel()) else lex.Fuel() <= old(lex.Fuel())
      ensures old(lex.errout) == 0 ==>
                var ts := old(lex.Rest());
                if lex.errout > 0 then ts != [] && Faulty(ts[0], lex.inPattern)
                else if ts == [] then r.None? && lex.Rest() == []
                else
                  && r.Some? && Matches(r.value, ts[0])
                  && !Faulty(ts[0], lex.inPattern) && lex.Rest() == ts[1..]
    {
      hide Lex, WordTokens, BodyTokens;
      r := lex.NextToken();
      while r.Some? && r.value.code == TError
        invariant Valid() && lex.errout >= old(lex.errout) && lex.inPattern == old(lex.inPattern)
        invariant if r.Some? then lex.Fuel() < old(lex.Fuel()) else lex.Fuel() <= old(lex.Fuel())
        invariant old(lex.errout) == 0 ==>
                    var ts := old(lex.Rest());
                    if lex.errout > 0 then ts != [] && Faulty(ts[0], lex.inPattern)
                    else if ts == [] then r.None? && lex.Rest() == []
                    else
                      && r.Some? && Matches(r.value, ts[0])
                      && !Faulty(ts[0], lex.inPattern) && lex.Rest() == ts[1..]
        decreases lex.Fuel(), if r.Some? then 1 else 0
      {
        r := lex.NextToken();
      }
    }

    /** What next() leaves when it read the tokens `ts` with nothing pushed back. */
    ghost predicate NextReads(r: Option<Lexeme>, ts: seq<Token>)
      requires lex.Valid()
      reads this, lex
    {
      if ts == [] then lex.errout == 0 && r == None && Pending([])
      else if Faulty(ts[0], lex.inPattern) then lex.errout > 0
      else if !ts[0].Quoted? then
        lex.errout == 0 && r.Some? && Matches(r.value, ts[0]) && Pending(ts[1..]) && tokens == []
      else
        ReadsString(r, Concatenate(ts[0].text, ts[1..], lex.inPattern))
    }

    /** The strings were joined as `c` says, and what follows is pushed back. */
    ghost predicate ReadsString(r: Option<Lexeme>, c: Concatenation)
      requires lex.Valid()
      reads this, lex
    {
      match c
      case Fault => lex.errout > 0
      case Concatenation(text, rest) =>
        && lex.errout == 0 && r.Some? && r.value.code == TString && r.value.text == text
        && Pending(rest) && |tokens| <= 2 && (|tokens| == 2 ==> rest[0] == Word("+")) && (rest != [] ==> tokens != [])
    }

    /** The next token, with the strings joined by plus signs as one token. */
    method Next() returns (r: Option<Lexeme>)
      requires Valid()
      modifies this`tokens, lex
      ensures Valid() && lex.errout >= old(lex.errout) && lex.inPattern == old(lex.inPattern)
      ensures if r.Some? then Fuel() < old(Fuel()) else Fuel() <= old(Fuel())
      ensures old(tokens) != [] ==>
                && r == Some(old(tokens)[|old(tokens)| - 1]) && tokens == old(tokens)[..|old(tokens)| - 1]
                && lex.errout == old(lex.errout) && lex.Rest() == old(lex.Rest())
      ensures old(tokens) == [] && old(lex.errout) == 0 ==> NextReads(r, old(lex.Rest()))
    {
      hide Lex, WordTokens, BodyTokens, Concatenate;
      if tokens != [] {
        r := Some(tokens[|tokens| - 1]);
        tokens := tokens[..|tokens| - 1];
        return;
      }
      ghost var ts := lex.Rest();
      r := NextUnprocessed();
      if r.None? || r.value.code != TString {
        return;
      }
      r := JoinStrings(r.value, ts);
    }

    /** Reads a plus sign and a string, or pushes back what it looked at. */
    method NextString(t: Lexeme, ghost us: seq<Token>) returns (more: Option<string>)
      requires Valid() && tokens == []
      requires lex.errout == 0 ==> lex.Rest() == us && t.code == TString
      modifies this`tokens, lex
      ensures Valid() && lex.errout >= old(lex.errout) && lex.inPattern == old(lex.inPattern)
      ensures more.Some? ==> tokens == [] && lex.Fuel() < old(lex.Fuel())
      ensures Fuel() <= old(Fuel())
      ensures old(lex.errout) == 0 ==>
                var c := Concatenate(t.text, us, lex.inPattern);
                if lex.errout > 0 then c == Fault
                else if more.Some? then c == Concatenate(t.text + more.value, lex.Rest(), lex.inPattern)
                else ReadsString(Some(t), c)
    {
      hide Lex, WordTokens, BodyTokens, Concatenate;
      ConcatenateStep(t.text, us, lex.inPattern);
      var nt := NextUnprocessed();
      if nt.None? {
        return None;
      }
      if nt.value.code != TUnquoted || nt.value.text != "+" {
        tokens := tokens + [nt.value];
        return None;
      }
      var nnt := NextUnprocessed();
      if nnt.None? {
        tokens := tokens + [nt.value];
        return None;
      }
      if nnt.value.code != TString {
        tokens := tokens + [nnt.value, nt.value];
        return None;
      }
      return Some(nnt.value.text);
    }

    method JoinStrings(first: Lexeme, ghost ts: seq<Token>) returns (r: Option<Lexeme>)
      requires Valid() && tokens == []
      requires lex.errout == 0 ==>
                 && ts != [] && ts[0].Quoted? && !Faulty(ts[0], lex.inPattern)
                 && first.code == TString && first.text == ts[0].text && lex.Rest() == ts[1..]
      modifies this`tokens, lex
      ensures Valid() && lex.errout >= old(lex.errout) && lex.inPattern == old(lex.inPattern)
      ensures r.Some? && Fuel() <= old(Fuel())
      ensures old(lex.errout) == 0 ==> NextReads(r, ts)
    {
      hide Lex, WordTokens, BodyTokens, Concatenate, ReadsString;
      var t := first;
      ghost var joined := if ts == [] || !ts[0].Quoted? then Fault
                          else Concatenate(ts[0].text, ts[1..], lex.inPattern);
      while true
        invariant Valid() && tokens == []
        invariant lex.errout >= old(lex.errout) && lex.inPattern == old(lex.inPattern)
        invariant lex.Fuel() <= old(Fuel())
        invariant lex.errout == 0 ==> t.code == TString && Concatenate(t.text, lex.Rest(), lex.inPattern) == joined
        invariant old(lex.errout) == 0 && lex.errout > 0 ==> joined == Fault
        decreases lex.Fuel()
      {
        var more := NextString(t, lex.Rest());
        if more.None? {
          if lex.errout > 0 { FaultReads(Some(t)); }
          return Some(t);
        }
        t := t.(text := t.text + more.value);
      }
    }

    lemma FaultReads(r: Option<Lexeme>)
      requires lex.Valid() && lex.errout > 0
      ensures ReadsString(r, Fault)
    {
    }

    /** What a statement or its rest leaves behind, when the grammar's reading is `p`. */
    ghost predicate Leaves(ns: NextResult, p: Grammar.Parsed, depth: int)
      requires lex.Valid()
      reads this, lex
    {
      if lex.errout > 0 then p == Failed
      else
        && tokens == []
        && match p
           case Failed => false
           case EndOfInput(open) => ns == NoStatement && statementDepth == depth + open && lex.Rest() == []
           case ClosingBrace(rest) => ns == HitBrace && statementDepth == depth - 1 && lex.Rest() == rest
           case Node(s, rest) => ns == NextResult.Parsed(s) && statementDepth == depth && lex.Rest() == rest
    }

    /** `t` is the token that should end a statement's keyword and argument. */
    ghost predicate AtTerminator(t: Option<Lexeme>, ts: seq<Token>)
      requires lex.Valid()
      reads this, lex
    {
      if lex.errout > 0 then ts == [] || !ts[0].Punct?
      else if ts == [] then t == None && tokens == [] && lex.Rest() == []
      else
        && t.Some?
        && if ts[0].Punct? then Matches(t.value, ts[0]) && tokens == [] && lex.Rest() == ts[1..]
           else !t.value.code.TPunct?
    }

    static predicate IsText(t: Option<Lexeme>) {
      t.Some? && (t.value.code == TString || t.value.code == TUnquoted)
    }

    /** What the token after the keyword leaves: an argument was read, or what should end the statement. */
    ghost predicate FirstReads(keyword: string, t: Option<Lexeme>, ts: seq<Token>, rest: seq<Token>)
      requires lex.Valid()
      reads this, lex
    {
      var p := ParseStatement([Word(keyword)] + ts);
      if lex.errout > 0 then p == Failed
      else if IsText(t) then
        && p == ParseRest(Statement(keyword, true, t.value.text, []), rest)
        && Pending(rest) && |tokens| <= 2 && (|tokens| == 2 ==> rest[0] == Word("+"))
      else p == ParseRest(Statement(keyword, false, "", []), rest) && AtTerminator(t, rest)
    }

    /** Reads the token after the keyword, in a pattern with other escapes. */
    method ReadFirst(keyword: string, ghost ts: seq<Token>) returns (t: Option<Lexeme>, ghost rest: seq<Token>)
      requires Valid()
      requires lex.errout == 0 ==> tokens == [] && lex.Rest() == ts
      modifies this`tokens, lex
      ensures Valid() && lex.errout >= old(lex.errout) && !lex.inPattern && Fuel() <= old(Fuel())
      ensures old(lex.errout) == 0 ==> FirstReads(keyword, t, ts, rest)
    {
      hide Lex, WordTokens, BodyTokens, Concatenate, ParseStatement, ParseRest;
      rest := [];
      StatementStep(keyword, ts);
      lex.inPattern := keyword == "pattern";
      t := Next();
      lex.inPattern := false;
      if ts != [] {
        if ts[0].Word? {
          rest := ts[1..];
        } else if ts[0].Quoted? {
          var c := Concatenate(ts[0].text, ts[1..], keyword == "pattern");
          rest := if c.Fault? then [] else c.rest;
        } else {
          rest := ts;
        }
      }
    }

    /** Reads the argument of a statement, if there is one, and the token after it. */
    method ReadArgument(keyword: string, ghost ts: seq<Token>)
      returns (s: Statement, t: Option<Lexeme>, ghost rest: seq<Token>)
      requires Valid()
      requires lex.errout == 0 ==> tokens == [] && lex.Rest() == ts
      modifies this`tokens, lex
      ensures Valid() && lex.errout >= old(lex.errout) && !lex.inPattern
      ensures Fuel() <= old(Fuel())
      ensures s.statements == []
      ensures old(lex.errout) == 0 ==>
                var p := ParseStatement([Word(keyword)] + ts);
                (lex.errout > 0 && p == Failed) || (p == ParseRest(s, rest) && AtTerminator(t, rest))
    {
      hide Lex, WordTokens, BodyTokens, Concatenate, ParseStatement, ParseRest;
      s := Statement(keyword, false, "", []);
      t, rest := ReadFirst(keyword, ts);
      if IsText(t) {
        s := s.(HasArgument := true, Argument := t.value.text);
        t := Next();
      }
    }

    /** Reads what follows the keyword and argument of `s`: a semicolon or a block. */
    method FinishStatement(s: Statement, t: Option<Lexeme>, ghost ts: seq<Token>) returns (ns: NextResult)
      requires Valid() && !lex.inPattern && s.statements == []
      requires lex.errout == 0 ==> AtTerminator(t, ts)
      modifies this, lex
      ensures Valid() && lex.errout >= old(lex.errout) && !lex.inPattern
      ensures Fuel() <= old(Fuel())
      ensures old(lex.errout) == 0 ==> Leaves(ns, ParseRest(s, ts), old(statementDepth))
      ensures ns != HitBrace
      decreases Fuel(), 2
    {
      hide Lex, WordTokens, BodyTokens, ParseStatement, ParseBlock;
      if t.None? {
        Report();
        return NoStatement;
      }
      if t.value.code == TPunct(';') {
        return NextResult.Parsed(s);
      }
      if t.value.code != TPunct('{') {
        Report();
        return Ignored;
      }
      statementDepth := statementDepth + 1;
      var parent := s;
      ghost var block := ParseBlock(s, if ts == [] then [] else ts[1..]);
      while true
        invariant Valid() && !lex.inPattern && lex.errout >= old(lex.errout)
        invariant Fuel() <= old(Fuel())
        invariant old(lex.errout) == 0 ==>
                    if lex.errout > 0 then block == Failed
                    else
                      && tokens == [] && statementDepth == old(statementDepth) + 1
                      && ParseBlock(parent, lex.Rest()) == block
        decreases Fuel()
      {
        BlockStep(parent, lex.Rest());
        ns := NextStatement();
        match ns
        case NoStatement => return NoStatement;
        case HitBrace => return NextResult.Parsed(parent);
        case Ignored => parent := parent.(statements := parent.statements + [IGNORE_ME]);
        case Parsed(sub) => parent := parent.(statements := parent.statements + [sub]);
      }
    }

    /** Reads the next statement, and the statements nested in it. */
    method NextStatement() returns (ns: NextResult)
      requires Valid() && !lex.inPattern
      requires lex.errout == 0 ==> tokens == []
      modifies this, lex
      ensures Valid() && lex.errout >= old(lex.errout) && !lex.inPattern
      ensures if ns == NoStatement then Fuel() <= old(Fuel()) else Fuel() < old(Fuel())
      ensures old(lex.errout) == 0 ==> Leaves(ns, ParseStatement(old(lex.Rest())), old(statementDepth))
      decreases Fuel(), 1
    {
      hide Lex, WordTokens, BodyTokens, Concatenate, ParseBlock;
      ghost var ts := lex.Rest();
      var t := Next();
      if t.None? {
        return NoStatement;
      }
      if t.value.code == TPunct('}') {
        statementDepth := statementDepth - 1;
        return HitBrace;
      }
      if t.value.code != TUnquoted {
        Report();
        return Ignored;
      }
      assert lex.errout == 0 ==> ts == [Word(t.value.text)] + ts[1..];
      var s, end, rest := ReadArgument(t.value.text, if ts == [] then [] else ts[1..]);
      ns := FinishStatement(s, end, rest);
    }

    /** Reports missing closing braces, unless other errors were found. */
    method CheckStatementDepthIsZero()
      requires Valid()
      modifies lex`errout
      ensures Valid()
      ensures lex.errout == 0 <==> old(lex.errout) == 0 && statementDepth == 0
    {
      if lex.errout > 0 || statementDepth == 0 {
        return;
      }
      Report();
    }
  }

  /** The statements of a source, or nothing when any message was written. */
  method Parse(input: string) returns (r: Option<seq<Statement>>)
    ensures r == ParseText(input)
  {
    hide Lex, Tokens, ParseStatement;
    var p := new Parser(input);
    var statements: seq<Statement> := [];
    ghost var all := ParseAll([], Tokens(input));
    while true
      invariant fresh(p) && fresh(p.lex) && p.Valid() && !p.lex.inPattern
      invariant if p.lex.errout > 0 then all == None
                else p.tokens == [] && p.statementDepth == 0 && ParseAll(statements, p.lex.Rest()) == all
      decreases p.Fuel()
    {
      var ns := p.NextStatement();
      match ns
      case NoStatement => break;
      case HitBrace => p.Report();
      case Ignored => statements := statements + [IGNORE_ME];
      case Parsed(s) => statements := statements + [s];
    }
    p.CheckStatementDepthIsZero();
    if p.lex.errout == 0 {
      return Some(statements);
    }
    return None;
  }
}
