/**
 The lexer of pkg/yang/lex.go: a state machine over a cursor, with a bounded
 queue of tokens. `Rest()` says which tokens the machine will still deliver.
 */
module LexerMachine {
  import opened Text
  import opened Lexing
  import opened Wrappers

  /** What reading one character yields: `Eof` stands for the invalid rune. */
  datatype Rune = Eof | Ch(c: char)

  datatype Code = TError | TString | TUnquoted | TPunct(c: char)

  /** A token as it is delivered, with its 1-based line and column. */
  datatype Lexeme = Lexeme(code: Code, text: string, line: int, col: int)

  datatype StateFn = Ground | QString | Unquoted | Halt

  const MAX_ERRORS := 8

  /** A delivered lexeme is the machine's form of a token of the text. */
  predicate Matches(x: Lexeme, t: Token) {
    match t
    case Word(text) => x.code == TUnquoted && x.text == text
    case Quoted(text, _) => x.code == TString && x.text == text
    case Punct(c) => x.code == TPunct(c)
    case Broken => false
  }

  /** Delivering `t` writes an error message. */
  predicate Faulty(t: Token, inPattern: bool) {
    t.Broken? || (t.Quoted? && t.badEscape && !inPattern)
  }

  lemma NewlinesNext(s: string, i: nat)
    requires i < |s|
    ensures Newlines(s[..i + 1]) == Newlines(s[..i]) + (if s[i] == '\n' then 1 else 0)
  {
    assert s[..i + 1] == s[..i] + [s[i]];
    NewlinesConcat(s[..i], [s[i]]);
    assert [s[i]][1..] == "";
  }

  lemma NewlinesSkip(s: string, i: nat, n: nat)
    requires i + n <= |s|
    ensures Newlines(s[..i + n]) == Newlines(s[..i]) + Newlines(s[i..i + n])
  {
    assert s[..i + n] == s[..i] + s[i..i + n];
    NewlinesConcat(s[..i], s[i..i + n]);
  }

  /** How many characters precede position `p` on its line. */
  function ColumnOf(s: string, p: nat): nat
    requires p <= |s|
  {
    |LastLine(s[..p])|
  }

  lemma ColumnSkip(s: string, i: nat, n: nat)
    requires i + n <= |s|
    ensures var x := s[i..i + n];
            ColumnOf(s, i + n) == if Newlines(x) > 0 then |LastLine(x)| else ColumnOf(s, i) + |LastLine(x)|
  {
    var x := s[i..i + n];
    assert s[..i + n] == s[..i] + x;
    LastLineConcat(s[..i], x);
    NewlinesIn(x);
  }

  lemma ColumnNext(s: string, i: nat)
    requires i < |s|
    ensures ColumnOf(s, i + 1) == if s[i] == '\n' then 0 else ColumnOf(s, i) + 1
  {
    assert s[..i + 1] == s[..i] + [s[i]];
    LastLineConcat(s[..i], [s[i]]);
    assert [s[i]][1..] == "";
  }

  /**
   `col` is the column of position `p`, or zero before a line feed that was
   looked at, which is where stepping back over one leaves it.
   */
  predicate ColumnAt(s: string, p: nat, col: int)
    requires p <= |s|
  {
    col == ColumnOf(s, p) || (col == 0 && p < |s| && s[p] == '\n')
  }

  /** What a comment is skipped to. */
  function CommentEnd(block: bool): string {
    if block then "*/" else "\n"
  }

  lemma LexWhite(s: string, i: nat, t: nat)
    requires i < |s| && White(s[i])
    ensures Lex(s[i..], t) == Lex(s[i + 1..], Advance(t, s[i]))
  {
    assert s[i..][1..] == s[i + 1..];
  }

  lemma LexEnd(t: nat)
    ensures Lex("", t) == []
  {
  }

  /** Position `p` of `s` is the first byte of the token `t`. */
  ghost predicate TokenAt(s: string, p: nat, t: Token) {
    p < |s| && !White(s[p]) && exists col: nat :: ReadsAt(s, p, col, t)
  }

  /** Read from position `p` and column `col`, `s` goes on with the token `t`. */
  ghost predicate ReadsAt(s: string, p: nat, col: nat, t: Token)
    requires p < |s| && !White(s[p])
  {
    var r := LexSolid(s[p..], col);
    r.Read? && r.token == t
  }

  /** No comment starts `s`. */
  predicate NoComment(s: string) {
    !(|s| > 1 && s[0] == '/' && (s[1] == '/' || s[1] == '*'))
  }

  lemma TokenOrComment(s: string, p: nat, col: nat)
    requires p < |s| && !White(s[p]) && NoComment(s[p..])
    ensures var all := Lex(s[p..], col); all != [] && TokenAt(s, p, all[0])
  {
    LexStep(s[p..], col);
    assert ReadsAt(s, p, col, Lex(s[p..], col)[0]);
  }

  lemma CloseAt(s: string, p: nat)
    requires p <= |s| && At(s[p..], 0, "*/")
    ensures p + 2 <= |s| && s[p] == '*' && s[p + 1] == '/'
  {
    assert s[p..][0..] == s[p..];
  }

  lemma EmptyOnLine(n: int, c: int)
    ensures OnLine([], n, c)
  {
  }

  /** Every queued token carries line `n`, and the column after `c`. */
  ghost predicate OnLine(items: seq<Lexeme>, n: int, c: int) {
    forall i :: 0 <= i < |items| ==> items[i].line == n && items[i].col == c + 1
  }

  class Lexer {
    var errout: nat        // messages in the buffer shared with the parser
    var errcnt: nat
    var input: string
    var start: nat
    var pos: nat
    var line: int
    var col: int
    var tcol: nat
    var scol: int
    var sline: int
    var width: nat
    var inPattern: bool
    var items: seq<Lexeme>
    var state: StateFn
    ghost var first: nat   // where the token being read starts

    /**
     The cursor is in bounds, `line` and `col` are its line and column (until too
     many errors discard the input), and `sline` and `scol` those of `first`.
     */
    ghost predicate Valid()
      reads this
    {
      && start <= pos <= |input|
      && 0 <= col
      && |items| <= MAX_ERRORS
      && OnLine(items, sline, scol)
      && errcnt <= MAX_ERRORS + 1
      && (errcnt > 0 ==> errout > 0)
      && (errcnt > MAX_ERRORS ==> input == "")
      && (errcnt <= MAX_ERRORS ==> first <= pos && Lines())
    }

    /** `line` counts the line feeds before the cursor; `sline` and `scol` say where `first` is. */
    ghost predicate Lines()
      requires first <= pos <= |input|
      reads `line, `sline, `scol, `col, `first, `pos, `input
    {
      && line == 1 + Newlines(input[..pos]) && sline == 1 + Newlines(input[..first])
      && ColumnAt(input, pos, col) && scol == ColumnOf(input, first)
    }

    /** The tokens that running the machine from state `st` will deliver. */
    ghost function From(st: StateFn): seq<Token>
      requires start <= pos <= |input|
      reads this
    {
      match st
      case Halt => []
      case Ground => Lex(input[pos..], tcol)
      case Unquoted => WordTokens(input, start, pos, tcol)
      case QString => BodyTokens(input, pos, tcol)
    }

    ghost function Rest(): seq<Token>
      requires start <= pos <= |input|
      reads this
    {
      From(state)
    }

    /** Bounds the tokens still to come, whatever errors occur. */
    ghost function Fuel(): nat
      requires pos <= |input|
      reads this
    {
      (MAX_ERRORS + 1) * (|input| - pos) + |items|
    }

    constructor (text: string)
      ensures Valid() && errout == 0 && errcnt == 0 && items == []
      ensures state == Ground && !inPattern && input == Terminated(text)
      ensures Rest() == Tokens(text)
    {
      errout, errcnt := 0, 0;
      input := Terminated(text);
      start, pos, width, first := 0, 0, 0, 0;
      line, sline, col, scol, tcol := 1, 1, 0, 0, 0;
      inPattern := false;
      items := [];
      state := Ground;
      new;
      assert input[..0] == "" && input[0..] == input;
    }

    method Next() returns (r: Rune)
      requires Valid()
      modifies `pos, `width, `line, `col, `tcol
      ensures Valid()
      ensures old(pos) == |input| ==>
                && r == Eof && pos == old(pos) && width == 0
                && line == old(line) && col == old(col) && tcol == old(tcol)
      ensures old(pos) < |input| ==>
                var c := input[old(pos)];
                && r == Ch(c) && pos == old(pos) + 1 && width == 1
                && tcol == Advance(old(tcol), c)
                && line == old(line) + (if c == '\n' then 1 else 0)
                && col == (if c == '\n' then 0 else old(col) + 1)
                && (errcnt <= MAX_ERRORS ==> col == ColumnOf(input, pos))
    {
      hide ColumnOf;
      if pos >= |input| {
        width := 0;
        return Eof;
      }
      var c := input[pos];
      NewlinesNext(input, pos);
      ColumnNext(input, pos);
      width := 1;
      pos := pos + width;
      if c == '\n' {
        line := line + 1;
        col := 0;
        tcol := 0;
      } else if c == '\t' {
        tcol := (tcol + 8) / 8 * 8;
        col := col + 1;
      } else {
        tcol := tcol + 1;
        col := col + 1;
      }
      return Ch(c);
    }

    /** Undoes the last `Next`, up to the column (see `Glance`). */
    method Backup()
      requires Valid()
      requires width == 0 || (width == 1 && start < pos && (errcnt <= MAX_ERRORS ==> first < pos))
      requires width == 1 ==> (col == 0 <==> input[pos - 1] == '\n')
      requires width == 1 && col > 0 ==> tcol > 0
      requires width == 1 && errcnt <= MAX_ERRORS ==> col == ColumnOf(input, pos)
      modifies `pos, `line, `col, `tcol
      ensures Valid()
      ensures pos == old(pos) - width
      ensures width == 0 ==> line == old(line) && col == old(col) && tcol == old(tcol)
      ensures width == 1 ==>
                && line == old(line) - (if old(col) == 0 then 1 else 0)
                && tcol == (if old(col) == 0 then 0 else old(tcol) - 1)
                && col == (if old(col) == 0 then 0 else old(col) - 1)
    {
      hide ColumnOf;
      if width == 1 {
        NewlinesNext(input, pos - 1);
        if errcnt <= MAX_ERRORS { ColumnNext(input, pos - 1); }
      }
      pos := pos - width;
      if width > 0 {
        if col - 1 < 0 {
          line := line - 1;
          col := 0;
          tcol := 0;
        } else {
          col := col - 1;
          tcol := tcol - 1;
        }
      }
    }

    method Peek() returns (r: Rune)
      requires Valid()
      modifies `pos, `width, `line, `col, `tcol
      ensures Valid()
      ensures pos == old(pos) && line == old(line)
      ensures pos == |input| ==> r == Eof && tcol == old(tcol)
      ensures pos < |input| ==> r == Ch(input[pos]) && tcol == Glance(old(tcol), input[pos])
    {
      r := Next();
      Backup();
    }

    /** Moves over the white space ahead; the tokens to come stay the same. */
    method AcceptRun(valid: string) returns (ret: bool)
      requires Valid()
      requires forall c :: c in valid ==> White(c)
      modifies `pos, `width, `line, `col, `tcol
      ensures Valid()
      ensures old(pos) <= pos
      ensures ret <==> old(pos) < pos
      ensures pos < |input| ==> input[pos] !in valid
      ensures Lex(input[pos..], tcol) == Lex(input[old(pos)..], old(tcol))
    {
      hide Lex, ColumnOf, Newlines, White, OnLine;
      ret := false;
      ghost var t := tcol;
      var r := Next();
      while r.Ch? && r.c in valid
        invariant Valid()
        invariant r == Eof ==> width == 0 && pos == |input| && t == tcol
        invariant r.Ch? ==> width == 1 && pos > old(pos) && r.c == input[pos - 1]
        invariant r.Ch? ==> tcol == Advance(t, r.c) && (col == 0 <==> r.c == '\n')
        invariant r.Ch? && errcnt <= MAX_ERRORS ==> col == ColumnOf(input, pos)
        invariant old(pos) <= pos - width
        invariant ret <==> old(pos) < pos - width
        invariant Lex(input[pos - width..], t) == Lex(input[old(pos)..], old(tcol))
        decreases |input| - pos, if r.Ch? then 1 else 0
      {
        ret := true;
        LexWhite(input, pos - 1, t);
        t := tcol;
        r := Next();
      }
      if r.Ch? { LexAfterGlance(input[pos - 1..], t); }
      Backup();
    }

    method UpdateCursor(n: nat)
      requires Valid() && pos + n <= |input|
      modifies `pos, `width, `line, `col
      ensures Valid()
      ensures pos == old(pos) + n && width == n
      ensures col == if Newlines(input[old(pos)..pos]) > 0
                     then |LastLine(input[old(pos)..pos])| else old(col) + |LastLine(input[old(pos)..pos])|
    {
      hide LastLine, ColumnOf, OnLine;
      var s := input[pos..pos + n];
      NewlinesSkip(input, pos, n);
      ColumnSkip(input, pos, n);
      pos := pos + n;
      width := n;
      var c := Newlines(s);
      if c > 0 {
        line := line + c;
        col := 0;
      }
      col := col + |LastLine(s)|;
    }

    /** Moves to the first occurrence of `s`, if there is one. */
    method SkipTo(s: string) returns (found: bool)
      requires Valid()
      modifies `pos, `width, `line, `col
      ensures Valid()
      ensures found <==> IndexOf(input[old(pos)..], s) >= 0
      ensures found ==> pos == old(pos) + IndexOf(input[old(pos)..], s) && pos + |s| <= |input|
      ensures !found ==> pos == old(pos) && line == old(line)
    {
      var x := IndexOf(input[pos..], s);
      if x >= 0 {
        UpdateCursor(x);
        return true;
      }
      return false;
    }

    method Consume()
      requires Valid()
      modifies `start
      ensures Valid() && start == pos
    {
      start := pos;
    }

    /** Queues a token unless the queue is full, and consumes the input read. */
    method EmitText(c: Code, text: string)
      requires Valid()
      modifies `items, `start
      ensures Valid() && start == pos
      ensures items == if |old(items)| < MAX_ERRORS
                       then old(items) + [Lexeme(c, text, sline, scol + 1)]
                       else old(items)
    {
      if |items| < MAX_ERRORS {
        items := items + [Lexeme(c, text, sline, scol + 1)];
      }
      Consume();
    }

    method Emit(c: Code)
      requires Valid()
      modifies `items, `start
      ensures Valid() && start == pos
      ensures items == if |old(items)| < MAX_ERRORS
                       then old(items) + [Lexeme(c, input[old(start)..pos], sline, scol + 1)]
                       else old(items)
    {
      EmitText(c, input[start..pos]);
    }

    /** Counts an error; the ninth one discards the input. */
    method AddError()
      requires Valid()
      modifies `errout, `errcnt, `pos, `start, `input
      ensures Valid() && errcnt > 0
      ensures errout > 0
      ensures errcnt == if old(errcnt) <= 8 then old(errcnt) + 1 else old(errcnt)
      ensures errout == if old(errcnt) <= 8 then old(errout) + 1 else old(errout)
      ensures old(errcnt) != 8 ==> input == old(input) && pos == old(pos) && start == old(start)
      ensures old(errcnt) == 8 ==> input == "" && pos == 0 && start == 0
    {
      if errcnt == MAX_ERRORS {
        pos := 0;
        start := 0;
        input := "";
        errout := errout + 1;
        errcnt := errcnt + 1;
        return;
      } else if errcnt == MAX_ERRORS + 1 {
        return;
      }
      errout := errout + 1;
      errcnt := errcnt + 1;
    }

    /** Errorf and ErrorfAt: an error token, and a message. */
    method Errorf()
      requires Valid()
      modifies `errout, `errcnt, `pos, `start, `input, `items
      ensures Valid() && errcnt > 0 && errout > 0
      ensures errout >= old(errout) && errcnt >= old(errcnt)
      ensures |input| - pos <= old(|input| - pos)
      ensures errcnt <= MAX_ERRORS ==> input == old(input) && pos == old(pos)
      ensures items != []
    {
      Emit(TError);
      AddError();
    }

    /**
     What was queued, and what state `ns` will deliver from here on, are
     together the tokens `all`; or an unclosed quote or comment was reported.
     */
    ghost predicate Delivers(ns: StateFn, all: seq<Token>)
      requires start <= pos <= |input|
      reads this
    {
      if errout > 0 then all == [Broken]
      else if items == [] then From(ns) == all
      else
        && ns == Ground && |items| == 1 && all != []
        && Matches(items[0], all[0]) && !Faulty(all[0], inPattern) && all[1..] == From(Ground)
    }

    method LexSingleQuoted() returns (ns: StateFn)
      requires Valid() && items == [] && pos < |input| && input[pos] == '\''
      modifies `pos, `start, `width, `line, `col, `tcol, `items, `errout, `errcnt, `input
      ensures Valid() && errout >= old(errout) && errcnt >= old(errcnt)
      ensures (ns == Ground || ns == Halt)
      ensures |input| - pos < old(|input| - pos)
      ensures errcnt <= MAX_ERRORS ==> input == old(input) && old(pos) <= pos
      ensures items != []
      ensures old(errout) == 0 ==> Delivers(ns, old(From(Ground)))
    {
      hide Lex, IndexOf, Newlines, LastLine, WordTokens, BodyTokens, OnLine, Lines;
      LexSingle(input, pos, tcol);
      var _ := Next();
      Consume();
      var found := SkipTo("'");
      if !found {
        Errorf();
        return Halt;
      }
      Emit(TString);
      var _ := Next();
      return Ground;
    }

    /** Passes the end of a block comment. */
    method SkipClose()
      requires Valid() && pos + 2 <= |input| && input[pos] == '*' && input[pos + 1] == '/'
      modifies `pos, `width, `line, `col, `tcol
      ensures Valid() && pos == old(pos) + 2 && tcol == old(tcol) + 2
    {
      hide Newlines, OnLine, Lines;
      var _ := Next();
      var _ := Next();
    }

    /** Passes a comment whose first slash has been read; `close` ends it. */
    method LexComment(block: bool, ghost all: seq<Token>) returns (ns: StateFn)
      requires Valid() && items == []
      requires all == if IndexOf(input[pos..], CommentEnd(block)) < 0 then [Broken]
                      else var p := pos + IndexOf(input[pos..], CommentEnd(block));
                           if block then Lex(input[p + 2..], tcol + 2) else Lex(input[p..], tcol)
      modifies `pos, `start, `width, `line, `col, `tcol, `items, `errout, `errcnt, `input
      ensures Valid() && errout >= old(errout) && errcnt >= old(errcnt)
      ensures ns == Ground || ns == Halt
      ensures errout == 0 ==> ns == Ground && items == []
      ensures |input| - pos <= old(|input| - pos)
      ensures errcnt <= MAX_ERRORS ==> input == old(input) && old(pos) <= pos
      ensures old(errout) == 0 ==> Delivers(ns, all)
    {
      hide Lex, IndexOf, Newlines, LastLine, WordTokens, BodyTokens, OnLine, Lines;
      var found := SkipTo(CommentEnd(block));
      if !found {
        Errorf();
        return Halt;
      }
      if block {
        CloseAt(input, pos);
        SkipClose();
      }
      assert From(Ground) == all;
      return Ground;
    }

    /** A slash starts a comment or an unquoted string. */
    method LexSlash() returns (ns: StateFn)
      requires Valid() && items == [] && pos < |input| && input[pos] == '/' && start == pos
      modifies `pos, `start, `width, `line, `col, `tcol, `items, `errout, `errcnt, `input
      ensures Valid() && errout >= old(errout) && errcnt >= old(errcnt)
      ensures ns != QString
      ensures |input| - pos < old(|input| - pos)
      ensures errcnt <= MAX_ERRORS ==> input == old(input) && old(pos) <= pos
      ensures ns == Unquoted ==> items == [] && start == old(pos) && input == old(input)
      ensures errout == 0 && ns == Unquoted ==> NoComment(input[old(pos)..])
      ensures errout == 0 && ns == Ground ==> items == []
      ensures errout == 0 ==> ns != Halt
      ensures old(errout) == 0 ==> Delivers(ns, old(From(Ground)))
    {
      hide Lex, IndexOf, Newlines, LastLine, WordTokens, BodyTokens, OnLine, Lines;
      ghost var p, t, all := pos, tcol, From(Ground);
      var _ := Next();
      var d := Peek();
      if d == Ch('/') {
        LexLineComment(input, p, t);
        ns := LexComment(false, all);
      } else if d == Ch('*') {
        LexBlockComment(input, p, t);
        ns := LexComment(true, all);
      } else {
        LexWordOn(input, p, t);
        return Unquoted;
      }
    }

    /** A semicolon or a brace. */
    method LexPunctuation(c: char)
      requires Valid() && items == [] && start == pos < |input| && c == input[pos] && c in ";{}"
      modifies `pos, `start, `width, `line, `col, `tcol, `items
      ensures Valid() && pos == old(pos) + 1 && items != []
      ensures errout == 0 ==> Delivers(Ground, old(From(Ground)))
    {
      hide Lex, Newlines, LastLine, OnLine, Lines;
      LexPunct(input, pos, tcol);
      var _ := Next();
      Emit(TPunct(c));
    }

    /** A plus sign right before a quote is a token of its own. */
    method LexPlusSign() returns (ns: StateFn)
      requires Valid() && items == [] && pos < |input| && input[pos] == '+' && start == pos
      modifies `pos, `start, `width, `line, `col, `tcol, `items
      ensures Valid()
      ensures (ns == Ground || ns == Unquoted)
      ensures pos == old(pos) + 1
      ensures ns == Ground ==> items != []
      ensures ns == Unquoted ==> items == [] && start == old(pos)
      ensures errout == 0 ==> Delivers(ns, old(From(Ground)))
    {
      hide Lex, IndexOf, Newlines, LastLine, WordTokens, BodyTokens, OnLine, Lines;
      ghost var p, t := pos, tcol;
      var _ := Next();
      var d := Peek();
      if d == Ch('"') || d == Ch('\'') {
        LexPlus(input, p, t);
        assert input[start..pos] == "+";
        Emit(TUnquoted);
        return Ground;
      }
      LexWordOn(input, p, t);
      return Unquoted;
    }

    /** What the ground state does at a character that starts a token or comment. */
    method LexTokenStart(c: char) returns (ns: StateFn)
      requires Valid() && items == [] && start == pos < |input| && c == input[pos] && !White(c)
      modifies `pos, `start, `width, `line, `col, `tcol, `items, `errout, `errcnt, `input
      ensures Valid() && errout >= old(errout) && errcnt >= old(errcnt)
      ensures |input| - pos <= old(|input| - pos)
      ensures ns == Unquoted || |input| - pos < old(|input| - pos)
      ensures ns == Unquoted ==> start < pos || (pos < |input| && !Stops(input[pos]))
      ensures ns == Unquoted ==> |input| - start <= old(|input| - pos)
      ensures (ns == QString || ns == Unquoted) ==> items == []
      ensures errcnt <= MAX_ERRORS ==> input == old(input) && old(pos) <= pos
      ensures errout == 0 && (items != [] || ns == QString || ns == Unquoted) ==> NoComment(input[old(pos)..])
      ensures old(errout) == 0 ==> Delivers(ns, old(From(Ground)))
    {
      hide Lex, IndexOf, Newlines, LastLine, WordTokens, BodyTokens, OnLine, Lines;
      match c
      case ';' | '{' | '}' =>
        LexPunctuation(c);
        return Ground;
      case '\'' =>
        ns := LexSingleQuoted();
      case '"' =>
        LexDouble(input, pos, tcol);
        var _ := Next();
        return QString;
      case '/' =>
        ns := LexSlash();
      case '+' =>
        ns := LexPlusSign();
      case _ =>
        LexWord(input, pos, tcol);
        return Unquoted;
    }

    /**
     The ground state: passes white space and comments, queues a token or hands
     over to another state. `first` is where the token found begins.
     */
    method LexGround() returns (ns: StateFn)
      requires Valid() && items == []
      modifies `pos, `start, `width, `line, `col, `tcol, `scol, `sline, `first,
               `items, `errout, `errcnt, `input
      ensures Valid() && errout >= old(errout) && errcnt >= old(errcnt)
      ensures |input| - pos <= old(|input| - pos)
      ensures ns == QString || ns == Ground || items != [] ==> |input| - pos < old(|input| - pos)
      ensures ns == Unquoted ==> start < pos || (pos < |input| && !Stops(input[pos]))
      ensures ns == Unquoted ==> |input| - start <= old(|input| - pos)
      ensures (ns == QString || ns == Unquoted) ==> items == []
      ensures errcnt <= MAX_ERRORS ==> input == old(input) && old(pos) <= pos
      ensures errcnt <= MAX_ERRORS && (items != [] || (ns == QString || ns == Unquoted)) ==>
                old(pos) <= first < |input| && !White(input[first])
      ensures errout == 0 && (items != [] || ns == QString || ns == Unquoted) ==>
                var all := old(From(Ground)); all != [] && TokenAt(input, first, all[0])
      ensures old(errout) == 0 ==> Delivers(ns, old(From(Ground)))
    {
      hide Lex, IndexOf, Newlines, LastLine, WordTokens, BodyTokens, OnLine, TokenAt, NoComment;
      var _ := AcceptRun(" \t\r\n");
      Consume();
      EmptyOnLine(line, col);
      sline := line;
      scol := col;
      first := pos;
      var c := Peek();
      if c == Eof {
        assert input[pos..] == "";
        LexEnd(tcol);
        return Halt;
      }
      ghost var t := tcol;
      ns := LexTokenStart(c.c);
      if errout == 0 && (items != [] || ns == QString || ns == Unquoted) { TokenOrComment(input, first, t); }
    }

    /** Reads on to the end of an unquoted string. */
    method LexUnquoted() returns (ns: StateFn)
      requires Valid() && items == []
      requires start < pos || (pos < |input| && !Stops(input[pos]))
      modifies `pos, `start, `width, `line, `col, `tcol, `items
      ensures Valid() && ns == Ground
      ensures old(pos) <= pos && old(start) < pos
      ensures items != []
      ensures errout == 0 ==> Delivers(ns, old(From(Unquoted)))
    {
      hide Lex, Newlines, WordTokens, BodyTokens, OnLine, Lines;
      ghost var all := From(Unquoted);
      while true
        invariant Valid() && items == []
        invariant start == old(start) && old(pos) <= pos
        invariant start < pos || (pos < |input| && !Stops(input[pos]))
        invariant From(Unquoted) == all
        decreases |input| - pos
      {
        ghost var t := tcol;
        var c := Peek();
        if c == Eof || Stops(c.c) {
          WordTokensEnd(input, start, pos, t);
          Emit(TUnquoted);
          return Ground;
        }
        WordTokensNext(input, start, pos, t);
        var _ := Next();
      }
    }

    /** The inner loop of the double-quoted state: drops trailing blanks. */
    method TrimTail(text: string) returns (r: string)
      ensures r == TrimBlanks(text)
    {
      r := text;
      while r != "" && Blank(r[|r| - 1])
        invariant TrimBlanks(r) == TrimBlanks(text)
        decreases |r|
      {
        r := r[..|r| - 1];
      }
    }

    /** Reads the character after a backslash: what the two stand for, and whether they are an escape. */
    method LexEscape() returns (e: Rune, shown: string)
      requires Valid()
      modifies `pos, `start, `width, `line, `col, `tcol, `items, `errout, `errcnt, `input
      ensures Valid() && errout >= old(errout) && errcnt >= old(errcnt)
      ensures |input| - pos <= old(|input| - pos)
      ensures errcnt <= MAX_ERRORS ==> input == old(input) && old(pos) <= pos
      ensures e == if old(pos) < |old(input)| then Ch(old(input)[old(pos)]) else Eof
      ensures e.Ch? ==> shown == Unescape(e.c)
      ensures old(errout) == 0 ==> (errout == 0 <==> inPattern || (e.Ch? && Escapable(e.c)))
      ensures errout == 0 ==>
                && items == old(items)
                && pos == old(pos) + (if e.Ch? then 1 else 0)
                && tcol == if e.Ch? then Advance(old(tcol), e.c) else old(tcol)
    {
      hide Lex, Newlines, OnLine, Lines, Advance;
      e := Next();
      if e.Ch? && Escapable(e.c) {
        shown := Unescape(e.c);
      } else {
        if !inPattern {
          Errorf();
        }
        shown := ['\\', if e.Ch? then e.c else '\U{FFFD}'];
      }
    }

    /** Reads a double-quoted string whose opening quote has been passed. */
    method LexQString() returns (ns: StateFn)
      requires Valid() && items == []
      modifies `pos, `start, `width, `line, `col, `tcol, `items, `errout, `errcnt, `input
      ensures Valid() && errout >= old(errout) && errcnt >= old(errcnt)
      ensures (ns == Ground || ns == Halt)
      ensures |input| - pos <= old(|input| - pos)
      ensures errcnt <= MAX_ERRORS ==> input == old(input) && old(pos) <= pos
      ensures items != []
      ensures errout == 0 ==> Delivers(ns, old(From(QString)))
      ensures old(errout) == 0 && errout > 0 ==>
                old(From(QString)) != [] && Faulty(old(From(QString))[0], inPattern)
    {
      hide Lex, Newlines, LastLine, ReadBody, IndexOf, WordLength, OnLine, Lines, TrimBlanks;
      hide ColumnOf, ColumnAt, Advance, Unescape;
      var indent := tcol;
      var over := true;
      ghost var body := ReadBody(input[pos..], tcol, tcol, true, "", false);
      ghost var bad := false;
      var text := "";
      while true
        invariant Valid()
        invariant errout >= old(errout) && errcnt >= old(errcnt) && |input| - pos <= old(|input| - pos)
        invariant errcnt <= MAX_ERRORS ==> input == old(input) && old(pos) <= pos
        invariant errout == 0 ==> items == [] && ReadBody(input[pos..], tcol, indent, over, text, bad) == body
        invariant errout == 0 && bad ==> inPattern
        invariant old(errout) == 0 && errout > 0 ==> !inPattern && (body.Closed? ==> body.bad)
        decreases |input| - pos
      {
        ghost var p, t := pos, tcol;
        ghost var s := input;
        var c := Next();
        ReadBodyStep(s, p, t, indent, over, text, bad);
        if c == Eof {
          Errorf();
          return Halt;
        } else if c.c == '"' {
          EmitText(TString, text);
          return Ground;
        } else if c.c == '\n' {
          text := TrimTail(text);
          text := text + "\n";
          over := false;
        } else if Blank(c.c) {
          if over || tcol > indent {
            over := true;
            text := text + [c.c];
          }
        } else if c.c == '\\' {
          var e, shown := LexEscape();
          if e.Ch? && !Escapable(e.c) {
            BadStaysBad(s[p + 2..], Advance(Advance(t, c.c), e.c), indent, true, text + shown);
            bad := true;
          }
          over := true;
          text := text + shown;
        } else {
          over := true;
          text := text + [c.c];
        }
      }
    }

    /** Runs the current state once, on an empty queue. */
    method Step(ghost all: seq<Token>)
      requires Valid() && items == [] && state != Halt
      requires state == Unquoted ==> start < pos || (pos < |input| && !Stops(input[pos]))
      requires errout == 0 ==> From(state) == all
      modifies `pos, `start, `width, `line, `col, `tcol, `scol, `sline, `first,
               `items, `errout, `errcnt, `input, `state
      ensures Valid() && errout >= old(errout) && errcnt >= old(errcnt)
      ensures |input| - pos <= old(|input| - pos)
      ensures state == Unquoted ==>
                && items == [] && |input| - start <= old(|input| - pos)
                && (start < pos || (pos < |input| && !Stops(input[pos])))
      ensures old(state) == Ground ==>
                (state == QString || state == Ground || items != [] ==> |input| - pos < old(|input| - pos))
      ensures old(state) != Ground ==> items != []
      ensures old(state) == Unquoted ==> |input| - pos < old(|input| - start)
      ensures state == QString ==> items == [] && old(state) == Ground
      ensures state == Unquoted ==> old(state) == Ground
      ensures errcnt <= MAX_ERRORS ==> input == old(input) && old(pos) <= pos
      ensures errcnt <= MAX_ERRORS && (items != [] || state == QString || state == Unquoted) ==>
                if old(state) == Ground then old(pos) <= first < |input| && !White(input[first])
                else first == old(first)
      ensures errout == 0 && old(state) == Ground && (items != [] || state == QString || state == Unquoted) ==>
                all != [] && TokenAt(input, first, all[0])
      ensures old(errout) == 0 ==>
                if errout == 0 then Delivers(state, all) else all != [] && Faulty(all[0], inPattern)
    {
      hide Lex, Newlines, WordTokens, BodyTokens, Matches, OnLine, Lines, TokenAt;
      match state
      case Ground => state := LexGround();
      case QString => state := LexQString();
      case Unquoted => state := LexUnquoted();
    }

    /**
     The next token, or None at the end of the input. In a run without errors
     the queue never holds more than one token, so none is lost; and whatever
     the errors, every token delivered uses up fuel.
     */
    method NextToken() returns (r: Option<Lexeme>)
      requires Valid() && (state == Ground || state == Halt)
      requires errout == 0 ==> items == []
      modifies `pos, `start, `width, `line, `col, `tcol, `scol, `sline, `first,
               `items, `errout, `errcnt, `input, `state
      ensures Valid() && (state == Ground || state == Halt)
      ensures errout >= old(errout)
      ensures errout == 0 ==> items == []
      ensures if r.Some? then Fuel() < old(Fuel()) else Fuel() <= old(Fuel())
      ensures old(errout) == 0 ==>
                var all := old(Rest());
                if errout > 0 then all != [] && Faulty(all[0], inPattern)
                else if all == [] then r.None? && Rest() == []
                else
                  && r.Some? && Matches(r.value, all[0])
                  && !Faulty(all[0], inPattern) && Rest() == all[1..]
      ensures errcnt <= MAX_ERRORS && r.Some? ==>
                r.value.line == 1 + Newlines(input[..first]) && r.value.col == 1 + ColumnOf(input, first)
      ensures errout == 0 && r.Some? ==> old(Rest()) != [] && TokenAt(input, first, old(Rest())[0])
      ensures errcnt <= MAX_ERRORS ==> input == old(input)
      ensures errcnt <= MAX_ERRORS && r.Some? && old(items) == [] ==>
                old(pos) <= first < |input| && !White(input[first])
    {
      hide Lex, Newlines, WordTokens, BodyTokens, Matches, TokenAt;
      if items != [] {
        r := Some(items[0]);
        items := items[1..];
        return;
      }
      ghost var all := Rest();
      ghost var left := |input| - pos;
      while items == []
        invariant Valid() && errout >= old(errout) && errcnt >= old(errcnt)
        invariant |input| - pos <= left
        invariant items != [] || state == QString ==> |input| - pos < left
        invariant state == Unquoted ==>
                    && |input| - start <= left
                    && (start < pos || (pos < |input| && !Stops(input[pos])))
        invariant items != [] ==> state == Ground || state == Halt
        invariant old(errout) == 0 ==>
                    if errout == 0 then Delivers(state, all) else all != [] && Faulty(all[0], inPattern)
        invariant errcnt <= MAX_ERRORS ==> input == old(input) && old(pos) <= pos
        invariant errout == 0 && (items != [] || state == QString || state == Unquoted) ==>
                    all != [] && TokenAt(input, first, all[0])
        invariant errcnt <= MAX_ERRORS && (items != [] || state == QString || state == Unquoted) ==>
                    old(pos) <= first < |input| && !White(input[first])
        decreases if items == [] then 1 else 0, |input| - pos, if state == Ground then 1 else 0
      {
        if state == Halt {
          return None;
        }
        Step(all);
      }
      r := Some(items[0]);
      items := items[1..];
    }
  }
}
