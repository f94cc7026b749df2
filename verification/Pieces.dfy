/**
 The words of the language as they are written: a source cut into white space,
 comments and tokens, each with its characters spelled out, and what the lexer
 makes of such a cut.
 */
module Pieces {
  import opened Text
  import opened Lexing
  import opened Bodies
  import Strides

  /**
   One piece of a source. `Line` is a comment up to its line feed, `Block` one
   between a slash and a star with a slash, `Single` and `Double` are what
   stands between two quotes.
   */
  datatype Piece =
    | Space(c: char)
    | Line(text: string)
    | Block(text: string)
    | Mark(c: char)
    | Plain(text: string)
    | Single(text: string)
    | Double(text: string)

  /** The piece as it is written. */
  function Spelling(p: Piece): string {
    match p
    case Space(c) => [c]
    case Line(x) => "//" + x + "\n"
    case Block(x) => "/" + x + "*/"
    case Mark(c) => [c]
    case Plain(x) => x
    case Single(x) => "'" + x + "'"
    case Double(x) => "\"" + x + "\""
  }

  function Source(ps: seq<Piece>): string {
    if ps == [] then "" else Spelling(ps[0]) + Source(ps[1..])
  }

  /** No bare quote, and every backslash has a character to go with it. */
  predicate Shut(x: string)
    decreases |x|
  {
    x == "" ||
    if x[0] == '\\' then |x| > 1 && Shut(x[2..]) else x[0] != '"' && Shut(x[1..])
  }

  /** Some backslash goes with a character that is no n, t, double quote or backslash. */
  predicate Odd(x: string)
    decreases |x|
  {
    x != "" &&
    if x[0] == '\\' && |x| > 1 then x[1] !in "nt\"\\" || Odd(x[2..]) else Odd(x[1..])
  }

  /** Neither character of a comment sign begins `x`. */
  predicate NoComment(x: string) {
    |x| > 1 && x[0] == '/' ==> x[1] != '/' && x[1] != '*'
  }

  /** The piece is well formed and may stand before `rest`. */
  predicate Fits(p: Piece, rest: string) {
    match p
    case Space(c) => c in " \t\r\n"
    case Line(x) => '\n' !in x
    case Block(x) =>
      && (x != "" ==> x[0] == '*')
      && forall i :: 0 <= i < |x| - 1 ==> x[i] == '*' ==> x[i + 1] != '/'
    case Mark(c) => c in ";{}"
    case Plain(x) =>
      && x != "" && NoComment(x)
      && (forall i :: 0 <= i < |x| ==> x[i] !in " \t\r\n;\"'{}")
      && (rest != "" ==> rest[0] in " \t\r\n;\"'{}")
    case Single(x) => '\'' !in x
    case Double(x) => Shut(x)
  }

  predicate Fit(ps: seq<Piece>) {
    ps == [] || (Fits(ps[0], Source(ps[1..])) && Fit(ps[1..]))
  }

  /** The text of a double-quoted string whose body starts at column `t`. */
  function Value(x: string, t: nat): string {
    var b := ReadBody(x + "\"", t, t, true, "", false);
    if b.Closed? then b.text else ""
  }

  /** The token a piece stands for, if it is one. */
  function Meant(p: Piece, t: nat): seq<Token> {
    match p
    case Space(_) => []
    case Line(_) => []
    case Block(_) => []
    case Mark(c) => [Punct(c)]
    case Plain(x) => [Word(x)]
    case Single(x) => [Quoted(x, false)]
    case Double(x) => [Quoted(Value(x, t + 1), Odd(x))]
  }

  /** The column kept after a piece. */
  function Behind(p: Piece, t: nat): nat {
    match p
    case Line(_) => 0
    case Block(_) => t + 3
    case Single(_) => t + 2
    case _ => AdvanceAll(t, Spelling(p))
  }

  function Meaning(ps: seq<Piece>, t: nat): seq<Token> {
    if ps == [] then [] else Meant(ps[0], t) + Meaning(ps[1..], Behind(ps[0], t))
  }

  // ---------------------------------------------------------------- one piece

  /** What follows the closing quote has no part in the reading of a body. */
  lemma {:induction false} BodyAlone(x: string, r: string, t: nat, indent: nat, over: bool, text: string, bad: bool)
    requires Shut(x)
    ensures var b := ReadBody(x + "\"" + r, t, indent, over, text, bad);
            var a := ReadBody(x + "\"", t, indent, over, text, bad);
            && b.Closed? && a.Closed? && b.text == a.text && b.rest == r
            && b.bad == (bad || Odd(x)) && b.col == AdvanceAll(t, x + "\"")
    decreases |x|
  {
    hide ReadBody, TrimBlanks, Unescape;
    var s, a := x + "\"" + r, x + "\"";
    assert s[0..] == s && a[0..] == a;
    ReadBodyStep(s, 0, t, indent, over, text, bad);
    ReadBodyStep(a, 0, t, indent, over, text, bad);
    if x == "" {
      assert s[1..] == r && a[1..] == "";
    } else {
      var w := if x[0] == '\\' then 2 else 1;
      assert s[w..] == x[w..] + "\"" + r && a[w..] == x[w..] + "\"";
      var t1 := Advance(t, x[0]);
      if x[0] == '\\' {
        BodyAlone(x[2..], r, Advance(t1, x[1]), indent, true, text + Unescape(x[1]), bad || !Escapable(x[1]));
        assert a[1..][0] == x[1] && a[1..][1..] == a[2..];
      } else if x[0] == '\n' {
        BodyAlone(x[1..], r, t1, indent, false, TrimBlanks(text) + "\n", bad);
      } else if Blank(x[0]) && !over && t1 <= indent {
        BodyAlone(x[1..], r, t1, indent, over, text, bad);
      } else {
        BodyAlone(x[1..], r, t1, indent, true, text + [x[0]], bad);
      }
    }
  }

  /** A body that is closed is shut before its quote. */
  lemma {:induction false} ClosedIsShut(s: string, t: nat, indent: nat, over: bool, text: string, bad: bool)
    returns (x: string, r: string)
    requires ReadBody(s, t, indent, over, text, bad).Closed?
    ensures Shut(x) && s == x + "\"" + r
    decreases |s|
  {
    hide ReadBody;
    if s[..1] == "\"" {
      x, r := "", s[1..];
    } else {
      assert s != "" by { assert s[0..] == s; ReadBodyStep(s, 0, t, indent, over, text, bad); }
      var over1, text1, bad1 := Strides.NextBody(s, t, indent, over, text, bad);
      var w := if s[0] == '\\' then 2 else 1;
      var t1 := if w == 2 then Advance(t + 1, s[1]) else Advance(t, s[0]);
      var y;
      y, r := ClosedIsShut(s[w..], t1, indent, over1, text1, bad1);
      x := s[..w] + y;
      assert x[w..] == y;
    }
  }

  lemma {:induction false} WordIs(x: string, r: string)
    requires forall i :: 0 <= i < |x| ==> x[i] !in " \t\r\n;\"'{}"
    requires r != "" ==> r[0] in " \t\r\n;\"'{}"
    ensures WordLength(x + r) == |x|
    decreases |x|
  {
    if x == "" {
      assert x + r == r;
    } else {
      assert x[0] !in " \t\r\n;\"'{}";
      assert (x + r)[1..] == x[1..] + r;
      WordIs(x[1..], r);
    }
  }

  lemma ReadsPlain(x: string, r: string, t: nat)
    requires Fits(Plain(x), r)
    ensures Lex(x + r, t) == [Word(x)] + Lex(r, AdvanceAll(t, x))
  {
    hide Lex, WordLength;
    var s := x + r;
    WordIs(x, r);
    AdvanceWord(t, x);
    assert s[0..] == s && s[..|x|] == x && s[|x|..] == r && x[0] !in " \t\r\n;\"'{}";
    if x == "+" && r != "" && (r[0] == '"' || r[0] == '\'') {
      LexPlus(s, 0, t);
    } else {
      LexWord(s, 0, t);
    }
  }

  /** The first place of `p` in `x + p + r`, where no earlier one is in sight. */
  lemma FirstAt(x: string, p: string, r: string)
    requires forall j :: 0 <= j < |x| ==> !At(x + p + r, j, p)
    ensures IndexOf(x + p + r, p) == |x|
  {
    hide IndexOf;
    assert (x + p + r)[|x|..] == p + r;
    assert At(x + p + r, |x|, p);
  }

  /** A character that is not in `x` first occurs right after it. */
  lemma FirstChar(x: string, c: char, r: string)
    requires c !in x
    ensures IndexOf(x + [c] + r, [c]) == |x|
  {
    hide IndexOf;
    var s := x + [c] + r;
    forall j | 0 <= j < |x| ensures !At(s, j, [c]) {
      assert s[j..][0] == x[j];
    }
    FirstAt(x, [c], r);
  }

  lemma ReadsSingle(x: string, r: string, t: nat)
    requires '\'' !in x
    ensures Lex("'" + x + "'" + r, t) == [Quoted(x, false)] + Lex(r, t + 2)
  {
    hide Lex, IndexOf;
    var s := "'" + x + "'" + r;
    FirstChar(x, '\'', r);
    assert s[0..] == s && s[1..] == x + "'" + r && s[1..1 + |x|] == x && s[|x| + 2..] == r;
    LexSingle(s, 0, t);
  }

  lemma ReadsLine(x: string, r: string, t: nat)
    requires '\n' !in x
    ensures Lex("//" + x + "\n" + r, t) == Lex(r, 0)
  {
    hide IndexOf;
    var s := "//" + x + "\n" + r;
    FirstChar("/" + x, '\n', r);
    assert s[0..] == s && s[1..] == ("/" + x) + "\n" + r && s[|x| + 2..] == "\n" + r;
    LexLineComment(s, 0, t);
    assert ("\n" + r)[1..] == r;
  }

  lemma ReadsBlock(x: string, r: string, t: nat)
    requires Fits(Block(x), r)
    ensures Lex("/" + x + "*/" + r, t) == Lex(r, t + 3)
  {
    hide Lex, IndexOf;
    var s, y := "/" + x + "*/" + r, x + "*/" + r;
    assert s[0..] == s && s[1..] == y && s[|x| + 3..] == r;
    forall j | 0 <= j < |x| ensures !At(y, j, "*/") {
      assert y[j..][0] == x[j];
      assert y[j..][1] == if j + 1 < |x| then x[j + 1] else '*';
    }
    FirstAt(x, "*/", r);
    LexBlockComment(s, 0, t);
  }

  lemma ReadsDouble(x: string, r: string, t: nat)
    requires Shut(x)
    ensures Lex("\"" + x + "\"" + r, t)
         == [Quoted(Value(x, t + 1), Odd(x))] + Lex(r, AdvanceAll(t, "\"" + x + "\""))
  {
    hide Lex, ReadBody, AdvanceAll;
    var s := "\"" + x + "\"" + r;
    assert s[0..] == s && s[1..] == x + "\"" + r;
    LexDouble(s, 0, t);
    BodyAlone(x, r, t + 1, t + 1, true, "", false);
    Strides.OneColumn(t, "\"");
    AdvanceConcat(t, "\"", x + "\"");
    assert "\"" + (x + "\"") == "\"" + x + "\"";
  }

  lemma ReadsPiece(p: Piece, r: string, t: nat)
    requires Fits(p, r)
    ensures Lex(Spelling(p) + r, t) == Meant(p, t) + Lex(r, Behind(p, t))
  {
    hide Lex, ReadBody, AdvanceAll, Shut, Odd, Value;
    match p
    case Space(c) =>
      WhiteRun([c], r, t);
    case Mark(c) =>
      var s := [c] + r;
      assert s[0..] == s && s[1..] == r;
      LexPunct(s, 0, t);
      Strides.OneColumn(t, [c]);
    case Line(x) => ReadsLine(x, r, t);
    case Block(x) => ReadsBlock(x, r, t);
    case Plain(x) => ReadsPlain(x, r, t);
    case Single(x) => ReadsSingle(x, r, t);
    case Double(x) => ReadsDouble(x, r, t);
  }

  /** Any run of the four white characters is skipped; the column goes on over it. */
  lemma {:induction false} WhiteRun(w: string, s: string, t: nat)
    requires forall c :: c in w ==> c == ' ' || c == '\t' || c == '\r' || c == '\n'
    ensures Lex(w + s, t) == Lex(s, AdvanceAll(t, w))
    decreases |w|
  {
    if w == "" {
      assert w + s == s;
    } else {
      assert w[0] in w && forall c :: c in w[1..] ==> c in w;
      assert (w + s)[1..] == w[1..] + s;
      WhiteRun(w[1..], s, Advance(t, w[0]));
    }
  }

  // ---------------------------------------------------------------- whole sources

  /** A source cut into pieces lexes to what they mean. */
  lemma {:induction false} PiecesRead(ps: seq<Piece>, t: nat)
    requires Fit(ps)
    ensures Lex(Source(ps), t) == Meaning(ps, t)
  {
    hide Lex, Fits, Spelling, Meant, Behind;
    if ps == [] {
      LexNone(t);
    } else {
      ReadsPiece(ps[0], Source(ps[1..]), t);
      PiecesRead(ps[1..], Behind(ps[0], t));
    }
  }

  /** A cut of `s` that means `ts`, whatever the column. */
  ghost predicate CutAs(ps: seq<Piece>, s: string, ts: seq<Token>) {
    Fit(ps) && Source(ps) == s && forall t: nat :: Meaning(ps, t) == ts
  }

  lemma CutNothing()
    ensures CutAs([], "", [])
  {
  }

  /** One more piece at the front, which is no double-quoted string. */
  lemma CutMore(p: Piece, ps: seq<Piece>, s: string, ts: seq<Token>)
    requires CutAs(ps, s, ts) && Fits(p, s) && !p.Double?
    ensures CutAs([p] + ps, Spelling(p) + s, Meant(p, 0) + ts)
  {
    hide Behind, Spelling, Fits;
    var all := [p] + ps;
    assert all[0] == p && all[1..] == ps;
    forall t: nat ensures Meaning(all, t) == Meant(p, 0) + ts {
      assert Meaning(ps, Behind(p, t)) == ts;
    }
  }

  /** A text and the same text with its last line feed, if that was missing, have the same tokens. */
  lemma SourceTokens(text: string, ps: seq<Piece>)
    requires Fit(ps)
    requires Source(ps) == if text != "" && text[|text| - 1] != '\n' then text + "\n" else text
    ensures Tokens(text) == Meaning(ps, 0)
  {
    hide Lex, Fit, Source, Meaning;
    PiecesRead(ps, 0);
  }

  lemma LexNone(t: nat)
    ensures Lex("", t) == []
  {
  }

  /** The text before the first `p`, and what follows that. */
  lemma CutAt(s: string, p: string) returns (x: string, r: string)
    requires IndexOf(s, p) >= 0
    ensures s == x + p + r && |x| == IndexOf(s, p)
    ensures forall j :: 0 <= j < |x| ==> !At(s, j, p)
  {
    hide IndexOf;
    var n := IndexOf(s, p);
    x, r := s[..n], s[n + |p|..];
    PrefixSplits(s[n..], p);
    Strides.DropTwice(s, n, |p|);
    assert s == x + (p + r);
  }

  lemma PrefixSplits(s: string, p: string)
    requires p <= s
    ensures s == p + s[|p|..]
  {
  }

  /** A character does not occur before its first place. */
  lemma CutBefore(s: string, c: char) returns (x: string, r: string)
    requires IndexOf(s, [c]) >= 0
    ensures s == x + [c] + r && c !in x && |x| == IndexOf(s, [c])
  {
    hide IndexOf;
    x, r := CutAt(s, [c]);
    forall j | 0 <= j < |x| ensures x[j] != c {
      assert !At(s, j, [c]);
      assert s[j..] == [x[j]] + s[j + 1..];
    }
  }

  lemma BlockCut(s: string) returns (x: string, r: string)
    requires s != "" && s[0] == '*' && IndexOf(s, "*/") >= 0
    ensures s == x + "*/" + r && Fits(Block(x), r)
  {
    hide IndexOf;
    x, r := CutAt(s, "*/");
    assert x != "" ==> x[0] == s[0];
    forall i | 0 <= i < |x| - 1 && x[i] == '*' ensures x[i + 1] != '/' {
      assert s[i] == x[i] && s[i + 1] == x[i + 1];
      assert !At(s, i, "*/");
      assert s[i..] == [x[i], x[i + 1]] + s[i + 2..];
    }
  }

  lemma PlainCut(s: string) returns (x: string, r: string)
    requires s != "" && s[0] !in " \t\r\n;\"'{}" && !("//" <= s) && !("/*" <= s)
    ensures s == x + r && Fits(Plain(x), r)
  {
    var n := WordLength(s);
    x, r := s[..n], s[n..];
    assert n > 0 && x[0] == s[0];
    if n > 1 { assert s == [x[0], x[1]] + s[2..]; }
  }

  lemma QuotePiece(s: string, t: nat) returns (p: Piece, r: string)
    requires s != "" && (s[0] == '\'' || s[0] == '"') && Broken !in Lex(s, t)
    ensures Fits(p, r) && s == Spelling(p) + r && Spelling(p) != ""
  {
    hide Lex, ReadBody, IndexOf, Shut;
    var c, s1, x := s[0], s[1..], "";
    assert s == [c] + s1 && s[0..] == s;
    if c == '"' {
      LexDouble(s, 0, t);
      x, r := ClosedIsShut(s1, t + 1, t + 1, true, "", false);
      p := Double(x);
    } else {
      LexSingle(s, 0, t);
      x, r := CutBefore(s1, c);
      p := Single(x);
    }
    assert [c] + (x + [c] + r) == Spelling(p) + r;
  }

  lemma CommentPiece(s: string, t: nat) returns (p: Piece, r: string)
    requires ("//" <= s || "/*" <= s) && Broken !in Lex(s, t)
    ensures Fits(p, r) && s == Spelling(p) + r && Spelling(p) != ""
  {
    hide Lex, IndexOf;
    var s1, x := s[1..], "";
    assert s == "/" + s1 && s[0..] == s;
    if s[1] == '/' {
      LexLineComment(s, 0, t);
      x, r := CutBefore(s1, '\n');
      assert x != "" && x[0] == s1[0];
      p := Line(x[1..]);
      assert x == "/" + x[1..];
      assert "/" + (x + "\n" + r) == Spelling(p) + r;
    } else {
      LexBlockComment(s, 0, t);
      x, r := BlockCut(s1);
      p := Block(x);
      assert "/" + (x + "*/" + r) == Spelling(p) + r;
    }
  }

  /** The piece a text begins with. */
  lemma FirstPiece(s: string, t: nat) returns (p: Piece, r: string)
    requires s != "" && Broken !in Lex(s, t)
    ensures Fits(p, r) && s == Spelling(p) + r && Spelling(p) != ""
  {
    hide Lex, Shut;
    var c := s[0];
    assert s == [c] + s[1..];
    if c in " \t\r\n" {
      p, r := Space(c), s[1..];
    } else if c in ";{}" {
      p, r := Mark(c), s[1..];
    } else if c == '\'' || c == '"' {
      p, r := QuotePiece(s, t);
    } else if "//" <= s || "/*" <= s {
      p, r := CommentPiece(s, t);
    } else {
      var x;
      x, r := PlainCut(s);
      p := Plain(x);
    }
  }

  /** A text that lexes without a broken token is cut into pieces. */
  lemma {:induction false} CutUp(s: string, t: nat) returns (ps: seq<Piece>)
    requires Broken !in Lex(s, t)
    ensures Fit(ps) && Source(ps) == s
    decreases |s|
  {
    hide Lex, Fits, Spelling, Meant, Behind;
    if s == "" {
      ps := [];
    } else {
      var p, r := FirstPiece(s, t);
      ReadsPiece(p, r, t);
      var more := CutUp(r, Behind(p, t));
      ps := [p] + more;
    }
  }

  lemma {:induction false} NoneBroken(ps: seq<Piece>, t: nat)
    ensures Broken !in Meaning(ps, t)
  {
    hide Behind;
    if ps != [] { NoneBroken(ps[1..], Behind(ps[0], t)); }
  }

  /** The lexer reads a text to its end if and only if it can be cut into pieces. */
  lemma LexedIsPieces(s: string, t: nat)
    ensures Broken !in Lex(s, t) <==> exists ps :: Fit(ps) && Source(ps) == s
  {
    hide Lex, Fits, Spelling, Meaning;
    if Broken !in Lex(s, t) {
      var ps := CutUp(s, t);
    } else if ps :| Fit(ps) && Source(ps) == s {
      PiecesRead(ps, t);
      NoneBroken(ps, t);
    }
  }

  /** A slash, a star and a slash are a whole comment to the lexer. */
  lemma SlashStarSlash(t: nat)
    ensures Lex("/*/a", t) == [Word("a")]
  {
    hide Lex, AdvanceAll;
    var ps := [Block(""), Plain("a")];
    assert ps[1..] == [Plain("a")] && ps[1..][1..] == [];
    assert Source(ps[1..]) == "a" && Source(ps) == "/*/a";
    assert Meaning(ps, t) == Meaning(ps[1..], t + 3) == [Word("a")];
    PiecesRead(ps, t);
  }

  /** A comment sign right behind a word belongs to the word. */
  lemma CommentInWord(t: nat)
    ensures Lex("a/*b*/;", t) == [Word("a/*b*/"), Punct(';')]
  {
    hide Lex, AdvanceAll;
    ReadsPlain("a/*b*/", ";", t);
    LexPunct(";", 0, AdvanceAll(t, "a/*b*/"));
    LexNone(AdvanceAll(t, "a/*b*/") + 1);
    assert ";"[0..] == ";" && ";"[1..] == "" && "a/*b*/" + ";" == "a/*b*/;";
  }
}
