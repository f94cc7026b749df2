/** String helpers that the Go standard library supplies to the modelled code. */
module Text {

  /** The number of line feeds in `s`. */
  function Newlines(s: string): nat {
    if s == "" then 0
    else (if s[0] == '\n' then 1 else 0) + Newlines(s[1..])
  }

  lemma {:induction false} NewlinesConcat(a: string, b: string)
    ensures Newlines(a + b) == Newlines(a) + Newlines(b)
  {
    if a == "" {
      assert a + b == b;
    } else {
      assert (a + b)[1..] == a[1..] + b;
      NewlinesConcat(a[1..], b);
    }
  }

  /** `p` occurs in `s` at index `i`. */
  predicate At(s: string, i: nat, p: string) {
    i <= |s| && p <= s[i..]
  }

  /** strings.Index: the first place where `p` occurs in `s`, or -1. */
  function IndexOf(s: string, p: string): (x: int)
    ensures -1 <= x <= |s|
    ensures x >= 0 ==> At(s, x, p) && x + |p| <= |s|
    ensures forall j :: 0 <= j < (if x < 0 then |s| + 1 else x) ==> !At(s, j, p)
  {
    if p <= s then 0
    else if s == "" then -1
    else
      var x := IndexOf(s[1..], p);
      assert forall j :: 0 < j <= |s| ==> s[j..] == s[1..][j - 1..];
      assert forall j :: 0 < j <= |s| ==> (At(s, j, p) <==> At(s[1..], j - 1, p));
      if x < 0 then -1 else x + 1
  }

  /** A character the lexer's double-quoted string rule counts as indentation. */
  predicate Blank(c: char) {
    c == ' ' || c == '\t'
  }

  /** `s` without the blanks at its end. */
  function TrimBlanks(s: string): (r: string)
    ensures r <= s
    ensures r == "" || !Blank(r[|r| - 1])
    ensures forall i :: |r| <= i < |s| ==> Blank(s[i])
  {
    if s != "" && Blank(s[|s| - 1]) then TrimBlanks(s[..|s| - 1]) else s
  }

  /** strings.Split on a one-character separator. */
  function Split(s: string, sep: char): (parts: seq<string>)
    ensures parts != []
  {
    if s == "" then [""]
    else
      var rest := Split(s[1..], sep);
      if s[0] == sep then [""] + rest else [[s[0]] + rest[0]] + rest[1..]
  }

  /** strings.Join. */
  function Join(parts: seq<string>, sep: string): string {
    if parts == [] then ""
    else if |parts| == 1 then parts[0]
    else parts[0] + sep + Join(parts[1..], sep)
  }

  lemma JoinFront(c: char, parts: seq<string>, sep: string)
    requires parts != []
    ensures Join([[c] + parts[0]] + parts[1..], sep) == [c] + Join(parts, sep)
  {
    if |parts| > 1 {
      assert ([[c] + parts[0]] + parts[1..])[1..] == parts[1..];
      assert ([c] + parts[0]) + sep + Join(parts[1..], sep) == [c] + (parts[0] + sep + Join(parts[1..], sep));
    }
  }

  lemma {:induction false} JoinSplit(s: string, sep: char)
    ensures Join(Split(s, sep), [sep]) == s
  {
    if s != "" {
      JoinSplit(s[1..], sep);
      var rest := Split(s[1..], sep);
      var parts := Split(s, sep);
      if s[0] == sep {
        assert parts[1..] == rest;
        assert Join(parts, [sep]) == "" + [sep] + s[1..];
      } else {
        JoinFront(s[0], rest, [sep]);
      }
    }
  }

  lemma {:induction false} SplitParts(s: string, sep: char)
    ensures forall i :: 0 <= i < |Split(s, sep)| ==>
              sep !in Split(s, sep)[i] && forall c :: c in Split(s, sep)[i] ==> c in s
  {
    if s != "" {
      SplitParts(s[1..], sep);
      var rest := Split(s[1..], sep);
      var parts := Split(s, sep);
      forall i | 0 <= i < |parts|
        ensures sep !in parts[i] && forall c :: c in parts[i] ==> c in s
      {
        var whole := if s[0] == sep then i - 1 else i;
        if whole >= 0 {
          assert forall c :: c in rest[whole] ==> c in s[1..];
          assert parts[i] == rest[whole] || parts[i] == [s[0]] + rest[whole];
        }
      }
    }
  }

  lemma {:induction false} SplitJoin(parts: seq<string>, sep: char)
    requires parts != [] && forall p :: p in parts ==> sep !in p
    ensures Split(Join(parts, [sep]), sep) == parts
    decreases |parts|, |parts[0]|
  {
    var p, s := parts[0], Join(parts, [sep]);
    if p == "" {
      if |parts| > 1 {
        assert s[1..] == Join(parts[1..], [sep]);
        SplitJoin(parts[1..], sep);
        assert parts == [""] + parts[1..];
      } else {
        assert parts == [""];
      }
    } else {
      var shorter := [p[1..]] + parts[1..];
      assert p[0] in p && p == [p[0]] + p[1..];
      assert shorter[1..] == parts[1..];
      assert s[1..] == Join(shorter, [sep]);
      forall q | q in shorter
        ensures sep !in q
      {
        if q == p[1..] { assert forall c :: c in q ==> c in p; }
      }
      SplitJoin(shorter, sep);
      assert parts == [[p[0]] + shorter[0]] + shorter[1..];
    }
  }

  /** `n` spaces. */
  function Spaces(n: nat): (s: string)
    ensures |s| == n && forall c :: c in s ==> c == ' '
  {
    seq(n, _ => ' ')
  }

  predicate AllBlank(s: string) {
    forall i :: 0 <= i < |s| ==> Blank(s[i])
  }

  /** What is left of `x` after its last line feed. */
  function LastLine(x: string): string {
    if '\n' !in x then x else LastLine(x[1..])
  }

  lemma {:induction false} LineOnly(x: string)
    ensures '\n' !in LastLine(x)
  {
    if '\n' in x { LineOnly(x[1..]); }
  }

  /** The last line of a longer text. */
  lemma {:induction false} LastLineConcat(a: string, b: string)
    ensures LastLine(a + b) == if '\n' in b then LastLine(b) else LastLine(a) + b
  {
    if a == "" {
      assert a + b == b;
    } else {
      assert (a + b)[1..] == a[1..] + b;
      LastLineConcat(a[1..], b);
      assert a == [a[0]] + a[1..];
    }
  }

  lemma {:induction false} NewlinesIn(s: string)
    ensures Newlines(s) > 0 <==> '\n' in s
  {
    if s != "" {
      assert s == [s[0]] + s[1..];
      NewlinesIn(s[1..]);
    }
  }

  lemma JoinOne(a: string, sep: string)
    ensures Join([a], sep) == a
  {
  }

  lemma JoinHead(parts: seq<string>)
    requires |parts| > 1
    ensures Join(parts, "\n") == parts[0] + "\n" + Join(parts[1..], "\n")
  {
  }

  /** `lines` without the blanks before their line breaks. */
  function TrimmedLines(lines: seq<string>): (r: seq<string>)
    requires lines != []
    ensures r != []
  {
    if |lines| == 1 then lines else [TrimBlanks(lines[0])] + TrimmedLines(lines[1..])
  }

  lemma TrimmedJoin(lines: seq<string>)
    requires |lines| > 1
    ensures Join(TrimmedLines(lines), "\n")
         == TrimBlanks(lines[0]) + "\n" + Join(TrimmedLines(lines[1..]), "\n")
  {
    hide TrimBlanks, Join;
    JoinHead(TrimmedLines(lines));
    assert TrimmedLines(lines)[1..] == TrimmedLines(lines[1..]);
  }

  /** The trimming before a line feed stays within the last line. */
  lemma {:induction false} TrimLine(text: string, l: string)
    requires text == "" || text[|text| - 1] == '\n'
    ensures TrimBlanks(text + l) == text + TrimBlanks(l)
    decreases |l|
  {
    var s := text + l;
    if l == "" {
      assert s == text && text + TrimBlanks(l) == text;
    } else {
      assert s[|s| - 1] == l[|l| - 1];
      assert s[..|s| - 1] == text + l[..|l| - 1];
      TrimLine(text, l[..|l| - 1]);
    }
  }

  lemma Associate(a: string, b: string, c: string)
    ensures a + b + c == a + (b + c)
  {
  }

  predicate NoLineFeed(s: string) {
    forall i :: 0 <= i < |s| ==> s[i] != '\n'
  }
}
