/**
 The value section 6.1.3 of RFC 7950 gives a double-quoted string, and exactly
 which strings the lexer reads by that rule.
 */
module StringRule {
  import opened Text
  import opened Lexing
  import opened Bodies

  // ---------------------------------------------------------------- the rule

  /**
   `line` without its leading white space up to `n` columns. A tab is taken as
   eight spaces; those past the limit stay.
   */
  function Stripped(line: string, n: nat): string
    decreases |line|
  {
    if line == "" || n == 0 || !Blank(line[0]) then line
    else if line[0] == ' ' then Stripped(line[1..], n - 1)
    else if n >= 8 then Stripped(line[1..], n - 8)
    else Spaces(8 - n) + line[1..]
  }

  /** The line ends in the first half of a CRLF. */
  predicate EndsInReturn(line: string) {
    line != "" && line[|line| - 1] == '\r'
  }

  /** A line before its break, LF or CRLF, without the white space at its end. */
  function Ended(line: string): string {
    if EndsInReturn(line) then TrimBlanks(line[..|line| - 1]) + "\r" else TrimBlanks(line)
  }

  /** Line `i`: white space goes before the escapes are replaced, and the first line has no indentation. */
  function RuleLine(lines: seq<string>, indent: nat, i: nat): string
    requires i < |lines|
  {
    var s := if i == 0 then lines[0] else Stripped(lines[i], indent);
    Subst(if i < |lines| - 1 then Ended(s) else s)
  }

  /** The string the rule gives to the lines between two quotes, the first after column `indent`. */
  function RuleValue(lines: seq<string>, indent: nat): string {
    Join(RuleLines(lines, indent), "\n")
  }

  function RuleLines(lines: seq<string>, indent: nat): (r: seq<string>)
    ensures |r| == |lines|
  {
    seq(|lines|, i requires 0 <= i < |lines| => RuleLine(lines, indent, i))
  }

  // ---------------------------------------------------------------- when the lexer keeps it

  /** How many blanks `l` starts with. */
  function Leading(l: string): (n: nat)
    ensures n <= |l|
    ensures AllBlank(l[..n])
    ensures n < |l| ==> !Blank(l[n])
  {
    if l != "" && Blank(l[0]) then
      var n := Leading(l[1..]);
      assert l[..n + 1] == [l[0]] + l[1..][..n];
      n + 1
    else 0
  }

  /** The blanks of `b` that the lexer leaves in front of line `i`. */
  function LexerLead(b: string, i: nat, indent: nat): string {
    if i == 0 then b else Deindent(b, 0, indent)
  }

  /** Those that the rule leaves. */
  function RuleLead(b: string, i: nat, indent: nat): string {
    if i == 0 then b else Stripped(b, indent)
  }

  /** Nothing but escaped tabs. */
  predicate OnlyTabs(m: string) {
    AllBlank(Subst(m))
  }

  /**
   `rule` has as many blanks more than `lead` as `t` has, and from there on it
   repeats itself at that distance through `w`, the last of it being `t`.
   */
  predicate MakesUp(lead: string, rule: string, w: string, t: string) {
    && lead <= rule && |rule| == |lead| + |t|
    && var v := rule[|lead|..] + w;
       v[|w|..] == t && forall j :: 0 <= j < |w| ==> v[j] == v[j + |t|]
  }

  /** Then the blanks `t` at the end make up for those missing in front of `w`. */
  lemma MakesUpIsExact(lead: string, rule: string, w: string, t: string)
    ensures lead + w + t == rule + w <==> MakesUp(lead, rule, w, t)
  {
    var x, y := lead + w + t, rule + w;
    assert lead <= x && |x| == |lead| + |w| + |t| && rule <= y && |y| == |rule| + |w|;
    if lead <= rule && |rule| == |lead| + |t| {
      var v := rule[|lead|..] + w;
      assert y == lead + v;
      Associate(lead, w, t);
      SameHead(lead, w + t, v);
      Shifted(v, w, t);
    }
  }

  lemma Shifted(v: string, w: string, t: string)
    requires |v| == |w| + |t| && v[|t|..] == w
    ensures w + t == v <==> v[|w|..] == t && forall j :: 0 <= j < |w| ==> v[j] == v[j + |t|]
  {
    assert forall j :: |t| <= j < |v| ==> v[j] == v[|t|..][j - |t|] == w[j - |t|];
    if v[|w|..] == t && forall j :: 0 <= j < |w| ==> v[j] == v[j + |t|] {
      assert v[..|w|] == w && v == v[..|w|] + v[|w|..];
    }
  }

  function Tabs(n: nat): string {
    seq(n, _ => '\t')
  }

  /** For `n` tabs: up to `n` more tabs in front, then `t` without as many tabs at its end. */
  lemma TabsMakeUp(lead: string, rule: string, n: nat, t: string)
    ensures var k := if n <= |t| then n else |t|;
            MakesUp(lead, rule, Tabs(n), t) <==>
              lead + Tabs(k) <= rule && |rule| == |lead| + |t| && t == rule[|lead| + k..] + Tabs(k)
  {
    var k := if n <= |t| then n else |t|;
    if lead <= rule && |rule| == |lead| + |t| {
      var u := rule[|lead|..];
      assert lead + Tabs(k) <= rule <==> u[..k] == Tabs(k) by { PrefixAfter(lead, Tabs(k), rule); }
      TabsRepeat(u, n, t);
      assert rule[|lead| + k..] == u[k..];
    }
  }

  lemma PrefixAfter(a: string, b: string, c: string)
    requires a <= c
    ensures a + b <= c <==> b <= c[|a|..]
  {
    if b <= c[|a|..] {
      assert c == a + c[|a|..];
    }
    if a + b <= c {
      assert c[|a|..][..|b|] == c[..|a + b|][|a|..] == b;
    }
  }

  lemma TabsRepeat(u: string, n: nat, t: string)
    requires |u| == |t|
    ensures var v, k := u + Tabs(n), if n <= |t| then n else |t|;
            (v[n..] == t && forall j :: 0 <= j < n ==> v[j] == v[j + |t|])
              <==> (u[..k] == Tabs(k) && t == u[k..] + Tabs(k))
  {
    var v, k := u + Tabs(n), if n <= |t| then n else |t|;
    assert v[n..] == u[k..] + Tabs(k);
    assert forall j :: |t| <= j < n + |t| ==> v[j] == '\t';
    assert forall j :: 0 <= j < k ==> v[j] == u[j] == u[..k][j];
    assert forall j :: k <= j < n ==> v[j] == '\t';
    if forall j :: 0 <= j < n ==> v[j] == v[j + |t|] {
      forall j | 0 <= j < k
        ensures u[..k][j] == Tabs(k)[j]
      {
        assert v[j] == v[j + |t|];
      }
      assert u[..k] == Tabs(k);
    }
  }

  /**
   Line `i` is read by the rule, when the lexer strips up to `indent` columns
   and the rule up to `width`. The two have to leave the same in front of it;
   before a LF the line must not end in an escaped tab, and before a CRLF
   there must be no blanks. An empty line may have any blanks, before a CRLF
   as many as the lexer strips; before a CRLF, a line of nothing but escaped
   tabs can also make up in front for the blanks at its end.
   */
  predicate KeepsLine(lines: seq<string>, i: nat, indent: nat, width: nat)
    requires i < |lines|
  {
    var n := Leading(lines[i]);
    var b, k := lines[i][..n], lines[i][n..];
    var lead, rule := LexerLead(b, i, indent), RuleLead(b, i, width);
    if i == |lines| - 1 then lead == rule
    else if !EndsInReturn(k) then k == "" || (lead == rule && !EndsInTab(TrimBlanks(k)))
    else
      var m := TrimBlanks(k[..|k| - 1]);
      var t := k[|m|..|k| - 1];
      if m == "" then lead == ""
      else (lead == rule && t == "") || (OnlyTabs(m) && MakesUp(lead, rule, Subst(m), t))
  }

  predicate KeepsLines(lines: seq<string>, indent: nat, width: nat) {
    forall i :: 0 <= i < |lines| ==> KeepsLine(lines, i, indent, width)
  }

  // ---------------------------------------------------------------- trimming and replacing

  /** Blanks or carriage returns. */
  predicate Tail(b: string) {
    forall i :: 0 <= i < |b| ==> Blank(b[i]) || b[i] == '\r'
  }

  /** White space at the end stays as it is, also after a backslash. */
  lemma {:induction false} SubstTail(k: string, b: string)
    requires Cut(k) && Tail(b)
    ensures Subst(k + b) == Subst(k) + b
    decreases |k|
  {
    hide Unescape;
    var s := k + b;
    if k == "" {
      assert s == b;
      TailAlone(b);
    } else if k == "\\" {
      LoneBackslash(b);
    } else {
      var n := if k[0] == '\\' then 2 else 1;
      var head := if k[0] == '\\' then Unescape(k[1]) else [k[0]];
      assert s[0] == k[0] && (n == 2 ==> s[1] == k[1]) && s[n..] == k[n..] + b;
      SubstTail(k[n..], b);
      assert Subst(k) == head + Subst(k[n..]) && Subst(s) == head + Subst(s[n..]);
      Associate(head, Subst(k[n..]), b);
    }
  }

  lemma {:induction false} TailAlone(b: string)
    requires Tail(b)
    ensures Subst(b) == b
    decreases |b|
  {
    if b != "" { TailAlone(b[1..]); }
  }

  lemma LoneBackslash(b: string)
    requires Tail(b)
    ensures Subst("\\" + b) == Subst("\\") + b
  {
    var s := "\\" + b;
    assert "\\"[1..] == "" && Subst("\\") == "\\";
    if b != "" {
      assert s[1] == b[0] && s[2..] == b[1..];
      TailAlone(b[1..]);
    }
  }

  lemma {:induction false} CutFront(a: string, b: string)
    requires WellEscaped(a + b)
    ensures Cut(a)
    decreases |a|
  {
    if a != "" {
      var s := a + b;
      if a[0] != '\\' {
        assert s[1..] == a[1..] + b;
        CutFront(a[1..], b);
      } else if |a| > 1 {
        assert s[2..] == a[2..] + b;
        CutFront(a[2..], b);
      }
    }
  }

  lemma {:induction false} TrimConcat(a: string, b: string)
    requires AllBlank(b)
    ensures TrimBlanks(a + b) == TrimBlanks(a)
    decreases |b|
  {
    if b == "" {
      assert a + b == a;
    } else {
      var s := a + b;
      assert s[|s| - 1] == b[|b| - 1] && s[..|s| - 1] == a + b[..|b| - 1];
      TrimConcat(a, b[..|b| - 1]);
    }
  }

  /** What ends the replaced text, by what ends the text written. */
  lemma {:induction false} LastOfSubst(k: string)
    requires Cut(k) && k != "" && !Blank(k[|k| - 1])
    ensures Subst(k) != "" && (Blank(Subst(k)[|Subst(k)| - 1]) <==> EndsInTab(k))
    decreases |k|
  {
    var n := if k[0] == '\\' && |k| > 1 then 2 else 1;
    var head := if n == 2 then Unescape(k[1]) else [k[0]];
    var rest := k[n..];
    assert Subst(k) == head + Subst(rest);
    if rest == "" {
      EmptyLine(0);
      assert Subst(k) == head;
    } else {
      assert rest[|rest| - 1] == k[|k| - 1];
      LastOfSubst(rest);
    }
  }

  /** Trimming and replacing commute on a line exactly unless it ends in an escaped tab. */
  lemma TrimThenSubst(d: string)
    requires WellEscaped(d)
    ensures var late, early := TrimBlanks(Subst(d)), Subst(TrimBlanks(d));
            && late <= early
            && (late == early <==> !EndsInTab(TrimBlanks(d)))
  {
    hide Subst, EndsInTab, WellEscaped, Cut;
    var k := TrimBlanks(d);
    var b := d[|k|..];
    assert d == k + b && AllBlank(b);
    CutFront(k, b);
    SubstTail(k, b);
    TrimConcat(Subst(k), b);
    if k == "" {
      EmptyLine(0);
    } else {
      LastOfSubst(k);
    }
  }

  /** Blanks in front of a text stay if something other than a blank follows. */
  lemma {:induction false} TrimLead(b: string, s: string)
    requires AllBlank(b)
    ensures TrimBlanks(b + s) == if AllBlank(s) then "" else b + TrimBlanks(s)
    decreases |s|
  {
    hide TrimBlanks;
    if AllBlank(s) {
      TrimConcat("", b + s);
      assert "" + (b + s) == b + s;
      TrimStep("");
    } else {
      var w, n := b + s, |s| - 1;
      assert w[|w| - 1] == s[n] && w[..|w| - 1] == b + s[..n];
      TrimStep(w);
      TrimStep(s);
      if Blank(s[n]) {
        assert s == s[..n] + [s[n]];
        TrimLead(b, s[..n]);
      }
    }
  }

  lemma TrimStep(s: string)
    ensures TrimBlanks(s) == if s != "" && Blank(s[|s| - 1]) then TrimBlanks(s[..|s| - 1]) else s
  {
  }

  /** Blanks in front stay as they are. */
  lemma {:induction false} SubstLead(b: string, k: string)
    requires AllBlank(b)
    ensures Subst(b + k) == b + Subst(k)
    decreases |b|
  {
    if b == "" {
      assert b + k == k;
    } else {
      assert (b + k)[1..] == b[1..] + k;
      SubstLead(b[1..], k);
      assert [b[0]] + (b[1..] + Subst(k)) == b + Subst(k);
    }
  }

  // ---------------------------------------------------------------- lines that differ

  /** The lines `x` and `y`, each with a line feed, differ within the shorter one. */
  ghost predicate Part(x: string, y: string) {
    exists j :: PartAt(x, y, j)
  }

  predicate PartAt(x: string, y: string, j: int) {
    0 <= j <= |x| && j <= |y| && (x + "\n")[j] != (y + "\n")[j]
  }

  /** The first character that is no blank. */
  lemma FirstSolid(s: string) returns (f: nat)
    requires !AllBlank(s)
    ensures f < |s| && !Blank(s[f]) && AllBlank(s[..f])
  {
    f := Leading(s);
    assert s[..|s|] == s;
  }

  /** Two texts that start with blanks and go on with the same character. */
  lemma LeadsPart(a: string, b: string, s: string, x: string, y: string)
    requires AllBlank(a) && AllBlank(b) && a != b && !AllBlank(s)
    requires a + s <= x && b + s <= y
    ensures Part(x, y)
  {
    var f := FirstSolid(s);
    if |a| == |b| {
      var j :| 0 <= j < |a| && a[j] != b[j];
      assert x[j] == a[j] && y[j] == b[j];
      assert PartAt(x, y, j);
    } else {
      var j := (if |a| < |b| then |a| else |b|) + f;
      Charted(a, s, x, j);
      Charted(b, s, y, j);
      assert PartAt(x, y, j);
    }
  }

  lemma Charted(a: string, s: string, x: string, j: nat)
    requires a + s <= x && j < |a + s|
    ensures j < |x| && x[j] == if j < |a| then a[j] else s[j - |a|]
  {
    assert x[j] == (a + s)[j];
  }

  lemma PartedDiffer(x: string, y: string)
    requires Part(x, y)
    ensures x != y
  {
    var j :| PartAt(x, y, j);
  }

  /** Before a LF: `s` is the line without its blanks, with the escapes replaced. */
  lemma BeforeFeed(a: string, b: string, s: string)
    requires AllBlank(a) && AllBlank(b) && s != ""
    ensures var x, y := TrimBlanks(a + s), b + s;
            (x == y <==> a == b && TrimBlanks(s) == s) && (x != y ==> Part(x, y))
  {
    hide *;
    TrimLead(a, s);
    if AllBlank(s) {
      FeedBlank(b, s);
    } else {
      var t := TrimBlanks(s);
      var q := s[|t|..];
      assert s == t + q;
      TrimKeeps(s);
      FeedSolid(a, b, t, q);
      assert q == "" <==> t == s;
    }
  }

  lemma FeedBlank(b: string, s: string)
    requires AllBlank(b) && AllBlank(s) && s != ""
    ensures "" != b + s && Part("", b + s) && TrimBlanks(s) != s
  {
    var y := b + s;
    Charted(b, s, y, 0);
    EmptyPart(y);
  }

  lemma EmptyPart(y: string)
    requires y != "" && Blank(y[0])
    ensures Part("", y)
  {
    assert PartAt("", y, 0);
  }

  lemma FeedSolid(a: string, b: string, t: string, q: string)
    requires AllBlank(a) && AllBlank(b) && !AllBlank(t) && AllBlank(q)
    ensures var x, y := a + t, b + (t + q);
            (x == y <==> a == b && q == "") && (x != y ==> Part(x, y))
  {
    hide Part;
    var x, y := a + t, b + (t + q);
    assert b + t <= y by { assert y == b + t + q; }
    if a != b {
      LeadsPart(a, b, t, x, y);
      PartedDiffer(x, y);
    } else if q != "" {
      EndPart(x, y, q);
    } else {
      assert t + q == t;
    }
  }

  lemma EndPart(x: string, y: string, q: string)
    requires y == x + q && q != "" && AllBlank(q)
    ensures Part(x, y)
  {
    assert y[|x|] == q[0];
    assert PartAt(x, y, |x|);
  }

  lemma TrimKeeps(s: string)
    ensures !AllBlank(s) ==> !AllBlank(TrimBlanks(s))
    ensures AllBlank(s[|TrimBlanks(s)|..])
  {
    var t := TrimBlanks(s);
    assert forall i :: 0 <= i < |t| ==> t[i] == s[i];
  }

  /** Before a CRLF: `t` are the blanks at the end, which the lexer keeps. */
  lemma BeforeReturn(a: string, b: string, s: string, t: string)
    requires AllBlank(a) && AllBlank(b) && AllBlank(t)
    ensures var x, y := a + s + t + "\r", b + s + "\r";
            (x == y <==> (a == b && t == "") || (AllBlank(s) && a + s + t == b + s)) && (x != y ==> Part(x, y))
  {
    var x, y := a + s + t + "\r", b + s + "\r";
    if AllBlank(s) {
      BlanksPart(a + s + t, b + s);
    } else if a != b {
      assert a + s <= x && b + s <= y;
      LeadsPart(a, b, s, x, y);
      PartedDiffer(x, y);
    } else if t != "" {
      var j := |a| + |s|;
      assert x[j] == t[0] && y[j] == '\r';
      assert PartAt(x, y, j);
    } else {
      assert s + t == s;
    }
  }

  lemma BlanksPart(u: string, v: string)
    requires AllBlank(u) && AllBlank(v)
    ensures var x, y := u + "\r", v + "\r"; (x == y <==> u == v) && (x != y ==> Part(x, y))
  {
    var x, y := u + "\r", v + "\r";
    if u != v {
      if |u| == |v| {
        var j :| 0 <= j < |u| && u[j] != v[j];
        assert PartAt(x, y, j);
      } else {
        var j := if |u| < |v| then |u| else |v|;
        assert PartAt(x, y, j);
      }
      assert x[..|u|] == u && y[..|v|] == v;
    }
  }

  /** Lines that are equal or part make equal texts only if all are equal. */
  lemma {:induction false} JoinsDiffer(a: seq<string>, b: seq<string>)
    requires |a| == |b| && forall i :: 0 <= i < |a| - 1 ==> a[i] == b[i] || Part(a[i], b[i])
    ensures Join(a, "\n") == Join(b, "\n") <==> a == b
    decreases |a|
  {
    if |a| == 1 {
      assert a == [a[0]] && b == [b[0]];
    } else if |a| > 1 {
      hide Part;
      JoinHead(a);
      JoinHead(b);
      JoinsDiffer(a[1..], b[1..]);
      assert a == [a[0]] + a[1..] && b == [b[0]] + b[1..];
      var p, q := Join(a[1..], "\n"), Join(b[1..], "\n");
      if a[0] == b[0] {
        SameHead(a[0] + "\n", p, q);
      } else {
        PartDiffer(a[0], b[0], p, q);
      }
    }
  }

  lemma SameHead(h: string, p: string, q: string)
    ensures h + p == h + q <==> p == q
  {
    if h + p == h + q { assert (h + p)[|h|..] == p && (h + q)[|h|..] == q; }
  }

  lemma PartDiffer(x: string, y: string, p: string, q: string)
    requires Part(x, y)
    ensures x + "\n" + p != y + "\n" + q
  {
    var j :| PartAt(x, y, j);
    assert (x + "\n" + p)[j] == (x + "\n")[j] && (y + "\n" + q)[j] == (y + "\n")[j];
  }

  // ---------------------------------------------------------------- line by line

  /** What the lexer reads of line `i`. */
  function LexerLine(lines: seq<string>, indent: nat, i: nat): string
    requires i < |lines|
  {
    var d := if i == 0 then lines[0] else Deindent(lines[i], 0, indent);
    if i < |lines| - 1 then TrimBlanks(Subst(d)) else Subst(d)
  }

  function LexerLines(lines: seq<string>, indent: nat): (r: seq<string>)
    ensures |r| == |lines|
  {
    seq(|lines|, i requires 0 <= i < |lines| => LexerLine(lines, indent, i))
  }

  lemma {:induction false} TrimmedAt(lines: seq<string>, i: nat)
    requires i < |lines|
    ensures |TrimmedLines(lines)| == |lines|
    ensures TrimmedLines(lines)[i] == if i < |lines| - 1 then TrimBlanks(lines[i]) else lines[i]
  {
    hide TrimBlanks;
    if |lines| > 1 {
      TrimmedAt(lines[1..], if i == 0 then 0 else i - 1);
    }
  }

  lemma LexerTextIsLines(lines: seq<string>, indent: nat)
    requires lines != []
    ensures LexerText(lines, indent) == Join(LexerLines(lines, indent), "\n")
  {
    hide Subst, TrimBlanks, Deindent, Join, TrimmedLines;
    var a, b := TrimmedLines(SubstAll(Shown(lines, indent))), LexerLines(lines, indent);
    TrimmedAt(SubstAll(Shown(lines, indent)), 0);
    forall i | 0 <= i < |lines|
      ensures a[i] == b[i]
    {
      TrimmedAt(SubstAll(Shown(lines, indent)), i);
      if i > 0 { assert lines[1..][i - 1] == lines[i]; }
    }
    assert a == b;
  }

  /** The lexer takes blanks only. */
  lemma {:induction false} DeindentLead(b: string, k: string, t: nat, indent: nat)
    requires AllBlank(b) && (k != "" ==> !Blank(k[0]))
    ensures Deindent(b + k, t, indent) == Deindent(b, t, indent) + k && AllBlank(Deindent(b, t, indent))
    decreases |b|
  {
    if b == "" {
      assert b + k == k;
    } else {
      assert (b + k)[1..] == b[1..] + k;
      DeindentLead(b[1..], k, Advance(t, b[0]), indent);
    }
  }

  /** And so does the rule. */
  lemma {:induction false} StrippedLead(b: string, k: string, n: nat)
    requires AllBlank(b) && (k != "" ==> !Blank(k[0]))
    ensures Stripped(b + k, n) == Stripped(b, n) + k && AllBlank(Stripped(b, n))
    decreases |b|
  {
    if b == "" {
      assert b + k == k;
    } else {
      var s := b + k;
      assert s[1..] == b[1..] + k;
      if n > 0 && b[0] == ' ' {
        StrippedLead(b[1..], k, n - 1);
      } else if n >= 8 {
        StrippedLead(b[1..], k, n - 8);
      } else if n > 0 {
        assert Spaces(8 - n) + (b[1..] + k) == Spaces(8 - n) + b[1..] + k;
      }
    }
  }

  /** Line `i` is `b + k`; the two leave `lead` and `rule` of its blanks. */
  lemma LineParts(lines: seq<string>, i: nat, indent: nat, width: nat)
    requires i < |lines| && WellEscaped(lines[i])
    ensures var n := Leading(lines[i]);
            var b, k := lines[i][..n], lines[i][n..];
            var lead, rule := LexerLead(b, i, indent), RuleLead(b, i, width);
            && AllBlank(lead) && AllBlank(rule) && WellEscaped(k) && (k != "" ==> !Blank(k[0]))
            && LexerLine(lines, indent, i) == (if i < |lines| - 1 then TrimBlanks(Subst(lead + k)) else Subst(lead + k))
            && RuleLine(lines, width, i) == Subst(if i < |lines| - 1 then Ended(rule + k) else rule + k)
  {
    hide Subst, TrimBlanks, Ended, WellEscaped, Deindent, Stripped;
    var n := Leading(lines[i]);
    var b, k := lines[i][..n], lines[i][n..];
    assert lines[i] == b + k;
    DeindentLead(b, k, 0, indent);
    StrippedLead(b, k, width);
    AfterBlanks(b, k);
  }

  lemma {:induction false} AfterBlanks(b: string, k: string)
    requires AllBlank(b) && WellEscaped(b + k)
    ensures WellEscaped(k)
    decreases |b|
  {
    if b == "" {
      assert b + k == k;
    } else {
      assert (b + k)[1..] == b[1..] + k;
      AfterBlanks(b[1..], k);
    }
  }

  /** The last line: what is left in front decides. */
  lemma LastLineDecides(lead: string, rule: string, k: string)
    requires AllBlank(lead) && AllBlank(rule)
    ensures Subst(lead + k) == Subst(rule + k) <==> lead == rule
  {
    hide Subst;
    SubstLead(lead, k);
    SubstLead(rule, k);
    var s := Subst(k);
    if lead + s == rule + s {
      assert |lead| == |rule|;
      assert (lead + s)[..|lead|] == lead && (rule + s)[..|rule|] == rule;
    }
  }

  /** A line before a LF. */
  lemma FeedLineDecides(lead: string, rule: string, k: string)
    requires AllBlank(lead) && AllBlank(rule) && WellEscaped(k)
    requires (k != "" ==> !Blank(k[0])) && !EndsInReturn(k)
    ensures var x, y := TrimBlanks(Subst(lead + k)), Subst(Ended(rule + k));
            && (x == y <==> k == "" || (lead == rule && !EndsInTab(TrimBlanks(k))))
            && (x != y ==> Part(x, y))
  {
    hide Subst, TrimBlanks, WellEscaped, EndsInTab, Part, Cut;
    SubstLead(lead, k);
    FeedEnded(rule, k);
    if k == "" {
      EmptyLine(0);
      TrimLead(lead, "");
    } else {
      assert !AllBlank(k);
      TrimLead(rule, k);
      var m := TrimBlanks(k);
      var t := k[|m|..];
      SubstLead(rule, m);
      assert k == m + t;
      CutFront(m, t);
      TrimKeeps(k);
      SubstTail(m, t);
      TrimThenSubst(k);
      TrimConcat(lead + Subst(m), t);
      TrimConcat(Subst(m), t);
      Associate(lead, Subst(m), t);
      LastOfSubst(m);
      BeforeFeed(lead, rule, Subst(m));
    }
  }

  lemma FeedEnded(rule: string, k: string)
    requires !EndsInReturn(k) && AllBlank(rule)
    ensures Ended(rule + k) == TrimBlanks(rule + k)
  {
    hide TrimBlanks;
    var s := rule + k;
    if k == "" {
      assert s == rule;
    } else {
      assert s[|s| - 1] == k[|k| - 1];
    }
  }

  /** A line before a CRLF: its content is `m` with the blanks `t` at its end. */
  lemma ReturnLineDecides(lead: string, rule: string, k: string, m: string, t: string)
    requires AllBlank(lead) && AllBlank(rule) && WellEscaped(k) && EndsInReturn(k) && !Blank(k[0])
    requires m == TrimBlanks(k[..|k| - 1]) && t == k[|m|..|k| - 1]
    ensures var x, y := TrimBlanks(Subst(lead + k)), Subst(Ended(rule + k));
            && (x == y <==> if m == "" then lead == ""
                            else (lead == rule && t == "") || (OnlyTabs(m) && lead + Subst(m) + t == rule + Subst(m)))
            && (x != y ==> Part(x, y))
  {
    hide Subst, TrimBlanks, WellEscaped, Part, Cut, Ended, OnlyTabs, AllBlank;
    var c := k[..|k| - 1];
    ReturnParts(k, m, t);
    SubstLead(lead, k);
    ReturnRead(lead, k, m, t);
    ReturnEnded(rule, c, k);
    if m == "" {
      EmptyReturn(lead, rule);
    } else {
      FullReturn(lead, rule, k, c, m, t);
    }
  }

  lemma ReturnParts(k: string, m: string, t: string)
    requires EndsInReturn(k) && !Blank(k[0]) && m == TrimBlanks(k[..|k| - 1]) && t == k[|m|..|k| - 1]
    ensures var c := k[..|k| - 1];
            && k == c + "\r" && k == m + t + "\r" && c == m + t && AllBlank(t)
            && (if m == "" then c == t == "" else !AllBlank(c))
  {
    hide TrimBlanks;
    var c := k[..|k| - 1];
    assert c == m + t && k == c + "\r";
    TrimKeeps(c);
    assert c != "" ==> c[0] == k[0];
    if m == "" { assert c == t; }
  }

  lemma EmptyReturn(lead: string, rule: string)
    requires AllBlank(lead) && AllBlank(rule)
    ensures var x, y := lead + Subst("") + "" + "\r", Subst(TrimBlanks(rule + "") + "\r");
            (x == y <==> lead == "") && (x != y ==> Part(x, y))
  {
    hide Subst, TrimBlanks, Part;
    EmptyLine(0);
    TrimLead(rule, "");
    TailAlone("\r");
    assert "" + "\r" == "\r";
    BeforeReturn(lead, "", "", "");
    assert lead + "" + "" + "\r" == lead + "\r" && "" + "" + "\r" == "\r" && lead + "" + "" == lead;
  }

  lemma FullReturn(lead: string, rule: string, k: string, c: string, m: string, t: string)
    requires AllBlank(lead) && AllBlank(rule) && AllBlank(t) && WellEscaped(k) && !AllBlank(c)
    requires k == c + "\r" && c == m + t && m == TrimBlanks(c)
    ensures var x, y := lead + Subst(m) + t + "\r", Subst(TrimBlanks(rule + c) + "\r");
            && (x == y <==> (lead == rule && t == "") || (OnlyTabs(m) && lead + Subst(m) + t == rule + Subst(m)))
            && (x != y ==> Part(x, y))
  {
    hide Subst, TrimBlanks, WellEscaped, Part, Cut;
    TrimLead(rule, c);
    assert rule + m + "\r" == rule + (m + "\r");
    SubstLead(rule, m + "\r");
    assert k == m + (t + "\r");
    CutFront(m, t + "\r");
    SubstTail(m, "\r");
    Associate(rule, Subst(m), "\r");
    BeforeReturn(lead, rule, Subst(m), t);
  }

  lemma ReturnRead(lead: string, k: string, m: string, t: string)
    requires AllBlank(lead) && AllBlank(t) && WellEscaped(k) && k == m + t + "\r"
    ensures TrimBlanks(lead + Subst(k)) == lead + Subst(m) + t + "\r"
  {
    hide Subst, WellEscaped, Cut;
    assert k == m + (t + "\r");
    CutFront(m, t + "\r");
    SubstTail(m, t + "\r");
    var x := lead + Subst(m) + t + "\r";
    assert lead + (Subst(m) + (t + "\r")) == x;
    assert x[|x| - 1] == '\r';
  }

  lemma ReturnEnded(rule: string, c: string, k: string)
    requires k == c + "\r"
    ensures Ended(rule + k) == TrimBlanks(rule + c) + "\r"
  {
    hide TrimBlanks;
    var s := rule + k;
    assert s[|s| - 1] == '\r' && s[..|s| - 1] == rule + c;
  }

  /** On each line the lexer keeps the rule exactly under the condition, and otherwise the texts part there. */
  lemma LineDecides(lines: seq<string>, i: nat, indent: nat, width: nat)
    requires i < |lines| && WellEscaped(lines[i])
    ensures var x, y := LexerLine(lines, indent, i), RuleLine(lines, width, i);
            && (x == y <==> KeepsLine(lines, i, indent, width))
            && (x != y && i < |lines| - 1 ==> Part(x, y))
  {
    hide Subst, TrimBlanks, Ended, WellEscaped, EndsInTab, Part, LexerLead, RuleLead, LexerLine, RuleLine,
         OnlyTabs, MakesUp;
    LineParts(lines, i, indent, width);
    var n := Leading(lines[i]);
    var b, k := lines[i][..n], lines[i][n..];
    var lead, rule := LexerLead(b, i, indent), RuleLead(b, i, width);
    if i == |lines| - 1 {
      LastLineDecides(lead, rule, k);
    } else if !EndsInReturn(k) {
      FeedLineDecides(lead, rule, k);
    } else {
      var m := TrimBlanks(k[..|k| - 1]);
      ReturnLineDecides(lead, rule, k, m, k[|m|..|k| - 1]);
      MakesUpIsExact(lead, rule, Subst(m), k[|m|..|k| - 1]);
    }
  }

  /** The text is the value the rule gives exactly if every line is read by the rule. */
  lemma LinesDecide(lines: seq<string>, indent: nat, width: nat)
    requires lines != [] && LegalLines(lines)
    ensures LexerText(lines, indent) == RuleValue(lines, width) <==> KeepsLines(lines, indent, width)
  {
    hide LexerLine, RuleLine, KeepsLine, Join, Part, LexerText, WellEscaped;
    var a, b := LexerLines(lines, indent), RuleLines(lines, width);
    LexerTextIsLines(lines, indent);
    forall i | 0 <= i < |lines|
      ensures a[i] == b[i] <==> KeepsLine(lines, i, indent, width)
      ensures i < |lines| - 1 ==> a[i] == b[i] || Part(a[i], b[i])
    {
      assert LegalLine(lines[i]);
      LineDecides(lines, i, indent, width);
    }
    JoinsDiffer(a, b);
  }

  /**
   The text between two quotes, read with the column `indent` behind the quote:
   the lexer gives it the value the RFC defines, for a quote that ends at
   column `width`, exactly if it reads every line by the rule.
   */
  lemma ReadsTheRule(body: string, r: string, indent: nat, width: nat)
    requires WellEscaped(body)
    ensures var lines, b := Split(body, '\n'), ReadBody(body + ("\"" + r), indent, indent, true, "", false);
            && b.Closed? && b.rest == r && (b.bad <==> HasBadLine(lines))
            && (b.text == RuleValue(lines, width) <==> KeepsLines(lines, indent, width))
  {
    hide ReadBody, WellEscaped, Split, KeepsLines, RuleValue, LexerText, Join, HasBadLine;
    var lines := Split(body, '\n');
    LegalSplit(body);
    JoinSplit(body, '\n');
    ReadsLines(lines, r, indent);
    LinesDecide(lines, indent, width);
  }
}
