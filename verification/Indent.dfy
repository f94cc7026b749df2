/** The streaming indenter of pkg/indent/indent.go. */
module Indent {
  import opened Text

  // ---------------------------------------------------------------- what indenting means

  /** `s` with `prefix` before the first character of every line; `atStart` says that one is due. */
  function Indented(prefix: string, s: string, atStart: bool): string {
    if s == "" then ""
    else (if atStart then prefix else "") + [s[0]] + Indented(prefix, s[1..], s[0] == '\n')
  }

  /** Whether a line is open after `s`, when `open` says so before it. */
  function OpenAfter(open: bool, s: string): bool {
    if s == "" then open else s[|s| - 1] != '\n'
  }

  lemma {:induction false} IndentedConcat(prefix: string, a: string, b: string, open: bool)
    ensures Indented(prefix, a + b, !open) == Indented(prefix, a, !open) + Indented(prefix, b, !OpenAfter(open, a))
    ensures OpenAfter(open, a + b) == OpenAfter(OpenAfter(open, a), b)
  {
    hide Indented, OpenAfter;
    OpenMore(open, a, b);
    IndentedStep(prefix, a, !open);
    if a == "" {
      assert a + b == b;
    } else {
      IndentedStep(prefix, a + b, !open);
      assert (a + b)[1..] == a[1..] + b;
      IndentedConcat(prefix, a[1..], b, a[0] != '\n');
      OpenMore(open, [a[0]], a[1..]);
      assert [a[0]] + a[1..] == a;
      Regroup(if open then "" else prefix, [a[0]], Indented(prefix, a[1..], a[0] == '\n'),
              Indented(prefix, b, !OpenAfter(open, a)));
    }
  }

  lemma OpenMore(open: bool, a: string, b: string)
    ensures OpenAfter(open, a + b) == OpenAfter(OpenAfter(open, a), b)
    ensures |a| == 1 ==> OpenAfter(open, a) == (a[0] != '\n')
    ensures OpenAfter(open, "") == open
  {
  }

  lemma Regroup(w: string, x: string, y: string, z: string)
    ensures w + (x + (y + z)) == (w + (x + y)) + z
  {
  }

  lemma {:induction false} IndentedEnd(prefix: string, s: string, atStart: bool)
    requires s != ""
    ensures var t := Indented(prefix, s, atStart); t != "" && t[|t| - 1] == s[|s| - 1]
    decreases |s|
  {
    if |s| > 1 {
      IndentedEnd(prefix, s[1..], s[0] == '\n');
      assert s[1..][|s| - 2] == s[|s| - 1];
    }
  }

  // ---------------------------------------------------------------- String and Bytes

  /** strings.SplitAfter on line feeds, without the empty line at the end. */
  function Lines(s: string): (lines: seq<string>)
    ensures lines == [] <==> s == ""
    decreases |s|
  {
    if s == "" then []
    else if s[0] == '\n' then ["\n"] + Lines(s[1..])
    else
      var rest := Lines(s[1..]);
      if rest == [] then [[s[0]]] else [[s[0]] + rest[0]] + rest[1..]
  }

  function Concat(lines: seq<string>): string {
    if lines == [] then "" else lines[0] + Concat(lines[1..])
  }

  /** Every line ends with its only line feed, save that the last one may lack it. */
  predicate AreLines(lines: seq<string>) {
    forall i :: 0 <= i < |lines| ==> IsLine(lines[i]) && (i < |lines| - 1 ==> lines[i][|lines[i]| - 1] == '\n')
  }

  predicate IsLine(l: string) {
    l != "" && forall j :: 0 <= j < |l| - 1 ==> l[j] != '\n'
  }

  lemma {:induction false} LinesConcat(s: string)
    ensures Concat(Lines(s)) == s
    decreases |s|
  {
    if s != "" {
      var rest := Lines(s[1..]);
      LinesConcat(s[1..]);
      if s[0] == '\n' {
        assert Lines(s)[1..] == rest;
      } else if rest != [] {
        assert Lines(s)[1..] == rest[1..];
        assert Concat(Lines(s)) == [s[0]] + Concat(rest);
      } else {
        assert s[1..] == "";
      }
    }
  }

  lemma {:induction false} LinesAre(s: string)
    ensures AreLines(Lines(s))
    decreases |s|
  {
    if s != "" {
      var rest := Lines(s[1..]);
      LinesAre(s[1..]);
      if s[0] == '\n' {
        assert forall i :: 0 < i < |Lines(s)| ==> Lines(s)[i] == rest[i - 1];
      } else if rest != [] {
        assert forall i :: 0 < i < |Lines(s)| ==> Lines(s)[i] == rest[i];
        LongerLine(s[0], rest[0]);
      }
    }
  }

  lemma LongerLine(c: char, l: string)
    requires IsLine(l) && c != '\n'
    ensures IsLine([c] + l) && ([c] + l)[|l|] == l[|l| - 1]
  {
  }

  function String(indent: string, s: string): string {
    if indent == "" || s == "" then s else Join([""] + Lines(s), indent)
  }

  lemma {:induction false} IndentedLine(prefix: string, l: string, rest: string, atStart: bool)
    requires IsLine(l) && (rest == "" || l[|l| - 1] == '\n')
    ensures Indented(prefix, l + rest, atStart)
         == (if atStart then prefix else "") + l + Indented(prefix, rest, l[|l| - 1] == '\n')
    decreases |l|
  {
    assert (l + rest)[0] == l[0] && (l + rest)[1..] == l[1..] + rest;
    if |l| == 1 {
      assert l[1..] + rest == rest;
    } else {
      IndentedLine(prefix, l[1..], rest, false);
      assert [l[0]] + l[1..] == l;
    }
  }

  /** Joining lines with the prefix indents all but the first. */
  lemma {:induction false} JoinIndentsRest(prefix: string, lines: seq<string>)
    requires AreLines(lines) && lines != []
    ensures Join(lines, prefix) == Indented(prefix, Concat(lines), false) && Concat(lines) != ""
    decreases |lines|
  {
    hide AreLines, Indented;
    var l, rest := lines[0], lines[1..];
    FirstLine(lines);
    IndentedLine(prefix, l, Concat(rest), false);
    if |lines| == 1 {
      IndentedStep(prefix, "", l[|l| - 1] == '\n');
    } else {
      JoinIndentsRest(prefix, rest);
      StartIndented(prefix, Concat(rest));
      assert l + prefix + Join(rest, prefix) == l + (prefix + Join(rest, prefix));
    }
  }

  /** A leading empty line starts the first one with a prefix too. */
  lemma JoinIndents(prefix: string, lines: seq<string>)
    requires AreLines(lines) && lines != []
    ensures Join(lines, prefix) == Indented(prefix, Concat(lines), false)
    ensures Join([""] + lines, prefix) == Indented(prefix, Concat(lines), true)
  {
    hide AreLines, Indented, Concat;
    JoinIndentsRest(prefix, lines);
    StartIndented(prefix, Concat(lines));
    assert ([""] + lines)[1..] == lines;
    assert "" + prefix + Join(lines, prefix) == prefix + Join(lines, prefix);
  }

  lemma StartIndented(prefix: string, s: string)
    requires s != ""
    ensures Indented(prefix, s, true) == prefix + Indented(prefix, s, false)
  {
    hide Indented;
    IndentedStep(prefix, s, true);
    IndentedStep(prefix, s, false);
  }

  lemma IndentedStep(p: string, s: string, atStart: bool)
    ensures Indented(p, s, atStart) ==
              if s == "" then "" else (if atStart then p else "") + ([s[0]] + Indented(p, s[1..], s[0] == '\n'))
  {
  }

  lemma FirstLine(lines: seq<string>)
    requires AreLines(lines) && lines != []
    ensures IsLine(lines[0]) && (Concat(lines[1..]) == "" || lines[0][|lines[0]| - 1] == '\n')
    ensures AreLines(lines[1..])
  {
    if |lines| == 1 { assert lines[1..] == []; }
  }

  /** String and Bytes indent every line. */
  lemma StringIndents(indent: string, s: string)
    ensures String(indent, s) == Indented(indent, s, true)
  {
    hide Join, Lines;
    if s != "" {
      if indent == "" {
        NoIndent(s, true);
      } else {
        LinesAre(s);
        LinesConcat(s);
        JoinIndents(indent, Lines(s));
      }
    }
  }

  lemma {:induction false} NoIndent(s: string, atStart: bool)
    ensures Indented("", s, atStart) == s
    decreases |s|
  {
    if s != "" { NoIndent(s[1..], s[0] == '\n'); }
  }

  // ---------------------------------------------------------------- stacks of writers

  /** A writer's prefix and whether its current line already has it. */
  datatype Layer = Layer(prefix: string, partial: bool)

  /** What reaches the bottom when `s` is written to the first of `layers`. */
  function Out(layers: seq<Layer>, s: string): string {
    if layers == [] then s
    else Out(layers[1..], Indented(layers[0].prefix, s, !layers[0].partial))
  }

  /** The layers after that. */
  function After(layers: seq<Layer>, s: string): (r: seq<Layer>)
    ensures |r| == |layers|
  {
    if layers == [] then []
    else
      [layers[0].(partial := OpenAfter(layers[0].partial, s))]
      + After(layers[1..], Indented(layers[0].prefix, s, !layers[0].partial))
  }

  lemma {:induction false} NothingWritten(layers: seq<Layer>)
    ensures Out(layers, "") == "" && After(layers, "") == layers
  {
    if layers != [] { NothingWritten(layers[1..]); }
  }

  /** Writing in two pieces is writing the whole. */
  lemma {:induction false} OutConcat(layers: seq<Layer>, a: string, b: string)
    ensures Out(layers, a + b) == Out(layers, a) + Out(After(layers, a), b)
    ensures After(layers, a + b) == After(After(layers, a), b)
    decreases layers
  {
    hide Indented, OpenAfter;
    if layers != [] {
      var l := layers[0];
      IndentedConcat(l.prefix, a, b, l.partial);
      OutConcat(layers[1..], Indented(l.prefix, a, !l.partial), Indented(l.prefix, b, !OpenAfter(l.partial, a)));
      assert After(layers, a)[1..] == After(layers[1..], Indented(l.prefix, a, !l.partial));
    }
  }

  lemma {:induction false} IndentedPlain(p: string, q: string, s: string)
    requires NoLineFeed(q)
    ensures Indented(p, q + s, false) == q + Indented(p, s, false)
    decreases |q|
  {
    if q == "" {
      assert q + s == s;
    } else {
      assert (q + s)[1..] == q[1..] + s;
      IndentedPlain(p, q[1..], s);
      assert [q[0]] + q[1..] == q;
    }
  }

  lemma IndentedStart(p: string, q: string, s: string)
    requires NoLineFeed(q) && s != ""
    ensures Indented(p, q + s, true) == p + q + Indented(p, s, false)
  {
    if q == "" {
      assert q + s == s;
    } else {
      assert (q + s)[1..] == q[1..] + s;
      IndentedPlain(p, q[1..], s);
      assert [q[0]] + q[1..] == q;
    }
  }

  /** A writer with prefix `q` over one with prefix `p` is a writer with prefix `p + q`. */
  lemma {:induction false} TwoIndents(p: string, q: string, s: string, atStart: bool)
    requires NoLineFeed(q)
    ensures Indented(p, Indented(q, s, atStart), atStart) == Indented(p + q, s, atStart)
    decreases |s|
  {
    hide Indented, NoLineFeed;
    IndentedStep(q, s, atStart);
    IndentedStep(p + q, s, atStart);
    if s == "" {
      IndentedStep(p, "", atStart);
    } else {
      var more := Indented(q, s[1..], s[0] == '\n');
      TwoIndents(p, q, s[1..], s[0] == '\n');
      var rest := [s[0]] + more;
      assert rest[1..] == more;
      IndentedStep(p, rest, false);
      if atStart {
        IndentedStart(p, q, rest);
      } else {
        assert "" + rest == rest;
      }
    }
  }

  /** The prefixes of a stack, from the bottom up. */
  function Prefixes(layers: seq<Layer>): string {
    if layers == [] then "" else Prefixes(layers[1..]) + layers[0].prefix
  }

  /** A stack in step whose prefixes hold no line feed is one writer with all the prefixes. */
  lemma {:induction false} StackIsOneWriter(layers: seq<Layer>, open: bool, s: string)
    requires forall i :: 0 <= i < |layers| ==> layers[i].partial == open
    requires forall i :: 0 <= i < |layers| ==> NoLineFeed(layers[i].prefix)
    ensures Out(layers, s) == Indented(Prefixes(layers), s, !open)
    ensures forall i :: 0 <= i < |layers| ==> After(layers, s)[i] == layers[i].(partial := OpenAfter(open, s))
    decreases |layers|
  {
    hide Indented, NoLineFeed;
    if layers == [] {
      NoIndent(s, !open);
    } else {
      var t := Indented(layers[0].prefix, s, !open);
      StackIsOneWriter(layers[1..], open, t);
      TwoIndents(Prefixes(layers[1..]), layers[0].prefix, s, !open);
      SameEnd(layers[0].prefix, s, open);
    }
  }

  lemma SameEnd(prefix: string, s: string, open: bool)
    ensures OpenAfter(open, Indented(prefix, s, !open)) == OpenAfter(open, s)
  {
    if s != "" { IndentedEnd(prefix, s, !open); }
  }

  // ---------------------------------------------------------------- counting payload

  /** How many bytes of `s` are among the first `k` bytes of its indented form. */
  function Payload(plen: nat, s: string, atStart: bool, k: int): nat
    decreases |s|
  {
    if s == "" then 0
    else
      var cost := (if atStart then plen else 0) + 1;
      if k < cost then 0 else 1 + Payload(plen, s[1..], s[0] == '\n', k - cost)
  }

  lemma {:induction false} PayloadLine(plen: nat, l: string, rest: string, atStart: bool, k: int)
    requires IsLine(l) && (rest == "" || l[|l| - 1] == '\n')
    ensures var room := k - if atStart then plen else 0;
            Payload(plen, l + rest, atStart, k) ==
              if room <= 0 then 0 else if room <= |l| then room else |l| + Payload(plen, rest, true, room - |l|)
    decreases |l|
  {
    var s := l + rest;
    assert s[0] == l[0] && s[1..] == l[1..] + rest;
    var cost := (if atStart then plen else 0) + 1;
    if |l| == 1 {
      assert l[1..] + rest == rest;
      if k == cost { NoPayload(plen, rest, s[0] == '\n'); }
    } else {
      PayloadLine(plen, l[1..], rest, false, k - cost);
    }
  }

  lemma NoPayload(plen: nat, s: string, atStart: bool)
    ensures Payload(plen, s, atStart, 0) == 0
  {
  }

  /** The loop of actualWrittenSize, which charges a prefix for every line. */
  method ActualWrittenSize(underlay: int, prefix: nat, lines: seq<string>) returns (r: nat)
    requires AreLines(lines) || (lines != [] && lines[0] == "" && AreLines(lines[1..]))
    ensures r == Payload(prefix, Concat(lines), true, underlay)
  {
    hide AreLines, Payload;
    var actual := 0;
    var remain := underlay;
    ghost var whole := Payload(prefix, Concat(lines), true, underlay);
    assert lines[0..] == lines;
    for i := 0 to |lines|
      invariant i > 0 ==> AreLines(lines[i..])
      invariant whole == actual + Payload(prefix, Concat(lines[i..]), true, remain)
    {
      var line := lines[i];
      assert lines[i..][0] == line && lines[i..][1..] == lines[i + 1..];
      if |line| == 0 {
        EmptyLine(lines, i);
        continue;
      }
      NonEmptyLine(lines, i);
      FirstLine(lines[i..]);
      PayloadLine(prefix, line, Concat(lines[i + 1..]), true, remain);
      var addition := remain - prefix;
      if addition <= 0 {
        return actual;
      }
      if addition <= |line| {
        return actual + addition;
      }
      actual := actual + |line|;
      remain := remain - (prefix + |line|);
    }
    assert lines[|lines|..] == [];
    NothingLeft(prefix, remain);
    return actual;
  }

  lemma NothingLeft(plen: nat, k: int)
    ensures Payload(plen, "", true, k) == 0
  {
  }

  lemma EmptyLine(lines: seq<string>, i: nat)
    requires i < |lines| && lines[i] == ""
    requires AreLines(lines) || (lines[0] == "" && AreLines(lines[1..]))
    requires i > 0 ==> AreLines(lines[i..])
    ensures i == 0 && AreLines(lines[1..]) && Concat(lines[i..]) == Concat(lines[i + 1..])
  {
    assert lines[i..][0] == lines[i];
    assert lines[i..][1..] == lines[i + 1..];
  }

  lemma NonEmptyLine(lines: seq<string>, i: nat)
    requires i < |lines| && lines[i] != ""
    requires AreLines(lines) || (lines[0] == "" && AreLines(lines[1..]))
    requires i > 0 ==> AreLines(lines[i..])
    ensures AreLines(lines[i..])
  {
    assert lines[0..] == lines;
  }

  // ---------------------------------------------------------------- a line already open

  /** A line of `s` begins right after the first `k` bytes of its indented form. */
  predicate BeforePrefix(prefix: string, s: string, atStart: bool, k: int) {
    exists m :: 0 <= m < |s| && LineStart(s, m, atStart) && k == |Indented(prefix, s[..m], atStart)|
  }

  predicate LineStart(s: string, m: nat, atStart: bool)
    requires m < |s|
  {
    if m == 0 then atStart else s[m - 1] == '\n'
  }

  lemma BeforePrefixStep(prefix: string, s: string, atStart: bool, k: int)
    requires s != ""
    ensures var cost := (if atStart then |prefix| else 0) + 1;
            BeforePrefix(prefix, s, atStart, k) <==>
              (if k < cost then atStart && k == 0 else BeforePrefix(prefix, s[1..], s[0] == '\n', k - cost))
  {
    var cost := (if atStart then |prefix| else 0) + 1;
    var rest, at := s[1..], s[0] == '\n';
    if BeforePrefix(prefix, s, atStart, k) {
      var m :| 0 <= m < |s| && LineStart(s, m, atStart) && k == |Indented(prefix, s[..m], atStart)|;
      if m > 0 {
        assert s[..m][1..] == rest[..m - 1];
        assert LineStart(rest, m - 1, at);
      }
    }
    if k >= cost && BeforePrefix(prefix, rest, at, k - cost) {
      var m :| 0 <= m < |rest| && LineStart(rest, m, at) && k - cost == |Indented(prefix, rest[..m], at)|;
      assert s[..m + 1][1..] == rest[..m];
      assert LineStart(s, m + 1, atStart);
    }
    if k == 0 && atStart {
      assert LineStart(s, 0, atStart) && s[..0] == "";
    }
  }

  /** The payload does not grow over the next `|prefix|` bytes only where a prefix begins. */
  lemma {:induction false} PayloadStands(prefix: string, s: string, atStart: bool, k: nat)
    requires prefix != "" && k + |prefix| <= |Indented(prefix, s, atStart)|
    ensures Payload(|prefix|, s, atStart, k) == Payload(|prefix|, s, atStart, k + |prefix|)
       <==> BeforePrefix(prefix, s, atStart, k)
    decreases |s|
  {
    hide BeforePrefix;
    if s != "" {
      var cost := (if atStart then |prefix| else 0) + 1;
      BeforePrefixStep(prefix, s, atStart, k);
      if k >= cost {
        PayloadStands(prefix, s[1..], s[0] == '\n', k - cost);
      }
    }
  }

  /** An open line shifts the payload by the prefix it does not need. */
  lemma OpenLineShifts(prefix: string, s: string, k: int)
    requires s != ""
    ensures Payload(|prefix|, s, false, k) == Payload(|prefix|, s, true, k + |prefix|)
    ensures |Indented(prefix, s, true)| == |Indented(prefix, s, false)| + |prefix|
  {
  }

  /**
   On a line already open the count is right exactly when the failed write
   stopped at the end of a prefix, or wrote nothing.
   */
  lemma CountOnOpenLine(prefix: string, s: string, k: nat)
    requires prefix != "" && s != "" && k <= |Indented(prefix, s, false)|
    ensures Payload(|prefix|, s, true, k) == Payload(|prefix|, s, false, k)
       <==> BeforePrefix(prefix, s, true, k)
  {
    hide Indented, Payload, BeforePrefix;
    OpenLineShifts(prefix, s, k);
    PayloadStands(prefix, s, true, k);
  }

  // ---------------------------------------------------------------- the writers

  /** The writer at the bottom: it takes `room` more bytes and may report errors even so. */
  class Sink {
    var data: string
    var room: nat
    const fails: bool

    constructor (room: nat, fails: bool)
      ensures data == "" && this.room == room && this.fails == fails
    {
      data := "";
      this.room := room;
      this.fails := fails;
    }

    method Write(buf: string) returns (n: nat, err: bool)
      modifies this
      ensures n <= |buf| && data == old(data) + buf[..n]
      ensures err <==> n < |buf| || fails
    {
      n := if |buf| <= room then |buf| else room;
      data := data + buf[..n];
      room := room - n;
      err := n < |buf| || fails;
    }
  }

  /**
   The count a stack returns for `s` when `k` bytes reached the bottom: each
   writer takes the count of the one below for bytes of its own lines, and
   charges a prefix for every one of them, begun before or not.
   */
  function StackCount(layers: seq<Layer>, s: string, k: nat): int {
    if layers == [] then k
    else
      var l := layers[0];
      Payload(|l.prefix|, s, true, StackCount(layers[1..], Indented(l.prefix, s, !l.partial), k))
  }

  /** Within a line every byte counts. */
  lemma {:induction false} PayloadInside(plen: nat, q: string, s: string, k: int)
    requires NoLineFeed(q)
    ensures Payload(plen, q + s, false, k) ==
              if k <= |q| then (if k <= 0 then 0 else k) else |q| + Payload(plen, s, false, k - |q|)
    decreases |q|
  {
    var t := q + s;
    if q == "" {
      assert t == s;
      if k <= 0 { NoPayload(plen, s, false); }
    } else {
      assert t[0] == q[0] && t[1..] == q[1..] + s;
      PayloadInside(plen, q[1..], s, k - 1);
    }
  }

  /** Counting the payload of the payload is counting once with both prefixes. */
  lemma {:induction false} PayloadTwice(p: nat, q: string, s: string, atStart: bool, k: int)
    requires NoLineFeed(q)
    ensures Payload(|q|, s, atStart, Payload(p, Indented(q, s, atStart), atStart, k))
         == Payload(p + |q|, s, atStart, k)
    decreases |s|
  {
    hide Indented, NoLineFeed;
    IndentedStep(q, s, atStart);
    if s != "" {
      var more := Indented(q, s[1..], s[0] == '\n');
      var rest := [s[0]] + more;
      assert rest[1..] == more;
      if atStart {
        PayloadStart(p, q, rest, k);
        PayloadTwice(p, q, s[1..], s[0] == '\n', k - p - |q| - 1);
      } else {
        assert "" + rest == rest;
        PayloadTwice(p, q, s[1..], s[0] == '\n', k - 1);
      }
    }
  }

  /** The first byte after a prefix that holds no line feed. */
  lemma PayloadStart(p: nat, q: string, rest: string, k: int)
    requires NoLineFeed(q) && rest != ""
    ensures var n, more := Payload(p, q + rest, true, k), Payload(p, rest[1..], rest[0] == '\n', k - p - |q| - 1);
            if k < p + |q| + 1 then n <= |q| else n == |q| + 1 + more
  {
    if q == "" {
      assert q + rest == rest;
    } else {
      var t := q + rest;
      assert t[0] == q[0] && t[1..] == q[1..] + rest;
      PayloadInside(p, q[1..], rest, k - p - 1);
    }
  }

  lemma {:induction false} PayloadPlain(s: string, atStart: bool, k: nat)
    requires k <= |s|
    ensures Payload(0, s, atStart, k) == k
    decreases |s|
  {
    if k > 0 { PayloadPlain(s[1..], s[0] == '\n', k - 1); }
    else if s != "" { NoPayload(0, s, atStart); }
  }

  /** On fresh lines a stack counts like one writer with all the prefixes. */
  lemma {:induction false} StackCountsPayload(layers: seq<Layer>, s: string, k: nat)
    requires forall i :: 0 <= i < |layers| ==> !layers[i].partial && NoLineFeed(layers[i].prefix)
    requires k <= |Out(layers, s)|
    ensures StackCount(layers, s, k) == Payload(|Prefixes(layers)|, s, true, k)
    decreases |layers|
  {
    hide Indented, NoLineFeed, Payload;
    if layers == [] {
      PayloadPlain(s, true, k);
    } else {
      var q := layers[0].prefix;
      StackCountsPayload(layers[1..], Indented(q, s, true), k);
      PayloadTwice(|Prefixes(layers[1..])|, q, s, true, k);
    }
  }

  /**
   A single writer that goes on with an open line returns the right count
   exactly when the bytes written end where a prefix makes no difference.
   */
  lemma OpenWriterCount(prefix: string, s: string, k: nat)
    requires prefix != "" && s != ""
    requires k <= |Out([Layer(prefix, true)], s)|
    ensures StackCount([Layer(prefix, true)], s, k) == Payload(|prefix|, s, false, k)
       <==> BeforePrefix(prefix, s, true, k)
  {
    hide Indented, Payload, BeforePrefix;
    var layers := [Layer(prefix, true)];
    assert layers[1..] == [];
    CountOnOpenLine(prefix, s, k);
  }

  // ---------------------------------------------------------------- stacks with an open line

  lemma {:induction false} PayloadGrows(plen: nat, s: string, atStart: bool, j: int, k: int)
    requires j <= k
    ensures Payload(plen, s, atStart, j) <= Payload(plen, s, atStart, k) <= |s|
    decreases |s|
  {
    if s != "" {
      var cost := (if atStart then plen else 0) + 1;
      PayloadGrows(plen, s[1..], s[0] == '\n', j - cost, k - cost);
    }
  }

  /** Among more bytes than a prefix has there is payload. */
  lemma {:induction false} PayloadMoves(prefix: string, s: string, atStart: bool, j: nat, k: nat)
    requires j + |prefix| < k <= |Indented(prefix, s, atStart)|
    ensures Payload(|prefix|, s, atStart, j) < Payload(|prefix|, s, atStart, k)
    decreases |s|
  {
    if s != "" {
      var cost := (if atStart then |prefix| else 0) + 1;
      if j >= cost { PayloadMoves(prefix, s[1..], s[0] == '\n', j - cost, k - cost); }
    }
  }

  /** The first `m` bytes are the payload of their indented form. */
  lemma {:induction false} PayloadOf(prefix: string, s: string, m: nat, atStart: bool)
    requires m < |s|
    ensures Payload(|prefix|, s, atStart, |Indented(prefix, s[..m], atStart)|) == m
    decreases |s|
  {
    if m == 0 {
      NoPayload(|prefix|, s, atStart);
    } else {
      assert s[..m][1..] == s[1..][..m - 1];
      PayloadOf(prefix, s[1..], m - 1, s[0] == '\n');
    }
  }

  /** Where a prefix begins, the payload so far ends in a line feed. */
  lemma FeedBefore(prefix: string, s: string, k: nat)
    requires BeforePrefix(prefix, s, true, k) && k > 0
    ensures var g := Payload(|prefix|, s, true, k); 0 < g < |s| && s[g - 1] == '\n'
  {
    hide Payload;
    var m :| 0 <= m < |s| && LineStart(s, m, true) && k == |Indented(prefix, s[..m], true)|;
    PayloadOf(prefix, s, m, true);
  }

  /** But one prefix into the indented form there is the end of a prefix. */
  lemma NoFeedThere(prefix: string, s: string, g: nat)
    requires prefix != "" && NoLineFeed(prefix) && BeforePrefix(prefix, s, true, g) && 0 < g
    ensures g <= |Indented(prefix, s, false)| && Indented(prefix, s, false)[g - 1] != '\n'
  {
    var m :| 0 <= m < |s| && LineStart(s, m, true) && g == |Indented(prefix, s[..m], true)|;
    var a, b := s[..m], s[m..];
    assert s == a + b && b != "" && a != "" && a[m - 1] == s[m - 1];
    IndentedConcat(prefix, a, b, false);
    OpenEnd(a, s[m - 1]);
    var w := Indented(prefix, s, true);
    assert w == Indented(prefix, a, true) + (prefix + [b[0]] + Indented(prefix, b[1..], b[0] == '\n'));
    assert w == prefix + Indented(prefix, s, false);
    assert w[g + |prefix| - 1] == prefix[|prefix| - 1];
    assert w[g + |prefix| - 1] == Indented(prefix, s, false)[g - 1];
  }

  lemma OpenEnd(a: string, c: char)
    requires a != "" && a[|a| - 1] == c
    ensures OpenAfter(false, a) == (c != '\n')
  {
  }

  /** The count of the first writer falls behind when that of the one below does, or ends in a line feed. */
  lemma OneBehind(prefix: string, s: string, c: nat, g: nat)
    requires prefix != "" && NoLineFeed(prefix) && s != ""
    requires c <= g && 0 < g <= |Indented(prefix, s, false)|
    requires c == g ==> Indented(prefix, s, false)[g - 1] == '\n'
    ensures Payload(|prefix|, s, true, c) < Payload(|prefix|, s, false, g)
  {
    hide Payload, Indented, NoLineFeed, BeforePrefix;
    OpenLineShifts(prefix, s, g);
    if c < g {
      PayloadMoves(prefix, s, true, c, g + |prefix|);
    } else {
      CountOnOpenLine(prefix, s, g);
      PayloadGrows(|prefix|, s, true, g, g + |prefix|);
      if BeforePrefix(prefix, s, true, g) { NoFeedThere(prefix, s, g); }
    }
  }

  /** One writer never counts too much, and counts right only before a prefix. */
  lemma OneOpen(prefix: string, s: string, k: nat)
    requires prefix != "" && s != "" && 0 < k <= |Indented(prefix, s, false)|
    ensures var c, g := Payload(|prefix|, s, true, k), Payload(|prefix|, s, false, k);
            c <= g && 0 < g <= |s| && (c == g ==> s[g - 1] == '\n')
  {
    hide Indented, BeforePrefix;
    CountOnOpenLine(prefix, s, k);
    OpenLineShifts(prefix, s, k);
    PayloadGrows(|prefix|, s, true, k, k + |prefix|);
    if BeforePrefix(prefix, s, true, k) { FeedBefore(prefix, s, k); }
  }

  lemma LastLayer(layers: seq<Layer>, s: string, k: nat)
    requires |layers| == 1 && layers[0].partial
    ensures var l := layers[0];
            && Out(layers, s) == Indented(l.prefix, s, false) && Prefixes(layers) == l.prefix
            && StackCount(layers, s, k) == Payload(|l.prefix|, s, true, k)
  {
    hide Indented, Payload;
    assert layers[1..] == [] && "" + layers[0].prefix == layers[0].prefix;
    NoLayers(Indented(layers[0].prefix, s, false));
  }

  /**
   In a stack of two writers or more with an open line, the count is too small
   as soon as a byte got through.
   */
  lemma {:induction false} OpenStackCount(layers: seq<Layer>, s: string, k: nat)
    requires |layers| >= 2 && s != "" && 0 < k <= |Out(layers, s)|
    requires forall i :: 0 <= i < |layers| ==>
               layers[i].partial && layers[i].prefix != "" && NoLineFeed(layers[i].prefix)
    ensures StackCount(layers, s, k) < Payload(|Prefixes(layers)|, s, false, k)
    decreases |layers|
  {
    hide Indented, NoLineFeed, Payload;
    var q, rest := layers[0].prefix, layers[1..];
    var t := Indented(q, s, false);
    assert t != "" by { IndentedStep(q, s, false); }
    PayloadTwice(|Prefixes(rest)|, q, s, false, k);
    var c, g := StackCount(rest, t, k), Payload(|Prefixes(rest)|, t, false, k);
    PayloadGrows(|Prefixes(rest)|, t, false, k, k);
    assert Out(layers, s) == Out(rest, t);
    if |rest| == 1 {
      LastLayer(rest, t, k);
      OneOpen(rest[0].prefix, t, k);
    } else {
      OpenStackCount(rest, t, k);
    }
    OneBehind(q, s, c, g);
  }

  class IndentWriter {
    const prefix: string
    const sink: Sink
    const inner: IndentWriter?    // the writer below, or null for the sink itself
    ghost const height: nat
    var partial: bool             // true if the next line's indent is already written

    constructor OnSink(w: Sink, indent: string)
      requires indent != ""
      ensures Valid() && sink == w && prefix == indent && inner == null
      ensures Layers() == [Layer(indent, false)] && fresh(this)
    {
      prefix, sink, inner, height, partial := indent, w, null, 0, false;
    }

    constructor OnWriter(w: IndentWriter, indent: string)
      requires w.Valid() && indent != ""
      ensures Valid() && sink == w.sink && prefix == indent && inner == w
      ensures Layers() == [Layer(indent, false)] + w.Layers() && fresh(this)
    {
      prefix, sink, inner, height, partial := indent, w.sink, w, w.height + 1, false;
    }

    ghost predicate Valid()
      decreases height
    {
      && prefix != ""
      && (inner != null ==> inner.height < height && inner.sink == sink && inner.Valid())
    }

    ghost function Writers(): (ws: set<object>)
      requires Valid()
      ensures this in ws
      decreases height
    {
      {this} + if inner == null then {} else inner.Writers()
    }

    ghost function Layers(): (layers: seq<Layer>)
      requires Valid()
      reads Writers()
      ensures layers != []
      decreases height
    {
      [Layer(prefix, partial)] + if inner == null then [] else inner.Layers()
    }

    /**
     Prefixes the lines of `buf`. Without an error the bottom receives what the
     stack makes of `buf`; with one, the count returned is that of the stack
     for the bytes that did reach the bottom.
     */
    method Write(buf: string) returns (n: int, err: bool)
      requires Valid() && forall o :: o in Writers() ==> allocated(o)
      modifies Writers(), sink
      ensures Valid()
      ensures old(sink.data) <= sink.data <= old(sink.data) + old(Out(Layers(), buf))
      ensures Layers() == old(After(Layers(), buf))
      ensures !err ==> n == |buf| && sink.data == old(sink.data) + old(Out(Layers(), buf))
      ensures err ==> n == StackCount(old(Layers()), buf, |sink.data| - |old(sink.data)|)
      decreases height
    {
      hide Indented, Payload, AreLines, Concat, OpenAfter, Out, After, StackCount;
      ghost var layers := Layers();
      ghost var below := layers[1..];
      if |buf| == 0 {
        NothingWritten(layers);
        return 0, false;
      }
      FirstLayer(layers, buf);
      if inner != null {
        BelowWriter(inner);
        assert this !in inner.Writers();
        assert below == inner.Layers();
      }
      var lines, joined := Prefixed(buf);
      if inner == null {
        NoLayers(joined);
        n, err := sink.Write(joined);
      } else {
        assert below == inner.Layers();
        n, err := inner.Write(joined);
      }
      if err {
        n := ActualWrittenSize(n, |prefix|, lines);
        return n, err;
      }
      return |buf|, false;
    }

    /** The lines of `buf` with their prefixes; the writer remembers whether the last one is open. */
    method Prefixed(buf: string) returns (lines: seq<string>, joined: string)
      requires buf != ""
      modifies `partial
      ensures joined == Indented(prefix, buf, !old(partial)) && Concat(lines) == buf
      ensures AreLines(lines) || (lines != [] && lines[0] == "" && AreLines(lines[1..]))
      ensures partial == OpenAfter(old(partial), buf)
    {
      hide Indented, Join, Lines, AreLines, Concat;
      lines := Lines(buf);
      LinesAre(buf);
      LinesConcat(buf);
      JoinIndents(prefix, lines);
      EmptyFirst(lines);
      if !partial {
        lines := [""] + lines;
      }
      joined := Join(lines, prefix);
      IndentedEnd(prefix, buf, !partial);
      partial := joined[|joined| - 1] != '\n';
    }
  }

  lemma NoLayers(s: string)
    ensures Out([], s) == s && After([], s) == [] && forall k: nat :: StackCount([], s, k) == k
  {
  }

  lemma FirstLayer(layers: seq<Layer>, s: string)
    requires layers != []
    ensures var l := layers[0];
            var joined := Indented(l.prefix, s, !l.partial);
            && Out(layers, s) == Out(layers[1..], joined)
            && After(layers, s) == [l.(partial := OpenAfter(l.partial, s))] + After(layers[1..], joined)
            && forall k: nat :: StackCount(layers, s, k) ==
                                Payload(|l.prefix|, s, true, StackCount(layers[1..], joined, k))
  {
    hide Indented, Payload, OpenAfter;
  }

  lemma EmptyFirst(lines: seq<string>)
    ensures Concat([""] + lines) == Concat(lines) && ([""] + lines)[1..] == lines
  {
  }

  lemma {:induction false} BelowWriter(w: IndentWriter)
    requires w.Valid()
    ensures forall o: IndentWriter :: o in w.Writers() ==> o.height <= w.height
    ensures w.sink !in w.Writers()
    decreases w.height
  {
    if w.inner != null { BelowWriter(w.inner); }
  }

  /** Any sequence of writes that succeed brings to the bottom what one write of it all would. */
  method WriteChunks(w: IndentWriter, chunks: seq<string>) returns (ok: bool)
    requires w.Valid() && forall o :: o in w.Writers() ==> allocated(o)
    modifies w.Writers(), w.sink
    ensures ok ==> w.sink.data == old(w.sink.data) + old(Out(w.Layers(), Concat(chunks)))
  {
    hide Out, After, Concat;
    ghost var layers, data := w.Layers(), w.sink.data;
    NothingWritten(layers);
    NoChunks(chunks);
    assert data + "" == data;
    for i := 0 to |chunks|
      invariant w.sink.data == data + Out(layers, Concat(chunks[..i]))
      invariant w.Layers() == After(layers, Concat(chunks[..i]))
    {
      ConcatNext(chunks, i);
      OutConcat(layers, Concat(chunks[..i]), chunks[i]);
      var _, err := w.Write(chunks[i]);
      if err {
        return false;
      }
      Associate(data, Out(layers, Concat(chunks[..i])), Out(After(layers, Concat(chunks[..i])), chunks[i]));
    }
    assert chunks[..|chunks|] == chunks;
    return true;
  }

  lemma NoChunks(chunks: seq<string>)
    ensures Concat(chunks[..0]) == ""
  {
  }

  lemma {:induction false} ConcatNext(chunks: seq<string>, i: nat)
    requires i < |chunks|
    ensures Concat(chunks[..i + 1]) == Concat(chunks[..i]) + chunks[i]
    decreases i
  {
    if i == 0 {
      assert chunks[..1] == [chunks[0]] && [chunks[0]][1..] == [];
    } else {
      ConcatNext(chunks[1..], i - 1);
      assert chunks[..i + 1][1..] == chunks[1..][..i] && chunks[..i][1..] == chunks[1..][..i - 1];
    }
  }

  /** On a fresh writer that is String of the whole text, however it was split. */
  lemma ChunkedIsString(prefix: string, chunks: seq<string>)
    ensures Out([Layer(prefix, false)], Concat(chunks)) == String(prefix, Concat(chunks))
  {
    StringIndents(prefix, Concat(chunks));
  }
}
