/** sh.c: the lexer, the recursive-descent parser with its cursor, and the NUL termination of words in place. */
module Shell {
  import opened ShellGrammar

  // ---------------------------------------------------------------- tokens of a line

  predicate IsWs(c: char) { c == ' ' || c == '\t' || c == '\r' || c == '\n' || c == '\U{000B}' }

  predicate IsSym(c: char) { c == '<' || c == '|' || c == '>' || c == '&' || c == ';' || c == '(' || c == ')' }

  predicate InWord(c: char) { !IsWs(c) && !IsSym(c) }

  /** The first place from i on that is not whitespace. */
  function Skip(s: string, i: nat): (j: nat)
    requires i <= |s|
    ensures i <= j <= |s| && (j < |s| ==> !IsWs(s[j]))
    decreases |s| - i
  {
    if i < |s| && IsWs(s[i]) then Skip(s, i + 1) else i
  }

  /** The end of the word that has a character at i. */
  function WordEnd(s: string, i: nat): (j: nat)
    requires i <= |s|
    ensures i <= j <= |s|
    decreases |s| - i
  {
    if i < |s| && InWord(s[i]) then WordEnd(s, i + 1) else i
  }

  lemma {:induction false} WordEnds(s: string, i: nat)
    requires i <= |s|
    ensures WordEnd(s, i) < |s| ==> !InWord(s[WordEnd(s, i)])
    ensures forall k :: i <= k < WordEnd(s, i) ==> InWord(s[k])
    decreases |s| - i
  {
    if i < |s| && InWord(s[i]) { WordEnds(s, i + 1); }
  }

  /** The end of the token at i. */
  function TokEnd(s: string, i: nat): (j: nat)
    requires i < |s| && !IsWs(s[i])
    ensures i < j <= |s|
  {
    if s[i] == '>' && i + 1 < |s| && s[i + 1] == '>' then i + 2
    else if IsSym(s[i]) then i + 1
    else WordEnd(s, i)
  }

  function TokAt(s: string, i: nat): Tok
    requires i < |s| && !IsWs(s[i])
  {
    if s[i] == '>' && i + 1 < |s| && s[i + 1] == '>' then Append
    else if IsSym(s[i]) then Sym(s[i])
    else Word(s[i..WordEnd(s, i)])
  }

  /** The tokens of the line from i on. */
  function Toks(s: string, i: nat): seq<Tok>
    requires i <= |s|
    decreases |s| - i
  {
    var j := Skip(s, i);
    if j == |s| then [] else [TokAt(s, j)] + Toks(s, TokEnd(s, j))
  }

  lemma SkipTwice(s: string, i: nat)
    requires i <= |s|
    ensures Skip(s, Skip(s, i)) == Skip(s, i) && Toks(s, Skip(s, i)) == Toks(s, i)
  {
  }

  // ---------------------------------------------------------------- printing

  function Spelled(t: Tok): string {
    match t
    case Sym(c) => [c]
    case Append => ">>"
    case Word(w) => w
  }

  const WHITESPACE: string := " \t\r\n\U{000B}"
  const SYMBOLS: string := "<|>&;()"

  /** A word without whitespace, symbols and NUL. */
  predicate GoodWord(w: string) {
    w != [] && forall k :: 0 <= k < |w| ==> w[k] !in WHITESPACE && w[k] !in SYMBOLS && w[k] != '\0'
  }

  predicate GoodTok(t: Tok) {
    match t
    case Sym(c) => c in SYMBOLS
    case Append => true
    case Word(w) => GoodWord(w)
  }

  /** Two tokens that would be read as something else without whitespace between them. */
  predicate Touching(a: Tok, b: Tok) { (a.Word? && b.Word?) || (a == Sym('>') && (b == Sym('>') || b == Append)) }

  /** The tokens with these gaps before, between and after them. */
  function Spaced(ts: seq<Tok>, gaps: seq<string>): string
    requires |gaps| == |ts| + 1
  {
    gaps[0] + if ts == [] then [] else Spelled(ts[0]) + Spaced(ts[1..], gaps[1..])
  }

  predicate IsGap(g: string) { forall k :: 0 <= k < |g| ==> g[k] in WHITESPACE }

  /** Gaps are of whitespace, and there is some between touching tokens. */
  predicate Gaps(ts: seq<Tok>, gaps: seq<string>) {
    && |gaps| == |ts| + 1 && (forall k :: 0 <= k < |gaps| ==> IsGap(gaps[k]))
    && forall k :: 0 < k < |ts| && Touching(ts[k - 1], ts[k]) ==> gaps[k] != []
  }

  // ---------------------------------------------------------------- the lexer

  lemma CharClasses(c: char)
    ensures IsWs(c) <==> c in WHITESPACE
    ensures IsSym(c) <==> c in SYMBOLS
  {
  }

  lemma {:induction false} SkipGap(s: string, i: nat, j: nat)
    requires i <= j <= |s| && IsGap(s[i..j]) && (j < |s| ==> s[j] !in WHITESPACE)
    ensures Skip(s, i) == j
    decreases j - i
  {
    if i < j {
      CharClasses(s[i]);
      assert s[i] == s[i..j][0] && s[i + 1..j] == s[i..j][1..];
      SkipGap(s, i + 1, j);
    } else if i < |s| {
      CharClasses(s[i]);
    }
  }

  /** The first character that is not part of a word ends it. */
  lemma {:induction false} WordEndIs(s: string, i: nat, e: nat)
    requires i <= e <= |s| && (e < |s| ==> !InWord(s[e])) && forall k :: i <= k < e ==> InWord(s[k])
    ensures WordEnd(s, i) == e
    decreases e - i
  {
    if i < e { WordEndIs(s, i + 1, e); }
  }

  /** What follows a token does not belong to it. */
  predicate Apart(t: Tok, rest: string) {
    rest == [] || ((t.Word? ==> !InWord(rest[0])) && (t == Sym('>') ==> rest[0] != '>'))
  }

  lemma LexOne(s: string, i: nat, t: Tok, e: nat)
    requires GoodTok(t) && e == i + |Spelled(t)| <= |s| && s[i..e] == Spelled(t) && Apart(t, s[e..])
    ensures i < |s| && !IsWs(s[i]) && TokAt(s, i) == t && TokEnd(s, i) == e
  {
    assert forall k :: 0 <= k < |Spelled(t)| ==> s[i + k] == Spelled(t)[k];
    if t.Word? {
      forall k | i <= k < e ensures InWord(s[k]) {
        assert s[k] == t.text[k - i];
        CharClasses(s[k]);
      }
      if e < |s| { assert s[e..][0] == s[e]; }
      WordEndIs(s, i, e);
      CharClasses(s[i]);
    } else if e < |s| {
      assert s[e..][0] == s[e];
    }
  }

  /** After a token comes whitespace, the next token or nothing. */
  lemma NextToken(t: Tok, ts: seq<Tok>, gaps: seq<string>)
    requires |gaps| == |ts| + 1 && IsGap(gaps[0]) && GoodTok(t) && AllGood(ts)
    requires ts != [] && Touching(t, ts[0]) ==> gaps[0] != []
    ensures Apart(t, Spaced(ts, gaps))
  {
    var rest := Spaced(ts, gaps);
    if gaps[0] != [] {
      assert rest[0] == gaps[0][0];
      CharClasses(rest[0]);
    } else if ts != [] {
      assert GoodTok(ts[0]) && rest[0] == Spelled(ts[0])[0];
      CharClasses(rest[0]);
    }
  }

  lemma SpacedPieces(s: string, i: nat, g: string, x: string, rest: string)
    requires i <= |s| && s[i..] == g + (x + rest)
    ensures i + |g| + |x| <= |s| && s[i..i + |g|] == g && s[i + |g|..i + |g| + |x|] == x && s[i + |g| + |x|..] == rest
  {
    var u := s[i..];
    assert u[..|g|] == g && u[|g|..|g| + |x|] == x && u[|g| + |x|..] == rest;
    assert s[i..i + |g|] == u[..|g|] && s[i + |g|..i + |g| + |x|] == u[|g|..|g| + |x|];
  }

  lemma GapsMore(ts: seq<Tok>, gaps: seq<string>)
    requires Gaps(ts, gaps) && ts != []
    ensures Gaps(ts[1..], gaps[1..]) && IsGap(gaps[0])
    ensures |ts| > 1 && Touching(ts[0], ts[1..][0]) ==> gaps[1..][0] != []
  {
    var us, hs := ts[1..], gaps[1..];
    forall k | 0 < k < |us| && Touching(us[k - 1], us[k]) ensures hs[k] != [] {
      assert us[k - 1] == ts[k] && us[k] == ts[k + 1];
    }
  }

  /** The first token of such a line, from j up to e. */
  lemma {:induction false} LexFirst(s: string, i: nat, j: nat, e: nat, g: string, t: Tok, x: string, rest: string)
    requires i <= |s| && IsGap(g) && GoodTok(t) && x == Spelled(t) && Apart(t, rest) && s[i..] == g + (x + rest)
    requires j == i + |g| && e == j + |x|
    ensures e <= |s| && s[e..] == rest && Toks(s, i) == [t] + Toks(s, e)
  {
    SpacedPieces(s, i, g, x, rest);
    LexStep(s, i, j, e, t);
  }

  /** The lexer reads tokens back from any line in which they are spelled with such gaps. */
  lemma {:induction false} LexSpaced(s: string, i: nat, ts: seq<Tok>, gaps: seq<string>)
    requires i <= |s| && Gaps(ts, gaps) && AllGood(ts) && s[i..] == Spaced(ts, gaps)
    ensures Toks(s, i) == ts
    decreases |ts|
  {
    if ts == [] {
      assert s[i..] == gaps[0] == s[i..|s|];
      SkipGap(s, i, |s|);
    } else {
      var us, hs, j := ts[1..], gaps[1..], i + |gaps[0]|;
      var e := j + |Spelled(ts[0])|;
      GapsMore(ts, gaps);
      NextToken(ts[0], us, hs);
      LexFirst(s, i, j, e, gaps[0], ts[0], Spelled(ts[0]), Spaced(us, hs));
      LexSpaced(s, e, us, hs);
      Chain(Toks(s, i), Toks(s, e), ts);
    }
  }

  lemma LexStep(s: string, i: nat, j: nat, e: nat, t: Tok)
    requires i <= j <= e == j + |Spelled(t)| <= |s| && IsGap(s[i..j]) && GoodTok(t) && s[j..e] == Spelled(t)
    requires Apart(t, s[e..])
    ensures Toks(s, i) == [t] + Toks(s, e)
  {
    LexOne(s, j, t, e);
    CharClasses(s[j]);
    SkipGap(s, i, j);
  }

  lemma Chain(a: seq<Tok>, b: seq<Tok>, ts: seq<Tok>)
    requires ts != [] && a == [ts[0]] + b && b == ts[1..]
    ensures a == ts
  {
  }

  /** A token of a line is good, and spelled as it stands. */
  lemma TokenGood(s: string, i: nat)
    requires i < |s| && !IsWs(s[i]) && '\0' !in s
    ensures GoodTok(TokAt(s, i)) && s[i..TokEnd(s, i)] == Spelled(TokAt(s, i)) && Apart(TokAt(s, i), s[TokEnd(s, i)..])
  {
    var e := TokEnd(s, i);
    if TokAt(s, i).Word? {
      WordEnds(s, i);
      forall k | i <= k < e ensures s[k] !in WHITESPACE && s[k] !in SYMBOLS && s[k] != '\0' {
        assert s[k] in s;
        CharClasses(s[k]);
      }
    } else {
      CharClasses(s[i]);
    }
    if e < |s| { assert s[e..][0] == s[e]; }
  }

  lemma {:induction false} SkippedGap(s: string, i: nat)
    requires i <= |s|
    ensures IsGap(s[i..Skip(s, i)])
    decreases |s| - i
  {
    if i < |s| && IsWs(s[i]) {
      SkippedGap(s, i + 1);
      CharClasses(s[i]);
      assert s[i..Skip(s, i)] == [s[i]] + s[i + 1..Skip(s, i)];
    }
  }

  /** A line spells its tokens. */
  lemma {:induction false} LineSpaced(s: string, i: nat) returns (gaps: seq<string>)
    requires i <= |s| && '\0' !in s
    ensures Gaps(Toks(s, i), gaps) && AllGood(Toks(s, i)) && s[i..] == Spaced(Toks(s, i), gaps)
    decreases |s| - i
  {
    var j := Skip(s, i);
    SkippedGap(s, i);
    if j == |s| {
      gaps := [s[i..]];
    } else {
      var t, e := TokAt(s, j), TokEnd(s, j);
      TokenGood(s, j);
      var hs := LineSpaced(s, e);
      gaps := [s[i..j]] + hs;
      LineStarts(s, i, j, e, t, Toks(s, e), hs, Toks(s, i), gaps);
    }
  }

  lemma LineStarts(s: string, i: nat, j: nat, e: nat, t: Tok, us: seq<Tok>, hs: seq<string>, ts: seq<Tok>,
                   gaps: seq<string>)
    requires i <= j < e <= |s| && IsGap(s[i..j]) && GoodTok(t) && s[j..e] == Spelled(t) && Apart(t, s[e..])
    requires Gaps(us, hs) && AllGood(us) && s[e..] == Spaced(us, hs) && ts == [t] + us && gaps == [s[i..j]] + hs
    ensures Gaps(ts, gaps) && AllGood(ts) && s[i..] == Spaced(ts, gaps)
  {
    if us != [] && Touching(t, us[0]) { GapNeeded(t, us, hs); }
    GapsLonger(t, us, s[i..j], hs);
    assert ts[1..] == us && gaps[1..] == hs;
    assert s[i..] == s[i..j] + (s[j..e] + s[e..]);
  }

  lemma GapNeeded(t: Tok, us: seq<Tok>, hs: seq<string>)
    requires us != [] && |hs| == |us| + 1 && GoodTok(us[0]) && Touching(t, us[0]) && Apart(t, Spaced(us, hs))
    ensures hs[0] != []
  {
    if hs[0] == [] {
      assert Spaced(us, hs)[0] == Spelled(us[0])[0];
      CharClasses(Spelled(us[0])[0]);
    }
  }

  lemma GapsLonger(t: Tok, us: seq<Tok>, g: string, hs: seq<string>)
    requires Gaps(us, hs) && IsGap(g) && (us != [] && Touching(t, us[0]) ==> hs[0] != [])
    ensures Gaps([t] + us, [g] + hs)
  {
    var ts, gaps := [t] + us, [g] + hs;
    forall k | 0 < k < |ts| && Touching(ts[k - 1], ts[k]) ensures gaps[k] != [] {
      if k > 1 { assert us[k - 2] == ts[k - 1] && us[k - 1] == ts[k]; }
    }
  }

  /** A line has exactly the tokens that it spells, whatever the whitespace: so one list of them. */
  lemma LexedExactly(s: string, ts: seq<Tok>)
    requires '\0' !in s
    ensures Toks(s, 0) == ts <==> AllGood(ts) && exists gaps :: Gaps(ts, gaps) && s == Spaced(ts, gaps)
  {
    assert s[0..] == s;
    if Toks(s, 0) == ts {
      var gaps := LineSpaced(s, 0);
    } else if AllGood(ts) && exists gaps :: Gaps(ts, gaps) && s == Spaced(ts, gaps) {
      var gaps :| Gaps(ts, gaps) && s == Spaced(ts, gaps);
      LexSpaced(s, 0, ts, gaps);
      assert false;
    }
  }

  ghost predicate AllGood(ts: seq<Tok>) {
    forall i :: 0 <= i < |ts| ==> GoodTok(ts[i])
  }

  /** Every word of the command is good. */
  predicate GoodWords(c: Cmd<string>) {
    match c
    case Exec(args) => forall i :: 0 <= i < |args| ==> GoodWord(args[i])
    case Redir(d, f, _) => GoodWords(d) && GoodWord(f)
    case Pipe(l, r) => GoodWords(l) && GoodWords(r)
    case List(l, r) => GoodWords(l) && GoodWords(r)
    case Back(d) => GoodWords(d)
  }

  lemma GoodTogether(a: seq<Tok>, t: Tok, b: seq<Tok>)
    requires AllGood(a) && GoodTok(t) && AllGood(b)
    ensures AllGood(a + [t] + b) && AllGood(a + [t]) && AllGood([t] + a)
  {
  }

  lemma {:induction false} PrintedGood(c: Cmd<string>)
    requires GoodWords(c)
    ensures AllGood(PrintExec(c)) && AllGood(PrintPipe(c)) && AllGood(PrintBack(c)) && AllGood(PrintLine(c))
  {
    match c
    case Exec(args) =>
      assert AllGood(Words(args));
      assert PrintPipe(c) == PrintExec(c) && PrintBack(c) == PrintPipe(c) && PrintLine(c) == PrintBack(c);
    case Redir(d, f, out) =>
      PrintedGood(d);
      GoodTogether(PrintExec(d), Sym(if out then '>' else '<'), [Word(f)]);
      assert PrintExec(d) + [Sym(if out then '>' else '<')] + [Word(f)] == PrintExec(c);
      assert PrintPipe(c) == PrintExec(c) && PrintBack(c) == PrintPipe(c) && PrintLine(c) == PrintBack(c);
    case Pipe(l, r) =>
      PrintedGood(l);
      PrintedGood(r);
      GoodTogether(PrintExec(l), Sym('|'), PrintPipe(r));
      InBrackets(PrintPipe(c));
      assert PrintBack(c) == PrintPipe(c) && PrintLine(c) == PrintBack(c);
    case List(l, r) =>
      PrintedGood(l);
      PrintedGood(r);
      GoodTogether(PrintBack(l), Sym(';'), PrintLine(r));
      InBrackets(PrintLine(c));
      assert PrintPipe(c) == PrintExec(c) && PrintBack(c) == PrintPipe(c);
    case Back(d) =>
      PrintedGood(d);
      GoodTogether(PrintBack(d), Sym('&'), []);
      InBrackets(PrintBack(c));
      assert PrintPipe(c) == PrintExec(c) && PrintLine(c) == PrintBack(c);
  }

  lemma InBrackets(ts: seq<Tok>)
    requires AllGood(ts)
    ensures AllGood([Sym('(')] + ts + [Sym(')')])
  {
    GoodTogether(ts, Sym('('), []);
    GoodTogether([Sym('(')] + ts, Sym(')'), []);
  }

  /** For every command of good words, whatever its shape, and whatever whitespace is put between the tokens of its
      printed form: the parser reads it back if and only if each simple command has at most MAXARGS - 1 arguments. */
  lemma {:induction false} RoundTrip(c: Cmd<string>, gaps: seq<string>)
    requires GoodWords(c) && Gaps(PrintLine(c), gaps)
    ensures ParseCmd(Toks(Spaced(PrintLine(c), gaps), 0)) == Ok(c, []) <==> FewArgs(c)
  {
    var s := Spaced(PrintLine(c), gaps);
    PrintedGood(c);
    assert s[0..] == s;
    LexSpaced(s, 0, PrintLine(c), gaps);
    ParsePrinted(c);
  }

  // ---------------------------------------------------------------- words by their place in the line

  datatype Span = Span(q: nat, eq: nat)

  /** The span is a whole word of the line. */
  predicate WordSpan(s: string, x: Span) {
    && x.q < x.eq <= |s| && (forall k :: x.q <= k < x.eq ==> InWord(s[k]))
    && (x.eq < |s| ==> !InWord(s[x.eq]))
  }

  predicate Spanned(s: string, c: Cmd<Span>) {
    match c
    case Exec(args) => forall i :: 0 <= i < |args| ==> WordSpan(s, args[i])
    case Redir(d, f, _) => Spanned(s, d) && WordSpan(s, f)
    case Pipe(l, r) => Spanned(s, l) && Spanned(s, r)
    case List(l, r) => Spanned(s, l) && Spanned(s, r)
    case Back(d) => Spanned(s, d)
  }

  /** The command with its words read from the line. */
  function Read(s: string, c: Cmd<Span>): Cmd<string>
    requires Spanned(s, c)
  {
    match c
    case Exec(args) => Exec(seq<string>(|args|, i requires 0 <= i < |args| => s[args[i].q..args[i].eq]))
    case Redir(d, f, out) => Redir(Read(s, d), s[f.q..f.eq], out)
    case Pipe(l, r) => Pipe(Read(s, l), Read(s, r))
    case List(l, r) => List(Read(s, l), Read(s, r))
    case Back(d) => Back(Read(s, d))
  }

  lemma {:induction false} ReadAddArg(s: string, c: Cmd<Span>, x: Span)
    requires Spanned(s, c) && WordSpan(s, x)
    ensures Spanned(s, AddArg(c, x)) && Read(s, AddArg(c, x)) == AddArg(Read(s, c), s[x.q..x.eq])
    ensures Argc(Read(s, AddArg(c, x))) == Argc(AddArg(c, x))
  {
    match c
    case Redir(d, _, _) => ReadAddArg(s, d, x);
    case Exec(args) =>
      assert Read(s, AddArg(c, x)).args == Read(s, c).args + [s[x.q..x.eq]];
    case _ =>
  }

  /** What a parsing function returns, or the panic it ends in. */
  datatype Parsed = Parsed(cmd: Cmd<Span>) | Panic(e: Error)

  /** The outcome, with the cursor at pos, is what the grammar says. */
  predicate Agrees(s: string, r: Parsed, pos: nat, spec: Res)
    requires pos <= |s|
  {
    match r
    case Parsed(c) => Spanned(s, c) && spec == Ok(Read(s, c), Toks(s, pos))
    case Panic(e) => spec == Err(e)
  }

  // ---------------------------------------------------------------- the parser

  class Parser {
    const s: string
    var pos: nat

    constructor (s: string)
      ensures this.s == s && pos == 0
    {
      this.s := s;
      pos := 0;
    }

    ghost predicate Valid()
      reads this
    {
      pos <= |s| && '\0' !in s
    }

    /** The character at the cursor, NUL at the end of the line. */
    function Here(): char
      reads this
    {
      if pos < |s| then s[pos] else '\0'
    }

    /** The tokens that are left. */
    ghost function Left(): seq<Tok>
      requires pos <= |s|
      reads this
    {
      Toks(s, pos)
    }

    method SkipBlanks()
      requires Valid()
      modifies this`pos
      ensures Valid() && pos == Skip(s, old(pos)) && Left() == old(Left())
    {
      SkipTwice(s, pos);
      while pos < |s| && IsWs(s[pos])
        invariant Valid() && Skip(s, pos) == Skip(s, old(pos))
      {
        pos := pos + 1;
      }
    }

    /** gettoken: the code of the next token, 0 at the end, and for a word where it begins and ends. */
    method GetToken() returns (ret: char, x: Span)
      requires Valid()
      modifies this`pos
      ensures Valid()
      ensures if old(Left()) == [] then ret == '\0' && Left() == []
        else Left() == old(Left())[1..] && match old(Left())[0]
             case Sym(c) => ret == c && IsSym(c)
             case Append => ret == '+'
             case Word(w) => ret == 'a' && WordSpan(s, x) && s[x.q..x.eq] == w && x.q == Skip(s, old(pos))
      ensures pos < |s| ==> s[pos] !in WHITESPACE
    {
      SkipBlanks();
      var q := pos;
      ret := Here();
      if pos == |s| {
        x := Span(q, q);
        return;
      }
      assert s[q] in s;
      if IsSym(ret) {
        pos := pos + 1;
        if ret == '>' && Here() == '>' {
          ret := '+';
          pos := pos + 1;
        }
      } else {
        ret := 'a';
        WordEnds(s, q);
        while pos < |s| && !IsWs(s[pos]) && !IsSym(s[pos])
          invariant Valid() && q <= pos && WordEnd(s, q) == WordEnd(s, pos)
        {
          pos := pos + 1;
        }
      }
      x := Span(q, pos);
      assert Toks(s, q) == [TokAt(s, q)] + Toks(s, pos);
      SkipBlanks();
      if pos < |s| { CharClasses(s[pos]); }
    }

    /** peek: whether the next token starts with one of these symbols. */
    method PeekAt(cs: string) returns (b: bool)
      requires Valid() && forall i :: 0 <= i < |cs| ==> IsSym(cs[i])
      modifies this`pos
      ensures Valid() && Left() == old(Left()) && b == Peek(Left(), cs) && (pos == |s| <==> Left() == [])
    {
      SkipBlanks();
      b := pos < |s| && Here() in cs;
      if pos < |s| { assert Left()[0] == TokAt(s, pos); }
    }

    /** parseredirs */
    method ParseRedirs(c: Cmd<Span>) returns (r: Parsed)
      requires Valid() && Spanned(s, c)
      modifies this`pos
      ensures Valid() && Agrees(s, r, pos, Redirs(Read(s, c), old(Left())))
      ensures r.Parsed? ==> |Left()| <= |old(Left())|
    {
      var d := c;
      while true
        invariant Valid() && Spanned(s, d) && |Left()| <= |old(Left())|
        invariant Redirs(Read(s, d), Left()) == Redirs(Read(s, c), old(Left()))
        decreases |Left()|
      {
        var more := PeekAt("<>");
        if !more {
          return Parsed(d);
        }
        ghost var ts := Left();
        var tok, x := GetToken();
        var kind;
        kind, x := GetToken();
        if kind != 'a' {
          return Panic(MissingFile);
        }
        assert ts[1..][1..] == ts[2..];
        d := Redir(d, x, tok != '<');
      }
    }

    /** parseexec */
    method ParseExecAt() returns (r: Parsed)
      requires Valid()
      modifies this`pos
      ensures Valid() && Agrees(s, r, pos, ParseExec(old(Left())))
      decreases |Left()|, 1
    {
      var block := PeekAt("(");
      if block {
        r := ParseBlockAt();
        return;
      }
      assert Read(s, Exec([])) == Exec([]);
      r := ParseRedirs(Exec([]));
      if r.Panic? {
        return;
      }
      r := ParseArgs(r.cmd);
    }

    /** The loop of parseexec. */
    method ParseArgs(c: Cmd<Span>) returns (r: Parsed)
      requires Valid() && Spanned(s, c)
      modifies this`pos
      ensures Valid() && Agrees(s, r, pos, Args(Read(s, c), old(Left())))
    {
      var d := c;
      while true
        invariant Valid() && Spanned(s, d) && Args(Read(s, d), Left()) == Args(Read(s, c), old(Left()))
        decreases |Left()|
      {
        var stop := PeekAt("|)&;");
        if stop {
          return Parsed(d);
        }
        ghost var ts := Left();
        var tok, x := GetToken();
        if tok == '\0' {
          return Parsed(d);
        }
        if tok != 'a' {
          return Panic(Syntax);
        }
        r := OneArg(d, x, ts);
        if r.Panic? {
          return;
        }
        d := r.cmd;
      }
    }

    /** One more argument, the word x at the head of the tokens ts, and the redirections after it. */
    method OneArg(c: Cmd<Span>, x: Span, ghost ts: seq<Tok>) returns (r: Parsed)
      requires Valid() && Spanned(s, c) && WordSpan(s, x) && ts != [] && ts[0] == Word(s[x.q..x.eq])
      requires Left() == ts[1..]
      modifies this`pos
      ensures Valid()
      ensures match r
        case Parsed(d) => Spanned(s, d) && |Left()| < |ts| && Args(Read(s, c), ts) == Args(Read(s, d), Left())
        case Panic(e) => Args(Read(s, c), ts) == Err(e)
    {
      ReadAddArg(s, c, x);
      var d := AddArg(c, x);
      if Argc(d) >= MAXARGS {
        return Panic(TooManyArgs);
      }
      r := ParseRedirs(d);
    }

    /** parseblock */
    method ParseBlockAt() returns (r: Parsed)
      requires Valid() && Peek(Left(), "(")
      modifies this`pos
      ensures Valid() && Agrees(s, r, pos, ParseBlock(old(Left())))
      decreases |Left()|, 0
    {
      var tok, x := GetToken();
      r := ParseLineAt();
      if r.Panic? {
        return;
      }
      var closed := PeekAt(")");
      if !closed {
        return Panic(MissingParen);
      }
      tok, x := GetToken();
      r := ParseRedirs(r.cmd);
    }

    /** parsepipe */
    method ParsePipeAt() returns (r: Parsed)
      requires Valid()
      modifies this`pos
      ensures Valid() && Agrees(s, r, pos, ParsePipe(old(Left())))
      decreases |Left()|, 2
    {
      r := ParseExecAt();
      if r.Panic? {
        return;
      }
      var more := PeekAt("|");
      if more {
        var tok, x := GetToken();
        var right := ParsePipeAt();
        return if right.Panic? then right else Parsed(Pipe(r.cmd, right.cmd));
      }
    }

    /** parseline */
    method ParseLineAt() returns (r: Parsed)
      requires Valid()
      modifies this`pos
      ensures Valid() && Agrees(s, r, pos, ParseLine(old(Left())))
      decreases |Left()|, 3
    {
      r := ParsePipeAt();
      if r.Panic? {
        return;
      }
      var c := ParseBacks(r.cmd);
      var more := PeekAt(";");
      if more {
        var tok, x := GetToken();
        var right := ParseLineAt();
        return if right.Panic? then right else Parsed(List(c, right.cmd));
      }
      return Parsed(c);
    }

    /** The ampersands of parseline. */
    method ParseBacks(c: Cmd<Span>) returns (d: Cmd<Span>)
      requires Valid() && Spanned(s, c)
      modifies this`pos
      ensures Valid() && Spanned(s, d) && Backs(Read(s, c), old(Left())) == Ok(Read(s, d), Left())
    {
      d := c;
      while true
        invariant Valid() && Spanned(s, d) && Backs(Read(s, d), Left()) == Backs(Read(s, c), old(Left()))
        decreases |Left()|
      {
        var more := PeekAt("&");
        if !more {
          return;
        }
        var tok, x := GetToken();
        d := Back(d);
      }
    }
  }

  // ---------------------------------------------------------------- NUL termination

  /** Where the words of a command end. */
  function Ends(c: Cmd<Span>): set<nat> {
    match c
    case Exec(args) => set i | 0 <= i < |args| :: args[i].eq
    case Redir(d, f, _) => Ends(d) + {f.eq}
    case Pipe(l, r) => Ends(l) + Ends(r)
    case List(l, r) => Ends(l) + Ends(r)
    case Back(d) => Ends(d)
  }

  /** A word of the command. */
  predicate Mentions(c: Cmd<Span>, x: Span) {
    match c
    case Exec(args) => x in args
    case Redir(d, f, _) => Mentions(d, x) || x == f
    case Pipe(l, r) => Mentions(l, x) || Mentions(r, x)
    case List(l, r) => Mentions(l, x) || Mentions(r, x)
    case Back(d) => Mentions(d, x)
  }

  /** Every word end in reach of the buffer. */
  predicate EndsFit(c: Cmd<Span>, n: nat) {
    forall e :: e in Ends(c) ==> e < n
  }

  /** nulterminate: a NUL at the end of every word, and no other change. */
  method NulTerminate(buf: array<char>, c: Cmd<Span>)
    requires EndsFit(c, buf.Length)
    modifies buf
    ensures forall k :: 0 <= k < buf.Length ==> buf[k] == if k in Ends(c) then '\0' else old(buf[k])
    decreases c
  {
    match c
    case Exec(args) =>
      for i := 0 to |args|
        invariant forall k :: 0 <= k < buf.Length ==>
          buf[k] == if exists j :: 0 <= j < i && args[j].eq == k then '\0' else old(buf[k])
      {
        assert args[i].eq in Ends(c);
        buf[args[i].eq] := '\0';
      }
    case Redir(d, f, _) =>
      assert Ends(c) == Ends(d) + {f.eq};
      NulTerminate(buf, d);
      buf[f.eq] := '\0';
    case Pipe(l, r) =>
      assert Ends(c) == Ends(l) + Ends(r);
      NulTerminate(buf, l);
      NulTerminate(buf, r);
    case List(l, r) =>
      assert Ends(c) == Ends(l) + Ends(r);
      NulTerminate(buf, l);
      NulTerminate(buf, r);
    case Back(d) =>
      assert Ends(c) == Ends(d);
      NulTerminate(buf, d);
  }

  /** The C string at q: the characters up to the first NUL. */
  function StringAt(b: seq<char>, q: nat): string
    requires q <= |b|
    decreases |b| - q
  {
    if q == |b| || b[q] == '\0' then [] else [b[q]] + StringAt(b, q + 1)
  }

  lemma {:induction false} StringUpTo(b: seq<char>, q: nat, e: nat)
    requires q <= e < |b| && b[e] == '\0' && forall k :: q <= k < e ==> b[k] != '\0'
    ensures StringAt(b, q) == b[q..e]
    decreases e - q
  {
    if q < e {
      StringUpTo(b, q + 1, e);
      assert b[q..e] == [b[q]] + b[q + 1..e];
    }
  }

  /** Words end where no word goes on. */
  lemma {:induction false} EndsOutside(s: string, c: Cmd<Span>, e: nat)
    requires Spanned(s, c) && e in Ends(c)
    ensures e <= |s| && (e < |s| ==> !InWord(s[e]))
  {
    match c
    case Exec(args) =>
      var i :| 0 <= i < |args| && args[i].eq == e;
      assert WordSpan(s, args[i]);
    case Redir(d, f, _) => if e in Ends(d) { EndsOutside(s, d, e); }
    case Pipe(l, r) => if e in Ends(l) { EndsOutside(s, l, e); } else { EndsOutside(s, r, e); }
    case List(l, r) => if e in Ends(l) { EndsOutside(s, l, e); } else { EndsOutside(s, r, e); }
    case Back(d) => EndsOutside(s, d, e);
  }

  lemma {:induction false} MentionedWord(s: string, c: Cmd<Span>, x: Span)
    requires Spanned(s, c) && Mentions(c, x)
    ensures WordSpan(s, x) && x.eq in Ends(c)
  {
    match c
    case Exec(args) =>
      var i :| 0 <= i < |args| && args[i] == x;
      assert WordSpan(s, args[i]) && args[i].eq in Ends(c);
    case Redir(d, f, _) => if Mentions(d, x) { MentionedWord(s, d, x); }
    case Pipe(l, r) => if Mentions(l, x) { MentionedWord(s, l, x); } else { MentionedWord(s, r, x); }
    case List(l, r) => if Mentions(l, x) { MentionedWord(s, l, x); } else { MentionedWord(s, r, x); }
    case Back(d) => MentionedWord(s, d, x);
  }

  /** After the NULs are in place, every word of the command reads as its token. */
  lemma {:induction false} WordsReadBack(s: string, b: seq<char>, c: Cmd<Span>, x: Span)
    requires Spanned(s, c) && Mentions(c, x) && '\0' !in s && |s| < |b|
    requires forall k :: 0 <= k < |b| && k <= |s| ==> b[k] == if k in Ends(c) || k == |s| then '\0' else s[k]
    ensures x.q <= x.eq <= |s| && StringAt(b, x.q) == s[x.q..x.eq]
  {
    MentionedWord(s, c, x);
    forall k | x.q <= k < x.eq ensures k !in Ends(c) && s[k] != '\0' {
      if k in Ends(c) { EndsOutside(s, c, k); }
      assert s[k] in s;
    }
    StringUpTo(b, x.q, x.eq);
    assert b[x.q..x.eq] == s[x.q..x.eq];
  }

  /** parsecmd, on a buffer that holds a string of length n: the outcome is the grammar's, and after a success every
      argument and file name in the buffer is a string that reads exactly its token. */
  method ParseCommand(buf: array<char>, n: nat) returns (r: Parsed)
    requires n < buf.Length && buf[n] == '\0' && '\0' !in buf[..n]
    modifies buf
    ensures var s := old(buf[..n]); match r
      case Parsed(c) => Spanned(s, c) && ParseCmd(Toks(s, 0)) == Ok(Read(s, c), [])
      case Panic(e) => ParseCmd(Toks(s, 0)) == Err(e)
    ensures r.Parsed? ==> var s := old(buf[..n]); forall x :: Mentions(r.cmd, x) ==>
      x.q <= |buf[..]| && x.q <= x.eq <= n && StringAt(buf[..], x.q) == s[x.q..x.eq]
  {
    var s := buf[..n];
    var p := new Parser(s);
    r := p.ParseLineAt();
    if r.Panic? {
      return;
    }
    var none := p.PeekAt("");
    if p.pos != |s| {
      return Panic(Syntax);
    }
    forall e | e in Ends(r.cmd) ensures e < buf.Length { EndsOutside(s, r.cmd, e); }
    NulTerminate(buf, r.cmd);
    forall x | Mentions(r.cmd, x) ensures x.q <= x.eq <= n && StringAt(buf[..], x.q) == s[x.q..x.eq] {
      MentionedWord(s, r.cmd, x);
      WordsReadBack(s, buf[..], r.cmd, x);
    }
  }
}
