/** The shell's command language without its parser: which token lists mean which command, as a grammar of pieces, and
    which of the parser's panics the others end in, as a scan from left to right. */
module ShellLanguage {
  import opened ShellGrammar

  // ---------------------------------------------------------------- simple commands

  predicate IsRedir(t: Tok) { t == Sym('<') || t == Sym('>') || t == Append }

  /** Words and redirections in any order, every redirection followed by its file. */
  predicate Simple(ts: seq<Tok>) {
    ts == [] || (ts[0].Word? && Simple(ts[1..])) || (IsRedir(ts[0]) && |ts| > 1 && ts[1].Word? && Simple(ts[2..]))
  }

  /** The words that are arguments, and the files, in order; a file is written unless its symbol is <. */
  function ArgsOf(ts: seq<Tok>): seq<string>
    requires Simple(ts)
  {
    if ts == [] then [] else if ts[0].Word? then [ts[0].text] + ArgsOf(ts[1..]) else ArgsOf(ts[2..])
  }

  datatype File = File(name: string, out: bool)

  function FilesOf(ts: seq<Tok>): seq<File>
    requires Simple(ts)
  {
    if ts == [] then []
    else if ts[0].Word? then FilesOf(ts[1..])
    else [File(ts[1].text, ts[0] != Sym('<'))] + FilesOf(ts[2..])
  }

  /** The command under these redirections, the first of them innermost. */
  function Under(c: Cmd<string>, fs: seq<File>): Cmd<string>
    decreases |fs|
  {
    if fs == [] then c else Under(Redir(c, fs[0].name, fs[0].out), fs[1..])
  }

  /** The simple command of these arguments and redirections. */
  function SimpleCmd(args: seq<string>, fs: seq<File>): Cmd<string> { Under(Exec(args), fs) }

  lemma {:induction false} UnderMore(c: Cmd<string>, fs: seq<File>, f: File)
    ensures Under(c, fs + [f]) == Redir(Under(c, fs), f.name, f.out)
    decreases |fs|
  {
    if fs == [] {
      assert fs + [f] == [f] && [f][1..] == [];
      assert Under(Redir(c, f.name, f.out), []) == Redir(c, f.name, f.out);
    } else {
      assert (fs + [f])[1..] == fs[1..] + [f];
      UnderMore(Redir(c, fs[0].name, fs[0].out), fs[1..], f);
    }
  }

  /** An argument goes to the command under the redirections. */
  lemma {:induction false} ArgUnder(args: seq<string>, fs: seq<File>, w: string)
    ensures AddArg(SimpleCmd(args, fs), w) == SimpleCmd(args + [w], fs) && Argc(SimpleCmd(args, fs)) == |args|
    decreases |fs|
  {
    if fs != [] {
      var f, gs := fs[|fs| - 1], fs[..|fs| - 1];
      assert fs == gs + [f];
      UnderMore(Exec(args), gs, f);
      UnderMore(Exec(args + [w]), gs, f);
      ArgUnder(args, gs, w);
    }
  }

  /** How many tokens from the start make a simple command. */
  function SimpleLen(ts: seq<Tok>): (n: nat)
    ensures n <= |ts| && Simple(ts[..n])
  {
    if ts == [] then 0
    else if ts[0].Word? then
      var n := SimpleLen(ts[1..]);
      assert ts[..n + 1][1..] == ts[1..][..n];
      n + 1
    else if IsRedir(ts[0]) && |ts| > 1 && ts[1].Word? then
      var n := SimpleLen(ts[2..]);
      assert ts[..n + 2][2..] == ts[2..][..n];
      n + 2
    else 0
  }

  /** What becomes of a simple command that has these arguments and redirections so far. */
  function SimpleOutcome(args: seq<string>, fs: seq<File>, ts: seq<Tok>): Res {
    var n := SimpleLen(ts);
    var all := args + ArgsOf(ts[..n]);
    if |all| >= 10 then Err(TooManyArgs)
    else if n == |ts| || (ts[n].Sym? && ts[n].c in "|)&;") then Ok(SimpleCmd(all, fs + FilesOf(ts[..n])), ts[n..])
    else if IsRedir(ts[n]) then Err(MissingFile)
    else Err(Syntax)
  }

  lemma OutcomeWord(args: seq<string>, fs: seq<File>, ts: seq<Tok>)
    requires ts != [] && ts[0].Word?
    ensures SimpleOutcome(args, fs, ts) == SimpleOutcome(args + [ts[0].text], fs, ts[1..])
  {
    var n := SimpleLen(ts[1..]);
    var x, y := ts[..n + 1], ts[1..][..n];
    assert SimpleLen(ts) == n + 1 && x[1..] == y && ts[n + 1..] == ts[1..][n..];
    assert ArgsOf(x) == [ts[0].text] + ArgsOf(y) && FilesOf(x) == FilesOf(y);
    assert args + ([ts[0].text] + ArgsOf(y)) == args + [ts[0].text] + ArgsOf(y);
  }

  lemma OutcomeRedir(args: seq<string>, fs: seq<File>, ts: seq<Tok>)
    requires |ts| > 1 && IsRedir(ts[0]) && ts[1].Word?
    ensures SimpleOutcome(args, fs, ts) == SimpleOutcome(args, fs + [File(ts[1].text, ts[0] != Sym('<'))], ts[2..])
  {
    var n := SimpleLen(ts[2..]);
    var x, f := ts[..n + 2], File(ts[1].text, ts[0] != Sym('<'));
    assert SimpleLen(ts) == n + 2 && x[2..] == ts[2..][..n] && ts[n + 2..] == ts[2..][n..];
    assert fs + ([f] + FilesOf(x[2..])) == fs + [f] + FilesOf(x[2..]);
  }

  /** parseexec goes through words and redirections in whatever order they come. */
  lemma {:induction false} GoOnIs(args: seq<string>, fs: seq<File>, ts: seq<Tok>)
    requires |args| < MAXARGS
    ensures GoOn(SimpleCmd(args, fs), ts) == SimpleOutcome(args, fs, ts)
    decreases |ts|
  {
    if ts != [] && ts[0].Word? {
      OutcomeWord(args, fs, ts);
      ArgUnder(args, fs, ts[0].text);
      ArgUnder(args + [ts[0].text], fs, ts[0].text);
      if |args| + 1 < MAXARGS { GoOnIs(args + [ts[0].text], fs, ts[1..]); }
    } else if |ts| > 1 && IsRedir(ts[0]) && ts[1].Word? {
      var f := File(ts[1].text, ts[0] != Sym('<'));
      OutcomeRedir(args, fs, ts);
      UnderMore(Exec(args), fs, f);
      GoOnIs(args, fs + [f], ts[2..]);
    } else {
      assert args + [] == args && fs + [] == fs;
    }
  }

  /** parseexec, on every token list that does not start with a parenthesis: the words up to the first token that is
      neither a word nor a redirection are the arguments, in order, under the redirections, in order; or one of the
      panics, exactly when there are too many words, a redirection without a file, or another symbol. */
  lemma SimpleCommands(ts: seq<Tok>)
    requires !Peek(ts, "(")
    ensures ParseExec(ts) == SimpleOutcome([], [], ts)
  {
    GoOnIs([], [], ts);
  }

  // ---------------------------------------------------------------- the language

  /** The command without its n outermost redirections. */
  function Inside(c: Cmd<string>, n: nat): Cmd<string>
    decreases n
  {
    if n > 0 && c.Redir? then Inside(c.cmd, n - 1) else c
  }

  lemma {:induction false} InsideUnder(c: Cmd<string>, fs: seq<File>)
    ensures Inside(Under(c, fs), |fs|) == c
    decreases |fs|
  {
    if fs != [] {
      var f, gs := fs[|fs| - 1], fs[..|fs| - 1];
      assert fs == gs + [f];
      UnderMore(c, gs, f);
      InsideUnder(c, gs);
    }
  }

  /** Redirections and nothing else. */
  predicate Redirections(ts: seq<Tok>) { Simple(ts) && ArgsOf(ts) == [] }

  /** A line in parentheses, the closing one at k, and redirections of it. */
  ghost predicate BlockMeans(c: Cmd<string>, ts: seq<Tok>, k: nat)
    decreases |ts|, 0
  {
    && 0 < k < |ts| && ts[0] == Sym('(') && ts[k] == Sym(')') && Redirections(ts[k + 1..])
    && var fs := FilesOf(ts[k + 1..]);
       c == Under(Inside(c, |fs|), fs) && LineMeans(Inside(c, |fs|), ts[1..k])
  }

  /** A simple command of fewer than ten arguments, or a block. */
  ghost predicate ExecMeans(c: Cmd<string>, ts: seq<Tok>)
    decreases |ts|, 1
  {
    || (Simple(ts) && |ArgsOf(ts)| < 10 && c == SimpleCmd(ArgsOf(ts), FilesOf(ts)))
    || exists k {:trigger ts[k]} :: 0 <= k < |ts| && BlockMeans(c, ts, k)
  }

  /** Single commands with | between them; the rest after the first | is the right side. */
  ghost predicate PipeMeans(c: Cmd<string>, ts: seq<Tok>)
    decreases |ts|, 2
  {
    || ExecMeans(c, ts)
    || (c.Pipe? && exists k {:trigger ts[k]} ::
          0 <= k < |ts| && ts[k] == Sym('|') && ExecMeans(c.left, ts[..k]) && PipeMeans(c.right, ts[k + 1..]))
  }

  /** A pipeline with any number of & behind it. */
  ghost predicate BackMeans(c: Cmd<string>, ts: seq<Tok>)
    decreases |ts|, 3
  {
    || PipeMeans(c, ts)
    || (c.Back? && ts != [] && ts[|ts| - 1] == Sym('&') && BackMeans(c.cmd, ts[..|ts| - 1]))
  }

  /** Those with ; between them. */
  ghost predicate LineMeans(c: Cmd<string>, ts: seq<Tok>)
    decreases |ts|, 4
  {
    || BackMeans(c, ts)
    || (c.List? && exists k {:trigger ts[k]} ::
          0 <= k < |ts| && ts[k] == Sym(';') && BackMeans(c.left, ts[..k]) && LineMeans(c.right, ts[k + 1..]))
  }

  // ---------------------------------------------------------------- what the parser reads is in the language

  /** rest is what is left of ts after n tokens. */
  predicate Leaves(ts: seq<Tok>, rest: seq<Tok>, n: nat) { n <= |ts| && rest == ts[n..] }

  /** Two pieces with a token between them. */
  lemma Pieces(ts: seq<Tok>, k: nat, m: nat, n: nat)
    requires n == k + 1 + m <= |ts|
    ensures ts[k..][1..] == ts[k + 1..] && ts[..n][..k] == ts[..k] && ts[..n][k + 1..] == ts[k + 1..][..m]
    ensures ts[..n][k] == ts[k] && ts[k + 1..][m..] == ts[n..]
  {
  }

  lemma {:induction false} RedirsRead(c: Cmd<string>, ts: seq<Tok>) returns (n: nat)
    requires Redirs(c, ts).Ok?
    ensures Leaves(ts, Redirs(c, ts).rest, n) && Redirections(ts[..n]) && !Peek(ts[n..], "<>")
    ensures Redirs(c, ts).cmd == Under(c, FilesOf(ts[..n]))
    decreases |ts|
  {
    if Peek(ts, "<>") {
      var m := RedirsRead(Redir(c, ts[1].text, ts[0] != Sym('<')), ts[2..]);
      n := m + 2;
      assert ts[..n][2..] == ts[2..][..m] && ts[2..][m..] == ts[n..];
    } else {
      n := 0;
    }
  }

  lemma BlockJoins(c: Cmd<string>, x: seq<Tok>, k: nat)
    requires 0 < k < |x| && x[0] == Sym('(') && x[k] == Sym(')') && Redirections(x[k + 1..]) && LineMeans(c, x[1..k])
    ensures ExecMeans(Under(c, FilesOf(x[k + 1..])), x)
  {
    InsideUnder(c, FilesOf(x[k + 1..]));
    assert BlockMeans(Under(c, FilesOf(x[k + 1..])), x, k);
  }

  lemma SimpleRead(ts: seq<Tok>, n: nat)
    requires !Peek(ts, "(") && ParseExec(ts).Ok? && n == SimpleLen(ts)
    ensures Leaves(ts, ParseExec(ts).rest, n) && ExecMeans(ParseExec(ts).cmd, ts[..n])
  {
    SimpleCommands(ts);
    assert [] + ArgsOf(ts[..n]) == ArgsOf(ts[..n]) && [] + FilesOf(ts[..n]) == FilesOf(ts[..n]);
  }

  /** A block: the parenthesis, i tokens of a line, the other one, and m tokens of redirections. */
  lemma BlockPieces(ts: seq<Tok>, inner: seq<Tok>, i: nat, k: nat, m: nat, n: nat)
    requires k == i + 1 && n == k + 1 + m <= |ts| && inner == ts[1..]
    ensures inner[i..][1..] == ts[k + 1..] && ts[..n][1..k] == inner[..i] && ts[..n][k + 1..] == ts[k + 1..][..m]
    ensures ts[..n][0] == ts[0] && ts[..n][k] == inner[i..][0] && ts[k + 1..][m..] == ts[n..]
  {
  }

  lemma {:induction false} ExecRead(ts: seq<Tok>) returns (n: nat)
    requires ParseExec(ts).Ok?
    ensures Leaves(ts, ParseExec(ts).rest, n) && ExecMeans(ParseExec(ts).cmd, ts[..n])
    decreases |ts|, 1
  {
    if Peek(ts, "(") {
      var inner := ts[1..];
      var i := LineRead(inner);
      var c, after := ParseLine(inner).cmd, inner[i..][1..];
      var m := RedirsRead(c, after);
      n := i + 2 + m;
      BlockPieces(ts, inner, i, i + 1, m, n);
      BlockJoins(c, ts[..n], i + 1);
    } else {
      n := SimpleLen(ts);
      SimpleRead(ts, n);
    }
  }

  lemma PipeJoins(c: Cmd<string>, x: seq<Tok>, k: nat)
    requires c.Pipe? && k < |x| && x[k] == Sym('|') && ExecMeans(c.left, x[..k]) && PipeMeans(c.right, x[k + 1..])
    ensures PipeMeans(c, x)
  {
  }

  lemma LineJoins(c: Cmd<string>, x: seq<Tok>, k: nat)
    requires c.List? && k < |x| && x[k] == Sym(';') && BackMeans(c.left, x[..k]) && LineMeans(c.right, x[k + 1..])
    ensures LineMeans(c, x)
  {
  }

  lemma {:induction false} PipeRead(ts: seq<Tok>) returns (n: nat)
    requires ParsePipe(ts).Ok?
    ensures Leaves(ts, ParsePipe(ts).rest, n) && PipeMeans(ParsePipe(ts).cmd, ts[..n])
    decreases |ts|, 2
  {
    var k := ExecRead(ts);
    n := k;
    if Peek(ts[k..], "|") {
      assert ts[k..][1..] == ts[k + 1..];
      var m := PipeRead(ts[k + 1..]);
      n := k + 1 + m;
      Pieces(ts, k, m, n);
      PipeJoins(ParsePipe(ts).cmd, ts[..n], k);
    }
  }

  lemma {:induction false} BacksRead(c: Cmd<string>, ts: seq<Tok>, i: nat) returns (n: nat)
    requires i <= |ts| && BackMeans(c, ts[..i])
    ensures Leaves(ts, Backs(c, ts[i..]).rest, n) && BackMeans(Backs(c, ts[i..]).cmd, ts[..n])
    decreases |ts| - i
  {
    n := i;
    if Peek(ts[i..], "&") {
      var x := ts[..i + 1];
      assert x[|x| - 1] == Sym('&') && x[..|x| - 1] == ts[..i] && ts[i..][1..] == ts[i + 1..];
      n := BacksRead(Back(c), ts, i + 1);
    }
  }

  lemma {:induction false} LineRead(ts: seq<Tok>) returns (n: nat)
    requires ParseLine(ts).Ok?
    ensures Leaves(ts, ParseLine(ts).rest, n) && LineMeans(ParseLine(ts).cmd, ts[..n])
    decreases |ts|, 4
  {
    var i := PipeRead(ts);
    var k := BacksRead(ParsePipe(ts).cmd, ts, i);
    n := k;
    if Peek(ts[k..], ";") {
      assert ts[k..][1..] == ts[k + 1..];
      var m := LineRead(ts[k + 1..]);
      n := k + 1 + m;
      Pieces(ts, k, m, n);
      LineJoins(ParseLine(ts).cmd, ts[..n], k);
    }
  }

  // ---------------------------------------------------------------- what is in the language is read

  /** The tokens from k on, with more behind them. */
  function After(x: seq<Tok>, k: nat, rest: seq<Tok>): (tail: seq<Tok>)
    requires k < |x|
    ensures x + rest == x[..k] + tail && tail != [] && tail[0] == x[k] && tail[1..] == x[k + 1..] + rest
  {
    [x[k]] + (x[k + 1..] + rest)
  }

  lemma {:induction false} SimpleAlone(x: seq<Tok>, rest: seq<Tok>)
    requires Simple(x) && Stops(rest, "|)&;")
    ensures SimpleLen(x + rest) == |x|
    decreases |x|
  {
    var ts := x + rest;
    if x != [] && x[0].Word? {
      assert ts[1..] == x[1..] + rest;
      SimpleAlone(x[1..], rest);
    } else if x != [] {
      assert ts[2..] == x[2..] + rest;
      SimpleAlone(x[2..], rest);
    }
  }

  lemma {:induction false} RedirectionsRead(c: Cmd<string>, x: seq<Tok>, rest: seq<Tok>)
    requires Redirections(x) && Stops(rest, "|)&;")
    ensures Redirs(c, x + rest) == Ok(Under(c, FilesOf(x)), rest)
    decreases |x|
  {
    if x == [] {
      assert x + rest == rest;
    } else {
      assert (x + rest)[2..] == x[2..] + rest;
      RedirectionsRead(Redir(c, x[1].text, x[0] != Sym('<')), x[2..], rest);
    }
  }

  lemma {:induction false} ExecReads(c: Cmd<string>, x: seq<Tok>, rest: seq<Tok>)
    requires ExecMeans(c, x) && Stops(rest, "|)&;")
    ensures ParseExec(x + rest) == Ok(c, rest)
    decreases |x|, 1
  {
    var ts := x + rest;
    if Simple(x) && |ArgsOf(x)| < 10 && c == SimpleCmd(ArgsOf(x), FilesOf(x)) {
      SimpleAlone(x, rest);
      SimpleCommands(ts);
      assert ts[..|x|] == x && ts[|x|..] == rest;
      assert [] + ArgsOf(x) == ArgsOf(x) && [] + FilesOf(x) == FilesOf(x);
    } else {
      var k :| 0 <= k < |x| && BlockMeans(c, x, k);
      BlockReads(c, x, k, rest);
    }
  }

  lemma {:induction false} BlockReads(c: Cmd<string>, x: seq<Tok>, k: nat, rest: seq<Tok>)
    requires BlockMeans(c, x, k) && Stops(rest, "|)&;")
    ensures ParseExec(x + rest) == Ok(c, rest)
    decreases |x|, 0
  {
    var fs, tail := FilesOf(x[k + 1..]), After(x, k, rest);
    assert (x + rest)[1..] == x[1..k] + tail;
    LineReads(Inside(c, |fs|), x[1..k], tail);
    RedirectionsRead(Inside(c, |fs|), x[k + 1..], rest);
  }

  lemma {:induction false} PipeReads(c: Cmd<string>, x: seq<Tok>, rest: seq<Tok>)
    requires PipeMeans(c, x) && Stops(rest, ")&;")
    ensures ParsePipe(x + rest) == Ok(c, rest)
    decreases |x|, 2
  {
    if ExecMeans(c, x) {
      ExecReads(c, x, rest);
    } else {
      var k :| 0 <= k < |x| && x[k] == Sym('|') && ExecMeans(c.left, x[..k]) && PipeMeans(c.right, x[k + 1..]);
      ExecReads(c.left, x[..k], After(x, k, rest));
      PipeReads(c.right, x[k + 1..], rest);
    }
  }

  lemma {:induction false} BackReads(c: Cmd<string>, x: seq<Tok>, rest: seq<Tok>)
    requires BackMeans(c, x) && Stops(rest, ")&;")
    ensures ParseBack(x + rest) == Backs(c, rest)
    decreases |x|, 3
  {
    if PipeMeans(c, x) {
      PipeReads(c, x, rest);
    } else {
      assert x[|x| - 1 + 1..] + rest == rest;
      BackReads(c.cmd, x[..|x| - 1], After(x, |x| - 1, rest));
    }
  }

  lemma {:induction false} LineReads(c: Cmd<string>, x: seq<Tok>, rest: seq<Tok>)
    requires LineMeans(c, x) && Stops(rest, ")")
    ensures ParseLine(x + rest) == Ok(c, rest)
    decreases |x|, 4
  {
    if BackMeans(c, x) {
      BackReads(c, x, rest);
    } else {
      var k :| 0 <= k < |x| && x[k] == Sym(';') && BackMeans(c.left, x[..k]) && LineMeans(c.right, x[k + 1..]);
      BackReads(c.left, x[..k], After(x, k, rest));
      LineReads(c.right, x[k + 1..], rest);
    }
  }

  /** parsecmd reads a token list as a command if and only if it means that command; so no list means two. */
  lemma ParsedExactly(ts: seq<Tok>, c: Cmd<string>)
    ensures ParseCmd(ts) == Ok(c, []) <==> LineMeans(c, ts)
  {
    if ParseCmd(ts) == Ok(c, []) {
      var n := LineRead(ts);
      assert ts[..n] == ts;
    }
    if LineMeans(c, ts) {
      LineReads(c, ts, []);
      assert ts + [] == ts;
    }
  }

  // ---------------------------------------------------------------- panics

  /** Where a scan is: at the start of a single command, among its words, after its closing parenthesis, or after an
      ampersand. */
  datatype Mode = Start | Among(argc: nat) | Closed | Amp

  datatype Verdict = Fine | Bad(e: Error)

  /** A scan that counts open parentheses and the arguments of the command it is in, and stops at the first token that
      cannot follow. */
  function Scan(ts: seq<Tok>, depth: nat, mode: Mode): Verdict
    decreases |ts|
  {
    if ts == [] then (if depth > 0 then Bad(MissingParen) else Fine)
    else if ts[0] == Sym(';') then Scan(ts[1..], depth, Start)
    else if ts[0] == Sym('&') then Scan(ts[1..], depth, Amp)
    else if ts[0] == Sym(')') && depth > 0 then Scan(ts[1..], depth - 1, Closed)
    else if ts[0] == Sym('|') && !mode.Amp? then Scan(ts[1..], depth, Start)
    else if IsRedir(ts[0]) && !mode.Amp? then
      (if |ts| > 1 && ts[1].Word? then Scan(ts[2..], depth, if mode.Start? then Among(0) else mode)
       else Bad(MissingFile))
    else if ts[0].Word? && (mode.Start? || mode.Among?) then
      (var n := if mode.Start? then 1 else mode.argc + 1;
       if n >= 10 then Bad(TooManyArgs) else Scan(ts[1..], depth, Among(n)))
    else if ts[0] == Sym('(') && mode.Start? then Scan(ts[1..], depth + 1, Start)
    else if mode.Start? || mode.Among? || depth == 0 then Bad(Syntax)
    else Bad(MissingParen)
  }

  /** After a piece that the parser read, or did not, the scan goes on behind it. */
  predicate ScansTo(ts: seq<Tok>, depth: nat, mode: Mode, r: Res, after: Mode) {
    Scan(ts, depth, mode) == if r.Ok? then Scan(r.rest, depth, after) else Bad(r.e)
  }

  lemma {:induction false} RedirsScan(c: Cmd<string>, ts: seq<Tok>, depth: nat)
    ensures ScansTo(ts, depth, Closed, Redirs(c, ts), Closed)
    ensures Redirs(c, ts).Ok? ==> !Peek(Redirs(c, ts).rest, "<>")
    decreases |ts|
  {
    if Peek(ts, "<>") && |ts| > 1 && ts[1].Word? {
      RedirsScan(Redir(c, ts[1].text, ts[0] != Sym('<')), ts[2..], depth);
    }
  }

  lemma {:induction false} SimpleScan(args: seq<string>, fs: seq<File>, ts: seq<Tok>, depth: nat)
    requires |args| < MAXARGS
    ensures ScansTo(ts, depth, Among(|args|), SimpleOutcome(args, fs, ts), Closed)
    ensures SimpleOutcome(args, fs, ts).Ok? ==> Stops(SimpleOutcome(args, fs, ts).rest, "|)&;")
    decreases |ts|
  {
    if ts != [] && ts[0].Word? {
      OutcomeWord(args, fs, ts);
      if |args| + 1 < MAXARGS { SimpleScan(args + [ts[0].text], fs, ts[1..], depth); }
    } else if |ts| > 1 && IsRedir(ts[0]) && ts[1].Word? {
      OutcomeRedir(args, fs, ts);
      SimpleScan(args, fs + [File(ts[1].text, ts[0] != Sym('<'))], ts[2..], depth);
    } else {
      assert args + [] == args;
    }
  }

  lemma {:induction false} ExecScan(ts: seq<Tok>, depth: nat)
    ensures ScansTo(ts, depth, Start, ParseExec(ts), Closed)
    ensures ParseExec(ts).Ok? ==> !Peek(ParseExec(ts).rest, "<>")
    decreases |ts|, 1
  {
    if Peek(ts, "(") {
      LineScan(ts[1..], depth + 1);
      var r := ParseLine(ts[1..]);
      if r.Ok? && Peek(r.rest, ")") { RedirsScan(r.cmd, r.rest[1..], depth); }
    } else {
      SimpleCommands(ts);
      SimpleScan([], [], ts, depth);
    }
  }

  lemma {:induction false} PipeScan(ts: seq<Tok>, depth: nat)
    ensures ScansTo(ts, depth, Start, ParsePipe(ts), Closed)
    ensures ParsePipe(ts).Ok? ==> !Peek(ParsePipe(ts).rest, "<>") && !Peek(ParsePipe(ts).rest, "|")
    decreases |ts|, 2
  {
    ExecScan(ts, depth);
    var r := ParseExec(ts);
    if r.Ok? && Peek(r.rest, "|") { PipeScan(r.rest[1..], depth); }
  }

  lemma {:induction false} BacksScan(c: Cmd<string>, ts: seq<Tok>, depth: nat)
    ensures Scan(ts, depth, Amp) == Scan(Backs(c, ts).rest, depth, Amp)
    decreases |ts|
  {
    if Peek(ts, "&") { BacksScan(Back(c), ts[1..], depth); }
  }

  lemma {:induction false} LineScan(ts: seq<Tok>, depth: nat)
    ensures ScansTo(ts, depth, Start, ParseLine(ts), Amp)
    ensures ParseLine(ts).Ok? ==> !Peek(ParseLine(ts).rest, ";") && !Peek(ParseLine(ts).rest, "&")
    decreases |ts|, 3
  {
    PipeScan(ts, depth);
    var r := ParsePipe(ts);
    if r.Ok? {
      assert Scan(r.rest, depth, Closed) == Scan(r.rest, depth, Amp);
      BacksScan(r.cmd, r.rest, depth);
      var b := Backs(r.cmd, r.rest).rest;
      if Peek(b, ";") { LineScan(b[1..], depth); }
    }
  }

  /** parsecmd ends in a panic exactly when the scan finds a token that cannot follow, and in the scan's. */
  lemma PanicsExactly(ts: seq<Tok>)
    ensures Scan(ts, 0, Start) == if ParseCmd(ts).Ok? then Fine else Bad(ParseCmd(ts).e)
  {
    LineScan(ts, 0);
  }
}
