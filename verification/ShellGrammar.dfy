/** The shell's command language: tokens, commands, the grammar that sh.c parses by recursive descent, and the round
    trip from a command to its printed form and back. */
module ShellGrammar {

  const MAXARGS: nat := 10

  /** A command, with words of type W: their text, or where they are in the line. */
  datatype Cmd<W> =
    | Exec(args: seq<W>)
    | Redir(cmd: Cmd<W>, file: W, out: bool)
    | Pipe(left: Cmd<W>, right: Cmd<W>)
    | List(left: Cmd<W>, right: Cmd<W>)
    | Back(cmd: Cmd<W>)

  /** One of the symbols < | > & ; ( ), the symbol >>, or a word. */
  datatype Tok = Sym(c: char) | Append | Word(text: string)

  /** The panics of the parser. */
  datatype Error = Syntax | MissingFile | MissingParen | TooManyArgs

  datatype Res = Ok(cmd: Cmd<string>, rest: seq<Tok>) | Err(e: Error)

  // ---------------------------------------------------------------- the grammar

  /** The next token is one of these symbols; > stands for >> as well. */
  predicate Peek(ts: seq<Tok>, cs: string) {
    ts != [] && ((ts[0].Sym? && ts[0].c in cs) || (ts[0] == Append && '>' in cs))
  }

  /** parseredirs */
  function Redirs(c: Cmd<string>, ts: seq<Tok>): (r: Res)
    ensures r.Ok? ==> |r.rest| <= |ts|
    decreases |ts|
  {
    if !Peek(ts, "<>") then Ok(c, ts)
    else if |ts| < 2 || !ts[1].Word? then Err(MissingFile)
    else Redirs(Redir(c, ts[1].text, ts[0] != Sym('<')), ts[2..])
  }

  /** The innermost command of a chain of redirections takes one more argument. */
  function AddArg<W>(c: Cmd<W>, w: W): Cmd<W> {
    match c
    case Redir(d, f, o) => Redir(AddArg(d, w), f, o)
    case Exec(args) => Exec(args + [w])
    case _ => c
  }

  function Argc<W>(c: Cmd<W>): nat {
    match c
    case Redir(d, _, _) => Argc(d)
    case Exec(args) => |args|
    case _ => 0
  }

  /** The loop of parseexec over arguments and redirections. */
  function Args(c: Cmd<string>, ts: seq<Tok>): (r: Res)
    ensures r.Ok? ==> |r.rest| <= |ts|
    decreases |ts|
  {
    if ts == [] || Peek(ts, "|)&;") then Ok(c, ts)
    else if !ts[0].Word? then Err(Syntax)
    else if Argc(AddArg(c, ts[0].text)) >= MAXARGS then Err(TooManyArgs)
    else match Redirs(AddArg(c, ts[0].text), ts[1..])
      case Ok(d, rest) => Args(d, rest)
      case Err(e) => Err(e)
  }

  /** parseexec */
  function ParseExec(ts: seq<Tok>): (r: Res)
    ensures r.Ok? ==> |r.rest| <= |ts|
    decreases |ts|, 1
  {
    if Peek(ts, "(") then ParseBlock(ts)
    else match Redirs(Exec([]), ts)
      case Ok(c, rest) => Args(c, rest)
      case Err(e) => Err(e)
  }

  /** parseblock, at an opening parenthesis */
  function ParseBlock(ts: seq<Tok>): (r: Res)
    requires Peek(ts, "(")
    ensures r.Ok? ==> |r.rest| < |ts|
    decreases |ts|, 0
  {
    match ParseLine(ts[1..])
    case Ok(c, rest) => if Peek(rest, ")") then Redirs(c, rest[1..]) else Err(MissingParen)
    case Err(e) => Err(e)
  }

  /** parsepipe */
  function ParsePipe(ts: seq<Tok>): (r: Res)
    ensures r.Ok? ==> |r.rest| <= |ts|
    decreases |ts|, 2
  {
    match ParseExec(ts)
    case Ok(c, rest) =>
      if !Peek(rest, "|") then Ok(c, rest)
      else (match ParsePipe(rest[1..])
        case Ok(d, rest') => Ok(Pipe(c, d), rest')
        case Err(e) => Err(e))
    case Err(e) => Err(e)
  }

  /** The ampersands after a pipeline. */
  function Backs(c: Cmd<string>, ts: seq<Tok>): (r: Res)
    ensures r.Ok? && |r.rest| <= |ts| && !Peek(r.rest, "&")
    decreases |ts|
  {
    if Peek(ts, "&") then Backs(Back(c), ts[1..]) else Ok(c, ts)
  }

  /** parseline */
  function ParseLine(ts: seq<Tok>): (r: Res)
    ensures r.Ok? ==> |r.rest| <= |ts|
    decreases |ts|, 3
  {
    match ParsePipe(ts)
    case Ok(c, rest) =>
      var b := Backs(c, rest);
      if !Peek(b.rest, ";") then b
      else (match ParseLine(b.rest[1..])
        case Ok(d, rest') => Ok(List(b.cmd, d), rest')
        case Err(e) => Err(e))
    case Err(e) => Err(e)
  }

  /** parsecmd: the line is the whole input. */
  function ParseCmd(ts: seq<Tok>): Res {
    match ParseLine(ts)
    case Ok(c, rest) => if rest == [] then Ok(c, []) else Err(Syntax)
    case Err(e) => Err(e)
  }

  // ---------------------------------------------------------------- printing

  function Words(args: seq<string>): (ts: seq<Tok>)
    ensures |ts| == |args|
  {
    seq<Tok>(|args|, i requires 0 <= i < |args| => Word(args[i]))
  }

  /** A command where the grammar wants a line, a line without lists, a pipeline, or a single command; parentheses
      appear only where the grammar would read something else. */
  function PrintLine(c: Cmd<string>): seq<Tok>
    decreases c, 3
  {
    if c.List? then PrintBack(c.left) + [Sym(';')] + PrintLine(c.right) else PrintBack(c)
  }

  function PrintBack(c: Cmd<string>): seq<Tok>
    decreases c, 2
  {
    if c.Back? then PrintBack(c.cmd) + [Sym('&')] else PrintPipe(c)
  }

  function PrintPipe(c: Cmd<string>): seq<Tok>
    decreases c, 1
  {
    if c.Pipe? then PrintExec(c.left) + [Sym('|')] + PrintPipe(c.right) else PrintExec(c)
  }

  function PrintExec(c: Cmd<string>): seq<Tok>
    decreases c, 0
  {
    match c
    case Exec(args) => Words(args)
    case Redir(d, f, out) => PrintExec(d) + [Sym(if out then '>' else '<'), Word(f)]
    case List(l, r) => [Sym('(')] + (PrintBack(l) + [Sym(';')] + PrintLine(r)) + [Sym(')')]
    case Back(d) => [Sym('(')] + (PrintBack(d) + [Sym('&')]) + [Sym(')')]
    case Pipe(l, r) => [Sym('(')] + (PrintExec(l) + [Sym('|')] + PrintPipe(r)) + [Sym(')')]
  }

  /** Every simple command has fewer than MAXARGS arguments. */
  predicate FewArgs(c: Cmd<string>) {
    match c
    case Exec(args) => |args| < MAXARGS
    case Redir(d, _, _) => FewArgs(d)
    case Pipe(l, r) => FewArgs(l) && FewArgs(r)
    case List(l, r) => FewArgs(l) && FewArgs(r)
    case Back(d) => FewArgs(d)
  }

  // ---------------------------------------------------------------- the round trip

  /** The rest of the line is empty or starts with one of these symbols. */
  predicate Stops(ts: seq<Tok>, cs: string) {
    ts == [] || (ts[0].Sym? && ts[0].c in cs)
  }

  /** What parseexec does after a command that may take more redirections and arguments. */
  function GoOn(c: Cmd<string>, ts: seq<Tok>): Res {
    match Redirs(c, ts)
    case Ok(d, rest) => Args(d, rest)
    case Err(e) => Err(e)
  }

  function Base(c: Cmd<string>): Cmd<string> {
    match c
    case Redir(d, _, _) => Base(d)
    case _ => c
  }

  lemma {:induction false} OneRedir(c: Cmd<string>, f: string, out: bool, x: seq<Tok>)
    ensures Redirs(c, [Sym(if out then '>' else '<'), Word(f)] + x) == Redirs(Redir(c, f, out), x)
  {
    var ts := [Sym(if out then '>' else '<'), Word(f)] + x;
    assert ts[2..] == x && Peek(ts, "<>");
  }

  lemma {:induction false} ArgsReadBack(pre: seq<string>, args: seq<string>, x: seq<Tok>)
    requires args != [] && |pre| + |args| < MAXARGS
    ensures Args(Exec(pre), Words(args) + x) == GoOn(Exec(pre + args), x)
    decreases |args|
  {
    var ts := Words(args) + x;
    assert ts[1..] == Words(args[1..]) + x && AddArg(Exec(pre), args[0]) == Exec(pre + [args[0]]);
    if |args| == 1 {
      assert pre + [args[0]] == pre + args && ts[1..] == x;
    } else {
      assert Redirs(Exec(pre + [args[0]]), ts[1..]) == Ok(Exec(pre + [args[0]]), ts[1..]);
      ArgsReadBack(pre + [args[0]], args[1..], x);
      assert pre + [args[0]] + args[1..] == pre + args;
    }
  }

  /** A simple command with its redirections. */
  lemma {:induction false} SimpleReadBack(c: Cmd<string>, x: seq<Tok>)
    requires Base(c).Exec? && FewArgs(c) && !Peek(x, "(")
    ensures ParseExec(PrintExec(c) + x) == GoOn(c, x)
  {
    match c
    case Redir(d, f, out) =>
      var m := [Sym(if out then '>' else '<'), Word(f)];
      assert PrintExec(c) + x == PrintExec(d) + (m + x);
      SimpleReadBack(d, m + x);
      OneRedir(d, f, out, x);
    case Exec(args) =>
      if args == [] {
        assert PrintExec(c) + x == x;
      } else {
        ArgsReadBack([], args, x);
        assert [] + args == args;
        assert Redirs(Exec([]), Words(args) + x) == Ok(Exec([]), Words(args) + x);
      }
    case _ =>
  }

  /** How far the printed form of c at a level is from the level where c needs no parentheses. */
  function Rank(level: nat, c: Cmd<string>): nat {
    var own := if c.List? then 3 else if c.Back? then 2 else if c.Pipe? then 1 else 0;
    if level >= own then level else 4 + level
  }

  lemma {:induction false} InParentheses(c: Cmd<string>)
    requires c.List? || c.Back? || c.Pipe?
    ensures PrintExec(c) == [Sym('(')] + PrintLine(c) + [Sym(')')]
  {
    if c.Back? {
      assert PrintLine(c) == PrintBack(c);
    } else if c.Pipe? {
      assert PrintLine(c) == PrintBack(c) == PrintPipe(c);
    }
  }

  /** A command in parentheses with its redirections. */
  lemma {:induction false} BlockReadBack(c: Cmd<string>, x: seq<Tok>)
    requires !Base(c).Exec? && FewArgs(c)
    ensures ParseExec(PrintExec(c) + x) == Redirs(c, x)
    decreases c, Rank(0, c), 0
  {
    if c.Redir? {
      var m := [Sym(if c.out then '>' else '<'), Word(c.file)];
      assert PrintExec(c) + x == PrintExec(c.cmd) + (m + x);
      BlockReadBack(c.cmd, m + x);
      OneRedir(c.cmd, c.file, c.out, x);
    } else {
      var ts := PrintExec(c) + x;
      InParentheses(c);
      assert ts[1..] == PrintLine(c) + ([Sym(')')] + x);
      LineReadBack(c, [Sym(')')] + x);
      assert ([Sym(')')] + x)[1..] == x;
    }
  }

  lemma {:induction false} ExecReadBack(c: Cmd<string>, rest: seq<Tok>)
    requires FewArgs(c) && Stops(rest, "|)&;")
    ensures ParseExec(PrintExec(c) + rest) == Ok(c, rest)
    decreases c, Rank(0, c), 1
  {
    if Base(c).Exec? { SimpleReadBack(c, rest); } else { BlockReadBack(c, rest); }
  }

  lemma {:induction false} PipeReadBack(c: Cmd<string>, rest: seq<Tok>)
    requires FewArgs(c) && Stops(rest, ")&;")
    ensures ParsePipe(PrintPipe(c) + rest) == Ok(c, rest)
    decreases c, Rank(1, c)
  {
    if c.Pipe? {
      var x := [Sym('|')] + (PrintPipe(c.right) + rest);
      assert PrintPipe(c) + rest == PrintExec(c.left) + x && x[1..] == PrintPipe(c.right) + rest;
      ExecReadBack(c.left, x);
      PipeReadBack(c.right, rest);
    } else {
      ExecReadBack(c, rest);
    }
  }

  /** A pipeline and its ampersands. */
  function ParseBack(ts: seq<Tok>): Res {
    match ParsePipe(ts)
    case Ok(c, rest) => Backs(c, rest)
    case Err(e) => Err(e)
  }

  lemma {:induction false} BackReadBack(c: Cmd<string>, rest: seq<Tok>)
    requires FewArgs(c) && Stops(rest, ")&;")
    ensures ParseBack(PrintBack(c) + rest) == Backs(c, rest)
    decreases c, Rank(2, c)
  {
    if c.Back? {
      var x := [Sym('&')] + rest;
      assert PrintBack(c) + rest == PrintBack(c.cmd) + x && x[1..] == rest;
      BackReadBack(c.cmd, x);
    } else {
      PipeReadBack(c, rest);
    }
  }

  lemma {:induction false} LineReadBack(c: Cmd<string>, rest: seq<Tok>)
    requires FewArgs(c) && Stops(rest, ")")
    ensures ParseLine(PrintLine(c) + rest) == Ok(c, rest)
    decreases c, Rank(3, c)
  {
    if c.List? {
      var x := [Sym(';')] + (PrintLine(c.right) + rest);
      assert PrintLine(c) + rest == PrintBack(c.left) + x && x[1..] == PrintLine(c.right) + rest;
      BackReadBack(c.left, x);
      LineReadBack(c.right, rest);
    } else {
      BackReadBack(c, rest);
    }
  }

  // ---------------------------------------------------------------- the limit on arguments

  lemma {:induction false} RedirsFew(c: Cmd<string>, ts: seq<Tok>)
    requires FewArgs(c)
    ensures Redirs(c, ts).Ok? ==> FewArgs(Redirs(c, ts).cmd)
    decreases |ts|
  {
    if Peek(ts, "<>") && |ts| >= 2 && ts[1].Word? {
      RedirsFew(Redir(c, ts[1].text, ts[0] != Sym('<')), ts[2..]);
    }
  }

  lemma {:induction false} AddArgFew(c: Cmd<string>, w: string)
    requires FewArgs(c) && Argc(AddArg(c, w)) < MAXARGS
    ensures FewArgs(AddArg(c, w))
  {
    if c.Redir? { AddArgFew(c.cmd, w); }
  }

  lemma {:induction false} ArgsFew(c: Cmd<string>, ts: seq<Tok>)
    requires FewArgs(c)
    ensures Args(c, ts).Ok? ==> FewArgs(Args(c, ts).cmd)
    decreases |ts|
  {
    if ts != [] && !Peek(ts, "|)&;") && ts[0].Word? && Argc(AddArg(c, ts[0].text)) < MAXARGS {
      var d := AddArg(c, ts[0].text);
      AddArgFew(c, ts[0].text);
      RedirsFew(d, ts[1..]);
      if Redirs(d, ts[1..]).Ok? { ArgsFew(Redirs(d, ts[1..]).cmd, Redirs(d, ts[1..]).rest); }
    }
  }

  lemma {:induction false} BacksFew(c: Cmd<string>, ts: seq<Tok>)
    requires FewArgs(c)
    ensures FewArgs(Backs(c, ts).cmd)
    decreases |ts|
  {
    if Peek(ts, "&") { BacksFew(Back(c), ts[1..]); }
  }

  lemma {:induction false} ExecFew(ts: seq<Tok>)
    ensures ParseExec(ts).Ok? ==> FewArgs(ParseExec(ts).cmd)
    decreases |ts|, 1
  {
    if Peek(ts, "(") {
      LineFew(ts[1..]);
      var r := ParseLine(ts[1..]);
      if r.Ok? && Peek(r.rest, ")") { RedirsFew(r.cmd, r.rest[1..]); }
    } else {
      RedirsFew(Exec([]), ts);
      if Redirs(Exec([]), ts).Ok? { ArgsFew(Redirs(Exec([]), ts).cmd, Redirs(Exec([]), ts).rest); }
    }
  }

  lemma {:induction false} PipeFew(ts: seq<Tok>)
    ensures ParsePipe(ts).Ok? ==> FewArgs(ParsePipe(ts).cmd)
    decreases |ts|, 2
  {
    ExecFew(ts);
    var r := ParseExec(ts);
    if r.Ok? && Peek(r.rest, "|") { PipeFew(r.rest[1..]); }
  }

  /** What the parser returns has fewer than MAXARGS arguments to each simple command. */
  lemma {:induction false} LineFew(ts: seq<Tok>)
    ensures ParseLine(ts).Ok? ==> FewArgs(ParseLine(ts).cmd)
    decreases |ts|, 3
  {
    PipeFew(ts);
    var r := ParsePipe(ts);
    if r.Ok? {
      BacksFew(r.cmd, r.rest);
      var b := Backs(r.cmd, r.rest);
      if Peek(b.rest, ";") { LineFew(b.rest[1..]); }
    }
  }

  /** Parsing a printed command gives the command, exactly if it has no more arguments than the parser takes. */
  lemma {:induction false} ParsePrinted(c: Cmd<string>)
    ensures ParseCmd(PrintLine(c)) == Ok(c, []) <==> FewArgs(c)
  {
    if FewArgs(c) {
      LineReadBack(c, []);
      assert PrintLine(c) + [] == PrintLine(c);
    } else {
      LineFew(PrintLine(c));
    }
  }
}
