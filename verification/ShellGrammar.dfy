/**
 The command language of the shell (xv6-user/sh.c): what the recursive-descent parser makes of a
 text, and the printer it inverts.

 Commands are trees over words.  The parser's words are spans of the text, as the pairs of pointers
 q and eq are in the source; the printer's are strings.
 */
module ShellGrammar {

  const MAXARGS: nat := 10

  datatype Span = Span(q: nat, eq: nat)

  /** In is O_RDONLY on descriptor 0; Out and Append are the two write modes on descriptor 1. */
  datatype Mode = In | Out | Append

  datatype Redirect<W> = Redirect(file: W, mode: Mode)

  datatype Cmd<W> =
    | Exec(argv: seq<W>)
    | Redir(cmd: Cmd<W>, redirect: Redirect<W>)
    | Pipe(left: Cmd<W>, right: Cmd<W>)
    | List(first: Cmd<W>, rest: Cmd<W>)
    | Back(job: Cmd<W>)

  datatype Result<T> = Ok(value: T, p: nat) | Panic(why: string)

  // ---------------------------------------------------------------- tokens

  predicate White(c: char) {
    c in " \t\r\n\U{0B}"
  }

  predicate Symbol(c: char) {
    c in "<|>&;()"
  }

  predicate WordChar(c: char) {
    !White(c) && !Symbol(c)
  }

  function Skip(t: string, i: nat): (r: nat)
    requires i <= |t|
    ensures i <= r <= |t| && (r < |t| ==> !White(t[r]))
    ensures forall k :: i <= k < r ==> White(t[k])
    decreases |t| - i
  {
    if i < |t| && White(t[i]) then Skip(t, i + 1) else i
  }

  function WordEnd(t: string, i: nat): (r: nat)
    requires i <= |t|
    ensures i <= r <= |t| && (r < |t| ==> !WordChar(t[r]))
    ensures forall k :: i <= k < r ==> WordChar(t[k])
    decreases |t| - i
  {
    if i < |t| && WordChar(t[i]) then WordEnd(t, i + 1) else i
  }

  datatype Kind = End | Sym(c: char) | More | Word
  datatype Token = Token(kind: Kind, q: nat, eq: nat, next: nat)

  /** gettoken: `More` is the token >>. */
  function Lex(t: string, i: nat): (r: Token)
    requires i <= |t|
    ensures i <= r.q <= r.eq <= r.next <= |t|
    ensures r.kind != End ==> r.q < r.eq
  {
    var q := Skip(t, i);
    if q == |t| then Token(End, q, q, q)
    else if t[q] == '>' && q + 1 < |t| && t[q + 1] == '>' then Token(More, q, q + 2, Skip(t, q + 2))
    else if Symbol(t[q]) then Token(Sym(t[q]), q, q + 1, Skip(t, q + 1))
    else Token(Word, q, WordEnd(t, q), Skip(t, WordEnd(t, q)))
  }

  /** peek, whose caller goes on from Skip(t, i). */
  predicate Peeks(t: string, i: nat, toks: string)
    requires i <= |t|
  {
    Skip(t, i) < |t| && t[Skip(t, i)] in toks
  }

  // ---------------------------------------------------------------- the parser

  function Wrap<W>(c: Cmd<W>, w: seq<Redirect<W>>): Cmd<W> {
    if w == [] then c else Redir(Wrap(c, w[..|w| - 1]), w[|w| - 1])
  }

  function ModeOf(k: Kind): Mode {
    if k == Sym('<') then In else if k == More then Append else Out
  }

  /** parseredirs: the redirections from i on, added to w. */
  function Redirs(t: string, w: seq<Redirect<Span>>, i: nat): (r: Result<seq<Redirect<Span>>>)
    requires i <= |t|
    ensures r.Ok? ==> i <= r.p <= |t|
    decreases |t| - i
  {
    if !Peeks(t, i, "<>") then Ok(w, Skip(t, i)) else
      var a := Lex(t, Skip(t, i));
      var b := Lex(t, a.next);
      if b.kind != Word then Panic("missing file for redirection")
      else Redirs(t, w + [Redirect(Span(b.q, b.eq), ModeOf(a.kind))], b.next)
  }

  /** The argument loop of parseexec, entered before a parseredirs. */
  function Args(t: string, args: seq<Span>, w: seq<Redirect<Span>>, i: nat): (r: Result<Cmd<Span>>)
    requires i <= |t|
    ensures r.Ok? ==> i <= r.p <= |t|
    decreases |t| - i
  {
    match Redirs(t, w, i)
    case Panic(why) => Panic(why)
    case Ok(v, p) =>
      var b := Lex(t, Skip(t, p));
      if Peeks(t, p, "|)&;") || b.kind == End then Ok(Wrap(Exec(args), v), Skip(t, p))
      else if b.kind != Word then Panic("syntax")
      else if |args| + 1 >= MAXARGS then Panic("too many args")
      else Args(t, args + [Span(b.q, b.eq)], v, b.next)
  }

  /** The & loop of parseline. */
  function Backs(t: string, c: Cmd<Span>, i: nat): (r: (Cmd<Span>, nat))
    requires i <= |t|
    ensures i <= r.1 <= |t|
    decreases |t| - i
  {
    if Peeks(t, i, "&") then Backs(t, Back(c), Lex(t, Skip(t, i)).next) else (c, Skip(t, i))
  }

  function ParseLine(t: string, i: nat): (r: Result<Cmd<Span>>)
    requires i <= |t|
    ensures r.Ok? ==> i <= r.p <= |t|
    decreases |t| - i, 3
  {
    match ParsePipe(t, i)
    case Panic(why) => Panic(why)
    case Ok(c, p) =>
      var (d, q) := Backs(t, c, p);
      if !Peeks(t, q, ";") then Ok(d, Skip(t, q)) else
        match ParseLine(t, Lex(t, Skip(t, q)).next)
        case Panic(why) => Panic(why)
        case Ok(e, s) => Ok(List(d, e), s)
  }

  function ParsePipe(t: string, i: nat): (r: Result<Cmd<Span>>)
    requires i <= |t|
    ensures r.Ok? ==> i <= r.p <= |t|
    decreases |t| - i, 2
  {
    match ParseExec(t, i)
    case Panic(why) => Panic(why)
    case Ok(c, p) =>
      if !Peeks(t, p, "|") then Ok(c, Skip(t, p)) else
        match ParsePipe(t, Lex(t, Skip(t, p)).next)
        case Panic(why) => Panic(why)
        case Ok(d, q) => Ok(Pipe(c, d), q)
  }

  function ParseExec(t: string, i: nat): (r: Result<Cmd<Span>>)
    requires i <= |t|
    ensures r.Ok? ==> i <= r.p <= |t|
    decreases |t| - i, 1
  {
    if Peeks(t, i, "(") then ParseBlock(t, Skip(t, i)) else Args(t, [], [], Skip(t, i))
  }

  function ParseBlock(t: string, i: nat): (r: Result<Cmd<Span>>)
    requires i <= |t|
    ensures r.Ok? ==> i <= r.p <= |t|
    decreases |t| - i, 0
  {
    if !Peeks(t, i, "(") then Panic("parseblock") else
      match ParseLine(t, Lex(t, Skip(t, i)).next)
      case Panic(why) => Panic(why)
      case Ok(c, p) =>
        if !Peeks(t, p, ")") then Panic("syntax - missing )") else
          match Redirs(t, [], Lex(t, Skip(t, p)).next)
          case Panic(why) => Panic(why)
          case Ok(w, q) => Ok(Wrap(c, w), q)
  }

  /** parsecmd up to nulterminate. */
  function ParseCmd(t: string): Result<Cmd<Span>> {
    match ParseLine(t, 0)
    case Panic(why) => Panic(why)
    case Ok(c, p) => if Skip(t, p) == |t| then Ok(c, |t|) else Panic("syntax")
  }
}
