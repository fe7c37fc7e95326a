/**
 The shell's parser as it runs (xv6-user/sh.c): one buffer, one cursor moved by every call, and
 nulterminate writing the ends of words into the text that was parsed.
 */
module ShellParser {
  import opened ShellGrammar
  import opened ShellRoundTrip
  import S = ShellSyntax

  // ---------------------------------------------------------------- words of a parse

  /** A whole word of the text: word characters up to, but not including, one that is not. */
  ghost predicate TokenSpan(t: string, s: Span) {
    && s.q < s.eq <= |t|
    && (forall k :: s.q <= k < s.eq ==> WordChar(t[k]))
    && (s.eq < |t| ==> !WordChar(t[s.eq]))
  }

  ghost predicate AllTokens(t: string, ss: seq<Span>) {
    forall k :: 0 <= k < |ss| ==> TokenSpan(t, ss[k])
  }

  ghost predicate RedirectTokens(t: string, w: seq<Redirect<Span>>) {
    forall k :: 0 <= k < |w| ==> TokenSpan(t, w[k].file)
  }

  ghost predicate Tokens(t: string, c: Cmd<Span>) {
    match c
    case Exec(argv) => AllTokens(t, argv)
    case Redir(d, r) => Tokens(t, d) && TokenSpan(t, r.file)
    case Pipe(a, b) => Tokens(t, a) && Tokens(t, b)
    case List(a, b) => Tokens(t, a) && Tokens(t, b)
    case Back(d) => Tokens(t, d)
  }

  lemma WordToken(t: string, i: nat)
    requires i <= |t| && Lex(t, i).kind == Word
    ensures TokenSpan(t, Span(Lex(t, i).q, Lex(t, i).eq))
  {
  }

  lemma {:induction false} WrapTokens(t: string, c: Cmd<Span>, w: seq<Redirect<Span>>)
    requires Tokens(t, c) && RedirectTokens(t, w)
    ensures Tokens(t, Wrap(c, w))
  {
    if w != [] {
      WrapTokens(t, c, w[..|w| - 1]);
    }
  }

  lemma {:induction false} RedirsTokens(t: string, w: seq<Redirect<Span>>, i: nat)
    requires i <= |t| && RedirectTokens(t, w)
    ensures var r := Redirs(t, w, i); r.Ok? ==> RedirectTokens(t, r.value)
    decreases |t| - i
  {
    hide Lex, TokenSpan, Skip, Peeks;
    if Peeks(t, i, "<>") {
      var a := Lex(t, Skip(t, i));
      var b := Lex(t, a.next);
      if b.kind == Word {
        WordToken(t, a.next);
        assert a.kind != End by { NotEnd(t, i, "<>"); }
        RedirsTokens(t, w + [Redirect(Span(b.q, b.eq), ModeOf(a.kind))], b.next);
      }
    }
  }

  lemma NotEnd(t: string, i: nat, toks: string)
    requires i <= |t| && Peeks(t, i, toks)
    ensures Lex(t, Skip(t, i)).kind != End
  {
  }

  lemma {:induction false} ArgsTokens(t: string, args: seq<Span>, w: seq<Redirect<Span>>, i: nat)
    requires i <= |t| && AllTokens(t, args) && RedirectTokens(t, w)
    ensures var r := Args(t, args, w, i); r.Ok? ==> Tokens(t, r.value)
    decreases |t| - i
  {
    hide Lex, TokenSpan, Skip, Peeks, Redirs, RedirectTokens;
    var r := Redirs(t, w, i);
    if r.Ok? {
      RedirsTokens(t, w, i);
      var b := Lex(t, Skip(t, r.p));
      if Peeks(t, r.p, "|)&;") || b.kind == End {
        WrapTokens(t, Exec(args), r.value);
      } else if b.kind == Word && |args| + 1 < MAXARGS {
        WordToken(t, Skip(t, r.p));
        ArgsTokens(t, args + [Span(b.q, b.eq)], r.value, b.next);
      }
    }
  }

  lemma {:induction false} BacksTokens(t: string, c: Cmd<Span>, i: nat)
    requires i <= |t| && Tokens(t, c)
    ensures Tokens(t, Backs(t, c, i).0)
    decreases |t| - i
  {
    if Peeks(t, i, "&") {
      BacksTokens(t, Back(c), Lex(t, Skip(t, i)).next);
    }
  }

  /** Whatever the text, every word of a parsed command is a whole word of the text. */
  lemma {:induction false} LineTokens(t: string, i: nat)
    requires i <= |t|
    ensures var r := ParseLine(t, i); r.Ok? ==> Tokens(t, r.value)
    decreases |t| - i, 3
  {
    hide Lex, Skip, Peeks, ParsePipe, AllTokens, TokenSpan;
    PipeTokens(t, i);
    var r := ParsePipe(t, i);
    if r.Ok? {
      BacksTokens(t, r.value, r.p);
      var q := Backs(t, r.value, r.p).1;
      if Peeks(t, q, ";") {
        NotEnd(t, q, ";");
        LineTokens(t, Lex(t, Skip(t, q)).next);
      }
    }
  }

  lemma {:induction false} PipeTokens(t: string, i: nat)
    requires i <= |t|
    ensures var r := ParsePipe(t, i); r.Ok? ==> Tokens(t, r.value)
    decreases |t| - i, 2
  {
    hide Lex, Skip, Peeks, ParseExec, AllTokens, TokenSpan;
    ExecTokens(t, i);
    var r := ParseExec(t, i);
    if r.Ok? && Peeks(t, r.p, "|") {
      NotEnd(t, r.p, "|");
      PipeTokens(t, Lex(t, Skip(t, r.p)).next);
    }
  }

  lemma {:induction false} ExecTokens(t: string, i: nat)
    requires i <= |t|
    ensures var r := ParseExec(t, i); r.Ok? ==> Tokens(t, r.value)
    decreases |t| - i, 1
  {
    hide Lex, Peeks, ParseLine, Redirs, Tokens, TokenSpan, Args;
    if !Peeks(t, i, "(") {
      ArgsTokens(t, [], [], Skip(t, i));
    } else {
      BlockTokens(t, Skip(t, i));
    }
  }

  lemma {:induction false} BlockTokens(t: string, i: nat)
    requires i <= |t|
    ensures var r := ParseBlock(t, i); r.Ok? ==> Tokens(t, r.value)
    decreases |t| - i, 0
  {
    hide Lex, Skip, Peeks, ParseLine, Redirs, Tokens, TokenSpan;
    if Peeks(t, i, "(") {
      NotEnd(t, i, "(");
      var j := Lex(t, Skip(t, i)).next;
      LineTokens(t, j);
      var r := ParseLine(t, j);
      if r.Ok? && Peeks(t, r.p, ")") {
        var k := Lex(t, Skip(t, r.p)).next;
        RedirsTokens(t, [], k);
        if Redirs(t, [], k).Ok? {
          WrapTokens(t, r.value, Redirs(t, [], k).value);
        }
      }
    }
  }

  // ---------------------------------------------------------------- NULs behind the words

  /** Where nulterminate writes. */
  ghost function Ends(c: Cmd<Span>): set<nat> {
    match c
    case Exec(argv) => ArgEnds(argv)
    case Redir(d, r) => Ends(d) + {r.file.eq}
    case Pipe(a, b) => Ends(a) + Ends(b)
    case List(a, b) => Ends(a) + Ends(b)
    case Back(d) => Ends(d)
  }

  ghost function ArgEnds(ss: seq<Span>): (r: set<nat>)
    ensures forall k :: 0 <= k < |ss| ==> ss[k].eq in r
  {
    if ss == [] then {} else ArgEnds(ss[..|ss| - 1]) + {ss[|ss| - 1].eq}
  }

  /** The buffer b with a NUL at every place of e. */
  ghost predicate Cut(b: seq<char>, a: seq<char>, e: set<nat>) {
    |a| == |b| && forall k :: 0 <= k < |b| ==> a[k] == if k in e then '\0' else b[k]
  }

  /** The C string at q. */
  function CString(b: seq<char>, q: nat): string
    decreases |b| - q
  {
    if q < |b| && b[q] != '\0' then [b[q]] + CString(b, q + 1) else ""
  }

  function CStrings(b: seq<char>, ss: seq<Span>): seq<string> {
    if ss == [] then [] else CStrings(b, ss[..|ss| - 1]) + [CString(b, ss[|ss| - 1].q)]
  }

  /** The command as runcmd reads it, through the pointers to the words. */
  function Read(b: seq<char>, c: Cmd<Span>): Cmd<string> {
    match c
    case Exec(argv) => Exec(CStrings(b, argv))
    case Redir(d, r) => Redir(Read(b, d), Redirect(CString(b, r.file.q), r.mode))
    case Pipe(x, y) => Pipe(Read(b, x), Read(b, y))
    case List(x, y) => List(Read(b, x), Read(b, y))
    case Back(d) => Back(Read(b, d))
  }

  lemma {:induction false} CStringOf(b: seq<char>, q: nat, eq: nat)
    requires q <= eq < |b| && b[eq] == '\0' && forall k :: q <= k < eq ==> b[k] != '\0'
    ensures CString(b, q) == b[q..eq]
    decreases eq - q
  {
    if q < eq {
      CStringOf(b, q + 1, eq);
    }
  }

  /** Ends of words are not inside words. */
  lemma {:induction false} EndsOutside(t: string, c: Cmd<Span>, k: nat)
    requires Tokens(t, c) && k in Ends(c)
    ensures k <= |t| && (k < |t| ==> !WordChar(t[k]))
  {
    match c
    case Exec(argv) => ArgEndsOutside(t, argv, k);
    case Redir(d, r) => if k in Ends(d) { EndsOutside(t, d, k); }
    case Pipe(a, b) => if k in Ends(a) { EndsOutside(t, a, k); } else { EndsOutside(t, b, k); }
    case List(a, b) => if k in Ends(a) { EndsOutside(t, a, k); } else { EndsOutside(t, b, k); }
    case Back(d) => EndsOutside(t, d, k);
  }

  lemma {:induction false} ArgEndsOutside(t: string, ss: seq<Span>, k: nat)
    requires AllTokens(t, ss) && k in ArgEnds(ss)
    ensures k <= |t| && (k < |t| ==> !WordChar(t[k]))
  {
    if k in ArgEnds(ss[..|ss| - 1]) {
      ArgEndsOutside(t, ss[..|ss| - 1], k);
    }
  }

  /** The text with a NUL at the places of e, none of which is inside a word. */
  ghost predicate Terminated(t: string, b: seq<char>, e: set<nat>) {
    && |b| == |t| + 1 && Cut(t + "\0", b, e) && '\0' !in t
    && forall k :: k in e && k < |t| ==> !WordChar(t[k])
  }

  lemma WordReads(t: string, b: seq<char>, e: set<nat>, s: Span)
    requires Terminated(t, b, e) && TokenSpan(t, s) && s.eq in e
    ensures CString(b, s.q) == Str(t, s)
  {
    forall k | s.q <= k < s.eq ensures b[k] == t[k] != '\0' {
      assert (t + "\0")[k] == t[k];
    }
    CStringOf(b, s.q, s.eq);
    assert b[s.q..s.eq] == t[s.q..s.eq];
  }

  lemma {:induction false} ArgsRead(t: string, b: seq<char>, e: set<nat>, ss: seq<Span>)
    requires Terminated(t, b, e) && AllTokens(t, ss) && ArgEnds(ss) <= e
    ensures CStrings(b, ss) == Strs(t, ss)
  {
    hide Terminated, TokenSpan;
    if ss != [] {
      ArgsRead(t, b, e, ss[..|ss| - 1]);
      WordReads(t, b, e, ss[|ss| - 1]);
    }
  }

  lemma {:induction false} CommandReads(t: string, b: seq<char>, e: set<nat>, c: Cmd<Span>)
    requires Terminated(t, b, e) && Tokens(t, c) && Ends(c) <= e
    ensures Read(b, c) == Tree(t, c)
  {
    hide Terminated, TokenSpan, AllTokens;
    match c
    case Exec(argv) => ArgsRead(t, b, e, argv);
    case Redir(d, r) => CommandReads(t, b, e, d); WordReads(t, b, e, r.file);
    case Pipe(x, y) => CommandReads(t, b, e, x); CommandReads(t, b, e, y);
    case List(x, y) => CommandReads(t, b, e, x); CommandReads(t, b, e, y);
    case Back(d) => CommandReads(t, b, e, d);
  }

  // ---------------------------------------------------------------- the parser

  /** parseredirs stops where another call would do nothing. */
  lemma {:induction false} RedirsStop(t: string, w: seq<Redirect<Span>>, i: nat)
    requires i <= |t| && Redirs(t, w, i).Ok?
    ensures var r := Redirs(t, w, i); Skip(t, r.p) == r.p && Redirs(t, r.value, r.p) == r
    decreases |t| - i
  {
    hide Lex;
    if Peeks(t, i, "<>") {
      NotEnd(t, i, "<>");
      var a := Lex(t, Skip(t, i));
      var b := Lex(t, a.next);
      RedirsStop(t, w + [Redirect(Span(b.q, b.eq), ModeOf(a.kind))], b.next);
    }
  }

  /** So the loop of parseexec may be entered after a parseredirs as well as before it. */
  lemma ArgsAgain(t: string, args: seq<Span>, w: seq<Redirect<Span>>, i: nat)
    requires i <= |t| && Redirs(t, w, i).Ok?
    ensures var r := Redirs(t, w, i); Args(t, args, w, i) == Args(t, args, r.value, r.p)
    ensures var r := Redirs(t, w, i); Skip(t, r.p) == r.p && Redirs(t, r.value, r.p) == r
  {
    hide Lex, Redirs, Skip, Peeks, Wrap;
    RedirsStop(t, w, i);
  }

  lemma EndStays(t: string, i: nat)
    requires i <= |t| && Lex(t, i).kind == End
    ensures Lex(t, i).next == Skip(t, i)
  {
  }

  class Parser {
    const buf: array<char>
    const es: nat
    var ps: nat

    /** The buffer holds the text and its NUL; es is where strlen put it. */
    ghost predicate Ready()
      reads this, buf
    {
      es < buf.Length && ps <= es && buf[es] == '\0' && '\0' !in buf[..es]
    }

    ghost function Text(): string
      requires es <= buf.Length
      reads buf
    {
      buf[..es]
    }

    constructor (buf: array<char>, es: nat)
      requires es < buf.Length && buf[es] == '\0' && '\0' !in buf[..es]
      ensures Ready() && ps == 0 && this.buf == buf && this.es == es
    {
      this.buf, this.es, ps := buf, es, 0;
    }

    /** The white-space loop of gettoken and peek. */
    method SkipWhite(i: nat) returns (s: nat)
      requires Ready() && i <= es
      ensures s == Skip(Text(), i)
    {
      hide White;
      s := i;
      while s < es && White(buf[s])
        invariant i <= s <= es && Skip(Text(), s) == Skip(Text(), i)
      {
        s := s + 1;
      }
    }

    method SkipWord(i: nat) returns (s: nat)
      requires Ready() && i <= es
      ensures s == WordEnd(Text(), i)
    {
      hide WordChar;
      s := i;
      while s < es && WordChar(buf[s])
        invariant i <= s <= es && WordEnd(Text(), s) == WordEnd(Text(), i)
      {
        s := s + 1;
      }
    }

    method GetToken() returns (tok: Token)
      requires Ready()
      modifies `ps
      ensures Ready() && tok == Lex(Text(), old(ps)) && ps == tok.next
    {
      hide WordChar, White, Symbol, Skip, WordEnd;
      var q := SkipWhite(ps);
      var kind, eq := End, q;
      if q < es && buf[q] == '>' && buf[q + 1] == '>' {
        kind, eq := More, q + 2;
      } else if q < es && Symbol(buf[q]) {
        kind, eq := Sym(buf[q]), q + 1;
      } else if q < es {
        kind := Word;
        eq := SkipWord(q);
      }
      ps := SkipWhite(eq);
      tok := Token(kind, q, eq, ps);
    }

    method Peek(toks: string) returns (hit: bool)
      requires Ready() && '\0' !in toks
      modifies `ps
      ensures Ready() && ps == Skip(Text(), old(ps)) && hit == Peeks(Text(), old(ps), toks)
    {
      hide Skip;
      ps := SkipWhite(ps);
      hit := buf[ps] in toks;
    }

    method ParseRedirs(w0: seq<Redirect<Span>>) returns (r: Result<seq<Redirect<Span>>>)
      requires Ready()
      modifies `ps
      ensures Ready() && r == Redirs(Text(), w0, old(ps)) && (r.Ok? ==> r.p == ps)
    {
      hide Lex, Skip, Peeks;
      var w := w0;
      var hit := Peek("<>");
      ghost var before := old(ps);
      while hit
        invariant Ready() && before <= es && Redirs(Text(), w, before) == Redirs(Text(), w0, old(ps))
        invariant ps == Skip(Text(), before) && hit == Peeks(Text(), before, "<>")
        decreases es - before, hit
      {
        NotEnd(Text(), before, "<>");
        var a := GetToken();
        var b := GetToken();
        if b.kind != Word {
          return Panic("missing file for redirection");
        }
        w := w + [Redirect(Span(b.q, b.eq), ModeOf(a.kind))];
        before := ps;
        hit := Peek("<>");
      }
      r := Ok(w, ps);
    }

    method ParseExec() returns (r: Result<Cmd<Span>>)
      requires Ready()
      modifies `ps
      ensures Ready() && r == ShellGrammar.ParseExec(Text(), old(ps)) && (r.Ok? ==> r.p == ps)
      decreases es - ps, 1
    {
      hide Lex, Skip, Peeks, Redirs, Args, ShellGrammar.ParseBlock;
      ghost var t := Text();
      var paren := Peek("(");
      if paren {
        r := ParseBlock();
        return;
      }
      r := ParseArgs();
    }

    /** parseexec when no parenthesis opens. */
    method ParseArgs() returns (r: Result<Cmd<Span>>)
      requires Ready()
      modifies `ps
      ensures Ready() && r == Args(Text(), [], [], old(ps)) && (r.Ok? ==> r.p == ps)
    {
      hide Lex, Skip, Peeks, Redirs;
      ghost var t := Text();
      var args: seq<Span> := [];
      var w := ParseRedirs([]);
      if w.Panic? {
        return Panic(w.why);
      }
      ArgsAgain(t, args, [], old(ps));
      while true
        invariant Ready() && Text() == t && old(ps) <= ps && w.Ok? && w == Redirs(t, w.value, ps)
        invariant w.p == ps == Skip(t, ps)
        invariant Args(t, args, w.value, ps) == Args(t, [], [], old(ps))
        decreases es - ps
      {
        var stop := Peek("|)&;");
        if stop {
          break;
        }
        ghost var at := ps;
        var tok := GetToken();
        if tok.kind == End {
          EndStays(t, at);
          break;
        }
        if tok.kind != Word {
          return Panic("syntax");
        }
        if |args| + 1 >= MAXARGS {
          return Panic("too many args");
        }
        args := args + [Span(tok.q, tok.eq)];
        var v := ParseRedirs(w.value);
        if v.Panic? {
          return Panic(v.why);
        }
        ArgsAgain(t, args, w.value, tok.next);
        w := v;
      }
      r := Ok(Wrap(Exec(args), w.value), ps);
    }

    method ParseBlock() returns (r: Result<Cmd<Span>>)
      requires Ready()
      modifies `ps
      ensures Ready() && r == ShellGrammar.ParseBlock(Text(), old(ps)) && (r.Ok? ==> r.p == ps)
      decreases es - ps, 0
    {
      hide Lex, Skip, Peeks, Redirs, ShellGrammar.ParseLine, Wrap;
      ghost var t := Text();
      var open := Peek("(");
      if !open {
        return Panic("parseblock");
      }
      NotEnd(t, old(ps), "(");
      var tok := GetToken();
      var c := ParseLine();
      if c.Panic? {
        return c;
      }
      var close := Peek(")");
      if !close {
        return Panic("syntax - missing )");
      }
      tok := GetToken();
      var w := ParseRedirs([]);
      if w.Panic? {
        return Panic(w.why);
      }
      r := Ok(Wrap(c.value, w.value), ps);
    }

    method ParsePipe() returns (r: Result<Cmd<Span>>)
      requires Ready()
      modifies `ps
      ensures Ready() && r == ShellGrammar.ParsePipe(Text(), old(ps)) && (r.Ok? ==> r.p == ps)
      decreases es - ps, 2
    {
      hide Lex, Skip, Peeks, ShellGrammar.ParseExec;
      ghost var t := Text();
      var c := ParseExec();
      if c.Panic? {
        return c;
      }
      var bar := Peek("|");
      if !bar {
        return Ok(c.value, ps);
      }
      NotEnd(t, c.p, "|");
      var tok := GetToken();
      var d := ParsePipe();
      if d.Panic? {
        return d;
      }
      r := Ok(Pipe(c.value, d.value), ps);
    }

    /** The & loop of parseline. */
    method ParseBacks(c0: Cmd<Span>) returns (c: Cmd<Span>)
      requires Ready()
      modifies `ps
      ensures Ready() && (c, ps) == Backs(Text(), c0, old(ps))
    {
      hide Lex, Skip, Peeks;
      c := c0;
      ghost var before := ps;
      var amp := Peek("&");
      while amp
        invariant Ready() && before <= es && Backs(Text(), c, before) == Backs(Text(), c0, old(ps))
        invariant ps == Skip(Text(), before) && amp == Peeks(Text(), before, "&")
        decreases es - before, amp
      {
        NotEnd(Text(), before, "&");
        var tok := GetToken();
        c := Back(c);
        before := ps;
        amp := Peek("&");
      }
    }

    method ParseLine() returns (r: Result<Cmd<Span>>)
      requires Ready()
      modifies `ps
      ensures Ready() && r == ShellGrammar.ParseLine(Text(), old(ps)) && (r.Ok? ==> r.p == ps)
      decreases es - ps, 3
    {
      hide Lex, Skip, Peeks, ShellGrammar.ParsePipe, Backs;
      ghost var t := Text();
      var p := ParsePipe();
      if p.Panic? {
        return p;
      }
      var c := ParseBacks(p.value);
      ghost var q := ps;
      var semi := Peek(";");
      if !semi {
        return Ok(c, ps);
      }
      NotEnd(t, q, ";");
      var tok := GetToken();
      var d := ParseLine();
      if d.Panic? {
        return d;
      }
      r := Ok(List(c, d.value), ps);
    }

    /** nulterminate: a NUL behind every word of c and nowhere else. */
    method NulTerminate(c: Cmd<Span>)
      requires forall k :: k in Ends(c) ==> k < buf.Length
      modifies buf
      ensures Cut(old(buf[..]), buf[..], Ends(c))
      decreases c
    {
      match c
      case Exec(argv) =>
        assert ArgEnds(argv) == Ends(c);
        TerminateArgs(argv);
      case Redir(d, r) =>
        assert Ends(d) <= Ends(c);
        assert r.file.eq in Ends(c);
        NulTerminate(d);
        buf[r.file.eq] := '\0';
      case Pipe(a, b) =>
        assert Ends(a) <= Ends(c) && Ends(b) <= Ends(c);
        NulTerminate(a);
        NulTerminate(b);
      case List(a, b) =>
        assert Ends(a) <= Ends(c) && Ends(b) <= Ends(c);
        NulTerminate(a);
        NulTerminate(b);
      case Back(d) =>
        assert Ends(d) == Ends(c);
        NulTerminate(d);
    }

    method TerminateArgs(argv: seq<Span>)
      requires forall k :: k in ArgEnds(argv) ==> k < buf.Length
      modifies buf
      ensures Cut(old(buf[..]), buf[..], ArgEnds(argv))
    {
      for i := 0 to |argv|
        invariant Cut(old(buf[..]), buf[..], ArgEnds(argv[..i]))
      {
        assert argv[..i + 1][..i] == argv[..i];
        assert argv[i].eq in ArgEnds(argv);
        buf[argv[i].eq] := '\0';
      }
      assert argv[..|argv|] == argv;
    }

    /**
     parsecmd: a command exactly when the text is one of the grammar, and then that command, whose words
     read, as C strings in the buffer, as they stood in the text; a text that a command was printed to
     gives that command.
     */
    method ParseCmd() returns (r: Result<Cmd<Span>>)
      requires Ready() && ps == 0
      modifies `ps, buf
      ensures r == ShellGrammar.ParseCmd(old(Text()))
      ensures forall c :: r == Ok(c, es) <==> exists s :: S.Derived(old(Text()), 0, s, 3, c, es)
      ensures Cut(old(buf[..]), buf[..], if r.Ok? then Ends(r.value) else {})
      ensures r.Ok? ==> Read(buf[..es + 1], r.value) == Tree(old(Text()), r.value)
      ensures forall c :: WellFormed(c) && old(Text()) == Print(c, 3) ==> r.Ok? && Read(buf[..es + 1], r.value) == c
    {
      hide ShellGrammar.ParseLine, Print, WellFormed, Read, Tree, Ends, S.Derived;
      ghost var t := Text();
      assert buf[..es + 1] == t + "\0";
      r := ParseLine();
      if r.Ok? {
        var dummy := Peek("");
        if ps != es {
          r := Panic("syntax");
        } else {
          LineTokens(t, 0);
          ghost var c := r.value;
          forall k | k in Ends(c) ensures k <= es && (k < es ==> !WordChar(t[k])) {
            EndsOutside(t, c, k);
          }
          NulTerminate(r.value);
          CommandReads(t, buf[..es + 1], Ends(c), c);
          r := Ok(r.value, es);
        }
      }
      forall c ensures r == Ok(c, es) <==> exists s :: S.Derived(t, 0, s, 3, c, es) {
        S.ParsesExactly(t, c);
      }
      forall c | WellFormed(c) && t == Print(c, 3) ensures r.Ok? && Read(buf[..es + 1], r.value) == c {
        var d := RoundTrip(c);
      }
    }
  }
}
