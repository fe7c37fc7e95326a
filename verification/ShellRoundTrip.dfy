/**
 Printing a command and parsing the text gives the command back (xv6-user/sh.c).
 */
module ShellRoundTrip {
  import opened ShellGrammar

  // ---------------------------------------------------------------- the printer

  /** Words the shell can hold: not empty, no white space, no symbol, no NUL. */
  predicate WellFormedWord(w: string) {
    w != [] && forall i :: 0 <= i < |w| ==> WordChar(w[i]) && w[i] != '\0'
  }

  predicate WellFormed(c: Cmd<string>) {
    match c
    case Exec(argv) => |argv| < MAXARGS && forall i :: 0 <= i < |argv| ==> WellFormedWord(argv[i])
    case Redir(d, r) => WellFormed(d) && WellFormedWord(r.file)
    case Pipe(l, r) => WellFormed(l) && WellFormed(r)
    case List(l, r) => WellFormed(l) && WellFormed(r)
    case Back(d) => WellFormed(d)
  }

  /** How loosely a command binds: 0 in parseexec, 1 in parsepipe, 2 before the &s, 3 in parseline. */
  function Level(c: Cmd<string>): nat {
    match c
    case Exec(_) => 0
    case Redir(_, _) => 0
    case Pipe(_, _) => 1
    case Back(_) => 2
    case List(_, _) => 3
  }

  function PrintWords(ws: seq<string>): string {
    if ws == [] then "" else ws[0] + " " + PrintWords(ws[1..])
  }

  function PrintRedirect(r: Redirect<string>): string {
    (match r.mode case In => "< " case Out => "> " case Append => ">> ") + r.file + " "
  }

  /** The command where the grammar wants one of level at most l, in parentheses if it binds looser. */
  function Print(c: Cmd<string>, l: nat): string
    decreases c, if Level(c) <= l then 0 else 1
  {
    if Level(c) > l then "( " + Print(c, 3) + ") " else
      match c
      case Exec(argv) => PrintWords(argv)
      case Redir(d, r) => Print(d, 0) + PrintRedirect(r)
      case Pipe(a, b) => Print(a, 0) + "| " + Print(b, 1)
      case Back(d) => Print(d, 2) + "& "
      case List(a, b) => Print(a, 2) + "; " + Print(b, 3)
  }

  // ---------------------------------------------------------------- reading spans

  function Str(t: string, s: Span): string {
    if s.q <= s.eq <= |t| then t[s.q..s.eq] else ""
  }

  function Strs(t: string, ss: seq<Span>): seq<string> {
    if ss == [] then [] else Strs(t, ss[..|ss| - 1]) + [Str(t, ss[|ss| - 1])]
  }

  function Tree(t: string, c: Cmd<Span>): Cmd<string> {
    match c
    case Exec(argv) => Exec(Strs(t, argv))
    case Redir(d, r) => Redir(Tree(t, d), Redirect(Str(t, r.file), r.mode))
    case Pipe(a, b) => Pipe(Tree(t, a), Tree(t, b))
    case List(a, b) => List(Tree(t, a), Tree(t, b))
    case Back(d) => Back(Tree(t, d))
  }

  // ---------------------------------------------------------------- tokens of a printed text

  predicate Clean(rest: string) {
    rest == "" || !White(rest[0])
  }

  lemma StopAt(t: string, i: nat, rest: string)
    requires i <= |t| && t[i..] == rest && Clean(rest)
    ensures Skip(t, i) == i == |t| - |rest|
    ensures forall toks :: Peeks(t, i, toks) <==> rest != "" && rest[0] in toks
  {
    assert rest != "" ==> t[i] == rest[0];
  }

  lemma SymAt(t: string, i: nat, c: char, rest: string)
    requires i <= |t| && t[i..] == [c, ' '] + rest && Clean(rest) && Symbol(c)
    ensures Lex(t, i) == Token(Sym(c), i, i + 1, i + 2) && t[i + 2..] == rest
  {
    assert t[i] == c && t[i + 1] == ' ';
    assert t[i + 2..] == t[i..][2..] == rest;
    StopAt(t, i + 2, rest);
    assert Skip(t, i + 1) == i + 2;
  }

  lemma MoreAt(t: string, i: nat, rest: string)
    requires i <= |t| && t[i..] == ">> " + rest && Clean(rest)
    ensures Lex(t, i) == Token(More, i, i + 2, i + 3) && t[i + 3..] == rest
  {
    assert t[i] == '>' && t[i + 1] == '>' && t[i + 2] == ' ';
    assert t[i + 3..] == t[i..][3..] == rest;
    StopAt(t, i + 3, rest);
    assert Skip(t, i + 2) == i + 3;
  }

  lemma WordText(t: string, i: nat, w: string, rest: string)
    requires i <= |t| && t[i..] == w + " " + rest
    ensures i + |w| < |t| && t[i + |w|] == ' ' && t[i..i + |w|] == w && t[i + |w| + 1..] == rest
    ensures forall k :: i <= k < i + |w| ==> t[k] == w[k - i]
  {
    var n := |w|;
    forall k | i <= k < i + n ensures t[k] == w[k - i] {
      assert t[i..][k - i] == w[k - i];
    }
    assert t[i..][n] == ' ';
    assert t[i + n + 1..] == t[i..][n + 1..];
  }

  lemma WordAt(t: string, i: nat, w: string, rest: string)
    requires i <= |t| && t[i..] == w + " " + rest && Clean(rest) && WellFormedWord(w)
    ensures Lex(t, i) == Token(Word, i, i + |w|, i + |w| + 1)
    ensures t[i + |w| + 1..] == rest && Str(t, Span(i, i + |w|)) == w
  {
    var n := |w|;
    WordText(t, i, w, rest);
    StopAt(t, i + n + 1, rest);
    assert Skip(t, i + n) == i + n + 1;
    assert WordEnd(t, i) == i + n;
    assert t[i] == w[0];
  }

  // ---------------------------------------------------------------- what parseexec has in hand

  /** The command parseexec is building: an exec node whose arguments it collects, or a finished block. */
  datatype Head = Words(args: seq<Span>) | Block(c: Cmd<Span>)

  function Build(h: Head): Cmd<Span> {
    match h
    case Words(args) => Exec(args)
    case Block(c) => c
  }

  function Finish(t: string, h: Head, w: seq<Redirect<Span>>, i: nat): Result<Cmd<Span>>
    requires i <= |t|
  {
    match h
    case Words(args) => Args(t, args, w, i)
    case Block(c) =>
      match Redirs(t, w, i)
      case Panic(why) => Panic(why)
      case Ok(v, p) => Ok(Wrap(c, v), p)
  }

  /** What may follow a command of level l. */
  predicate Follow(l: nat, rest: string) {
    rest == "" || rest[0] in (if l == 0 then "<>|&;)" else if l < 3 then "&;)" else ")")
  }

  lemma FollowClean(l: nat, rest: string)
    requires Follow(l, rest)
    ensures Clean(rest) && (l == 0 || Follow(0, rest)) && (rest != "" ==> rest[0] != '(')
  {
  }

  function Flat(t: string, w: seq<Redirect<Span>>): seq<Redirect<string>> {
    if w == [] then [] else var r := w[|w| - 1]; Flat(t, w[..|w| - 1]) + [Redirect(Str(t, r.file), r.mode)]
  }

  /** Nothing is left for parseexec once its follow set is reached. */
  lemma FinishAt(t: string, h: Head, w: seq<Redirect<Span>>, i: nat, rest: string)
    requires i <= |t| && t[i..] == rest && (rest == "" || rest[0] in "|&;)")
    ensures Finish(t, h, w, i) == Ok(Wrap(Build(h), w), i)
  {
    StopAt(t, i, rest);
    assert Redirs(t, w, i) == Ok(w, i);
    if rest == "" {
      assert Lex(t, i).kind == End;
    }
  }

  lemma RedirectSymbol(t: string, i: nat, r: Redirect<string>, rest: string) returns (j: nat)
    requires i <= |t| && t[i..] == PrintRedirect(r) + rest && WellFormedWord(r.file)
    ensures Skip(t, i) == i && Peeks(t, i, "<>") && Lex(t, i).next == j <= |t|
    ensures ModeOf(Lex(t, i).kind) == r.mode
    ensures t[j..] == r.file + " " + rest
  {
    hide Lex, Skip;
    var after := r.file + " " + rest;
    assert after[0] == r.file[0];
    StopAt(t, i, PrintRedirect(r) + rest);
    match r.mode
    case Append =>
      assert t[i..] == ">> " + after;
      MoreAt(t, i, after);
      j := i + 3;
    case In =>
      assert t[i..] == ['<', ' '] + after;
      SymAt(t, i, '<', after);
      j := i + 2;
    case Out =>
      assert t[i..] == ['>', ' '] + after;
      SymAt(t, i, '>', after);
      j := i + 2;
  }

  /** One printed redirection is one turn of the loop of parseredirs. */
  lemma RedirectStep(t: string, w: seq<Redirect<Span>>, i: nat, r: Redirect<string>, rest: string)
    returns (x: Redirect<Span>)
    requires i <= |t| && t[i..] == PrintRedirect(r) + rest && Clean(rest) && WellFormedWord(r.file)
    ensures |rest| <= |t| && t[|t| - |rest|..] == rest
    ensures Redirs(t, w, i) == Redirs(t, w + [x], |t| - |rest|)
    ensures Redirect(Str(t, x.file), x.mode) == r
  {
    hide Lex, Skip, PrintRedirect, WellFormedWord, Peeks, Str;
    var j := RedirectSymbol(t, i, r, rest);
    WordAt(t, j, r.file, rest);
    assert |t[j + |r.file| + 1..]| == |rest|;
    x := Redirect(Span(j, j + |r.file|), r.mode);
  }

  lemma WordFirst(t: string, done: seq<Span>, i: nat, w: string, after: string)
    requires i <= |t| && t[i..] == w + " " + after && Clean(after) && WellFormedWord(w) && |done| + 1 < MAXARGS
    ensures i + |w| + 1 <= |t| && t[i + |w| + 1..] == after && Str(t, Span(i, i + |w|)) == w
    ensures Args(t, done, [], i) == Args(t, done + [Span(i, i + |w|)], [], i + |w| + 1)
  {
    hide Lex, Skip, Str;
    WordAt(t, i, w, after);
    assert WordChar(w[0]) && (w + " " + after)[0] == w[0];
    StopAt(t, i, w + " " + after);
    assert Redirs(t, [], i) == Ok([], i);
  }

  lemma WordsClean(ws: seq<string>, rest: string)
    requires Follow(0, rest) && forall k :: 0 <= k < |ws| ==> WellFormedWord(ws[k])
    ensures Clean(PrintWords(ws) + rest)
  {
    if ws != [] {
      assert (PrintWords(ws) + rest)[0] == ws[0][0] && WellFormedWord(ws[0]);
    } else {
      assert PrintWords(ws) + rest == rest;
      FollowClean(0, rest);
    }
  }

  lemma StrsMore(t: string, done: seq<Span>, x: Span, ws: seq<string>)
    requires ws != [] && Str(t, x) == ws[0]
    ensures Strs(t, done + [x]) + ws[1..] == Strs(t, done) + ws
  {
    assert (done + [x])[..|done|] == done;
  }

  /** The printed words are so many turns of the loop of parseexec. */
  lemma {:induction false} WordsStep(t: string, done: seq<Span>, i: nat, ws: seq<string>, rest: string)
    returns (args: seq<Span>)
    requires i <= |t| && t[i..] == PrintWords(ws) + rest && Follow(0, rest)
    requires |done| + |ws| < MAXARGS && forall k :: 0 <= k < |ws| ==> WellFormedWord(ws[k])
    ensures |rest| <= |t| && t[|t| - |rest|..] == rest
    ensures Args(t, done, [], i) == Args(t, args, [], |t| - |rest|)
    ensures Strs(t, args) == Strs(t, done) + ws
    decreases |ws|
  {
    hide Args, WellFormedWord, Follow, Str, Strs;
    if ws == [] {
      assert PrintWords(ws) + rest == rest;
      args := done;
      assert Strs(t, done) + ws == Strs(t, done);
    } else {
      var w, after := ws[0], PrintWords(ws[1..]) + rest;
      assert t[i..] == w + " " + after;
      WordsClean(ws[1..], rest);
      WordFirst(t, done, i, w, after);
      StrsMore(t, done, Span(i, i + |w|), ws);
      args := WordsStep(t, done + [Span(i, i + |w|)], i + |w| + 1, ws[1..], rest);
    }
  }

  lemma {:induction false} TreeWrap(t: string, c: Cmd<Span>, w: seq<Redirect<Span>>)
    ensures Tree(t, Wrap(c, w)) == Wrap(Tree(t, c), Flat(t, w))
  {
    if w != [] {
      TreeWrap(t, c, w[..|w| - 1]);
      var f := Flat(t, w);
      assert f[..|f| - 1] == Flat(t, w[..|w| - 1]);
    }
  }

  // ---------------------------------------------------------------- the round trip, level by level

  function Rank(c: Cmd<string>, l: nat): nat {
    if Level(c) <= l then l else l + 4
  }

  lemma Associative(x: string, y: string, z: string)
    ensures x + y + z == x + (y + z)
  {
  }

  /** Printed text never begins with white space, whatever level it is printed at. */
  lemma {:induction false} PrintClean(c: Cmd<string>, l: nat, rest: string)
    requires WellFormed(c) && Follow(l, rest)
    ensures Clean(Print(c, l) + rest)
    decreases c, if Level(c) <= l then 0 else 1
  {
    if Level(c) > l {
      assert (Print(c, l) + rest)[0] == '(';
    } else {
      match c
      case Exec(argv) =>
        FollowClean(l, rest);
        WordsClean(argv, rest);
      case Redir(d, r) =>
        Associative(Print(d, 0), PrintRedirect(r), rest);
        PrintClean(d, 0, PrintRedirect(r) + rest);
      case Pipe(a, b) =>
        Associative(Print(a, 0), "| " + Print(b, 1), rest);
        assert Print(a, 0) + "| " + Print(b, 1) == Print(a, 0) + ("| " + Print(b, 1));
        PrintClean(a, 0, "| " + Print(b, 1) + rest);
      case Back(d) =>
        Associative(Print(d, 2), "& ", rest);
        PrintClean(d, 2, "& " + rest);
      case List(a, b) =>
        Associative(Print(a, 2), "; " + Print(b, 3), rest);
        assert Print(a, 2) + "; " + Print(b, 3) == Print(a, 2) + ("; " + Print(b, 3));
        PrintClean(a, 2, "; " + Print(b, 3) + rest);
    }
  }

  lemma ExecStart(t: string, i: nat, argv: seq<string>, rest: string)
    requires i <= |t| && t[i..] == PrintWords(argv) + rest && Follow(0, rest) && WellFormed(Exec(argv))
    ensures ParseExec(t, i) == Args(t, [], [], i)
  {
    hide Args, ParseBlock;
    WordsClean(argv, rest);
    FollowClean(0, rest);
    StopAt(t, i, PrintWords(argv) + rest);
    if argv == [] {
      assert PrintWords(argv) + rest == rest;
    } else {
      assert (PrintWords(argv) + rest)[0] == argv[0][0] && WellFormedWord(argv[0]);
    }
  }

  lemma FlatMore(t: string, c: Cmd<string>, w: seq<Redirect<Span>>, x: Redirect<Span>)
    ensures Wrap(c, Flat(t, w + [x])) == Redir(Wrap(c, Flat(t, w)), Redirect(Str(t, x.file), x.mode))
  {
    assert (w + [x])[..|w|] == w;
    var f := Flat(t, w + [x]);
    assert f[..|f| - 1] == Flat(t, w);
  }

  lemma FinishStep(t: string, h: Head, w: seq<Redirect<Span>>, i: nat, v: seq<Redirect<Span>>, j: nat)
    requires i <= |t| && j <= |t| && Redirs(t, w, i) == Redirs(t, v, j)
    ensures Finish(t, h, w, i) == Finish(t, h, v, j)
  {
    hide Redirs, Lex, Skip;
  }

  /** A printed symbol and what follows it. */
  function Then(c: char, rest: string): string {
    [c, ' '] + rest
  }

  /** The text from i on is x. */
  ghost predicate Ahead(t: string, i: nat, x: string) {
    i <= |t| && t[i..] == x
  }

  lemma Stops(t: string, i: nat, rest: string)
    requires i <= |t| && Ahead(t, i, rest) && Clean(rest)
    ensures Skip(t, i) == i && forall toks :: Peeks(t, i, toks) <==> rest != "" && rest[0] in toks
  {
    StopAt(t, i, rest);
  }

  /** A printed symbol in front of more text. */
  lemma Symbolic(t: string, i: nat, c: char, rest: string)
    requires i <= |t| && Ahead(t, i, Then(c, rest)) && Clean(rest) && Symbol(c)
    ensures i + 2 <= |t| && Ahead(t, i + 2, rest) && Lex(t, i).next == i + 2
    ensures Skip(t, i) == i && forall toks :: Peeks(t, i, toks) <==> c in toks
  {
    hide Peeks;
    SymAt(t, i, c, rest);
    StopAt(t, i, Then(c, rest));
  }

  lemma LooseText(c: Cmd<string>, l: nat, rest: string)
    requires Level(c) > l
    ensures Print(c, l) + rest == Then('(', Print(c, 3) + Then(')', rest))
  {
  }

  lemma RedirText(d: Cmd<string>, r: Redirect<string>, l: nat, rest: string)
    ensures Print(Redir(d, r), l) + rest == Print(d, 0) + (PrintRedirect(r) + rest)
  {
  }

  lemma PipeText(a: Cmd<string>, b: Cmd<string>, rest: string)
    ensures Print(Pipe(a, b), 1) + rest == Print(a, 0) + Then('|', Print(b, 1) + rest)
  {
  }

  lemma BackText(d: Cmd<string>, rest: string)
    ensures Print(Back(d), 2) + rest == Print(d, 2) + Then('&', rest)
  {
  }

  lemma ListText(a: Cmd<string>, b: Cmd<string>, rest: string)
    ensures Print(List(a, b), 3) + rest == Print(a, 2) + Then(';', Print(b, 3) + rest)
  {
  }

  /** One redirection, for a command in hand. */
  lemma RedirectTaken(t: string, i: nat, h: Head, w: seq<Redirect<Span>>, r: Redirect<string>, rest: string)
    returns (v: seq<Redirect<Span>>, p: nat)
    requires i <= |t| && Ahead(t, i, PrintRedirect(r) + rest) && Clean(rest) && WellFormedWord(r.file)
    ensures p <= |t| && Ahead(t, p, rest) && Finish(t, h, w, i) == Finish(t, h, v, p)
    ensures forall c :: Wrap(c, Flat(t, v)) == Redir(Wrap(c, Flat(t, w)), r)
  {
    hide Finish, Redirs, PrintRedirect, WellFormedWord;
    var x := RedirectStep(t, w, i, r, rest);
    p, v := |t| - |rest|, w + [x];
    FinishStep(t, h, w, i, v, p);
    forall c ensures Wrap(c, Flat(t, v)) == Redir(Wrap(c, Flat(t, w)), r) {
      FlatMore(t, c, w, x);
    }
  }

  /** A parenthesised line, up to the redirections behind it. */
  lemma BlockTaken(t: string, i: nat, j: nat, d: Cmd<Span>, inner: string, rest: string)
    requires i + 2 <= |t| && Ahead(t, i, Then('(', inner)) && Clean(inner) && Clean(rest)
    requires j <= |t| && Ahead(t, j, Then(')', rest)) && ParseLine(t, i + 2) == Ok(d, j)
    ensures j + 2 <= |t| && Ahead(t, j + 2, rest) && ParseExec(t, i) == Finish(t, Block(d), [], j + 2)
  {
    hide Lex, Skip, ParseLine, Redirs, Ahead, Peeks, Clean;
    Symbolic(t, i, '(', inner);
    Symbolic(t, j, ')', rest);
  }

  lemma {:induction false} ExecLevel(t: string, i: nat, c: Cmd<string>, rest: string)
    returns (h: Head, w: seq<Redirect<Span>>, p: nat)
    requires i <= |t| && Ahead(t, i, Print(c, 0) + rest) && Follow(0, rest) && WellFormed(c)
    ensures p <= |t| && Ahead(t, p, rest) && ParseExec(t, i) == Finish(t, h, w, p)
    ensures Wrap(Tree(t, Build(h)), Flat(t, w)) == c
    decreases c, Rank(c, 0), 1
  {
    hide Then, ParseExec, Args, Redirs, Clean, WellFormedWord, Finish, PrintWords, PrintRedirect, Ahead, Follow, Print,
      Flat, Peeks, Skip;
    FollowClean(0, rest);
    if c.Exec? {
      h, p := ExecOf(t, i, c.argv, rest);
      w := [];
    } else if c.Redir? {
      RedirText(c.cmd, c.redirect, 0, rest);
      RedirectFollows(c.redirect, rest);
      h, w, p := ExecLevel(t, i, c.cmd, PrintRedirect(c.redirect) + rest);
      w, p := RedirectTaken(t, p, h, w, c.redirect, rest);
    } else {
      h, p := BlockLevel(t, i, c, rest);
      w := [];
    }
  }

  lemma {:induction false} BlockLevel(t: string, i: nat, c: Cmd<string>, rest: string) returns (h: Head, p: nat)
    requires i <= |t| && Ahead(t, i, Print(c, 0) + rest) && Clean(rest) && WellFormed(c) && Level(c) > 0
    ensures p <= |t| && Ahead(t, p, rest) && ParseExec(t, i) == Finish(t, h, [], p)
    ensures Wrap(Tree(t, Build(h)), Flat(t, [])) == c
    decreases c, Rank(c, 0), 0
  {
    hide Then, ParseExec, ParseLine, Clean, Finish, Ahead, Follow, Print, Flat, Wrap, Tree, WellFormed;
    BlockOpened(t, i, c, rest);
    var d, j := LineLevel(t, i + 2, c, Then(')', rest));
    p := BlockClosed(t, i, j, d, c, rest);
    h := Block(d);
  }

  lemma BlockOpened(t: string, i: nat, c: Cmd<string>, rest: string)
    requires i <= |t| && Ahead(t, i, Print(c, 0) + rest) && WellFormed(c) && Level(c) > 0
    ensures i + 2 <= |t| && Ahead(t, i + 2, Print(c, 3) + Then(')', rest)) && Follow(3, Then(')', rest))
  {
    hide Then, Ahead, Print, Peeks, Skip, WellFormed;
    LooseText(c, 0, rest);
    BlockClean(c, rest);
    Symbolic(t, i, '(', Print(c, 3) + Then(')', rest));
  }

  lemma BlockClosed(t: string, i: nat, j: nat, d: Cmd<Span>, c: Cmd<string>, rest: string) returns (p: nat)
    requires i + 2 <= |t| && Ahead(t, i, Print(c, 0) + rest) && Clean(rest) && WellFormed(c) && Level(c) > 0
    requires j <= |t| && Ahead(t, j, Then(')', rest)) && ParseLine(t, i + 2) == Ok(d, j)
    ensures p <= |t| && Ahead(t, p, rest) && ParseExec(t, i) == Finish(t, Block(d), [], p)
    ensures Wrap(Tree(t, d), Flat(t, [])) == Tree(t, d)
  {
    hide Then, Ahead, Print, Peeks, Skip, WellFormed, ParseLine, ParseExec, Finish, Clean;
    LooseText(c, 0, rest);
    BlockClean(c, rest);
    BlockTaken(t, i, j, d, Print(c, 3) + Then(')', rest), rest);
    p := j + 2;
  }

  lemma BlockClean(c: Cmd<string>, rest: string)
    requires WellFormed(c)
    ensures Clean(Print(c, 3) + Then(')', rest)) && Follow(3, Then(')', rest))
  {
    PrintClean(c, 3, Then(')', rest));
  }

  lemma ExecOf(t: string, i: nat, argv: seq<string>, rest: string) returns (h: Head, p: nat)
    requires i <= |t| && Ahead(t, i, Print(Exec(argv), 0) + rest) && Follow(0, rest) && WellFormed(Exec(argv))
    ensures p <= |t| && Ahead(t, p, rest) && ParseExec(t, i) == Finish(t, h, [], p)
    ensures Wrap(Tree(t, Build(h)), Flat(t, [])) == Exec(argv)
  {
    hide ParseExec, Args, WellFormedWord, Follow;
    ExecStart(t, i, argv, rest);
    var args := WordsStep(t, [], i, argv, rest);
    assert Strs(t, []) + argv == argv;
    h, p := Words(args), |t| - |rest|;
  }

  lemma RedirectFollows(r: Redirect<string>, rest: string)
    ensures Follow(0, PrintRedirect(r) + rest)
  {
  }

  /** A command of parseexec that is followed by something else. */
  lemma Exec0(t: string, i: nat, c: Cmd<string>, rest: string) returns (d: Cmd<Span>, p: nat)
    requires i <= |t| && Ahead(t, i, Print(c, 0) + rest) && (rest == "" || rest[0] in "|&;)") && WellFormed(c)
    ensures p <= |t| && Ahead(t, p, rest) && ParseExec(t, i) == Ok(d, p) && Tree(t, d) == c
    decreases c, Rank(c, 0), 2
  {
    hide Then, ParseExec, Args, Redirs, Finish, Print, Flat, Skip;
    var h, w;
    h, w, p := ExecLevel(t, i, c, rest);
    FinishAt(t, h, w, p, rest);
    TreeWrap(t, Build(h), w);
    d := Wrap(Build(h), w);
  }

  lemma {:induction false} PipeLevel(t: string, i: nat, c: Cmd<string>, rest: string) returns (d: Cmd<Span>, p: nat)
    requires i <= |t| && Ahead(t, i, Print(c, 1) + rest) && Follow(1, rest) && WellFormed(c)
    ensures p <= |t| && Ahead(t, p, rest) && ParsePipe(t, i) == Ok(d, p) && Tree(t, d) == c
    decreases c, Rank(c, 1)
  {
    hide ParseExec, Lex, Skip, Ahead, Print, Clean, Peeks;
    if c.Pipe? {
      var more := Print(c.right, 1) + rest;
      PipeText(c.left, c.right, rest);
      PrintClean(c.right, 1, rest);
      var a, q := Exec0(t, i, c.left, Then('|', more));
      Symbolic(t, q, '|', more);
      var b;
      b, p := PipeLevel(t, q + 2, c.right, rest);
      d := Pipe(a, b);
    } else {
      SameText(c, 1);
      d, p := Exec0(t, i, c, rest);
      FollowClean(1, rest);
      Stops(t, p, rest);
    }
  }

  lemma SameText(c: Cmd<string>, l: nat)
    requires 0 < l && Level(c) != l
    ensures Print(c, l) == Print(c, l - 1)
  {
  }

  /** Ahead of any &s to come: the loop of parseline has reached the command's own. */
  lemma {:induction false} BackLevel(t: string, i: nat, c: Cmd<string>, rest: string) returns (d: Cmd<Span>, p: nat)
    requires i <= |t| && Ahead(t, i, Print(c, 2) + rest) && Follow(2, rest) && WellFormed(c)
    ensures var r := ParsePipe(t, i); r.Ok? && p <= |t| && Ahead(t, p, rest) && Backs(t, r.value, r.p) == Backs(t, d, p)
    ensures Tree(t, d) == c
    decreases c, Rank(c, 2)
  {
    hide ParsePipe, Lex, Skip, Ahead, Print, Clean, Peeks;
    FollowClean(2, rest);
    if c.Back? {
      BackText(c.job, rest);
      var e, q := BackLevel(t, i, c.job, Then('&', rest));
      Symbolic(t, q, '&', rest);
      d, p := Back(e), q + 2;
    } else {
      SameText(c, 2);
      d, p := PipeLevel(t, i, c, rest);
    }
  }

  lemma {:induction false} LineLevel(t: string, i: nat, c: Cmd<string>, rest: string) returns (d: Cmd<Span>, p: nat)
    requires i <= |t| && Ahead(t, i, Print(c, 3) + rest) && Follow(3, rest) && WellFormed(c)
    ensures p <= |t| && Ahead(t, p, rest) && ParseLine(t, i) == Ok(d, p) && Tree(t, d) == c
    decreases c, Rank(c, 3)
  {
    hide ParsePipe, Lex, Skip, Ahead, Print, Clean, Peeks;
    if c.List? {
      var more := Print(c.rest, 3) + rest;
      ListText(c.first, c.rest, rest);
      PrintClean(c.rest, 3, rest);
      var a, q := BackLevel(t, i, c.first, Then(';', more));
      Symbolic(t, q, ';', more);
      var b;
      b, p := LineLevel(t, q + 2, c.rest, rest);
      d := List(a, b);
    } else {
      SameText(c, 3);
      d, p := BackLevel(t, i, c, rest);
      FollowClean(3, rest);
      Stops(t, p, rest);
    }
  }

  /** Parsing a printed command gives the command back. */
  lemma RoundTrip(c: Cmd<string>) returns (d: Cmd<Span>)
    requires WellFormed(c)
    ensures ParseCmd(Print(c, 3)) == Ok(d, |Print(c, 3)|)
    ensures Tree(Print(c, 3), d) == c
  {
    hide Print, ParseLine;
    var t := Print(c, 3);
    assert t[0..] == t + "";
    var p;
    d, p := LineLevel(t, 0, c, "");
    assert |t[p..]| == 0;
  }
}
