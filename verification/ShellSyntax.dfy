/**
 The grammar of the shell's command language, stated on its own (xv6-user/sh.c): which sequences of
 signs are commands and what commands they are.  The parser accepts exactly these.

   line   =  back | back ; line
   back   =  pipe | back &
   pipe   =  simple | simple "|" pipe
   simple =  words and redirections in any order  |  ( line ) redirections
 */
module ShellSyntax {
  import opened ShellGrammar

  /** A sign of the text: a symbol, or a word with its place. */
  datatype Sign = Mark(kind: Kind) | Name(s: Span)

  datatype Item = Arg(s: Span) | Redirection(r: Redirect<Span>)

  datatype Syntax =
    | Simple(items: seq<Item>)
    | Block(line: Syntax, redirs: seq<Redirect<Span>>)
    | Piped(left: Syntax, right: Syntax)
    | Backed(job: Syntax)
    | Listed(first: Syntax, rest: Syntax)

  function Level(s: Syntax): nat {
    match s
    case Simple(_) => 0
    case Block(_, _) => 0
    case Piped(_, _) => 1
    case Backed(_) => 2
    case Listed(_, _) => 3
  }

  function Sign0(m: Mode): Sign {
    match m
    case In => Mark(Sym('<'))
    case Out => Mark(Sym('>'))
    case Append => Mark(More)
  }

  function RedirectSigns(rs: seq<Redirect<Span>>): seq<Sign> {
    if rs == [] then [] else [Sign0(rs[0].mode), Name(rs[0].file)] + RedirectSigns(rs[1..])
  }

  function OneItem(i: Item): seq<Sign> {
    match i
    case Arg(s) => [Name(s)]
    case Redirection(r) => [Sign0(r.mode), Name(r.file)]
  }

  function ItemSigns(items: seq<Item>): seq<Sign> {
    if items == [] then [] else OneItem(items[0]) + ItemSigns(items[1..])
  }

  /** The words among the items, in order, and the redirections. */
  function WordsOf(items: seq<Item>): seq<Span> {
    if items == [] then [] else (if items[0].Arg? then [items[0].s] else []) + WordsOf(items[1..])
  }

  function RedirectsOf(items: seq<Item>): seq<Redirect<Span>> {
    if items == [] then [] else (if items[0].Arg? then [] else [items[0].r]) + RedirectsOf(items[1..])
  }

  /** The text of a syntax tree. */
  function Signs(s: Syntax): seq<Sign> {
    match s
    case Simple(items) => ItemSigns(items)
    case Block(line, redirs) => [Mark(Sym('('))] + Signs(line) + [Mark(Sym(')'))] + RedirectSigns(redirs)
    case Piped(a, b) => Signs(a) + [Mark(Sym('|'))] + Signs(b)
    case Backed(d) => Signs(d) + [Mark(Sym('&'))]
    case Listed(a, b) => Signs(a) + [Mark(Sym(';'))] + Signs(b)
  }

  /** Its command: every redirection is a node around what it redirects, the first one innermost. */
  function Meaning(s: Syntax): Cmd<Span> {
    match s
    case Simple(items) => Wrap(Exec(WordsOf(items)), RedirectsOf(items))
    case Block(line, redirs) => Wrap(Meaning(line), redirs)
    case Piped(a, b) => Pipe(Meaning(a), Meaning(b))
    case Backed(d) => Back(Meaning(d))
    case Listed(a, b) => List(Meaning(a), Meaning(b))
  }

  /** The trees of the grammar; a command has at most nine words. */
  predicate Fits(s: Syntax) {
    match s
    case Simple(items) => |WordsOf(items)| <= 9
    case Block(line, _) => Fits(line)
    case Piped(a, b) => Fits(a) && Fits(b) && Level(a) == 0 && Level(b) <= 1
    case Backed(d) => Fits(d) && Level(d) <= 2
    case Listed(a, b) => Fits(a) && Fits(b) && Level(a) <= 2
  }

  // ---------------------------------------------------------------- signs in the text

  /** The token at i is the sign. */
  predicate Shows(t: string, i: nat, sign: Sign)
    requires i <= |t|
  {
    var tok := Lex(t, i);
    match sign
    case Mark(k) => k != Word && k != End && tok.kind == k
    case Name(s) => tok.kind == Word && s == Span(tok.q, tok.eq)
  }

  /** The next token: behind white space, the longest word, the symbol >>, another symbol, or the end of the text. */
  lemma TokenMeans(t: string, i: nat)
    requires i <= |t|
    ensures var tok := Lex(t, i);
      && (forall k :: i <= k < tok.q || tok.eq <= k < tok.next ==> t[k] in " \t\r\n\U{0B}")
      && (tok.next < |t| ==> t[tok.next] !in " \t\r\n\U{0B}")
      && (tok.kind == End <==> tok.q == |t|)
      && (tok.kind == More <==> t[tok.q..tok.eq] == ">>")
      && (forall c :: tok.kind == Sym(c) ==> t[tok.q..tok.eq] == [c] && c in "<|>&;()")
      && (tok.kind == Sym('>') && tok.eq < |t| ==> t[tok.eq] != '>')
      && (tok.kind == Word <==>
            tok.q < tok.eq && forall k :: tok.q <= k < tok.eq ==> t[k] !in " \t\r\n\U{0B}<|>&;()")
      && (tok.kind == Word && tok.eq < |t| ==> t[tok.eq] in " \t\r\n\U{0B}<|>&;()")
  {
    hide Skip, WordEnd;
  }

  /** The signs, and nothing but white space between and behind them, lead from i to p. */
  ghost predicate Reads(t: string, i: nat, signs: seq<Sign>, p: nat)
    decreases |signs|
  {
    && i <= |t|
    && if signs == [] then Skip(t, i) == p
       else Shows(t, i, signs[0]) && Reads(t, Lex(t, i).next, signs[1..], p)
  }

  lemma SkipOnce(t: string, i: nat)
    requires i <= |t|
    ensures Skip(t, Skip(t, i)) == Skip(t, i) && Lex(t, Skip(t, i)) == Lex(t, i)
    ensures Skip(t, Lex(t, i).next) == Lex(t, i).next
  {
    hide Lex, Skip;
    SkipFixed(t, i);
    var e := NextSkipped(t, i);
    SkipFixed(t, e);
    LexSkipped(t, i);
  }

  lemma LexSkipped(t: string, i: nat)
    requires i <= |t|
    ensures Lex(t, Skip(t, i)) == Lex(t, i)
  {
    SkipFixed(t, i);
    hide Skip, WordEnd, Symbol;
  }

  lemma NextSkipped(t: string, i: nat) returns (e: nat)
    requires i <= |t|
    ensures e <= |t| && Lex(t, i).next == Skip(t, e)
  {
    hide Skip, WordEnd, Symbol;
    var tok := Lex(t, i);
    e := if tok.kind == End then i else tok.eq;
  }

  lemma SkipFixed(t: string, i: nat)
    requires i <= |t|
    ensures Skip(t, Skip(t, i)) == Skip(t, i)
  {
  }

  /** What peek sees is the kind of the next token. */
  lemma PeekIsKind(t: string, i: nat)
    requires i <= |t|
    ensures Lex(t, i).kind == End <==> Skip(t, i) == |t|
    ensures Lex(t, i).kind == End ==> Lex(t, i).next == Skip(t, i)
    ensures Peeks(t, i, "<>") <==> Lex(t, i).kind in {Sym('<'), Sym('>'), More}
    ensures Peeks(t, i, "(") <==> Lex(t, i).kind == Sym('(')
    ensures Peeks(t, i, ")") <==> Lex(t, i).kind == Sym(')')
    ensures Peeks(t, i, "|") <==> Lex(t, i).kind == Sym('|')
    ensures Peeks(t, i, "&") <==> Lex(t, i).kind == Sym('&')
    ensures Peeks(t, i, ";") <==> Lex(t, i).kind == Sym(';')
    ensures Peeks(t, i, "|)&;") <==> Lex(t, i).kind in {Sym('|'), Sym(')'), Sym('&'), Sym(';')}
    ensures Lex(t, i).kind != End ==> Lex(t, i).next > i
  {
    hide Skip, WordEnd;
    var q := Skip(t, i);
    if q < |t| {
      assert t[q] == '>' || !Symbol(t[q]) || Lex(t, i).kind == Sym(t[q]);
    }
  }

  lemma {:induction false} ReadsOn(t: string, i: nat, a: seq<Sign>, p: nat, b: seq<Sign>, q: nat)
    requires Reads(t, i, a, p) && Reads(t, p, b, q)
    ensures Reads(t, i, a + b, q)
    decreases |a|
  {
    hide Lex, Skip;
    if a == [] {
      assert a + b == b;
      SkipOnce(t, i);
    } else {
      ReadsOn(t, Lex(t, i).next, a[1..], p, b, q);
      assert (a + b)[1..] == a[1..] + b;
    }
  }

  /** Where the first of two texts ends. */
  lemma {:induction false} ReadsCut(t: string, i: nat, a: seq<Sign>, b: seq<Sign>, q: nat) returns (p: nat)
    requires Reads(t, i, a + b, q)
    ensures Reads(t, i, a, p) && Reads(t, p, b, q) && i <= p && Skip(t, p) == p
    decreases |a|
  {
    hide Lex, Skip;
    SkipOnce(t, i);
    if a == [] {
      assert a + b == b;
      p := Skip(t, i);
    } else {
      assert (a + b)[1..] == a[1..] + b;
      p := ReadsCut(t, Lex(t, i).next, a[1..], b, q);
    }
  }

  lemma ReadsSkipped(t: string, i: nat, a: seq<Sign>, p: nat)
    requires i <= |t|
    ensures Reads(t, Skip(t, i), a, p) <==> Reads(t, i, a, p)
  {
    hide Lex, Skip;
    SkipOnce(t, i);
  }

  /** Signs end where the text has been skipped to. */
  lemma {:induction false} ReadsEnd(t: string, i: nat, a: seq<Sign>, p: nat)
    requires Reads(t, i, a, p)
    ensures i <= p <= |t| && Skip(t, p) == p
    decreases |a|
  {
    hide Lex, Skip;
    SkipOnce(t, i);
    if a != [] {
      ReadsEnd(t, Lex(t, i).next, a[1..], p);
    }
  }

  // ---------------------------------------------------------------- what is parsed is a command of the grammar

  lemma {:induction false} RedirsRead(t: string, w: seq<Redirect<Span>>, i: nat) returns (rs: seq<Redirect<Span>>)
    requires i <= |t| && Redirs(t, w, i).Ok?
    ensures Redirs(t, w, i).value == w + rs && Reads(t, i, RedirectSigns(rs), Redirs(t, w, i).p)
    decreases |t| - i
  {
    hide Lex, Skip, Peeks;
    PeekIsKind(t, i);
    SkipOnce(t, i);
    if !Peeks(t, i, "<>") {
      rs := [];
    } else {
      var a := Lex(t, i);
      var b := Lex(t, a.next);
      var r := Redirect(Span(b.q, b.eq), ModeOf(a.kind));
      var more := RedirsRead(t, w + [r], b.next);
      rs := [r] + more;
      assert RedirectSigns(rs)[2..] == RedirectSigns(more);
      assert Reads(t, a.next, RedirectSigns(rs)[1..], Redirs(t, w, i).p);
    }
  }

  lemma ItemFirst(x: Item, more: seq<Item>)
    ensures ItemSigns([x] + more) == OneItem(x) + ItemSigns(more)
    ensures WordsOf([x] + more) == (if x.Arg? then [x.s] else []) + WordsOf(more)
    ensures RedirectsOf([x] + more) == (if x.Arg? then [] else [x.r]) + RedirectsOf(more)
  {
    assert ([x] + more)[1..] == more;
  }

  lemma {:induction false} ItemsOfRedirects(rs: seq<Redirect<Span>>, more: seq<Item>) returns (items: seq<Item>)
    ensures ItemSigns(items) == RedirectSigns(rs) + ItemSigns(more)
    ensures WordsOf(items) == WordsOf(more) && RedirectsOf(items) == rs + RedirectsOf(more)
  {
    hide ItemSigns, WordsOf, RedirectsOf;
    if rs == [] {
      items := more;
    } else {
      var rest := ItemsOfRedirects(rs[1..], more);
      items := [Redirection(rs[0])] + rest;
      ItemFirst(Redirection(rs[0]), rest);
      assert rs == [rs[0]] + rs[1..];
      Associate(OneItem(Redirection(rs[0])), RedirectSigns(rs[1..]), ItemSigns(more));
    }
  }

  lemma Associate<T>(a: seq<T>, b: seq<T>, c: seq<T>)
    ensures a + (b + c) == a + b + c
  {
  }

  /** The items over the text from i to p, and what a command with args and w in hand becomes. */
  ghost predicate Collected(t: string, args: seq<Span>, w: seq<Redirect<Span>>, i: nat, items: seq<Item>, c: Cmd<Span>,
                            p: nat)
  {
    && c == Wrap(Exec(args + WordsOf(items)), w + RedirectsOf(items))
    && Reads(t, i, ItemSigns(items), p) && |args| + |WordsOf(items)| < MAXARGS
  }

  lemma {:induction false} ArgsRead(t: string, args: seq<Span>, w: seq<Redirect<Span>>, i: nat)
    returns (items: seq<Item>)
    requires i <= |t| && Args(t, args, w, i).Ok? && |args| < MAXARGS
    ensures Collected(t, args, w, i, items, Args(t, args, w, i).value, Args(t, args, w, i).p)
    decreases |t| - i
  {
    hide Lex, Skip, Peeks, Redirs, Collected, Reads, Wrap;
    var r := Redirs(t, w, i);
    var rs := RedirsRead(t, w, i);
    var p, q := r.p, Args(t, args, w, i).p;
    PeekIsKind(t, p);
    SkipOnce(t, p);
    ReadsEnd(t, i, RedirectSigns(rs), p);
    var b := Lex(t, p);
    if Peeks(t, p, "|)&;") || b.kind == End {
      items := CollectedLast(t, args, w, i, rs, p);
    } else {
      var more := ArgsRead(t, args + [Span(b.q, b.eq)], r.value, b.next);
      items := CollectedMore(t, args, w, i, rs, p, more, Args(t, args, w, i).value, q);
    }
  }

  lemma CollectedLast(t: string, args: seq<Span>, w: seq<Redirect<Span>>, i: nat, rs: seq<Redirect<Span>>, p: nat)
    returns (items: seq<Item>)
    requires Reads(t, i, RedirectSigns(rs), p) && |args| < MAXARGS
    ensures Collected(t, args, w, i, items, Wrap(Exec(args), w + rs), p)
  {
    hide Lex, Skip, Reads, Wrap;
    items := ItemsOfRedirects(rs, []);
    assert RedirectSigns(rs) + ItemSigns([]) == RedirectSigns(rs);
    assert args + WordsOf(items) == args && rs + RedirectsOf([]) == rs;
  }

  lemma CollectedMore(t: string, args: seq<Span>, w: seq<Redirect<Span>>, i: nat, rs: seq<Redirect<Span>>, p: nat,
                      more: seq<Item>, c: Cmd<Span>, q: nat) returns (items: seq<Item>)
    requires Reads(t, i, RedirectSigns(rs), p) && p <= |t| && Lex(t, p).kind == Word
    requires Collected(t, args + [Span(Lex(t, p).q, Lex(t, p).eq)], w + rs, Lex(t, p).next, more, c, q)
    ensures Collected(t, args, w, i, items, c, q)
  {
    hide Lex, Skip, Wrap, ItemSigns, WordsOf, RedirectsOf;
    var x := Span(Lex(t, p).q, Lex(t, p).eq);
    var rest := [Arg(x)] + more;
    items := ItemsOfRedirects(rs, rest);
    ItemFirst(Arg(x), more);
    Associate(args, [x], WordsOf(more));
    assert [] + RedirectsOf(more) == RedirectsOf(more);
    Associate(w, rs, RedirectsOf(more));
    var m := [Name(x)] + ItemSigns(more);
    assert m[1..] == ItemSigns(more) && Shows(t, p, m[0]);
    assert Reads(t, p, m, q);
    ReadsOn(t, i, RedirectSigns(rs), p, m, q);
  }

  /** The signs of b are those of a and more, which lead from i to q. */
  ghost predicate LongerBy(t: string, a: Syntax, b: Syntax, i: nat, q: nat) {
    exists amps :: Signs(b) == Signs(a) + amps && Reads(t, i, amps, q)
  }

  lemma LongerAgain(t: string, s: Syntax, b: Syntax, i: nat, q: nat)
    requires i <= |t| && Lex(t, i).kind == Sym('&') && LongerBy(t, Backed(s), b, Lex(t, i).next, q)
    ensures LongerBy(t, s, b, i, q)
  {
    hide Lex, Skip;
    var amps :| Signs(b) == Signs(Backed(s)) + amps && Reads(t, Lex(t, i).next, amps, q);
    var more := [Mark(Sym('&'))] + amps;
    assert more[1..] == amps;
    assert Signs(b) == Signs(s) + more && Reads(t, i, more, q);
  }

  lemma LongerNot(t: string, s: Syntax, i: nat)
    requires i <= |t|
    ensures LongerBy(t, s, s, i, Skip(t, i))
  {
    hide Lex, Skip, Signs;
    assert Signs(s) == Signs(s) + [] && Reads(t, i, [], Skip(t, i));
  }

  /** The &s from i on. */
  lemma {:induction false} BacksRead(t: string, s: Syntax, i: nat) returns (b: Syntax)
    requires i <= |t| && Fits(s) && Level(s) <= 2
    ensures var (d, q) := Backs(t, Meaning(s), i);
      Fits(b) && Level(b) <= 2 && Meaning(b) == d && LongerBy(t, s, b, i, q)
    decreases |t| - i
  {
    hide Lex, Skip, Peeks, LongerBy;
    PeekIsKind(t, i);
    SkipOnce(t, i);
    if !Peeks(t, i, "&") {
      b := s;
      LongerNot(t, s, i);
    } else {
      b := BacksRead(t, Backed(s), Lex(t, i).next);
      LongerAgain(t, s, b, i, Backs(t, Meaning(s), i).1);
    }
  }

  /** The tree of level at most l over the text from i to p, with command c. */
  ghost predicate Derived(t: string, i: nat, s: Syntax, l: nat, c: Cmd<Span>, p: nat) {
    Fits(s) && Level(s) <= l && Meaning(s) == c && Reads(t, i, Signs(s), p)
  }

  lemma {:induction false} LineDerived(t: string, i: nat) returns (s: Syntax)
    requires i <= |t| && ParseLine(t, i).Ok?
    ensures Derived(t, i, s, 3, ParseLine(t, i).value, ParseLine(t, i).p)
    decreases |t| - i, 3
  {
    hide Lex, Skip, Peeks, ParsePipe, Reads, Backs;
    var r := ParsePipe(t, i);
    var a := PipeDerived(t, i);
    var (d, q) := Backs(t, r.value, r.p);
    var b := BacksRead(t, a, r.p);
    var amps :| Signs(b) == Signs(a) + amps && Reads(t, r.p, amps, q);
    ReadsOn(t, i, Signs(a), r.p, amps, q);
    PeekIsKind(t, q);
    SkipOnce(t, q);
    ReadsEnd(t, i, Signs(b), q);
    if !Peeks(t, q, ";") {
      s := b;
    } else {
      var next := Lex(t, q).next;
      var c := LineDerived(t, next);
      s := Listed(b, c);
      JoinedBy(t, i, Signs(b), q, ';', Signs(c), ParseLine(t, i).p);
    }
  }

  /** A symbol between two texts. */
  lemma JoinedBy(t: string, i: nat, a: seq<Sign>, q: nat, c: char, b: seq<Sign>, p: nat)
    requires Reads(t, i, a, q) && q <= |t| && Lex(t, q).kind == Sym(c) && Reads(t, Lex(t, q).next, b, p)
    ensures Reads(t, i, a + [Mark(Sym(c))] + b, p)
  {
    hide Lex, Skip;
    var m := [Mark(Sym(c))] + b;
    assert m[1..] == b && Shows(t, q, m[0]);
    ReadsOn(t, i, a, q, m, p);
    assert a + m == a + [Mark(Sym(c))] + b;
  }

  lemma OpenedBy(t: string, i: nat, m: seq<Sign>, p: nat)
    requires i <= |t| && Lex(t, i).kind == Sym('(') && Reads(t, Lex(t, i).next, m, p)
    ensures Reads(t, i, [Mark(Sym('('))] + m, p)
  {
    hide Lex, Skip;
    assert ([Mark(Sym('('))] + m)[1..] == m;
  }

  lemma {:induction false} PipeDerived(t: string, i: nat) returns (s: Syntax)
    requires i <= |t| && ParsePipe(t, i).Ok?
    ensures Derived(t, i, s, 1, ParsePipe(t, i).value, ParsePipe(t, i).p)
    decreases |t| - i, 2
  {
    hide Lex, Skip, Peeks, ParseExec, Reads;
    var r := ParseExec(t, i);
    var a := ExecDerived(t, i);
    PeekIsKind(t, r.p);
    SkipOnce(t, r.p);
    ReadsEnd(t, i, Signs(a), r.p);
    if !Peeks(t, r.p, "|") {
      s := a;
    } else {
      var b := PipeDerived(t, Lex(t, r.p).next);
      s := Piped(a, b);
      JoinedBy(t, i, Signs(a), r.p, '|', Signs(b), ParsePipe(t, i).p);
    }
  }

  lemma {:induction false} ExecDerived(t: string, i: nat) returns (s: Syntax)
    requires i <= |t| && ParseExec(t, i).Ok?
    ensures Derived(t, i, s, 0, ParseExec(t, i).value, ParseExec(t, i).p)
    decreases |t| - i, 1
  {
    hide Lex, Skip, Peeks, Args, ParseBlock;
    SkipOnce(t, i);
    if Peeks(t, i, "(") {
      s := BlockDerived(t, Skip(t, i));
      ReadsSkipped(t, i, Signs(s), ParseExec(t, i).p);
    } else {
      var items := ArgsRead(t, [], [], Skip(t, i));
      s := Simple(items);
      hide Wrap;
      assert [] + WordsOf(items) == WordsOf(items) && [] + RedirectsOf(items) == RedirectsOf(items);
      ReadsSkipped(t, i, Signs(s), ParseExec(t, i).p);
    }
  }

  lemma {:induction false} BlockDerived(t: string, i: nat) returns (s: Syntax)
    requires i <= |t| && ParseBlock(t, i).Ok?
    ensures Derived(t, i, s, 0, ParseBlock(t, i).value, ParseBlock(t, i).p)
    decreases |t| - i, 0
  {
    hide Lex, Skip, Peeks, ParseLine, Redirs, Reads, Wrap;
    PeekIsKind(t, i);
    SkipOnce(t, i);
    var j := Lex(t, i).next;
    var r := ParseLine(t, j);
    var a := LineDerived(t, j);
    PeekIsKind(t, r.p);
    SkipOnce(t, r.p);
    ReadsEnd(t, j, Signs(a), r.p);
    var k := Lex(t, r.p).next;
    var rs := RedirsRead(t, [], k);
    assert [] + rs == rs;
    s := Block(a, rs);
    JoinedBy(t, j, Signs(a), r.p, ')', RedirectSigns(rs), ParseBlock(t, i).p);
    var m := Signs(a) + [Mark(Sym(')'))] + RedirectSigns(rs);
    OpenedBy(t, i, m, ParseBlock(t, i).p);
    assert Signs(s) == [Mark(Sym('('))] + m;
  }

  // ---------------------------------------------------------------- and every command of the grammar is parsed

  lemma RedirsSkip(t: string, w: seq<Redirect<Span>>, i: nat)
    requires i <= |t|
    ensures Redirs(t, w, Skip(t, i)) == Redirs(t, w, i)
  {
    hide Lex, Skip;
    SkipOnce(t, i);
  }

  lemma {:induction false} RedirsTaken(t: string, w: seq<Redirect<Span>>, i: nat, rs: seq<Redirect<Span>>, p: nat)
    requires Reads(t, i, RedirectSigns(rs), p) && p <= |t|
    ensures Redirs(t, w, i) == Redirs(t, w + rs, p)
    decreases |rs|
  {
    hide Lex, Skip, Peeks;
    PeekIsKind(t, i);
    SkipOnce(t, i);
    if rs == [] {
      assert w + rs == w;
      RedirsSkip(t, w, i);
    } else {
      var a := Lex(t, i);
      var signs := RedirectSigns(rs);
      assert signs[1..][0] == Name(rs[0].file) && signs[1..][1..] == RedirectSigns(rs[1..]);
      assert Shows(t, a.next, signs[1..][0]);
      var b := Lex(t, a.next);
      assert Reads(t, b.next, RedirectSigns(rs[1..]), p);
      RedirsTaken(t, w + [rs[0]], b.next, rs[1..], p);
      assert w + [rs[0]] + rs[1..] == w + rs;
    }
  }

  lemma {:induction false} ItemsTaken(t: string, args: seq<Span>, w: seq<Redirect<Span>>, i: nat, items: seq<Item>,
                                      p: nat)
    requires Reads(t, i, ItemSigns(items), p) && p <= |t| && |args| + |WordsOf(items)| < MAXARGS
    ensures Args(t, args, w, i) == Args(t, args + WordsOf(items), w + RedirectsOf(items), p)
    decreases |items|
  {
    hide Lex, Skip, Peeks, Redirs, Args, Reads, Shows;
    if items == [] {
      assert args + WordsOf(items) == args && w + RedirectsOf(items) == w;
      NothingRead(t, i, p);
      RedirsSkip(t, w, i);
      SameArgs(t, args, w, i, w, p);
    } else {
      var more := items[1..];
      var a, v, j := ItemTaken(t, args, w, i, items[0], more, p);
      assert items == [items[0]] + more;
      ItemFirst(items[0], more);
      hide WordsOf, RedirectsOf, ItemSigns;
      ItemsTaken(t, a, v, j, more, p);
      Associate(args, a[|args|..], WordsOf(more));
      Associate(w, v[|w|..], RedirectsOf(more));
    }
  }

  /** One item is one turn of the loop of parseexec, or of the one of parseredirs in it. */
  lemma ItemTaken(t: string, args: seq<Span>, w: seq<Redirect<Span>>, i: nat, x: Item, more: seq<Item>, p: nat)
    returns (a: seq<Span>, v: seq<Redirect<Span>>, j: nat)
    requires Reads(t, i, ItemSigns([x] + more), p) && |args| + |WordsOf([x] + more)| < MAXARGS
    ensures i <= |t| && j <= |t| && Reads(t, j, ItemSigns(more), p) && Args(t, args, w, i) == Args(t, a, v, j)
    ensures a == args + if x.Arg? then [x.s] else []
    ensures v == w + if x.Arg? then [] else [x.r]
    ensures |a| + |WordsOf(more)| < MAXARGS
  {
    hide Lex, Skip, Peeks, Redirs, Args, ItemSigns, WordsOf, RedirectsOf;
    ItemFirst(x, more);
    a, v := args, w;
    if x.Arg? {
      var m := [Name(x.s)] + ItemSigns(more);
      assert m[1..] == ItemSigns(more);
      WordTaken(t, args, w, i, x.s);
      a, j := args + [x.s], Lex(t, i).next;
      assert w + [] == w;
    } else {
      assert OneItem(x) == RedirectSigns([x.r]);
      j := ReadsCut(t, i, RedirectSigns([x.r]), ItemSigns(more), p);
      ReadsEnd(t, i, RedirectSigns([x.r]), j);
      RedirsTaken(t, w, i, [x.r], j);
      v := w + [x.r];
      SameArgs(t, args, w, i, v, j);
      assert args + [] == args;
    }
  }

  lemma SameArgs(t: string, args: seq<Span>, w: seq<Redirect<Span>>, i: nat, v: seq<Redirect<Span>>, j: nat)
    requires i <= |t| && j <= |t| && Redirs(t, w, i) == Redirs(t, v, j)
    ensures Args(t, args, w, i) == Args(t, args, v, j)
  {
    hide Lex, Skip, Peeks, Redirs;
  }

  lemma WordTaken(t: string, args: seq<Span>, w: seq<Redirect<Span>>, i: nat, x: Span)
    requires i <= |t| && Shows(t, i, Name(x)) && |args| + 1 < MAXARGS
    ensures Args(t, args, w, i) == Args(t, args + [x], w, Lex(t, i).next)
  {
    hide Lex, Skip, Peeks;
    PeekIsKind(t, i);
    SkipOnce(t, i);
    PeekIsKind(t, Skip(t, i));
    assert Redirs(t, w, i) == Ok(w, Skip(t, i));
  }

  /** What may come behind a command of level l. */
  predicate Behind(k: Kind, l: nat) {
    k == End || k == Sym(')') || (l <= 2 && (k == Sym('&') || k == Sym(';'))) || (l == 0 && k == Sym('|'))
  }

  lemma ArgsStop(t: string, args: seq<Span>, w: seq<Redirect<Span>>, p: nat)
    requires p <= |t| && Skip(t, p) == p && Behind(Lex(t, p).kind, 0)
    ensures Args(t, args, w, p) == Ok(Wrap(Exec(args), w), p) && Redirs(t, w, p) == Ok(w, p)
  {
    hide Lex, Skip, Peeks;
    PeekIsKind(t, p);
  }

  lemma SimpleParsed(t: string, i: nat, items: seq<Item>, p: nat)
    requires p <= |t| && Reads(t, i, ItemSigns(items), p) && Fits(Simple(items)) && Behind(Lex(t, p).kind, 0)
    ensures ParseExec(t, i) == Ok(Meaning(Simple(items)), p)
  {
    hide Lex, Skip, Peeks, Args;
    PeekIsKind(t, i);
    SkipOnce(t, i);
    ReadsEnd(t, i, ItemSigns(items), p);
    if items != [] {
      assert Shows(t, i, ItemSigns(items)[0]);
    }
    ReadsSkipped(t, i, ItemSigns(items), p);
    ItemsTaken(t, [], [], Skip(t, i), items, p);
    assert [] + WordsOf(items) == WordsOf(items) && [] + RedirectsOf(items) == RedirectsOf(items);
    ArgsStop(t, WordsOf(items), RedirectsOf(items), p);
  }

  /** A symbol in the middle of signs: where it stands and what follows it. */
  lemma SplitAt(t: string, i: nat, a: seq<Sign>, c: char, b: seq<Sign>, p: nat) returns (q: nat)
    requires Reads(t, i, a + [Mark(Sym(c))] + b, p)
    ensures i <= q <= |t| && Skip(t, q) == q && Reads(t, i, a, q)
    ensures Lex(t, q).kind == Sym(c) && Reads(t, Lex(t, q).next, b, p)
  {
    hide Lex, Skip;
    var m := [Mark(Sym(c))] + b;
    assert a + [Mark(Sym(c))] + b == a + m;
    q := ReadsCut(t, i, a, m, p);
    assert m[1..] == b;
  }

  lemma {:induction false} ExecParsed(t: string, i: nat, s: Syntax, p: nat)
    requires p <= |t| && Reads(t, i, Signs(s), p) && Fits(s) && Level(s) == 0 && Behind(Lex(t, p).kind, 0)
    ensures ParseExec(t, i) == Ok(Meaning(s), p)
    decreases s, 0
  {
    hide Lex, Skip, Peeks, Args, ParseLine, Redirs, Reads;
    match s
    case Simple(items) => SimpleParsed(t, i, items, p);
    case Block(line, rs) =>
      var j, q := BlockSplit(t, i, line, rs, p);
      LineParsed(t, j, line, q);
      BlockParsed(t, i, j, line, q, rs, p);
  }

  lemma BlockSplit(t: string, i: nat, line: Syntax, rs: seq<Redirect<Span>>, p: nat) returns (j: nat, q: nat)
    requires Reads(t, i, Signs(Block(line, rs)), p)
    ensures i <= |t| && Lex(t, i).kind == Sym('(') && j == Lex(t, i).next && Reads(t, j, Signs(line), q)
    ensures q <= |t| && Skip(t, q) == q && Lex(t, q).kind == Sym(')') && Reads(t, Lex(t, q).next, RedirectSigns(rs), p)
  {
    hide Lex, Skip;
    var m := Signs(line) + [Mark(Sym(')'))] + RedirectSigns(rs);
    assert Signs(Block(line, rs)) == [Mark(Sym('('))] + m;
    assert ([Mark(Sym('('))] + m)[1..] == m;
    j := Lex(t, i).next;
    q := SplitAt(t, j, Signs(line), ')', RedirectSigns(rs), p);
  }

  lemma BlockParsed(t: string, i: nat, j: nat, line: Syntax, q: nat, rs: seq<Redirect<Span>>, p: nat)
    requires i <= |t| && Lex(t, i).kind == Sym('(') && j == Lex(t, i).next <= |t|
    requires ParseLine(t, j) == Ok(Meaning(line), q)
    requires q <= |t| && Skip(t, q) == q && Lex(t, q).kind == Sym(')')
    requires Reads(t, Lex(t, q).next, RedirectSigns(rs), p) && p <= |t| && Behind(Lex(t, p).kind, 0)
    ensures ParseExec(t, i) == Ok(Meaning(Block(line, rs)), p)
  {
    hide Lex, Skip, Peeks, Args, ParseLine, Redirs, Reads;
    PeekIsKind(t, i);
    PeekIsKind(t, q);
    SkipOnce(t, i);
    PeekIsKind(t, Skip(t, i));
    var k := Lex(t, q).next;
    RedirsTaken(t, [], k, rs, p);
    ReadsEnd(t, k, RedirectSigns(rs), p);
    assert [] + rs == rs;
    ArgsStop(t, [], rs, p);
  }

  lemma {:induction false} PipeParsed(t: string, i: nat, s: Syntax, p: nat)
    requires p <= |t| && Reads(t, i, Signs(s), p) && Fits(s) && Level(s) <= 1 && Behind(Lex(t, p).kind, 1)
    ensures ParsePipe(t, i) == Ok(Meaning(s), p)
    decreases s, 1
  {
    hide Lex, Skip, Peeks, ParseExec, Reads;
    if s.Piped? {
      var q := SplitAt(t, i, Signs(s.left), '|', Signs(s.right), p);
      ExecParsed(t, i, s.left, q);
      PipeParsed(t, Lex(t, q).next, s.right, p);
      PeekIsKind(t, q);
    } else {
      ExecParsed(t, i, s, p);
      PeekIsKind(t, p);
      ReadsEnd(t, i, Signs(s), p);
    }
  }

  lemma {:induction false} BackParsed(t: string, i: nat, s: Syntax, p: nat)
    requires p <= |t| && Reads(t, i, Signs(s), p) && Fits(s) && Level(s) <= 2 && Behind(Lex(t, p).kind, 1)
    ensures i <= |t| && var r := ParsePipe(t, i); r.Ok? && Backs(t, r.value, r.p) == Backs(t, Meaning(s), p)
    decreases s, 2
  {
    hide Lex, Skip, Peeks, ParsePipe, Reads;
    ReadsEnd(t, i, Signs(s), p);
    if s.Backed? {
      assert Signs(s) == Signs(s.job) + [Mark(Sym('&'))] + [];
      var q := SplitAt(t, i, Signs(s.job), '&', [], p);
      BackParsed(t, i, s.job, q);
      PeekIsKind(t, q);
      SkipOnce(t, q);
      NothingRead(t, Lex(t, q).next, p);
    } else {
      PipeParsed(t, i, s, p);
    }
  }

  lemma NothingRead(t: string, i: nat, p: nat)
    requires Reads(t, i, [], p)
    ensures i <= |t| && Skip(t, i) == p
  {
  }

  lemma {:induction false} LineParsed(t: string, i: nat, s: Syntax, p: nat)
    requires p <= |t| && Reads(t, i, Signs(s), p) && Fits(s) && Behind(Lex(t, p).kind, 3)
    ensures ParseLine(t, i) == Ok(Meaning(s), p)
    decreases s, 3
  {
    hide Lex, Skip, Peeks, ParsePipe, Reads;
    ReadsEnd(t, i, Signs(s), p);
    if s.Listed? {
      var q := SplitAt(t, i, Signs(s.first), ';', Signs(s.rest), p);
      BackParsed(t, i, s.first, q);
      LineParsed(t, Lex(t, q).next, s.rest, p);
      PeekIsKind(t, q);
    } else {
      BackParsed(t, i, s, p);
      PeekIsKind(t, p);
    }
  }

  /** The parser gives a command exactly for the texts of the grammar, and gives the command of the text. */
  lemma ParsesExactly(t: string, c: Cmd<Span>)
    ensures ParseCmd(t) == Ok(c, |t|) <==> exists s :: Derived(t, 0, s, 3, c, |t|)
  {
    hide Lex, Skip, Peeks, ParseLine, Reads, Signs, Meaning, Fits;
    PeekIsKind(t, |t|);
    if ParseCmd(t) == Ok(c, |t|) {
      var s := LineDerived(t, 0);
      var p := ParseLine(t, 0).p;
      ReadsEnd(t, 0, Signs(s), p);
      assert Derived(t, 0, s, 3, c, |t|);
    }
    if s :| Derived(t, 0, s, 3, c, |t|) {
      EndAtEnd(t);
      LineParsed(t, 0, s, |t|);
    }
  }

  lemma EndAtEnd(t: string)
    ensures Lex(t, |t|).kind == End && Skip(t, |t|) == |t|
  {
  }
}
