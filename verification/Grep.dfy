/**
 The pattern matcher and the line loop of grep (xv6-user/grep.c), the matcher of chapter 9 of
 Kernighan and Pike's "The Practice of Programming".

 C strings are sequences without their NUL, so a moving text pointer is a suffix.
 */
module Grep {

  // ---------------------------------------------------------------- what a pattern means

  /** One character of the text, or any number of them; '.' stands for every character. */
  datatype Item = One(c: char) | Star(c: char)

  datatype Pattern = Pattern(start: bool, items: seq<Item>, end: bool)

  predicate Accepts(c: char, x: char) {
    c == '.' || c == x
  }

  /** The items of a pattern body; only a last $ that no * follows is an anchor. */
  function Items(re: string): seq<Item> {
    if re == "" || re == "$" then []
    else if |re| > 1 && re[1] == '*' then [Star(re[0])] + Items(re[2..])
    else [One(re[0])] + Items(re[1..])
  }

  predicate EndAnchored(re: string) {
    if re == "" then false
    else if re == "$" then true
    else if |re| > 1 && re[1] == '*' then EndAnchored(re[2..])
    else EndAnchored(re[1..])
  }

  function Meaning(re: string): Pattern {
    if re != "" && re[0] == '^' then Pattern(true, Items(re[1..]), EndAnchored(re[1..]))
    else Pattern(false, Items(re), EndAnchored(re))
  }

  ghost predicate AllAccepted(c: char, w: string) {
    forall i :: 0 <= i < |w| ==> Accepts(c, w[i])
  }

  /** w is in the language of the items. */
  ghost predicate InLanguage(items: seq<Item>, w: string)
    decreases |items|
  {
    if items == [] then w == "" else
      match items[0]
      case One(c) => w != "" && Accepts(c, w[0]) && InLanguage(items[1..], w[1..])
      case Star(c) => exists k: nat :: k <= |w| && AllAccepted(c, w[..k]) && InLanguage(items[1..], w[k..])
  }

  /** The pattern describes text[i..j]. */
  ghost predicate Describes(p: Pattern, text: string, i: nat, j: nat) {
    && i <= j <= |text| && InLanguage(p.items, text[i..j])
    && (p.start ==> i == 0) && (p.end ==> j == |text|)
  }

  ghost predicate Matches(p: Pattern, text: string) {
    exists i: nat, j: nat :: Describes(p, text, i, j)
  }

  // ---------------------------------------------------------------- matching a prefix

  /** The body re describes text[..j]. */
  ghost predicate Ends(re: string, text: string, j: nat) {
    j <= |text| && InLanguage(Items(re), text[..j]) && (EndAnchored(re) ==> j == |text|)
  }

  ghost predicate Here(re: string, text: string) {
    exists j: nat :: Ends(re, text, j)
  }

  /** c*re at the beginning of text, the star taking k characters. */
  ghost predicate StarTakes(c: char, re: string, text: string, k: nat) {
    k <= |text| && AllAccepted(c, text[..k]) && Here(re, text[k..])
  }

  lemma HereEmpty(text: string)
    ensures Here("", text)
  {
    assert Ends("", text, 0);
  }

  lemma HereEnd(text: string)
    ensures Here("$", text) <==> text == ""
  {
    if text == "" {
      assert Ends("$", text, 0);
    } else {
      forall j: nat ensures !Ends("$", text, j) {
        assert j == |text| ==> text[..j] != "";
      }
    }
  }

  lemma HereOne(re: string, text: string)
    requires re != "" && re != "$" && !(|re| > 1 && re[1] == '*')
    ensures Here(re, text) <==> text != "" && Accepts(re[0], text[0]) && Here(re[1..], text[1..])
  {
    forall j: nat ensures Ends(re, text, j) <==>
      j > 0 && text != "" && Accepts(re[0], text[0]) && Ends(re[1..], text[1..], j - 1) {
      if 0 < j <= |text| {
        assert text[..j][1..] == text[1..][..j - 1];
        assert Items(re)[1..] == Items(re[1..]);
      }
    }
    if text != "" && Accepts(re[0], text[0]) && Here(re[1..], text[1..]) {
      var j: nat :| Ends(re[1..], text[1..], j);
      assert Ends(re, text, j + 1);
    }
  }

  lemma HereStar(c: char, re: string, text: string)
    ensures Here([c, '*'] + re, text) <==> exists k: nat :: StarTakes(c, re, text, k)
  {
    var full := [c, '*'] + re;
    assert full[2..] == re && Items(full) == [Star(c)] + Items(re) && Items(full)[1..] == Items(re);
    if Here(full, text) {
      var j: nat :| Ends(full, text, j);
      var k: nat :| k <= |text[..j]| && AllAccepted(c, text[..j][..k]) && InLanguage(Items(re), text[..j][k..]);
      assert text[..j][..k] == text[..k] && text[..j][k..] == text[k..][..j - k];
      assert Ends(re, text[k..], j - k);
      assert StarTakes(c, re, text, k);
    }
    if k: nat :| StarTakes(c, re, text, k) {
      var j: nat :| Ends(re, text[k..], j);
      assert text[..k + j][..k] == text[..k] && text[..k + j][k..] == text[k..][..j];
      assert InLanguage(Items(full), text[..k + j]);
      assert Ends(full, text, k + j);
    }
  }

  // ---------------------------------------------------------------- the matcher

  method MatchHere(re: string, text: string) returns (found: bool)
    ensures found <==> Here(re, text)
    decreases |re|, 0
  {
    hide Here;
    if re == "" {
      HereEmpty(text);
      return true;
    }
    if |re| > 1 && re[1] == '*' {
      assert re == [re[0], '*'] + re[2..];
      HereStar(re[0], re[2..], text);
      found := MatchStar(re[0], re[2..], text);
      return;
    }
    if re == "$" {
      HereEnd(text);
      return text == "";
    }
    HereOne(re, text);
    if text != "" && (re[0] == '.' || re[0] == text[0]) {
      found := MatchHere(re[1..], text[1..]);
      return;
    }
    return false;
  }

  method MatchStar(c: char, re: string, text: string) returns (found: bool)
    ensures found <==> exists k: nat :: StarTakes(c, re, text, k)
    decreases |re|, 1
  {
    hide Here;
    var k := 0;
    while true
      invariant k <= |text| && AllAccepted(c, text[..k])
      invariant forall i: nat :: i < k ==> !StarTakes(c, re, text, i)
      decreases |text| - k
    {
      var here := MatchHere(re, text[k..]);
      if here {
        assert StarTakes(c, re, text, k);
        return true;
      }
      if k == |text| || !(text[k] == c || c == '.') {
        break;
      }
      k := k + 1;
    }
    forall i: nat ensures !StarTakes(c, re, text, i) {
      if k < i <= |text| {
        assert !Accepts(c, text[..i][k]);
      }
    }
    return false;
  }

  /** Sound and complete: found exactly when some part of the text is as the pattern says. */
  method Match(re: string, text: string) returns (found: bool)
    ensures found <==> Matches(Meaning(re), text)
  {
    hide Items, EndAnchored, InLanguage;
    if re != "" && re[0] == '^' {
      found := MatchHere(re[1..], text);
      HereAt(Meaning(re), re[1..], text, 0);
      forall i: nat, j: nat | Describes(Meaning(re), text, i, j) ensures i == 0 {}
      assert text[0..] == text;
      return;
    }
    var i: nat := 0;
    while true
      invariant i <= |text| && forall k: nat, j: nat :: k < i ==> !Describes(Meaning(re), text, k, j)
      decreases |text| - i
    {
      var here := MatchHere(re, text[i..]);
      HereAt(Meaning(re), re, text, i);
      if here {
        return true;
      }
      if i == |text| {
        break;
      }
      i := i + 1;
    }
    return false;
  }

  lemma HereAt(p: Pattern, re: string, text: string, i: nat)
    requires p.items == Items(re) && p.end == EndAnchored(re) && (p.start ==> i == 0) && i <= |text|
    ensures Here(re, text[i..]) <==> exists j: nat :: Describes(p, text, i, j)
  {
    hide Items, EndAnchored, InLanguage;
    if Here(re, text[i..]) {
      var j: nat :| Ends(re, text[i..], j);
      assert text[i..][..j] == text[i..i + j];
      assert Describes(p, text, i, i + j);
    }
    if j: nat :| Describes(p, text, i, j) {
      assert text[i..][..j - i] == text[i..j];
      assert Ends(re, text[i..], j - i);
    }
  }

  // ---------------------------------------------------------------- the lines of the input

  const SIZE: nat := 1024

  /** The first newline of s, |s| when there is none. */
  function NewlineAt(s: string): (k: nat)
    ensures k <= |s| && (k < |s| ==> s[k] == '\n')
    ensures forall i :: 0 <= i < k ==> s[i] != '\n'
  {
    if s == "" || s[0] == '\n' then 0 else 1 + NewlineAt(s[1..])
  }

  /** strchr sees the newline at the end of the first line: it is there, and no NUL hides it. */
  ghost predicate LineReady(s: string) {
    NewlineAt(s) < |s| && '\0' !in s[..NewlineAt(s)]
  }

  /**
   What grep writes: the lines that match, up to the first line that the buffer cannot hold whole or
   that has a NUL in it.
   */
  ghost function Selected(re: string, input: string): string {
    var k := NewlineAt(input);
    if !LineReady(input) || k >= SIZE - 1 then ""
    else (if Matches(Meaning(re), input[..k]) then input[..k + 1] else "") + Selected(re, input[k + 1..])
  }

  /** What grep is for: the lines that match. */
  ghost function Filtered(re: string, input: string): string {
    var k := NewlineAt(input);
    if k == |input| then ""
    else (if Matches(Meaning(re), input[..k]) then input[..k + 1] else "") + Filtered(re, input[k + 1..])
  }

  /** No complete line of the input matches. */
  ghost predicate NoMatch(re: string, input: string) {
    var k := NewlineAt(input);
    k < |input| ==> !Matches(Meaning(re), input[..k]) && NoMatch(re, input[k + 1..])
  }

  /** From the first line that is too long or has a NUL on, no line matches. */
  ghost predicate NoneLost(re: string, input: string) {
    var k := NewlineAt(input);
    if k == |input| then true
    else if k >= SIZE - 1 || '\0' in input[..k] then NoMatch(re, input)
    else NoneLost(re, input[k + 1..])
  }

  lemma {:induction false} NothingFiltered(re: string, input: string)
    ensures Filtered(re, input) == "" <==> NoMatch(re, input)
  {
    hide Matches, Meaning;
    if NewlineAt(input) < |input| {
      NothingFiltered(re, input[NewlineAt(input) + 1..]);
    }
  }

  /** grep writes exactly the matching lines of exactly these inputs. */
  lemma {:induction false} SelectedIsFiltered(re: string, input: string)
    ensures Selected(re, input) == Filtered(re, input) <==> NoneLost(re, input)
  {
    hide Matches, Meaning;
    var k := NewlineAt(input);
    if k == |input| {
    } else if k >= SIZE - 1 || '\0' in input[..k] {
      NothingFiltered(re, input);
    } else {
      SelectedIsFiltered(re, input[k + 1..]);
      var x := if Matches(Meaning(re), input[..k]) then input[..k + 1] else "";
      Cancel(x, Selected(re, input[k + 1..]), Filtered(re, input[k + 1..]));
    }
  }

  lemma Cancel(x: string, y: string, z: string)
    ensures x + y == x + z <==> y == z
  {
    if x + y == x + z {
      assert y == (x + y)[|x|..] && z == (x + z)[|x|..];
    }
  }

  /** A line the buffer cannot hold ends the search: nothing behind it is found. */
  lemma LongLineStops(re: string, line: string, behind: string)
    requires |line| >= 1023 && '\n' !in line
    ensures Selected(re, line + "\n" + behind) == ""
  {
    var s := line + "\n" + behind;
    assert forall i :: 0 <= i < |line| ==> s[i] == line[i];
  }

  /** The first newline is where the first one is seen. */
  lemma NewlineIs(s: string, k: nat)
    requires k < |s| && s[k] == '\n' && forall i :: 0 <= i < k ==> s[i] != '\n'
    ensures NewlineAt(s) == k
  {
  }

  /** strchr(buf + p, '\n'), the text in the buffer ending with a NUL at m. */
  method FindNewline(buf: array<char>, p: nat, m: nat) returns (found: bool, q: nat)
    requires p <= m < buf.Length && buf[m] == '\0'
    ensures found <==> LineReady(buf[p..m])
    ensures found ==> p <= q < m && q == p + NewlineAt(buf[p..m])
  {
    ghost var s := buf[p..m];
    q := p;
    while buf[q] != '\0'
      invariant p <= q <= m && forall i :: p <= i < q ==> buf[i] != '\n' && buf[i] != '\0'
      decreases m - q
    {
      if buf[q] == '\n' {
        NewlineIs(s, q - p);
        return true, q;
      }
      q := q + 1;
    }
    if q < m {
      assert s[q - p] == '\0';
      if NewlineAt(s) < |s| {
        assert NewlineAt(s) > q - p;
        assert s[..NewlineAt(s)][q - p] == '\0';
      }
    }
    found := false;
  }

  lemma PrefixOf(part: string, rest: string, k: nat)
    requires k < |part|
    ensures var s := part + rest;
      && s[..k] == part[..k] && s[..k + 1] == part[..k + 1] && s[k + 1..] == part[k + 1..] + rest
      && forall i :: 0 <= i <= k ==> s[i] == part[i]
  {
  }

  lemma FirstLine(re: string, part: string, rest: string)
    requires LineReady(part) && NewlineAt(part) < SIZE - 1
    ensures var k := NewlineAt(part);
      Selected(re, part + rest) ==
        (if Matches(Meaning(re), part[..k]) then part[..k + 1] else "") + Selected(re, part[k + 1..] + rest)
  {
    hide Matches, Meaning, NewlineAt;
    var k, s := NewlineAt(part), part + rest;
    PrefixOf(part, rest, k);
    NewlineIs(s, k);
  }

  lemma NothingMore(re: string, part: string, rest: string)
    requires !LineReady(part) && (rest == "" || |part| >= SIZE - 1)
    ensures Selected(re, part + rest) == ""
  {
    hide Matches, Meaning;
    var s := part + rest;
    var k := NewlineAt(s);
    if rest == "" {
      assert s == part;
    } else if k < SIZE - 1 {
      assert forall i :: 0 <= i <= k ==> s[i] == part[i];
      NewlineIs(part, k);
      assert s[..k] == part[..k];
    }
  }

  /** One line, from p to the newline at q: printed if it matches. */
  method EmitLine(re: string, buf: array<char>, p: nat, q: nat, m: nat, out0: string, ghost rest: string)
    returns (out: string)
    requires p <= q < m < buf.Length == SIZE && LineReady(buf[p..m]) && q == p + NewlineAt(buf[p..m])
    modifies buf
    ensures buf[m] == old(buf[m]) && buf[q + 1..m] == old(buf[q + 1..m])
    ensures out + Selected(re, buf[q + 1..m] + rest) == out0 + Selected(re, old(buf[p..m]) + rest)
  {
    hide Matches, Meaning, Selected, LineReady;
    ghost var part := buf[p..m];
    FirstLine(re, part, rest);
    buf[q] := '\0';
    var hit := Match(re, buf[p..q]);
    assert buf[p..q] == part[..q - p];
    out := out0;
    if hit {
      buf[q] := '\n';
      assert buf[p..q + 1] == part[..q - p + 1];
      out := out0 + buf[p..q + 1];
    }
    assert buf[q + 1..m] == part[q - p + 1..];
    assert out0 + "" == out0;
  }

  /** Print the complete lines of buf[..m] that match; what is left starts at p. */
  method EmitLines(re: string, buf: array<char>, m: nat, out0: string, ghost rest: string) returns (p: nat, out: string)
    requires m < buf.Length == SIZE && buf[m] == '\0'
    modifies buf
    ensures p <= m && !LineReady(buf[p..m])
    ensures out + Selected(re, buf[p..m] + rest) == out0 + Selected(re, old(buf[..m]) + rest)
  {
    hide Matches, Meaning, Selected, LineReady;
    p, out := 0, out0;
    assert buf[0..m] == buf[..m];
    var found, q := FindNewline(buf, p, m);
    while found
      invariant p <= m && buf[m] == '\0'
      invariant found <==> LineReady(buf[p..m])
      invariant found ==> p <= q < m && q == p + NewlineAt(buf[p..m])
      invariant out + Selected(re, buf[p..m] + rest) == out0 + Selected(re, old(buf[..m]) + rest)
      decreases m - p
    {
      out := EmitLine(re, buf, p, q, m, out, rest);
      p := q + 1;
      found, q := FindNewline(buf, p, m);
    }
  }

  /** read behind the m characters in the buffer, and the NUL after it. */
  method Fill(buf: array<char>, m: nat, data: string)
    requires m + |data| < buf.Length
    modifies buf
    ensures buf[..m + |data|] == old(buf[..m]) + data && buf[m + |data|] == '\0'
  {
    forall i | 0 <= i < |data| {
      buf[m + i] := data[i];
    }
    buf[m + |data|] := '\0';
  }

  /** One turn of the reading loop: data arrives, complete lines leave, the rest moves to the front. */
  method Round(re: string, buf: array<char>, m: nat, data: string, out0: string, ghost rest: string)
    returns (k: nat, out: string)
    requires m + |data| < buf.Length == SIZE
    modifies buf
    ensures k < SIZE && !LineReady(buf[..k])
    ensures out + Selected(re, buf[..k] + rest) == out0 + Selected(re, old(buf[..m]) + data + rest)
  {
    hide Selected, LineReady;
    Fill(buf, m, data);
    var n := m + |data|;
    var p;
    p, out := EmitLines(re, buf, n, out0, rest);
    ghost var part := buf[p..n];
    k := n - p;
    forall i | 0 <= i < k {
      buf[i] := buf[p + i];
    }
    assert buf[..k] == part;
  }

  /** grep on one input: whatever sizes the reads come in, it writes exactly the selected lines. */
  method Grep(re: string, input: string) returns (out: string)
    ensures out == Selected(re, input)
  {
    hide Selected, LineReady;
    var buf := new char[SIZE];
    var m, taken := 0, 0;
    out := "";
    assert buf[..0] + input[0..] == input && buf[..0] == "";
    EmptyNotReady();
    while true
      invariant 0 <= m < SIZE == buf.Length && 0 <= taken <= |input|
      invariant !LineReady(buf[..m]) && out + Selected(re, buf[..m] + input[taken..]) == Selected(re, input)
      decreases |input| - taken
    {
      var room, left := SIZE - m - 1, |input| - taken;
      var limit := if room < left then room else left;
      if limit == 0 {
        break;
      }
      var n :| 1 <= n <= limit;
      var data := input[taken..taken + n];
      assert buf[..m] + data + input[taken + n..] == buf[..m] + input[taken..];
      m, out := Round(re, buf, m, data, out, input[taken + n..]);
      taken := taken + n;
    }
    NothingMore(re, buf[..m], input[taken..]);
  }

  lemma EmptyNotReady()
    ensures !LineReady("")
  {
  }
}
