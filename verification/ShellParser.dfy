/** The recursive-descent parser of src/user/sh.c.

    The grammar is given by its derivation trees and their token yields. Parsing on token lists is sound, complete and
    unambiguous for it; the cursor methods, with the source's loops, are proved to compute that parse. */
module ShellParser {
  import opened Common
  import opened ShellLexer

  const MAXARGS: nat := 10

  // ---------------------------------------------------------------- grammar

  datatype RedirKind = Input | Output | AppendTo
  datatype Redirection = Redirection(kind: RedirKind, file: Range)
  datatype Item = Arg(w: Range) | Redirect(r: Redirection)

  datatype Line = Last(pipe: Pipeline, backs: nat) | Then(pipe: Pipeline, backs: nat, rest: Line)
  datatype Pipeline = One(exec: Simple) | Piped(exec: Simple, next: Pipeline)
  datatype Simple = Block(line: Line, redirs: seq<Redirection>) | Command(items: seq<Item>)

  function KindToken(k: RedirKind): Token {
    match k
    case Input => Symbol('<')
    case Output => Symbol('>')
    case AppendTo => Append
  }

  function YieldRedirs(rs: seq<Redirection>): seq<Token> {
    if rs == [] then [] else [KindToken(rs[0].kind), Word(rs[0].file)] + YieldRedirs(rs[1..])
  }

  function YieldItem(x: Item): seq<Token> {
    match x
    case Arg(w) => [Word(w)]
    case Redirect(r) => [KindToken(r.kind), Word(r.file)]
  }

  function YieldItems(items: seq<Item>): seq<Token> {
    if items == [] then [] else YieldItem(items[0]) + YieldItems(items[1..])
  }

  function YieldSimple(x: Simple): seq<Token> {
    match x
    case Block(line, redirs) => [Symbol('(')] + YieldLine(line) + [Symbol(')')] + YieldRedirs(redirs)
    case Command(items) => YieldItems(items)
  }

  function YieldPipe(p: Pipeline): seq<Token> {
    match p
    case One(x) => YieldSimple(x)
    case Piped(x, next) => YieldSimple(x) + [Symbol('|')] + YieldPipe(next)
  }

  function Ampersands(n: nat): (t: seq<Token>)
    ensures |t| == n && forall i :: 0 <= i < n ==> t[i] == Symbol('&')
  {
    seq(n, i => Symbol('&'))
  }

  function YieldLine(l: Line): seq<Token> {
    match l
    case Last(p, n) => YieldPipe(p) + Ampersands(n)
    case Then(p, n, rest) => YieldPipe(p) + Ampersands(n) + [Symbol(';')] + YieldLine(rest)
  }

  /** The words of a command, in order. */
  function Args(items: seq<Item>): seq<Range> {
    if items == [] then [] else (if items[0].Arg? then [items[0].w] else []) + Args(items[1..])
  }

  /** Its redirections, in order. */
  function Redirs(items: seq<Item>): seq<Redirection> {
    if items == [] then [] else (if items[0].Redirect? then [items[0].r] else []) + Redirs(items[1..])
  }

  /** Every command of the tree has at most MAXARGS - 1 words. */
  predicate FitsSimple(x: Simple) {
    match x
    case Block(line, _) => FitsLine(line)
    case Command(items) => |Args(items)| < MAXARGS
  }

  predicate FitsPipe(p: Pipeline) {
    FitsSimple(p.exec) && (p.Piped? ==> FitsPipe(p.next))
  }

  predicate FitsLine(l: Line) {
    FitsPipe(l.pipe) && (l.Then? ==> FitsLine(l.rest))
  }

  // ---------------------------------------------------------------- parsing token lists

  datatype SyntaxError = MissingFile | MissingParen | BadToken | TooManyArgs | Leftovers

  datatype Result<T> = Ok(value: T) | Err(error: SyntaxError) {
    predicate IsFailure() { Err? }
    function PropagateFailure<U>(): Result<U>
      requires Err?
    {
      Err(error)
    }
    function Extract(): T
      requires Ok?
    {
      value
    }
  }

  predicate IsRedir(t: Token) {
    t == Symbol('<') || t == Symbol('>') || t == Append
  }

  function Kind(t: Token): RedirKind
    requires IsRedir(t)
  {
    if t == Symbol('<') then Input else if t == Symbol('>') then Output else AppendTo
  }

  /** A command's word list stops before one of these. */
  predicate EndsCommand(t: seq<Token>) {
    t == [] || t[0] == Symbol('|') || t[0] == Symbol(')') || t[0] == Symbol('&') || t[0] == Symbol(';')
  }

  /** Redirections off the front of t. */
  function ParseRedirs(t: seq<Token>): (r: Result<(seq<Redirection>, seq<Token>)>)
    ensures r.Ok? ==> |r.value.1| <= |t|
  {
    if NoRedir(t) then Ok(([], t))
    else if |t| == 1 || !t[1].Word? then Err(MissingFile)
    else
      var (rs, rest) :- ParseRedirs(t[2..]);
      Ok(([Redirection(Kind(t[0]), t[1].w)] + rs, rest))
  }

  /** Words and redirections of one command, which already has argc words. */
  function ParseItems(t: seq<Token>, argc: nat): (r: Result<(seq<Item>, seq<Token>)>)
    ensures r.Ok? ==> |r.value.1| <= |t|
  {
    if EndsCommand(t) then Ok(([], t))
    else if IsRedir(t[0]) then
      if |t| == 1 || !t[1].Word? then Err(MissingFile)
      else
        var (items, rest) :- ParseItems(t[2..], argc);
        Ok(([Redirect(Redirection(Kind(t[0]), t[1].w))] + items, rest))
    else if !t[0].Word? then Err(BadToken)
    else if argc + 1 >= MAXARGS then Err(TooManyArgs)
    else
      var (items, rest) :- ParseItems(t[1..], argc + 1);
      Ok(([Arg(t[0].w)] + items, rest))
  }

  /** What follows does not start a redirection. */
  predicate NoRedir(t: seq<Token>) {
    t == [] || !IsRedir(t[0])
  }

  function ParseSimple(t: seq<Token>): (r: Result<(Simple, seq<Token>)>)
    ensures r.Ok? ==> |r.value.1| <= |t|
    decreases |t|, 0
  {
    if t != [] && t[0] == Symbol('(') then
      var (l, t1) :- ParseLine(t[1..]);
      if t1 == [] || t1[0] != Symbol(')') then Err(MissingParen) else
        var (rs, t2) :- ParseRedirs(t1[1..]);
        Ok((Block(l, rs), t2))
    else
      var (items, t1) :- ParseItems(t, 0);
      Ok((Command(items), t1))
  }

  function ParsePipe(t: seq<Token>): (r: Result<(Pipeline, seq<Token>)>)
    ensures r.Ok? ==> |r.value.1| <= |t|
    decreases |t|, 1
  {
    var (x, t1) :- ParseSimple(t);
    if t1 != [] && t1[0] == Symbol('|') then
      var (p, t2) :- ParsePipe(t1[1..]);
      Ok((Piped(x, p), t2))
    else Ok((One(x), t1))
  }

  function Backs(t: seq<Token>): (n: nat)
    ensures n <= |t| && t == Ampersands(n) + t[n..] && (n < |t| ==> t[n] != Symbol('&'))
  {
    if t != [] && t[0] == Symbol('&') then
      assert t == [t[0]] + t[1..];
      1 + Backs(t[1..])
    else 0
  }

  function ParseLine(t: seq<Token>): (r: Result<(Line, seq<Token>)>)
    ensures r.Ok? ==> |r.value.1| <= |t|
    decreases |t|, 2
  {
    var (p, t1) :- ParsePipe(t);
    var n := Backs(t1);
    var t2 := t1[n..];
    if t2 != [] && t2[0] == Symbol(';') then
      var (l, t3) :- ParseLine(t2[1..]);
      Ok((Then(p, n, l), t3))
    else Ok((Last(p, n), t2))
  }

  /** parsecmd on tokens: a whole line or an error. */
  function ParseAll(t: seq<Token>): Result<Line> {
    var (l, rest) :- ParseLine(t);
    if rest == [] then Ok(l) else Err(Leftovers)
  }

  // ---------------------------------------------------------------- soundness

  lemma Assoc<T>(a: seq<T>, b: seq<T>, c: seq<T>)
    ensures a + (b + c) == a + b + c
  {
  }

  lemma HeadTail<T>(s: seq<T>)
    requires s != []
    ensures s == [s[0]] + s[1..]
  {
  }

  lemma Halves<T>(s: seq<T>, k: nat)
    requires k <= |s|
    ensures s == s[..k] + s[k..]
  {
  }

  lemma FrontOf<T>(a: seq<T>, b: seq<T>, c: seq<T>)
    ensures (a + b + c)[..|a|] == a && (a + b + c)[|a|..] == b + c
  {
  }

  lemma {:induction false} RedirsSound(t: seq<Token>)
    requires ParseRedirs(t).Ok?
    ensures var (rs, rest) := ParseRedirs(t).value; t == YieldRedirs(rs) + rest
    decreases |t|
  {
    if !NoRedir(t) {
      RedirsSound(t[2..]);
      var (rs, rest) := ParseRedirs(t[2..]).value;
      Halves(t, 2);
      Assoc(t[..2], YieldRedirs(rs), rest);
    }
  }

  lemma {:induction false} ItemsSound(t: seq<Token>, argc: nat)
    requires ParseItems(t, argc).Ok? && argc < MAXARGS
    ensures var (items, rest) := ParseItems(t, argc).value;
            t == YieldItems(items) + rest && argc + |Args(items)| < MAXARGS
    decreases |t|
  {
    if !EndsCommand(t) {
      var k := if IsRedir(t[0]) then 2 else 1;
      ItemsFront(t, argc, k);
      hide ParseItems, YieldItems, Args;
      ItemsSound(t[k..], argc + 2 - k);
      var (items, rest) := ParseItems(t[k..], argc + 2 - k).value;
      Halves(t, k);
      Assoc(t[..k], YieldItems(items), rest);
    }
  }

  lemma ItemsFront(t: seq<Token>, argc: nat, k: nat)
    requires ParseItems(t, argc).Ok? && !EndsCommand(t) && k == if IsRedir(t[0]) then 2 else 1
    ensures k <= |t| && ParseItems(t[k..], argc + 2 - k).Ok?
    ensures var (items, rest) := ParseItems(t[k..], argc + 2 - k).value;
            && ParseItems(t, argc).value.1 == rest
            && YieldItems(ParseItems(t, argc).value.0) == t[..k] + YieldItems(items)
            && |Args(ParseItems(t, argc).value.0)| == |Args(items)| + 2 - k
            && (argc < MAXARGS ==> argc + 2 - k < MAXARGS)
  {
    var (items, rest) := ParseItems(t[k..], argc + 2 - k).value;
    var x := if k == 2 then Redirect(Redirection(Kind(t[0]), t[1].w)) else Arg(t[0].w);
    assert ([x] + items)[1..] == items;
    assert YieldItem(x) == t[..k];
  }

  lemma {:induction false} SimpleSound(t: seq<Token>)
    requires ParseSimple(t).Ok?
    ensures var (x, rest) := ParseSimple(t).value; t == YieldSimple(x) + rest && FitsSimple(x)
    decreases |t|, 0
  {
    if t != [] && t[0] == Symbol('(') {
      LineSound(t[1..]);
      var (l, t1) := ParseLine(t[1..]).value;
      RedirsSound(t1[1..]);
      var (rs, t2) := ParseRedirs(t1[1..]).value;
      BlockYield(t, l, t1, rs, t2);
    } else {
      ItemsSound(t, 0);
    }
  }

  lemma BlockYield(t: seq<Token>, l: Line, t1: seq<Token>, rs: seq<Redirection>, t2: seq<Token>)
    requires t != [] && t[0] == Symbol('(') && t[1..] == YieldLine(l) + t1
    requires t1 != [] && t1[0] == Symbol(')') && t1[1..] == YieldRedirs(rs) + t2
    ensures t == YieldSimple(Block(l, rs)) + t2
  {
    var open, close := [Symbol('(')], [Symbol(')')];
    assert t == open + t[1..] && t1 == close + t1[1..];
    Assoc(open, YieldLine(l), t1);
    Assoc(close, YieldRedirs(rs), t2);
    Assoc(open + YieldLine(l), close + YieldRedirs(rs), t2);
    Assoc(open + YieldLine(l), close, YieldRedirs(rs));
  }

  lemma {:induction false} PipeSound(t: seq<Token>)
    requires ParsePipe(t).Ok?
    ensures var (p, rest) := ParsePipe(t).value; t == YieldPipe(p) + rest && FitsPipe(p)
    decreases |t|, 1
  {
    SimpleSound(t);
    var (x, t1) := ParseSimple(t).value;
    if t1 != [] && t1[0] == Symbol('|') {
      PipeSound(t1[1..]);
      var (p, t2) := ParsePipe(t1[1..]).value;
      PipedYield(x, p, t1, t2);
    }
  }

  lemma PipedYield(x: Simple, p: Pipeline, t1: seq<Token>, t2: seq<Token>)
    requires t1 != [] && t1[0] == Symbol('|') && t1[1..] == YieldPipe(p) + t2
    ensures YieldSimple(x) + t1 == YieldPipe(Piped(x, p)) + t2
  {
    var bar := [Symbol('|')];
    assert t1 == bar + t1[1..];
    Assoc(bar, YieldPipe(p), t2);
    Assoc(YieldSimple(x), bar + YieldPipe(p), t2);
    Assoc(YieldSimple(x), bar, YieldPipe(p));
  }

  lemma {:induction false} LineSound(t: seq<Token>)
    requires ParseLine(t).Ok?
    ensures var (l, rest) := ParseLine(t).value; t == YieldLine(l) + rest && FitsLine(l)
    decreases |t|, 2
  {
    PipeSound(t);
    var (p, t1) := ParsePipe(t).value;
    var n := Backs(t1);
    var t2 := t1[n..];
    Assoc(YieldPipe(p), Ampersands(n), t2);
    if t2 != [] && t2[0] == Symbol(';') {
      LineSound(t2[1..]);
      var (l, t3) := ParseLine(t2[1..]).value;
      ThenYield(p, n, l, t2, t3);
    }
  }

  lemma ThenYield(p: Pipeline, n: nat, l: Line, t2: seq<Token>, t3: seq<Token>)
    requires t2 != [] && t2[0] == Symbol(';') && t2[1..] == YieldLine(l) + t3
    ensures YieldPipe(p) + Ampersands(n) + t2 == YieldLine(Then(p, n, l)) + t3
  {
    var semi, front := [Symbol(';')], YieldPipe(p) + Ampersands(n);
    assert t2 == semi + t2[1..];
    Assoc(semi, YieldLine(l), t3);
    Assoc(front, semi + YieldLine(l), t3);
    Assoc(front, semi, YieldLine(l));
  }

  // ---------------------------------------------------------------- completeness

  lemma {:induction false} RedirsComplete(rs: seq<Redirection>, rest: seq<Token>)
    requires NoRedir(rest)
    ensures ParseRedirs(YieldRedirs(rs) + rest) == Ok((rs, rest))
    decreases |rs|
  {
    var t := YieldRedirs(rs) + rest;
    if rs == [] {
      assert t == rest;
    } else {
      assert t[2..] == YieldRedirs(rs[1..]) + rest;
      RedirsComplete(rs[1..], rest);
      assert t[0] == KindToken(rs[0].kind) && Kind(t[0]) == rs[0].kind && rs == [rs[0]] + rs[1..];
    }
  }

  lemma {:induction false} ItemsComplete(items: seq<Item>, argc: nat, rest: seq<Token>)
    requires EndsCommand(rest) && argc + |Args(items)| < MAXARGS
    ensures ParseItems(YieldItems(items) + rest, argc) == Ok((items, rest))
    decreases |items|
  {
    var t := YieldItems(items) + rest;
    if items == [] {
      assert t == rest;
    } else {
      var k := |YieldItem(items[0])|;
      FrontOf(YieldItem(items[0]), YieldItems(items[1..]), rest);
      assert t[0] == t[..k][0] && (k == 2 ==> t[1] == t[..k][1]);
      ItemsComplete(items[1..], if items[0].Arg? then argc + 1 else argc, rest);
      assert items[0].Redirect? ==> Kind(t[0]) == items[0].r.kind;
      HeadTail(items);
    }
  }

  lemma {:induction false} SimpleComplete(x: Simple, rest: seq<Token>)
    requires EndsCommand(rest) && FitsSimple(x)
    ensures ParseSimple(YieldSimple(x) + rest) == Ok((x, rest))
    decreases x, 0
  {
    match x
    case Block(line, redirs) =>
      var t1 := [Symbol(')')] + (YieldRedirs(redirs) + rest);
      var t := [Symbol('(')] + (YieldLine(line) + t1);
      BlockYield(t, line, t1, redirs, rest);
      LineComplete(line, t1);
      RedirsComplete(redirs, rest);
      assert t[1..] == YieldLine(line) + t1 && t1[1..] == YieldRedirs(redirs) + rest;
    case Command(items) =>
      ItemsComplete(items, 0, rest);
      assert items != [] ==> (YieldItems(items) + rest)[0] == YieldItem(items[0])[0];
  }

  lemma {:induction false} PipeComplete(p: Pipeline, rest: seq<Token>)
    requires EndsCommand(rest) && (rest != [] ==> rest[0] != Symbol('|')) && FitsPipe(p)
    ensures ParsePipe(YieldPipe(p) + rest) == Ok((p, rest))
    decreases p, 1
  {
    match p
    case One(x) =>
      SimpleComplete(x, rest);
    case Piped(x, next) =>
      var t1 := [Symbol('|')] + (YieldPipe(next) + rest);
      assert t1[1..] == YieldPipe(next) + rest;
      PipedYield(x, next, t1, rest);
      SimpleComplete(x, t1);
      PipeComplete(next, rest);
  }

  lemma {:induction false} BacksExact(n: nat, rest: seq<Token>)
    requires rest != [] ==> rest[0] != Symbol('&')
    ensures Backs(Ampersands(n) + rest) == n
  {
    var t := Ampersands(n) + rest;
    if n > 0 {
      assert t[1..] == Ampersands(n - 1) + rest;
      BacksExact(n - 1, rest);
    } else {
      assert t == rest;
    }
  }

  lemma {:induction false} LineComplete(l: Line, rest: seq<Token>)
    requires (rest != [] ==> rest[0] == Symbol(')')) && FitsLine(l)
    ensures ParseLine(YieldLine(l) + rest) == Ok((l, rest))
    decreases l, 2
  {
    var p, n := l.pipe, l.backs;
    var t2 := if l.Last? then rest else [Symbol(';')] + (YieldLine(l.rest) + rest);
    var t1 := Ampersands(n) + t2;
    Assoc(YieldPipe(p), Ampersands(n), t2);
    assert EndsCommand(t1);
    PipeComplete(p, t1);
    BacksExact(n, t2);
    assert t1[n..] == t2;
    if l.Then? {
      assert t2[1..] == YieldLine(l.rest) + rest;
      ThenYield(p, n, l.rest, t2, rest);
      LineComplete(l.rest, rest);
    }
  }

  /** The parser accepts exactly the yields of derivations whose commands fit, and returns the derivation. */
  lemma ParseAllExact(t: seq<Token>, l: Line)
    ensures ParseAll(t) == Ok(l) <==> t == YieldLine(l) && FitsLine(l)
  {
    assert YieldLine(l) + [] == YieldLine(l);
    if ParseAll(t) == Ok(l) {
      LineSound(t);
    }
    if t == YieldLine(l) && FitsLine(l) {
      LineComplete(l, []);
    }
  }

  /** The grammar is unambiguous. */
  lemma Unambiguous(l: Line, m: Line)
    requires FitsLine(l) && FitsLine(m) && YieldLine(l) == YieldLine(m)
    ensures l == m
  {
    ParseAllExact(YieldLine(l), l);
    ParseAllExact(YieldLine(l), m);
  }
}
