/** The command trees of src/user/sh.c, and what a line means as one.

    Spells relates a tree to the tokens of a line by splitting the line at its connectives, loosest first; it knows
    nothing of the grammar's derivations. A line spells at most one tree, and the parser's is that one. Reading a
    spelled tree from left to right gives back the line. */
module ShellTree {
  import opened Common
  import opened ShellLexer
  import opened ShellParser

  datatype Cmd =
    | Exec(argv: seq<Range>)
    | Redir(cmd: Cmd, r: Redirection)
    | Pipe(left: Cmd, right: Cmd)
    | List(left: Cmd, right: Cmd)
    | Back(cmd: Cmd)

  // ---------------------------------------------------------------- trees of derivations

  /** Redirections wrap the command in order; the last one is outermost. */
  function Wrap(c: Cmd, rs: seq<Redirection>): Cmd {
    if rs == [] then c else Redir(Wrap(c, rs[..|rs| - 1]), rs[|rs| - 1])
  }

  function Backgrounds(c: Cmd, n: nat): Cmd {
    if n == 0 then c else Back(Backgrounds(c, n - 1))
  }

  function TreeSimple(x: Simple): Cmd {
    match x
    case Block(line, redirs) => Wrap(TreeLine(line), redirs)
    case Command(items) => Wrap(Exec(Args(items)), Redirs(items))
  }

  function TreePipe(p: Pipeline): Cmd {
    match p
    case One(x) => TreeSimple(x)
    case Piped(x, next) => Pipe(TreeSimple(x), TreePipe(next))
  }

  function TreeLine(l: Line): Cmd {
    var c := Backgrounds(TreePipe(l.pipe), l.backs);
    if l.Last? then c else List(c, TreeLine(l.rest))
  }

  // ---------------------------------------------------------------- what a line spells

  /** Words and redirections only, each redirection with its file. */
  predicate CommandTokens(t: seq<Token>) {
    || t == []
    || (t[0].Word? && CommandTokens(t[1..]))
    || (IsRedir(t[0]) && |t| > 1 && t[1].Word? && CommandTokens(t[2..]))
  }

  /** The words that are not file names, in order. */
  function WordsIn(t: seq<Token>): seq<Range> {
    if t == [] then []
    else if IsRedir(t[0]) then if |t| > 1 then WordsIn(t[2..]) else []
    else if t[0].Word? then [t[0].w] + WordsIn(t[1..])
    else WordsIn(t[1..])
  }

  function RedirsIn(t: seq<Token>): seq<Redirection> {
    if t == [] then []
    else if IsRedir(t[0]) then
      if |t| > 1 && t[1].Word? then [Redirection(Kind(t[0]), t[1].w)] + RedirsIn(t[2..]) else []
    else RedirsIn(t[1..])
  }

  /** The command under a tree's outermost redirections, and those, from the inside out. */
  function Core(c: Cmd): Cmd {
    if c.Redir? then Core(c.cmd) else c
  }

  function Layers(c: Cmd): seq<Redirection> {
    if c.Redir? then Layers(c.cmd) + [c.r] else []
  }

  function RedirTokens(r: Redirection): seq<Token> {
    [KindToken(r.kind), Word(r.file)]
  }

  /** A simple command: its words are the arguments, its redirections lie around it in order. */
  predicate SpellsCommand(c: Cmd, t: seq<Token>) {
    CommandTokens(t) && Core(c) == Exec(WordsIn(t)) && Layers(c) == RedirsIn(t)
  }

  /** A line in parentheses, with redirections after it. */
  ghost predicate SpellsBlock(c: Cmd, t: seq<Token>)
    decreases |t|, 0
  {
    && |t| >= 2
    && if t[|t| - 1] == Symbol(')') then t[0] == Symbol('(') && SpellsLine(c, t[1..|t| - 1])
       else c.Redir? && t[|t| - 2..] == RedirTokens(c.r) && SpellsBlock(c.cmd, t[..|t| - 2])
  }

  ghost predicate SpellsSimple(c: Cmd, t: seq<Token>)
    decreases |t|, 1
  {
    SpellsCommand(c, t) || SpellsBlock(c, t)
  }

  /** Commands joined by '|': the first on the left, the others on the right. */
  ghost predicate SpellsPipe(c: Cmd, t: seq<Token>)
    decreases |t|, 2
  {
    || SpellsSimple(c, t)
    || (c.Pipe? && exists k :: 0 <= k < |t| && t[k] == Symbol('|') && SpellsSimple(c.left, t[..k]) &&
                               SpellsPipe(c.right, t[k + 1..]))
  }

  /** A pipeline with any number of '&' after it. */
  ghost predicate SpellsBack(c: Cmd, t: seq<Token>)
    decreases |t|, 3
  {
    if t != [] && t[|t| - 1] == Symbol('&') then c.Back? && SpellsBack(c.cmd, t[..|t| - 1]) else SpellsPipe(c, t)
  }

  /** Such pipelines joined by ';'. */
  ghost predicate SpellsLine(c: Cmd, t: seq<Token>)
    decreases |t|, 4
  {
    || SpellsBack(c, t)
    || (c.List? && exists k :: 0 <= k < |t| && t[k] == Symbol(';') && SpellsBack(c.left, t[..k]) &&
                               SpellsLine(c.right, t[k + 1..]))
  }

  /** Every command has fewer than MAXARGS words. */
  predicate FitsCmd(c: Cmd) {
    match c
    case Exec(argv) => |argv| < MAXARGS
    case Redir(cmd, _) => FitsCmd(cmd)
    case Pipe(l, r) => FitsCmd(l) && FitsCmd(r)
    case List(l, r) => FitsCmd(l) && FitsCmd(r)
    case Back(cmd) => FitsCmd(cmd)
  }

  // ---------------------------------------------------------------- derivations spell their trees

  lemma {:induction false} WrapLayers(argv: seq<Range>, rs: seq<Redirection>)
    ensures Core(Wrap(Exec(argv), rs)) == Exec(argv) && Layers(Wrap(Exec(argv), rs)) == rs
    decreases |rs|
  {
    if rs != [] {
      WrapLayers(argv, rs[..|rs| - 1]);
      assert rs == rs[..|rs| - 1] + [rs[|rs| - 1]];
    }
  }

  lemma {:induction false} LayersWrap(c: Cmd)
    ensures c == Wrap(Core(c), Layers(c))
  {
    if c.Redir? {
      LayersWrap(c.cmd);
      assert Layers(c)[..|Layers(c)| - 1] == Layers(c.cmd);
    }
  }

  lemma {:induction false} FitsWrap(c: Cmd, rs: seq<Redirection>)
    ensures FitsCmd(Wrap(c, rs)) <==> FitsCmd(c)
    decreases |rs|
  {
    if rs != [] { FitsWrap(c, rs[..|rs| - 1]); }
  }

  lemma {:induction false} FitsBackgrounds(c: Cmd, n: nat)
    ensures FitsCmd(Backgrounds(c, n)) <==> FitsCmd(c)
  {
    if n > 0 { FitsBackgrounds(c, n - 1); }
  }

  lemma {:induction false} ItemsSpell(items: seq<Item>)
    ensures var t := YieldItems(items);
            CommandTokens(t) && WordsIn(t) == Args(items) && RedirsIn(t) == Redirs(items)
    decreases |items|
  {
    if items != [] {
      ItemsSpell(items[1..]);
      hide CommandTokens, WordsIn, RedirsIn;
      if items[0].Arg? {
        WordFirst(items[0].w, YieldItems(items[1..]));
      } else {
        RedirFirst(items[0].r, YieldItems(items[1..]));
      }
    } else {
      assert YieldItems(items) == [];
    }
  }

  lemma {:induction false} RedirsSpell(rs: seq<Redirection>)
    ensures var t := YieldRedirs(rs); CommandTokens(t) && WordsIn(t) == [] && RedirsIn(t) == rs
    decreases |rs|
  {
    if rs != [] {
      RedirsSpell(rs[1..]);
      hide CommandTokens, WordsIn, RedirsIn;
      RedirFirst(rs[0], YieldRedirs(rs[1..]));
      assert rs == [rs[0]] + rs[1..];
    }
  }

  lemma WordFirst(w: Range, rest: seq<Token>)
    ensures var t := [Word(w)] + rest;
            && CommandTokens(t) == CommandTokens(rest) && WordsIn(t) == [w] + WordsIn(rest)
            && RedirsIn(t) == RedirsIn(rest)
  {
    var t := [Word(w)] + rest;
    assert t[1..] == rest && t[0] == Word(w);
  }

  lemma RedirFirst(r: Redirection, rest: seq<Token>)
    ensures var t := RedirTokens(r) + rest;
            && CommandTokens(t) == CommandTokens(rest) && WordsIn(t) == WordsIn(rest)
            && RedirsIn(t) == [r] + RedirsIn(rest)
  {
    var t := RedirTokens(r) + rest;
    assert t[2..] == rest && t[0] == KindToken(r.kind) && t[1] == Word(r.file) && Kind(t[0]) == r.kind;
  }

  lemma {:induction false} SimpleSpells(x: Simple)
    ensures SpellsSimple(TreeSimple(x), YieldSimple(x)) && (FitsSimple(x) ==> FitsCmd(TreeSimple(x)))
    decreases x, 0
  {
    match x
    case Block(line, redirs) =>
      LineSpells(line);
      FitsWrap(TreeLine(line), redirs);
      BlockSpells(line, redirs);
    case Command(items) =>
      ItemsSpell(items);
      WrapLayers(Args(items), Redirs(items));
      FitsWrap(Exec(Args(items)), Redirs(items));
  }

  lemma {:induction false} BlockSpells(line: Line, rs: seq<Redirection>)
    requires SpellsLine(TreeLine(line), YieldLine(line))
    ensures SpellsBlock(Wrap(TreeLine(line), rs), YieldSimple(Block(line, rs)))
    decreases |rs|
  {
    var t := YieldSimple(Block(line, rs));
    if rs == [] {
      assert t == [Symbol('(')] + YieldLine(line) + [Symbol(')')];
      assert t[1..|t| - 1] == YieldLine(line);
    } else {
      var front, r := rs[..|rs| - 1], rs[|rs| - 1];
      BlockSpells(line, front);
      assert rs == front + [r];
      YieldRedirsSnoc(front, r);
      var t' := YieldSimple(Block(line, front));
      assert t == t' + RedirTokens(r);
      assert t[..|t| - 2] == t' && t[|t| - 2..] == RedirTokens(r);
    }
  }

  lemma {:induction false} YieldRedirsSnoc(rs: seq<Redirection>, r: Redirection)
    ensures YieldRedirs(rs + [r]) == YieldRedirs(rs) + [KindToken(r.kind), Word(r.file)]
    decreases |rs|
  {
    if rs != [] {
      YieldRedirsSnoc(rs[1..], r);
      assert (rs + [r])[1..] == rs[1..] + [r];
    }
  }

  lemma {:induction false} PipeSpells(p: Pipeline)
    ensures SpellsPipe(TreePipe(p), YieldPipe(p)) && (FitsPipe(p) ==> FitsCmd(TreePipe(p)))
    decreases p, 1
  {
    SimpleSpells(p.exec);
    if p.Piped? {
      PipeSpells(p.next);
      var t, k := YieldPipe(p), |YieldSimple(p.exec)|;
      assert t[k] == Symbol('|') && t[..k] == YieldSimple(p.exec) && t[k + 1..] == YieldPipe(p.next);
    }
  }

  lemma {:induction false} BacksSpell(p: Pipeline, n: nat)
    requires SpellsPipe(TreePipe(p), YieldPipe(p))
    requires n == 0 ==> YieldPipe(p) == [] || YieldPipe(p)[|YieldPipe(p)| - 1] != Symbol('&')
    ensures SpellsBack(Backgrounds(TreePipe(p), n), YieldPipe(p) + Ampersands(n))
  {
    var t := YieldPipe(p) + Ampersands(n);
    if n == 0 {
      assert t == YieldPipe(p);
    } else {
      PipeNoBack(p);
      BacksSpell(p, n - 1);
      assert t[..|t| - 1] == YieldPipe(p) + Ampersands(n - 1) && t[|t| - 1] == Symbol('&');
    }
  }

  /** A pipeline does not end in '&'. */
  lemma {:induction false} PipeNoBack(p: Pipeline)
    ensures var t := YieldPipe(p); t == [] || t[|t| - 1] != Symbol('&')
    decreases p
  {
    if p.Piped? {
      PipeNoBack(p.next);
    } else {
      SimpleNoBack(p.exec);
    }
  }

  lemma {:induction false} SimpleNoBack(x: Simple)
    ensures var t := YieldSimple(x); t == [] || t[|t| - 1] != Symbol('&')
  {
    match x
    case Block(line, rs) =>
      if rs != [] {
        YieldRedirsSnoc(rs[..|rs| - 1], rs[|rs| - 1]);
        assert rs == rs[..|rs| - 1] + [rs[|rs| - 1]];
      }
    case Command(items) => ItemsNoBack(items);
  }

  lemma {:induction false} ItemsNoBack(items: seq<Item>)
    ensures var t := YieldItems(items); t == [] || t[|t| - 1].Word?
    decreases |items|
  {
    if items != [] {
      ItemsNoBack(items[1..]);
      var t, k := YieldItems(items), |YieldItem(items[0])|;
      assert t == YieldItem(items[0]) + YieldItems(items[1..]);
    }
  }

  lemma {:induction false} LineSpells(l: Line)
    ensures SpellsLine(TreeLine(l), YieldLine(l)) && (FitsLine(l) ==> FitsCmd(TreeLine(l)))
    decreases l, 2
  {
    PipeSpells(l.pipe);
    PipeNoBack(l.pipe);
    BacksSpell(l.pipe, l.backs);
    FitsBackgrounds(TreePipe(l.pipe), l.backs);
    if l.Then? {
      LineSpells(l.rest);
      var front := YieldPipe(l.pipe) + Ampersands(l.backs);
      var t, k := YieldLine(l), |front|;
      assert t == front + [Symbol(';')] + YieldLine(l.rest);
      assert t[k] == Symbol(';') && t[..k] == front && t[k + 1..] == YieldLine(l.rest);
    }
  }

  // ---------------------------------------------------------------- spelled trees have derivations

  lemma {:induction false} CommandItems(t: seq<Token>) returns (items: seq<Item>)
    requires CommandTokens(t)
    ensures YieldItems(items) == t && Args(items) == WordsIn(t) && Redirs(items) == RedirsIn(t)
    decreases |t|
  {
    if t == [] {
      items := [];
    } else if t[0].Word? {
      var rest := CommandItems(t[1..]);
      items := [Arg(t[0].w)] + rest;
      assert items[1..] == rest && t == [t[0]] + t[1..];
    } else {
      var rest := CommandItems(t[2..]);
      items := [Redirect(Redirection(Kind(t[0]), t[1].w))] + rest;
      assert items[1..] == rest && t == [t[0], t[1]] + t[2..] && KindToken(Kind(t[0])) == t[0];
    }
  }

  lemma {:induction false} SimpleDerived(c: Cmd, t: seq<Token>) returns (x: Simple)
    requires SpellsSimple(c, t)
    ensures YieldSimple(x) == t && TreeSimple(x) == c && (FitsCmd(c) ==> FitsSimple(x))
    decreases |t|, 1
  {
    if SpellsCommand(c, t) {
      var items := CommandItems(t);
      x := Command(items);
      LayersWrap(c);
      FitsWrap(Exec(Args(items)), Redirs(items));
    } else {
      x := BlockDerived(c, t);
    }
  }

  lemma {:induction false} BlockDerived(c: Cmd, t: seq<Token>) returns (x: Simple)
    requires SpellsBlock(c, t)
    ensures x.Block? && YieldSimple(x) == t && TreeSimple(x) == c && (FitsCmd(c) ==> FitsSimple(x))
    decreases |t|, 0
  {
    hide SpellsLine, YieldSimple, TreeSimple, FitsSimple;
    if t[|t| - 1] == Symbol(')') {
      var line := LineDerived(c, t[1..|t| - 1]);
      x := Block(line, []);
      BlockAlone(line, t);
    } else {
      var y := BlockDerived(c.cmd, t[..|t| - 2]);
      x := Block(y.line, y.redirs + [c.r]);
      YieldRedirsSnoc(y.redirs, c.r);
      BlockMore(y, c.r);
      Halves(t, |t| - 2);
    }
  }

  lemma BlockAlone(line: Line, t: seq<Token>)
    requires |t| >= 2 && t[0] == Symbol('(') && t[|t| - 1] == Symbol(')') && t[1..|t| - 1] == YieldLine(line)
    ensures var x := Block(line, []);
            YieldSimple(x) == t && TreeSimple(x) == TreeLine(line) && FitsSimple(x) == FitsLine(line)
  {
    assert t == [Symbol('(')] + t[1..|t| - 1] + [Symbol(')')] + [];
  }

  lemma BlockMore(y: Simple, r: Redirection)
    requires y.Block? && YieldRedirs(y.redirs + [r]) == YieldRedirs(y.redirs) + RedirTokens(r)
    ensures var x := Block(y.line, y.redirs + [r]);
            && YieldSimple(x) == YieldSimple(y) + RedirTokens(r) && TreeSimple(x) == Redir(TreeSimple(y), r)
            && FitsSimple(x) == FitsSimple(y)
  {
    var rs := y.redirs + [r];
    assert rs[..|rs| - 1] == y.redirs;
    Assoc([Symbol('(')] + YieldLine(y.line) + [Symbol(')')], YieldRedirs(y.redirs), RedirTokens(r));
  }

  /** Where the first connective of a pipe or list stands. */
  lemma PipeSplit(c: Cmd, t: seq<Token>) returns (k: nat)
    requires SpellsPipe(c, t) && !SpellsSimple(c, t)
    ensures k < |t| && c.Pipe? && t == t[..k] + [Symbol('|')] + t[k + 1..]
    ensures SpellsSimple(c.left, t[..k]) && SpellsPipe(c.right, t[k + 1..])
  {
    hide SpellsSimple;
    var i :| 0 <= i < |t| && t[i] == Symbol('|') && SpellsSimple(c.left, t[..i]) && SpellsPipe(c.right, t[i + 1..]);
    k := i;
    assert t == t[..k] + [t[k]] + t[k + 1..];
  }

  lemma LineSplit(c: Cmd, t: seq<Token>) returns (k: nat)
    requires SpellsLine(c, t) && !SpellsBack(c, t)
    ensures k < |t| && c.List? && t == t[..k] + [Symbol(';')] + t[k + 1..]
    ensures SpellsBack(c.left, t[..k]) && SpellsLine(c.right, t[k + 1..])
  {
    hide SpellsBack;
    var i :| 0 <= i < |t| && t[i] == Symbol(';') && SpellsBack(c.left, t[..i]) && SpellsLine(c.right, t[i + 1..]);
    k := i;
    assert t == t[..k] + [t[k]] + t[k + 1..];
  }

  lemma {:induction false} PipeDerived(c: Cmd, t: seq<Token>) returns (p: Pipeline)
    requires SpellsPipe(c, t)
    ensures YieldPipe(p) == t && TreePipe(p) == c && (FitsCmd(c) ==> FitsPipe(p))
    decreases |t|, 2
  {
    hide SpellsPipe, SpellsSimple;
    if SpellsSimple(c, t) {
      var x := SimpleDerived(c, t);
      p := One(x);
    } else {
      var k := PipeSplit(c, t);
      var x := SimpleDerived(c.left, t[..k]);
      var next := PipeDerived(c.right, t[k + 1..]);
      p := Piped(x, next);
    }
  }

  lemma {:induction false} BackDerived(c: Cmd, t: seq<Token>) returns (p: Pipeline, n: nat)
    requires SpellsBack(c, t)
    ensures t == YieldPipe(p) + Ampersands(n) && c == Backgrounds(TreePipe(p), n) && (FitsCmd(c) ==> FitsPipe(p))
    decreases |t|, 3
  {
    hide SpellsPipe, YieldPipe, TreePipe, FitsPipe, Ampersands;
    if t != [] && t[|t| - 1] == Symbol('&') {
      p, n := BackDerived(c.cmd, t[..|t| - 1]);
      OneMoreBack(YieldPipe(p), n, t);
      n := n + 1;
    } else {
      p := PipeDerived(c, t);
      n := 0;
      assert Ampersands(0) == [] && YieldPipe(p) + [] == YieldPipe(p);
    }
  }

  lemma OneMoreBack(front: seq<Token>, n: nat, t: seq<Token>)
    requires t != [] && t[|t| - 1] == Symbol('&') && t[..|t| - 1] == front + Ampersands(n)
    ensures t == front + Ampersands(n + 1)
  {
    assert t == t[..|t| - 1] + [Symbol('&')];
    assert Ampersands(n + 1) == Ampersands(n) + [Symbol('&')];
  }

  lemma {:induction false} LineDerived(c: Cmd, t: seq<Token>) returns (l: Line)
    requires SpellsLine(c, t)
    ensures YieldLine(l) == t && TreeLine(l) == c && (FitsCmd(c) ==> FitsLine(l))
    decreases |t|, 4
  {
    hide SpellsLine, SpellsBack;
    if SpellsBack(c, t) {
      var p, n := BackDerived(c, t);
      l := Last(p, n);
    } else {
      var k := LineSplit(c, t);
      var p, n := BackDerived(c.left, t[..k]);
      var rest := LineDerived(c.right, t[k + 1..]);
      l := Then(p, n, rest);
    }
  }

  /** The parser's tree for a line is the one the line spells, and there is one exactly if the line spells a tree whose
      commands fit. */
  lemma ParsedIffSpelled(t: seq<Token>, c: Cmd)
    ensures ParseAll(t).Ok? && TreeLine(ParseAll(t).value) == c <==> SpellsLine(c, t) && FitsCmd(c)
  {
    if ParseAll(t).Ok? && TreeLine(ParseAll(t).value) == c {
      ParseAllExact(t, ParseAll(t).value);
      LineSpells(ParseAll(t).value);
    }
    if SpellsLine(c, t) && FitsCmd(c) {
      var l := LineDerived(c, t);
      ParseAllExact(t, l);
    }
  }

  /** A line spells at most one tree. */
  lemma SpellsOne(t: seq<Token>, c: Cmd, d: Cmd)
    requires SpellsLine(c, t) && FitsCmd(c) && SpellsLine(d, t) && FitsCmd(d)
    ensures c == d
  {
    ParsedIffSpelled(t, c);
    ParsedIffSpelled(t, d);
  }

  // ---------------------------------------------------------------- reading a tree from left to right

  predicate IsParen(t: Token) {
    t == Symbol('(') || t == Symbol(')')
  }

  /** Every redirection has its file. */
  predicate Complete(t: seq<Token>) {
    forall i :: 0 <= i < |t| && IsRedir(t[i]) ==> i + 1 < |t| && t[i + 1].Word?
  }

  /** The line without parentheses and redirections. */
  function Plain(t: seq<Token>): seq<Token> {
    if t == [] then []
    else if IsRedir(t[0]) then if |t| > 1 then Plain(t[2..]) else []
    else if IsParen(t[0]) then Plain(t[1..])
    else [t[0]] + Plain(t[1..])
  }

  /** The line without parentheses and arguments. */
  function Rerouted(t: seq<Token>): seq<Token> {
    if t == [] then []
    else if IsRedir(t[0]) then if |t| > 1 then [t[0], t[1]] + Rerouted(t[2..]) else []
    else if IsParen(t[0]) || t[0].Word? then Rerouted(t[1..])
    else [t[0]] + Rerouted(t[1..])
  }

  function WordTokens(ws: seq<Range>): (t: seq<Token>)
    ensures |t| == |ws| && forall i :: 0 <= i < |ws| ==> t[i] == Word(ws[i])
  {
    seq(|ws|, i requires 0 <= i < |ws| => Word(ws[i]))
  }

  /** The tree's arguments and connectives from left to right. */
  function ReadPlain(c: Cmd): seq<Token> {
    match c
    case Exec(argv) => WordTokens(argv)
    case Redir(cmd, _) => ReadPlain(cmd)
    case Pipe(l, r) => ReadPlain(l) + [Symbol('|')] + ReadPlain(r)
    case List(l, r) => ReadPlain(l) + [Symbol(';')] + ReadPlain(r)
    case Back(cmd) => ReadPlain(cmd) + [Symbol('&')]
  }

  /** The tree's redirections and connectives from left to right. */
  function ReadRerouted(c: Cmd): seq<Token> {
    match c
    case Exec(_) => []
    case Redir(cmd, r) => ReadRerouted(cmd) + RedirTokens(r)
    case Pipe(l, r) => ReadRerouted(l) + [Symbol('|')] + ReadRerouted(r)
    case List(l, r) => ReadRerouted(l) + [Symbol(';')] + ReadRerouted(r)
    case Back(cmd) => ReadRerouted(cmd) + [Symbol('&')]
  }

  ghost predicate ReadsAs(c: Cmd, t: seq<Token>) {
    Complete(t) && Plain(t) == ReadPlain(c) && Rerouted(t) == ReadRerouted(c)
  }

  /** Both readings go over a complete front and what follows it one after the other. */
  lemma {:induction false} ReadingSplits(a: seq<Token>, b: seq<Token>)
    requires Complete(a)
    ensures Plain(a + b) == Plain(a) + Plain(b) && Rerouted(a + b) == Rerouted(a) + Rerouted(b)
    ensures Complete(b) ==> Complete(a + b)
    decreases |a|
  {
    if a == [] {
      assert a + b == b;
    } else {
      var k := if IsRedir(a[0]) then 2 else 1;
      assert (a + b)[k..] == a[k..] + b && (a + b)[0] == a[0] && (k == 2 ==> (a + b)[1] == a[1]);
      CompleteTail(a, k);
      ReadFirst(a);
      ReadFirst(a + b);
      CompleteSum(a, b);
      hide Complete, Plain, Rerouted;
      ReadingSplits(a[k..], b);
      Assoc(PlainHead(a), Plain(a[k..]), Plain(b));
      Assoc(ReroutedHead(a), Rerouted(a[k..]), Rerouted(b));
    }
  }

  /** What the first token, or a redirection with its file, adds to each reading. */
  function PlainHead(t: seq<Token>): seq<Token>
    requires t != []
  {
    if IsRedir(t[0]) || IsParen(t[0]) then [] else [t[0]]
  }

  function ReroutedHead(t: seq<Token>): seq<Token>
    requires t != [] && (IsRedir(t[0]) ==> |t| > 1)
  {
    if IsRedir(t[0]) then [t[0], t[1]] else if IsParen(t[0]) || t[0].Word? then [] else [t[0]]
  }

  lemma ReadFirst(t: seq<Token>)
    requires t != [] && (IsRedir(t[0]) ==> |t| > 1)
    ensures var k := if IsRedir(t[0]) then 2 else 1;
            Plain(t) == PlainHead(t) + Plain(t[k..]) && Rerouted(t) == ReroutedHead(t) + Rerouted(t[k..])
  {}

  lemma CompleteTail(a: seq<Token>, k: nat)
    requires Complete(a) && k <= |a|
    ensures Complete(a[k..])
  {
    forall i | 0 <= i < |a[k..]| && IsRedir(a[k..][i]) ensures i + 1 < |a[k..]| && a[k..][i + 1].Word? {
      assert IsRedir(a[k + i]);
    }
  }

  lemma CompleteSum(a: seq<Token>, b: seq<Token>)
    requires Complete(a)
    ensures Complete(b) ==> Complete(a + b)
  {}

  lemma {:induction false} ReadsCommand(c: Cmd, t: seq<Token>)
    requires SpellsCommand(c, t)
    ensures ReadsAs(c, t)
  {
    var items := CommandItems(t);
    ReadItems(items);
    LayersWrap(c);
    ReadWrap(Core(c), Layers(c));
    assert [] + YieldRedirs(Layers(c)) == YieldRedirs(Layers(c));
  }

  lemma {:induction false} ReadWrap(c: Cmd, rs: seq<Redirection>)
    ensures ReadPlain(Wrap(c, rs)) == ReadPlain(c) && ReadRerouted(Wrap(c, rs)) == ReadRerouted(c) + YieldRedirs(rs)
    decreases |rs|
  {
    if rs != [] {
      var front, r := rs[..|rs| - 1], rs[|rs| - 1];
      ReadWrap(c, front);
      assert rs == front + [r];
      YieldRedirsSnoc(front, r);
    }
  }

  lemma {:induction false} ReadItems(items: seq<Item>)
    ensures var t := YieldItems(items);
            Complete(t) && Plain(t) == WordTokens(Args(items)) && Rerouted(t) == YieldRedirs(Redirs(items))
    decreases |items|
  {
    if items != [] {
      ReadItems(items[1..]);
      ReadItem(items[0]);
      ReadingSplits(YieldItem(items[0]), YieldItems(items[1..]));
      ItemsAhead(items);
      hide Complete, Plain, Rerouted, WordTokens, YieldItem, Args, Redirs, YieldRedirs;
    }
  }

  lemma ItemsAhead(items: seq<Item>)
    requires items != []
    ensures WordTokens(Args(items)) ==
            WordTokens(if items[0].Arg? then [items[0].w] else []) + WordTokens(Args(items[1..]))
    ensures YieldRedirs(Redirs(items)) ==
            (if items[0].Arg? then [] else RedirTokens(items[0].r)) + YieldRedirs(Redirs(items[1..]))
  {
    hide YieldRedirs;
    var rs := Redirs(items[1..]);
    if items[0].Redirect? {
      YieldRedirsFirst(items[0].r, rs);
    } else {
      assert Redirs(items) == rs && [] + YieldRedirs(rs) == YieldRedirs(rs);
    }
  }

  lemma YieldRedirsFirst(r: Redirection, rs: seq<Redirection>)
    ensures YieldRedirs([r] + rs) == RedirTokens(r) + YieldRedirs(rs)
  {
    assert ([r] + rs)[1..] == rs;
  }

  lemma ReadItem(x: Item)
    ensures var t := YieldItem(x);
            && Complete(t)
            && Plain(t) == WordTokens(if x.Arg? then [x.w] else [])
            && Rerouted(t) == if x.Arg? then [] else RedirTokens(x.r)
  {
    var t := YieldItem(x);
    if x.Arg? { assert t[1..] == []; } else { assert t[2..] == []; }
  }

  /** A connective between two parts. */
  lemma ReadJoin(a: seq<Token>, x: Token, b: seq<Token>)
    requires Complete(a) && Complete(b) && x.Symbol? && !IsRedir(x)
    ensures var t := a + [x] + b; var y := if IsParen(x) then [] else [x];
            Complete(t) && Plain(t) == Plain(a) + y + Plain(b) && Rerouted(t) == Rerouted(a) + y + Rerouted(b)
  {
    ReadOne(x);
    hide Complete, Plain, Rerouted;
    ReadingSplits(a, [x]);
    ReadingSplits(a + [x], b);
  }

  lemma ReadOne(x: Token)
    requires x.Symbol? && !IsRedir(x)
    ensures var y := if IsParen(x) then [] else [x]; Complete([x]) && Plain([x]) == y && Rerouted([x]) == y
  {
    assert [x][1..] == [];
  }

  lemma {:induction false} ReadsBlock(c: Cmd, t: seq<Token>)
    requires SpellsBlock(c, t)
    ensures ReadsAs(c, t)
    decreases |t|, 0
  {
    var n := |t| - 1;
    hide SpellsLine, Complete, Plain, Rerouted, ReadPlain, ReadRerouted;
    if t[n] == Symbol(')') {
      ReadsLine(c, t[1..n]);
      ReadParens(t);
    } else {
      ReadsBlock(c.cmd, t[..n - 1]);
      ReadRedirected(c, t);
    }
  }

  lemma ReadRedirected(c: Cmd, t: seq<Token>)
    requires c.Redir? && |t| >= 2 && t[|t| - 2..] == RedirTokens(c.r) && ReadsAs(c.cmd, t[..|t| - 2])
    ensures ReadsAs(c, t)
  {
    var a := t[..|t| - 2];
    hide Complete, Plain, Rerouted, WordTokens;
    ReadItem(Redirect(c.r));
    assert WordTokens([]) == [];
    ReadingSplits(a, RedirTokens(c.r));
    Halves(t, |t| - 2);
    assert Plain(a) + [] == Plain(a);
  }

  lemma ReadParens(t: seq<Token>)
    requires |t| >= 2 && t[0] == Symbol('(') && t[|t| - 1] == Symbol(')') && Complete(t[1..|t| - 1])
    ensures var m := t[1..|t| - 1]; Complete(t) && Plain(t) == Plain(m) && Rerouted(t) == Rerouted(m)
  {
    var m := t[1..|t| - 1];
    ParenBefore(m);
    hide Complete, Plain, Rerouted;
    ParenAfter([Symbol('(')] + m);
    assert t == [Symbol('(')] + m + [Symbol(')')];
  }

  lemma ParenBefore(m: seq<Token>)
    requires Complete(m)
    ensures var t := [Symbol('(')] + m; Complete(t) && Plain(t) == Plain(m) && Rerouted(t) == Rerouted(m)
  {
    assert ([Symbol('(')] + m)[1..] == m;
    ReadOne(Symbol('('));
    CompleteSum([Symbol('(')], m);
  }

  lemma ParenAfter(m: seq<Token>)
    requires Complete(m)
    ensures var t := m + [Symbol(')')]; Complete(t) && Plain(t) == Plain(m) && Rerouted(t) == Rerouted(m)
  {
    ReadOne(Symbol(')'));
    hide Complete, Plain, Rerouted;
    ReadingSplits(m, [Symbol(')')]);
  }

  lemma ReadsSimple(c: Cmd, t: seq<Token>)
    requires SpellsSimple(c, t)
    ensures ReadsAs(c, t)
    decreases |t|, 1
  {
    if SpellsCommand(c, t) { ReadsCommand(c, t); } else { ReadsBlock(c, t); }
  }

  lemma {:induction false} ReadsPipe(c: Cmd, t: seq<Token>)
    requires SpellsPipe(c, t)
    ensures ReadsAs(c, t)
    decreases |t|, 2
  {
    hide SpellsPipe, SpellsSimple, Complete, Plain, Rerouted;
    if SpellsSimple(c, t) {
      ReadsSimple(c, t);
    } else {
      var k := PipeSplit(c, t);
      ReadsSimple(c.left, t[..k]);
      ReadsPipe(c.right, t[k + 1..]);
      ReadJoin(t[..k], Symbol('|'), t[k + 1..]);
    }
  }

  lemma {:induction false} ReadsBack(c: Cmd, t: seq<Token>)
    requires SpellsBack(c, t)
    ensures ReadsAs(c, t)
    decreases |t|, 3
  {
    var n := |t| - 1;
    if t != [] && t[n] == Symbol('&') {
      ReadsBack(c.cmd, t[..n]);
      ReadJoin(t[..n], t[n], []);
      assert t == t[..n] + [t[n]] + [];
    } else {
      ReadsPipe(c, t);
    }
  }

  /** The line, without its parentheses and redirections, is the tree's arguments and connectives from left to right;
      without its parentheses and arguments, it is the tree's redirections and connectives from left to right. */
  lemma {:induction false} ReadsLine(c: Cmd, t: seq<Token>)
    requires SpellsLine(c, t)
    ensures Complete(t) && Plain(t) == ReadPlain(c) && Rerouted(t) == ReadRerouted(c)
    decreases |t|, 4
  {
    hide SpellsLine, SpellsBack, Complete, Plain, Rerouted;
    if SpellsBack(c, t) {
      ReadsBack(c, t);
    } else {
      var k := LineSplit(c, t);
      ReadsBack(c.left, t[..k]);
      ReadsLine(c.right, t[k + 1..]);
      ReadJoin(t[..k], Symbol(';'), t[k + 1..]);
    }
  }

  // ---------------------------------------------------------------- the order of a tree's words in the line

  /** The words and file names a tree points at. */
  function Words(c: Cmd): set<Range> {
    match c
    case Exec(argv) => set w | w in argv
    case Redir(cmd, r) => Words(cmd) + {r.file}
    case Pipe(l, r) => Words(l) + Words(r)
    case List(l, r) => Words(l) + Words(r)
    case Back(cmd) => Words(cmd)
  }

  function Files(c: Cmd): set<Range> {
    match c
    case Exec(_) => {}
    case Redir(cmd, r) => Files(cmd) + {r.file}
    case Pipe(l, r) => Files(l) + Files(r)
    case List(l, r) => Files(l) + Files(r)
    case Back(cmd) => Files(cmd)
  }

  /** Everything in u stands before everything in v. */
  ghost predicate Precedes(u: set<Range>, v: set<Range>) {
    forall x, y :: x in u && y in v ==> x.e <= y.q
  }

  ghost predicate Ascending(ws: seq<Range>) {
    forall i, j :: 0 <= i < j < |ws| ==> ws[i].e <= ws[j].q
  }

  /** Arguments are in line order, a redirection's file comes after those it wraps, and the left part of a pipe or list
      comes before the right one. */
  ghost predicate InOrder(c: Cmd) {
    match c
    case Exec(argv) => Ascending(argv)
    case Redir(cmd, r) => InOrder(cmd) && Precedes(Files(cmd), {r.file})
    case Pipe(l, r) => InOrder(l) && InOrder(r) && Precedes(Words(l), Words(r))
    case List(l, r) => InOrder(l) && InOrder(r) && Precedes(Words(l), Words(r))
    case Back(cmd) => InOrder(cmd)
  }

  ghost predicate Within(ws: set<Range>, t: seq<Token>) {
    forall w :: w in ws ==> Word(w) in t
  }

  ghost predicate Placed(c: Cmd, t: seq<Token>) {
    InOrder(c) && Within(Words(c), t) && Files(c) <= Words(c)
  }

  lemma OrderParts(t: seq<Token>, i: nat, j: nat)
    requires InLineOrder(t) && i <= j <= |t|
    ensures InLineOrder(t[i..j])
  {}

  /** Two trees side by side. */
  lemma SideBySide(l: set<Range>, r: set<Range>, t: seq<Token>, k: nat)
    requires InLineOrder(t) && k < |t| && Within(l, t[..k]) && Within(r, t[k + 1..])
    ensures Precedes(l, r) && Within(l + r, t)
  {
    forall x, y | x in l && y in r ensures x.e <= y.q {
      var a :| 0 <= a < k && t[..k][a] == Word(x);
      var b :| 0 <= b < |t| - k - 1 && t[k + 1..][b] == Word(y);
      assert t[a] == Word(x) && t[k + 1 + b] == Word(y);
    }
  }

  function FilesOf(rs: seq<Redirection>): (ws: seq<Range>)
    ensures |ws| == |rs| && forall i :: 0 <= i < |rs| ==> ws[i] == rs[i].file
  {
    seq(|rs|, i requires 0 <= i < |rs| => rs[i].file)
  }

  /** w stands before every word of t. */
  lemma WordAhead(w: Range, ws: seq<Range>, t: seq<Token>, k: nat)
    requires InLineOrder(t) && 0 < k <= |t| && t[k - 1] == Word(w)
    requires Ascending(ws) && forall v :: v in ws ==> Word(v) in t[k..]
    ensures Ascending([w] + ws) && forall v :: v in [w] + ws ==> Word(v) in t
  {
    forall v | v in ws ensures w.e <= v.q && Word(v) in t {
      var b :| 0 <= b < |t[k..]| && t[k..][b] == Word(v);
      assert t[k + b] == Word(v);
    }
  }

  lemma WordsLater(ws: seq<Range>, t: seq<Token>, k: nat)
    requires k <= |t| && forall v :: v in ws ==> Word(v) in t[k..]
    ensures forall v :: v in ws ==> Word(v) in t
  {}

  lemma {:induction false} CommandSorted(t: seq<Token>)
    requires CommandTokens(t) && InLineOrder(t)
    ensures Ascending(WordsIn(t)) && Ascending(FilesOf(RedirsIn(t)))
    ensures (forall w :: w in WordsIn(t) ==> Word(w) in t) && (forall w :: w in FilesOf(RedirsIn(t)) ==> Word(w) in t)
    decreases |t|
  {
    if t != [] {
      var k := if t[0].Word? then 1 else 2;
      OrderParts(t, k, |t|);
      assert t[k..|t|] == t[k..];
      FirstAhead(t);
      hide Ascending, InLineOrder, WordsIn, RedirsIn, FilesOf;
      CommandSorted(t[k..]);
      var ws, fs := WordsIn(t[k..]), FilesOf(RedirsIn(t[k..]));
      WordsLater(ws, t, k);
      WordsLater(fs, t, k);
      WordAhead(t[k - 1].w, if k == 1 then ws else fs, t, k);
    }
  }

  lemma FirstAhead(t: seq<Token>)
    requires CommandTokens(t) && t != []
    ensures t[0].Word? ==> WordsIn(t) == [t[0].w] + WordsIn(t[1..]) && RedirsIn(t) == RedirsIn(t[1..])
    ensures !t[0].Word? ==>
              && |t| > 1 && t[1].Word? && WordsIn(t) == WordsIn(t[2..])
              && FilesOf(RedirsIn(t)) == [t[1].w] + FilesOf(RedirsIn(t[2..]))
  {
    if !t[0].Word? {
      assert RedirsIn(t) == [Redirection(Kind(t[0]), t[1].w)] + RedirsIn(t[2..]);
      FilesOfFirst(Redirection(Kind(t[0]), t[1].w), RedirsIn(t[2..]));
      hide FilesOf;
    }
  }

  lemma FilesOfFirst(r: Redirection, rs: seq<Redirection>)
    ensures FilesOf([r] + rs) == [r.file] + FilesOf(rs)
  {}

  lemma {:induction false} LayersPlaced(c: Cmd, t: seq<Token>)
    requires Core(c).Exec? && InOrder(Core(c)) && Within(Words(Core(c)), t)
    requires Ascending(FilesOf(Layers(c))) && forall w :: w in FilesOf(Layers(c)) ==> Word(w) in t
    ensures Placed(c, t) && Files(c) == set w | w in FilesOf(Layers(c))
  {
    if c.Redir? {
      var fs := FilesOf(Layers(c.cmd));
      LastLayer(fs, c.r.file);
      assert FilesOf(Layers(c)) == fs + [c.r.file];
      hide Ascending;
      LayersPlaced(c.cmd, t);
      assert forall w :: w in fs + [c.r.file] <==> w in fs || w == c.r.file;
    }
  }

  lemma LastLayer(fs: seq<Range>, f: Range)
    ensures Ascending(fs + [f]) ==> Ascending(fs) && Precedes(set w | w in fs, {f})
  {
    if Ascending(fs + [f]) {
      var all := fs + [f];
      forall i, j | 0 <= i < j < |fs| ensures fs[i].e <= fs[j].q {
        assert all[i] == fs[i] && all[j] == fs[j];
      }
      forall w | w in fs ensures w.e <= f.q {
        var i :| 0 <= i < |fs| && fs[i] == w;
        assert all[i] == w && all[|fs|] == f;
      }
    }
  }

  lemma CommandPlaced(c: Cmd, t: seq<Token>)
    requires SpellsCommand(c, t) && InLineOrder(t)
    ensures Placed(c, t)
  {
    CommandSorted(t);
    hide InLineOrder, CommandTokens, Ascending;
    LayersPlaced(c, t);
  }

  lemma {:induction false} BlockPlaced(c: Cmd, t: seq<Token>)
    requires SpellsBlock(c, t) && InLineOrder(t)
    ensures Placed(c, t)
    decreases |t|, 0
  {
    var n := |t| - 1;
    hide SpellsLine;
    if t[n] == Symbol(')') {
      OrderParts(t, 1, n);
      LinePlaced(c, t[1..n]);
      hide InOrder;
    } else {
      OrderParts(t, 0, n - 1);
      assert t[0..n - 1] == t[..n - 1];
      BlockPlaced(c.cmd, t[..n - 1]);
      FileLast(Files(c.cmd), c.r, t);
      hide InOrder;
    }
  }

  lemma FileLast(fs: set<Range>, r: Redirection, t: seq<Token>)
    requires InLineOrder(t) && |t| >= 2 && t[|t| - 2..] == RedirTokens(r) && Within(fs, t[..|t| - 2])
    ensures Precedes(fs, {r.file}) && Word(r.file) in t
  {
    assert t[|t| - 1] == t[|t| - 2..][1] == Word(r.file);
    forall f | f in fs ensures f.e <= r.file.q {
      var a :| 0 <= a < |t| - 2 && t[..|t| - 2][a] == Word(f);
      assert t[a] == Word(f);
    }
  }

  lemma {:induction false} PipePlaced(c: Cmd, t: seq<Token>)
    requires SpellsPipe(c, t) && InLineOrder(t)
    ensures Placed(c, t)
    decreases |t|, 2
  {
    hide SpellsPipe, SpellsSimple;
    if SpellsSimple(c, t) {
      SimplePlaced(c, t);
    } else {
      var k := PipeSplit(c, t);
      PartsInOrder(t, k);
      SimplePlaced(c.left, t[..k]);
      PipePlaced(c.right, t[k + 1..]);
      SideBySide(Words(c.left), Words(c.right), t, k);
      hide InLineOrder, Within, Precedes;
    }
  }

  lemma PartsInOrder(t: seq<Token>, k: nat)
    requires InLineOrder(t) && k < |t|
    ensures InLineOrder(t[..k]) && InLineOrder(t[k + 1..])
  {
    OrderParts(t, 0, k);
    OrderParts(t, k + 1, |t|);
    assert t[0..k] == t[..k] && t[k + 1..|t|] == t[k + 1..];
  }

  lemma SimplePlaced(c: Cmd, t: seq<Token>)
    requires SpellsSimple(c, t) && InLineOrder(t)
    ensures Placed(c, t)
    decreases |t|, 1
  {
    if SpellsCommand(c, t) { CommandPlaced(c, t); } else { BlockPlaced(c, t); }
  }

  lemma {:induction false} BackPlaced(c: Cmd, t: seq<Token>)
    requires SpellsBack(c, t) && InLineOrder(t)
    ensures Placed(c, t)
    decreases |t|, 3
  {
    hide SpellsPipe;
    var n := |t| - 1;
    if t != [] && t[n] == Symbol('&') {
      PartsInOrder(t, n);
      BackPlaced(c.cmd, t[..n]);
    } else {
      PipePlaced(c, t);
    }
  }

  /** Where a spelled tree's words stand in the line. */
  lemma {:induction false} LinePlaced(c: Cmd, t: seq<Token>)
    requires SpellsLine(c, t) && InLineOrder(t)
    ensures Placed(c, t)
    decreases |t|, 4
  {
    hide SpellsLine, SpellsBack;
    if SpellsBack(c, t) {
      BackPlaced(c, t);
    } else {
      var k := LineSplit(c, t);
      PartsInOrder(t, k);
      BackPlaced(c.left, t[..k]);
      LinePlaced(c.right, t[k + 1..]);
      SideBySide(Words(c.left), Words(c.right), t, k);
      hide InLineOrder, Within, Precedes;
    }
  }
}
