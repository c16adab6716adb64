/** The parser functions of src/user/sh.c as methods moving a cursor over the line, and nulterminate, which
    writes terminators into the line in place. */
module ShellCommand {
  import opened Common
  import opened ShellLexer
  import opened ShellParser
  import opened ShellTree

  // ---------------------------------------------------------------- cursor methods

  type Parse<T> = Result<(T, nat)>

  /** The cursor parse r, started at ps, agrees with a parse of the tokens from ps on. */
  ghost predicate Agrees<T>(s: string, ps: nat, r: Parse<T>, spec: Result<(T, seq<Token>)>)
    requires ps <= |s|
  {
    match spec
    case Err(e) => r == Err(e)
    case Ok((x, rest)) => r.Ok? && r.value.0 == x && ps <= r.value.1 <= |s| && Tokens(s, r.value.1) == rest
  }

  /** The tree and the remaining tokens of a parse. */
  ghost function Items(t: seq<Token>): Result<(Cmd, seq<Token>)> {
    var (items, rest) :- ParseItems(t, 0);
    Ok((Wrap(Exec(Args(items)), Redirs(items)), rest))
  }

  ghost function SimpleSpec(t: seq<Token>): Result<(Cmd, seq<Token>)> {
    var (x, rest) :- ParseSimple(t);
    Ok((TreeSimple(x), rest))
  }

  ghost function PipeSpec(t: seq<Token>): Result<(Cmd, seq<Token>)> {
    var (p, rest) :- ParsePipe(t);
    Ok((TreePipe(p), rest))
  }

  ghost function LineSpec(t: seq<Token>): Result<(Cmd, seq<Token>)> {
    var (l, rest) :- ParseLine(t);
    Ok((TreeLine(l), rest))
  }

  /** The tokens a parse took. */
  ghost function Taken(s: string, ps: nat, ps': nat): seq<Token>
    requires ps <= |s| && ps' <= |s|
  {
    var t, rest := Tokens(s, ps), Tokens(s, ps');
    if |rest| <= |t| then t[..|t| - |rest|] else t
  }

  lemma TakenIs(s: string, ps: nat, ps': nat, front: seq<Token>)
    requires ps <= |s| && ps' <= |s| && Tokens(s, ps) == front + Tokens(s, ps')
    ensures Taken(s, ps, ps') == front
  {}

  lemma ItemsTaken(s: string, ps: nat, r: Parse<Cmd>)
    requires ps <= |s| && Agrees(s, ps, r, Items(Tokens(s, ps))) && r.Ok?
    ensures r.value.1 <= |s| && SpellsCommand(r.value.0, Taken(s, ps, r.value.1))
  {
    var t := Tokens(s, ps);
    ItemsSound(t, 0);
    var items := ParseItems(t, 0).value.0;
    ItemsSpell(items);
    WrapLayers(Args(items), Redirs(items));
    TakenIs(s, ps, r.value.1, YieldItems(items));
  }

  /** The tokens are these redirections and nothing else. */
  ghost predicate OnlyRedirs(t: seq<Token>, rs: seq<Redirection>) {
    CommandTokens(t) && WordsIn(t) == [] && RedirsIn(t) == rs
  }

  lemma RedirsTaken(s: string, ps: nat, r: Parse<seq<Redirection>>)
    requires ps <= |s| && Agrees(s, ps, r, ParseRedirs(Tokens(s, ps))) && r.Ok?
    ensures r.value.1 <= |s|
    ensures OnlyRedirs(Taken(s, ps, r.value.1), r.value.0)
  {
    var t := Tokens(s, ps);
    RedirsSound(t);
    var rs := ParseRedirs(t).value.0;
    RedirsSpell(rs);
    TakenIs(s, ps, r.value.1, YieldRedirs(rs));
  }

  lemma SimpleTaken(s: string, ps: nat, r: Parse<Cmd>)
    requires ps <= |s| && Agrees(s, ps, r, SimpleSpec(Tokens(s, ps))) && r.Ok?
    ensures r.value.1 <= |s| && SpellsSimple(r.value.0, Taken(s, ps, r.value.1))
  {
    var t := Tokens(s, ps);
    SimpleSound(t);
    var x := ParseSimple(t).value.0;
    SimpleSpells(x);
    TakenIs(s, ps, r.value.1, YieldSimple(x));
  }

  lemma PipeTaken(s: string, ps: nat, r: Parse<Cmd>)
    requires ps <= |s| && Agrees(s, ps, r, PipeSpec(Tokens(s, ps))) && r.Ok?
    ensures r.value.1 <= |s| && SpellsPipe(r.value.0, Taken(s, ps, r.value.1))
  {
    var t := Tokens(s, ps);
    PipeSound(t);
    var p := ParsePipe(t).value.0;
    PipeSpells(p);
    TakenIs(s, ps, r.value.1, YieldPipe(p));
  }

  lemma LineTaken(s: string, ps: nat, r: Parse<Cmd>)
    requires ps <= |s| && Agrees(s, ps, r, LineSpec(Tokens(s, ps))) && r.Ok?
    ensures r.value.1 <= |s| && SpellsLine(r.value.0, Taken(s, ps, r.value.1))
  {
    var t := Tokens(s, ps);
    LineSound(t);
    var l := ParseLine(t).value.0;
    LineSpells(l);
    TakenIs(s, ps, r.value.1, YieldLine(l));
  }

  /** spec after what has been read already. */
  ghost function After<D>(done: seq<D>, spec: Result<(seq<D>, seq<Token>)>): Result<(seq<D>, seq<Token>)> {
    if spec.Err? then spec else Ok((done + spec.value.0, spec.value.1))
  }

  lemma AfterLaws<D>(a: seq<D>, b: seq<D>, spec: Result<(seq<D>, seq<Token>)>)
    ensures After([], spec) == spec
    ensures After(a, After(b, spec)) == After(a + b, spec)
    ensures spec.Ok? && spec.value.0 == [] ==> After(a, spec) == Ok((a, spec.value.1))
  {
    if spec.Ok? {
      Assoc(a, b, spec.value.0);
      assert a + [] == a && [] + spec.value.0 == spec.value.0;
    }
  }

  /** The ways the parser calls peek. */
  method AtSymbol(s: string, ps0: nat, c: char) returns (b: bool, ps: nat)
    requires ps0 <= |s| && IsSymbol(c) && c != '>'
    ensures ps0 <= ps <= |s| && Tokens(s, ps) == Tokens(s, ps0)
    ensures b <==> Tokens(s, ps0) != [] && Tokens(s, ps0)[0] == Symbol(c)
  {
    b, ps := Peek(s, ps0, [c]);
  }

  method AtRedir(s: string, ps0: nat) returns (b: bool, ps: nat)
    requires ps0 <= |s|
    ensures ps0 <= ps <= |s| && Tokens(s, ps) == Tokens(s, ps0)
    ensures b <==> !NoRedir(Tokens(s, ps0))
  {
    b, ps := Peek(s, ps0, "<>");
  }

  method AtEnd(s: string, ps0: nat) returns (b: bool, ps: nat)
    requires ps0 <= |s|
    ensures ps0 <= ps <= |s| && Tokens(s, ps) == Tokens(s, ps0)
    ensures b <==> Tokens(s, ps0) != [] && EndsCommand(Tokens(s, ps0))
  {
    b, ps := Peek(s, ps0, "|)&;");
  }

  /** parseredirs: the redirections at the cursor, in order. */
  method Redirections(s: string, ps0: nat) returns (r: Parse<seq<Redirection>>)
    requires ps0 <= |s|
    ensures Agrees(s, ps0, r, ParseRedirs(Tokens(s, ps0)))
    ensures r.Ok? ==> r.value.1 <= |s| && NoRedir(Tokens(s, r.value.1))
    ensures r.Ok? ==> OnlyRedirs(Taken(s, ps0, r.value.1), r.value.0)
  {
    hide OnlyRedirs, Taken;
    var rs: seq<Redirection>, ps := [], ps0;
    ghost var spec := ParseRedirs(Tokens(s, ps0));
    AfterLaws([], [], spec);
    var more;
    more, ps := AtRedir(s, ps);
    while more
      invariant ps0 <= ps <= |s|
      invariant more <==> !NoRedir(Tokens(s, ps))
      invariant spec == After(rs, ParseRedirs(Tokens(s, ps)))
      decreases |s| - ps, more
    {
      ghost var t := Tokens(s, ps);
      var tok, name;
      tok, ps := GetToken(s, ps);
      assert t[1..] == Tokens(s, ps);
      name, ps := GetToken(s, ps);
      if name.None? || !name.value.Word? {
        return Err(MissingFile);
      }
      assert t[1..][1..] == Tokens(s, ps) && t[2..] == t[1..][1..];
      var kind := if tok.value == Symbol('<') then Input else if tok.value == Symbol('>') then Output else AppendTo;
      AfterLaws(rs, [Redirection(kind, name.value.w)], ParseRedirs(Tokens(s, ps)));
      rs := rs + [Redirection(kind, name.value.w)];
      more, ps := AtRedir(s, ps);
    }
    AfterLaws(rs, [], ParseRedirs(Tokens(s, ps)));
    r := Ok((rs, ps));
    RedirsTaken(s, ps0, r);
  }

  /** The items a run of redirections stands for. */
  ghost function RedirItems(rs: seq<Redirection>): (items: seq<Item>)
    ensures |items| == |rs|
  {
    seq(|rs|, i requires 0 <= i < |rs| => Redirect(rs[i]))
  }

  /** Reading a command can stop after its leading redirections. */
  lemma {:induction false} ItemsAfterRedirs(t: seq<Token>, argc: nat)
    ensures match ParseRedirs(t)
            case Err(e) => ParseItems(t, argc) == Err(e)
            case Ok((rs, rest)) => ParseItems(t, argc) == After(RedirItems(rs), ParseItems(rest, argc))
    decreases |t|
  {
    if NoRedir(t) {
      assert RedirItems([]) == [];
      AfterLaws([], [], ParseItems(t, argc));
    } else if |t| > 1 && t[1].Word? {
      ItemsAfterRedirs(t[2..], argc);
      if ParseRedirs(t[2..]).Ok? {
        var (rs, rest) := ParseRedirs(t[2..]).value;
        var x := Redirection(Kind(t[0]), t[1].w);
        assert RedirItems([x] + rs) == [Redirect(x)] + RedirItems(rs);
        AfterLaws([Redirect(x)], RedirItems(rs), ParseItems(rest, argc));
      }
    }
  }

  lemma {:induction false} ItemsSplit(a: seq<Item>, b: seq<Item>)
    ensures Args(a + b) == Args(a) + Args(b) && Redirs(a + b) == Redirs(a) + Redirs(b)
    decreases |a|
  {
    if a == [] {
      assert a + b == b;
    } else {
      assert (a + b)[1..] == a[1..] + b && (a + b)[0] == a[0];
      ItemsSplit(a[1..], b);
      var x: seq<Range> := if a[0].Arg? then [a[0].w] else [];
      var y: seq<Redirection> := if a[0].Redirect? then [a[0].r] else [];
      assert Args(a + b) == x + (Args(a[1..]) + Args(b));
      assert Redirs(a + b) == y + (Redirs(a[1..]) + Redirs(b));
      Assoc(x, Args(a[1..]), Args(b));
      Assoc(y, Redirs(a[1..]), Redirs(b));
    }
  }

  lemma {:induction false} RedirItemsSplit(rs: seq<Redirection>)
    ensures Args(RedirItems(rs)) == [] && Redirs(RedirItems(rs)) == rs
    decreases |rs|
  {
    if rs != [] {
      assert RedirItems(rs)[1..] == RedirItems(rs[1..]);
      RedirItemsSplit(rs[1..]);
      assert rs == [rs[0]] + rs[1..];
    }
  }

  /** The loop of parseexec has read `items`, which hold argv and rs, and stands before t. */
  ghost predicate Reading(spec: Result<(seq<Item>, seq<Token>)>, items: seq<Item>, argv: seq<Range>,
                          rs: seq<Redirection>, t: seq<Token>) {
    && Args(items) == argv && Redirs(items) == rs && |argv| < MAXARGS
    && spec == After(items, ParseItems(t, |argv|))
  }

  lemma ReadRedirs(spec: Result<(seq<Item>, seq<Token>)>, items: seq<Item>, argv: seq<Range>, rs: seq<Redirection>,
                   t: seq<Token>)
    requires Reading(spec, items, argv, rs, t)
    ensures match ParseRedirs(t)
            case Err(e) => spec == Err(e)
            case Ok((more, rest)) => Reading(spec, items + RedirItems(more), argv, rs + more, rest)
  {
    ItemsAfterRedirs(t, |argv|);
    if ParseRedirs(t).Ok? {
      var (more, rest) := ParseRedirs(t).value;
      AfterLaws(items, RedirItems(more), ParseItems(rest, |argv|));
      ItemsSplit(items, RedirItems(more));
      RedirItemsSplit(more);
    }
  }

  lemma ReadWord(spec: Result<(seq<Item>, seq<Token>)>, items: seq<Item>, argv: seq<Range>, rs: seq<Redirection>,
                 t: seq<Token>)
    requires Reading(spec, items, argv, rs, t) && t != [] && t[0].Word?
    ensures if |argv| + 1 >= MAXARGS then spec == Err(TooManyArgs)
            else Reading(spec, items + [Arg(t[0].w)], argv + [t[0].w], rs, t[1..])
  {
    if |argv| + 1 < MAXARGS {
      AfterLaws(items, [Arg(t[0].w)], ParseItems(t[1..], |argv| + 1));
      ItemsSplit(items, [Arg(t[0].w)]);
    }
  }

  lemma ReadNothing(t: seq<Token>)
    ensures Reading(ParseItems(t, 0), [], [], [], t)
  {
    AfterLaws([], [], ParseItems(t, 0));
  }

  /** A token that neither ends the command nor belongs to it. */
  lemma ReadBad(spec: Result<(seq<Item>, seq<Token>)>, items: seq<Item>, argv: seq<Range>, rs: seq<Redirection>,
                t: seq<Token>)
    requires Reading(spec, items, argv, rs, t) && NoRedir(t) && !EndsCommand(t) && !t[0].Word?
    ensures spec == Err(BadToken)
  {}

  lemma ReadAll(t0: seq<Token>, items: seq<Item>, argv: seq<Range>, rs: seq<Redirection>, t: seq<Token>)
    requires Reading(ParseItems(t0, 0), items, argv, rs, t) && EndsCommand(t)
    ensures Items(t0) == Ok((Wrap(Exec(argv), rs), t))
  {
    AfterLaws(items, [], ParseItems(t, |argv|));
  }

  /** The loop of parseexec: words and redirections up to a token that ends the command. */
  method CommandItems(s: string, ps0: nat) returns (r: Parse<Cmd>)
    requires ps0 <= |s|
    ensures Agrees(s, ps0, r, Items(Tokens(s, ps0)))
    ensures r.Ok? ==> r.value.1 <= |s| && SpellsCommand(r.value.0, Taken(s, ps0, r.value.1))
  {
    hide SpellsCommand, Taken, OnlyRedirs, Reading, ParseItems, ParseRedirs, RedirItems;
    var argv: seq<Range>, rs: seq<Redirection>, ps := [], [], ps0;
    ghost var items: seq<Item> := [];
    ghost var spec := ParseItems(Tokens(s, ps0), 0);
    ReadNothing(Tokens(s, ps0));
    ReadRedirs(spec, items, argv, rs, Tokens(s, ps));
    var rd := Redirections(s, ps);
    if rd.Err? {
      return Err(rd.error);
    }
    items, rs, ps := items + RedirItems(rd.value.0), rs + rd.value.0, rd.value.1;
    var stop;
    stop, ps := AtEnd(s, ps);
    while !stop
      invariant ps0 <= ps <= |s| && NoRedir(Tokens(s, ps))
      invariant Reading(spec, items, argv, rs, Tokens(s, ps))
      invariant stop <==> Tokens(s, ps) != [] && EndsCommand(Tokens(s, ps))
      decreases |s| - ps, !stop
    {
      ghost var t := Tokens(s, ps);
      var tok;
      tok, ps := GetToken(s, ps);
      if tok.None? {
        break;
      }
      if !tok.value.Word? {
        ReadBad(spec, items, argv, rs, t);
        return Err(BadToken);
      }
      ReadWord(spec, items, argv, rs, t);
      if |argv| + 1 >= MAXARGS {
        return Err(TooManyArgs);
      }
      assert t[1..] == Tokens(s, ps);
      argv, items := argv + [tok.value.w], items + [Arg(tok.value.w)];
      ReadRedirs(spec, items, argv, rs, Tokens(s, ps));
      rd := Redirections(s, ps);
      if rd.Err? {
        return Err(rd.error);
      }
      items, rs, ps := items + RedirItems(rd.value.0), rs + rd.value.0, rd.value.1;
      stop, ps := AtEnd(s, ps);
    }
    ReadAll(Tokens(s, ps0), items, argv, rs, Tokens(s, ps));
    r := Ok((Wrap(Exec(argv), rs), ps));
    ItemsTaken(s, ps0, r);
  }

  /** parseblock, at an opening parenthesis. */
  method CommandBlock(s: string, ps0: nat) returns (r: Parse<Cmd>)
    requires ps0 <= |s| && Tokens(s, ps0) != [] && Tokens(s, ps0)[0] == Symbol('(')
    ensures Agrees(s, ps0, r, SimpleSpec(Tokens(s, ps0)))
    ensures r.Ok? ==> r.value.1 <= |s| && SpellsSimple(r.value.0, Taken(s, ps0, r.value.1))
    decreases |s| - ps0, 0
  {
    var _, ps := GetToken(s, ps0);
    assert Tokens(s, ps0)[1..] == Tokens(s, ps);
    r := CommandLine(s, ps);
    if r.Err? {
      return;
    }
    var cmd := r.value.0;
    ghost var l, t1 := ParseLine(Tokens(s, ps)).value.0, Tokens(s, r.value.1);
    assert cmd == TreeLine(l);
    var b;
    b, ps := AtSymbol(s, r.value.1, ')');
    if !b {
      return Err(MissingParen);
    }
    var tok;
    tok, ps := GetToken(s, ps);
    assert t1[1..] == Tokens(s, ps);
    var rd := Redirections(s, ps);
    r := if rd.Err? then Err(rd.error) else Ok((Wrap(cmd, rd.value.0), rd.value.1));
    if r.Ok? { SimpleTaken(s, ps0, r); }
  }

  /** parseexec */
  method SimpleCommand(s: string, ps0: nat) returns (r: Parse<Cmd>)
    requires ps0 <= |s|
    ensures Agrees(s, ps0, r, SimpleSpec(Tokens(s, ps0)))
    ensures r.Ok? ==> r.value.1 <= |s| && SpellsSimple(r.value.0, Taken(s, ps0, r.value.1))
    decreases |s| - ps0, 1
  {
    var b, ps := AtSymbol(s, ps0, '(');
    if b {
      r := CommandBlock(s, ps);
    } else {
      r := CommandItems(s, ps);
    }
    if r.Ok? { SimpleTaken(s, ps0, r); }
  }

  /** parsepipe */
  method CommandPipe(s: string, ps0: nat) returns (r: Parse<Cmd>)
    requires ps0 <= |s|
    ensures Agrees(s, ps0, r, PipeSpec(Tokens(s, ps0)))
    ensures r.Ok? ==> r.value.1 <= |s| && SpellsPipe(r.value.0, Taken(s, ps0, r.value.1))
    decreases |s| - ps0, 2
  {
    r := SimpleCommand(s, ps0);
    if r.Err? {
      return;
    }
    var cmd := r.value.0;
    ghost var t1 := Tokens(s, r.value.1);
    var b, ps := AtSymbol(s, r.value.1, '|');
    r := Ok((cmd, ps));
    if b {
      var tok;
      tok, ps := GetToken(s, ps);
      assert t1[1..] == Tokens(s, ps);
      r := CommandPipe(s, ps);
      if r.Ok? {
        r := Ok((Pipe(cmd, r.value.0), r.value.1));
      }
    }
    if r.Ok? { PipeTaken(s, ps0, r); }
  }

  /** The `&` loop of parseline. */
  method CommandBacks(s: string, ps0: nat, cmd0: Cmd) returns (cmd: Cmd, ps: nat)
    requires ps0 <= |s|
    ensures var t := Tokens(s, ps0);
            cmd == Backgrounds(cmd0, Backs(t)) && ps0 <= ps <= |s| && Tokens(s, ps) == t[Backs(t)..]
  {
    ghost var t := Tokens(s, ps0);
    ghost var n := 0;
    var b;
    cmd := cmd0;
    b, ps := AtSymbol(s, ps0, '&');
    while b
      invariant ps0 <= ps <= |s| && n <= |t| && Tokens(s, ps) == t[n..] && Backs(t) == n + Backs(t[n..])
      invariant cmd == Backgrounds(cmd0, n)
      invariant b <==> n < |t| && t[n] == Symbol('&')
      decreases |s| - ps, b
    {
      var tok;
      tok, ps := GetToken(s, ps);
      assert t[n..][1..] == t[n + 1..] == Tokens(s, ps);
      cmd, n := Back(cmd), n + 1;
      b, ps := AtSymbol(s, ps, '&');
    }
    assert Backs(t[n..]) == 0;
  }

  /** parseline */
  method CommandLine(s: string, ps0: nat) returns (r: Parse<Cmd>)
    requires ps0 <= |s|
    ensures Agrees(s, ps0, r, LineSpec(Tokens(s, ps0)))
    ensures r.Ok? ==> r.value.1 <= |s| && SpellsLine(r.value.0, Taken(s, ps0, r.value.1))
    decreases |s| - ps0, 3
  {
    r := CommandPipe(s, ps0);
    if r.Err? {
      return;
    }
    var cmd, ps := CommandBacks(s, r.value.1, r.value.0);
    ghost var t2 := Tokens(s, ps);
    var b;
    b, ps := AtSymbol(s, ps, ';');
    r := Ok((cmd, ps));
    if b {
      var tok;
      tok, ps := GetToken(s, ps);
      assert t2[1..] == Tokens(s, ps);
      r := CommandLine(s, ps);
      if r.Ok? {
        r := Ok((List(cmd, r.value.0), r.value.1));
      }
    }
    if r.Ok? { LineTaken(s, ps0, r); }
  }

  /** parsecmd up to nulterminate: the tree of the whole line, or an error. */
  method ParseCommand(s: string) returns (r: Result<Cmd>)
    ensures match ParseAll(Tokens(s, 0))
            case Err(e) => r == Err(e)
            case Ok(l) => r == Ok(TreeLine(l))
    ensures forall c :: r == Ok(c) <==> SpellsLine(c, Tokens(s, 0)) && FitsCmd(c)
  {
    forall c ensures ParseAll(Tokens(s, 0)).Ok? && TreeLine(ParseAll(Tokens(s, 0)).value) == c
                     <==> SpellsLine(c, Tokens(s, 0)) && FitsCmd(c)
    {
      ParsedIffSpelled(Tokens(s, 0), c);
    }
    hide SpellsLine, FitsCmd, ParseLine;
    var p := CommandLine(s, 0);
    if p.Err? {
      return Err(p.error);
    }
    var _, ps := Peek(s, p.value.1, "");
    r := if ps != |s| then Err(Leftovers) else Ok(p.value.0);
  }

  // ---------------------------------------------------------------- nulterminate

  /** Position k is the end pointer of some word of c. */
  ghost predicate IsEnd(c: Cmd, k: int) {
    exists w :: w in Words(c) && w.e == k
  }

  /** nulterminate: a NUL at the end pointer of every word, and nothing else written. */
  method NulTerminate(buf: array<char>, c: Cmd)
    requires forall w :: w in Words(c) ==> w.e < buf.Length
    modifies buf
    ensures forall k :: 0 <= k < buf.Length ==> buf[k] == if IsEnd(c, k) then '\0' else old(buf[k])
  {
    match c
    case Exec(argv) =>
      var i := 0;
      while i < |argv|
        invariant 0 <= i <= |argv|
        invariant forall k :: 0 <= k < buf.Length ==>
                    buf[k] == if exists j :: 0 <= j < i && argv[j].e == k then '\0' else old(buf[k])
      {
        assert argv[i] in Words(c);
        buf[argv[i].e] := '\0';
        i := i + 1;
      }
      forall k | 0 <= k < buf.Length ensures IsEnd(c, k) <==> exists j :: 0 <= j < |argv| && argv[j].e == k {
        forall j | 0 <= j < |argv| && argv[j].e == k ensures IsEnd(c, k) {
          assert argv[j] in Words(c);
        }
      }
    case Redir(cmd, r) =>
      NulTerminate(buf, cmd);
      assert r.file in Words(c);
      buf[r.file.e] := '\0';
    case Pipe(l, r) =>
      NulTerminate(buf, l);
      NulTerminate(buf, r);
    case List(l, r) =>
      NulTerminate(buf, l);
      NulTerminate(buf, r);
    case Back(cmd) =>
      NulTerminate(buf, cmd);
  }

  /** The tree of a line: what the line spells, read from left to right the line itself, its words in line order. */
  lemma TreePlaced(s: string, l: Line)
    requires ParseAll(Tokens(s, 0)) == Ok(l)
    ensures LineTree(s, TreeLine(l)) && Within(Words(TreeLine(l)), Tokens(s, 0))
  {
    var t, c := Tokens(s, 0), TreeLine(l);
    ParsedIffSpelled(t, c);
    TokensOrdered(s, 0);
    ReadsLine(c, t);
    LinePlaced(c, t);
  }

  ghost predicate LineTree(s: string, c: Cmd) {
    var t := Tokens(s, 0);
    && SpellsLine(c, t) && FitsCmd(c) && InOrder(c)
    && Plain(t) == ReadPlain(c) && Rerouted(t) == ReadRerouted(c)
  }

  /** Every pointer pair in an accepted tree delimits a word of the line. */
  lemma TreeWordsAreWords(s: string, l: Line, w: Range)
    requires ParseAll(Tokens(s, 0)) == Ok(l) && w in Words(TreeLine(l))
    ensures IsWordRange(s, w)
  {
    var t := Tokens(s, 0);
    TreePlaced(s, l);
    var k :| 0 <= k < |t| && t[k] == Word(w);
  }

  /** The C string at q: the characters up to the first NUL. */
  function CString(b: seq<char>, q: nat): seq<char>
    decreases |b| - q
  {
    if q >= |b| || b[q] == '\0' then [] else [b[q]] + CString(b, q + 1)
  }

  lemma {:induction false} CStringUpTo(b: seq<char>, q: nat, e: nat)
    requires q <= e < |b| && b[e] == '\0' && forall k :: q <= k < e ==> b[k] != '\0'
    ensures CString(b, q) == b[q..e]
    decreases e - q
  {
    if q < e {
      CStringUpTo(b, q + 1, e);
    }
  }

  /** No end pointer lies inside a word, so terminating one word cannot cut another. */
  lemma EndsOutsideWords(s: string, v: Range, w: Range)
    requires IsWordRange(s, v) && IsWordRange(s, w)
    ensures !(w.q <= v.e < w.e)
  {
  }

  /** parsecmd on the NUL-terminated line in buf. On an error the buffer is untouched; on success every word and file
      name of the tree is a C string equal to the token it was read from, and only blanks, symbols and the terminator
      have been overwritten. */
  method ParseCmd(buf: array<char>) returns (r: Result<Cmd>)
    requires buf.Length > 0 && buf[buf.Length - 1] == '\0' && forall k :: 0 <= k < buf.Length - 1 ==> buf[k] != '\0'
    modifies buf
    ensures forall c :: r == Ok(c) <==> SpellsLine(c, Tokens(old(buf[..buf.Length - 1]), 0)) && FitsCmd(c)
    ensures var s := old(buf[..buf.Length - 1]);
            match ParseAll(Tokens(s, 0))
            case Err(e) => r == Err(e) && buf[..] == old(buf[..])
            case Ok(l) =>
              && r == Ok(TreeLine(l)) && LineTree(s, r.value)
              && (forall w :: w in Words(r.value) ==> IsWordRange(s, w) && CString(buf[..], w.q) == s[w.q..w.e])
              && (forall k :: 0 <= k < |s| && buf[k] != s[k] ==> !IsWordChar(s[k]))
  {
    var s := buf[..buf.Length - 1];
    r := ParseCommand(s);
    if r.Ok? {
      ghost var l := ParseAll(Tokens(s, 0)).value;
      TreePlaced(s, l);
      hide SpellsLine, FitsCmd, LineTree, ParseAll;
      forall w | w in Words(r.value) ensures IsWordRange(s, w) {
        TreeWordsAreWords(s, l, w);
      }
      NulTerminate(buf, r.value);
      forall w | w in Words(r.value) ensures CString(buf[..], w.q) == s[w.q..w.e] {
        Untouched(buf[..], s, r.value, w);
      }
    }
  }

  lemma Untouched(b: seq<char>, s: string, c: Cmd, w: Range)
    requires |b| == |s| + 1 && w in Words(c) && forall v :: v in Words(c) ==> IsWordRange(s, v)
    requires forall k :: 0 <= k < |s| ==> s[k] != '\0' && b[k] == if IsEnd(c, k) then '\0' else s[k]
    requires b[|s|] == '\0'
    ensures IsWordRange(s, w) && CString(b, w.q) == s[w.q..w.e]
  {
    forall k | w.q <= k < w.e ensures b[k] == s[k] {
      forall v | v in Words(c) ensures v.e != k {
        EndsOutsideWords(s, v, w);
      }
    }
    assert IsEnd(c, w.e);
    CStringUpTo(b, w.q, w.e);
    assert b[w.q..w.e] == s[w.q..w.e];
  }
}
