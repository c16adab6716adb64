/** The lexer of src/user/sh.c: gettoken and peek as cursor loops, against a token-list reading of the line. */
module ShellLexer {
  import opened Common

  /** `strchr(whitespace, c)` */
  predicate IsSpace(c: char) {
    c == ' ' || c == '\t' || c == '\r' || c == '\n' || c == '\U{000B}'
  }

  /** `strchr(symbols, c)` */
  predicate IsSymbol(c: char) {
    c == '<' || c == '|' || c == '>' || c == '&' || c == ';' || c == '(' || c == ')'
  }

  predicate IsWordChar(c: char) {
    !IsSpace(c) && !IsSymbol(c)
  }

  /** A word is the half-open range of buffer positions the source keeps as (q, eq). */
  datatype Range = Range(q: nat, e: nat)

  datatype Token = Symbol(c: char) | Append | Word(w: Range)

  function SkipSpace(s: string, i: nat): (r: nat)
    requires i <= |s|
    ensures i <= r <= |s| && (r < |s| ==> !IsSpace(s[r])) && forall k :: i <= k < r ==> IsSpace(s[k])
    decreases |s| - i
  {
    if i < |s| && IsSpace(s[i]) then SkipSpace(s, i + 1) else i
  }

  function WordEnd(s: string, i: nat): (r: nat)
    requires i <= |s|
    ensures i <= r <= |s| && (r < |s| ==> !IsWordChar(s[r])) && forall k :: i <= k < r ==> IsWordChar(s[k])
    decreases |s| - i
  {
    if i < |s| && IsWordChar(s[i]) then WordEnd(s, i + 1) else i
  }

  /** The token starting at a non-blank position, and the position after it. */
  function TokenAt(s: string, i: nat): (r: (Token, nat))
    requires i < |s| && !IsSpace(s[i])
    ensures i < r.1 <= |s|
    ensures r.0.Word? ==> r.0.w == Range(i, r.1) && IsWordRange(s, r.0.w)
    ensures r.0.Append? <==> s[i] == '>' && i + 1 < |s| && s[i + 1] == '>'
  {
    if s[i] == '>' && i + 1 < |s| && s[i + 1] == '>' then (Append, i + 2)
    else if IsSymbol(s[i]) then (Symbol(s[i]), i + 1)
    else (Word(Range(i, WordEnd(s, i))), WordEnd(s, i))
  }

  /** A maximal run of word characters that ends where a blank, a symbol or the terminator stands. */
  ghost predicate IsWordRange(s: string, w: Range) {
    && w.q < w.e <= |s|
    && (forall k :: w.q <= k < w.e ==> IsWordChar(s[k]))
    && (w.e < |s| ==> !IsWordChar(s[w.e]))
  }

  /** The tokens of the line from position i on. */
  function Tokens(s: string, i: nat): (t: seq<Token>)
    requires i <= |s|
    ensures forall k :: 0 <= k < |t| && t[k].Word? ==> IsWordRange(s, t[k].w)
    decreases |s| - i
  {
    var j := SkipSpace(s, i);
    if j == |s| then [] else
      var (tok, e) := TokenAt(s, j);
      [tok] + Tokens(s, e)
  }

  /** Leading blanks do not change what follows. */
  lemma TokensSkip(s: string, i: nat, j: nat)
    requires i <= |s| && i <= j <= SkipSpace(s, i)
    ensures SkipSpace(s, j) == SkipSpace(s, i) && Tokens(s, j) == Tokens(s, i)
    decreases j - i
  {
    if i < j {
      TokensSkip(s, i + 1, j);
    }
  }

  /** Words stand in the line in the order of their tokens. */
  ghost predicate InLineOrder(t: seq<Token>) {
    forall a, b :: 0 <= a < b < |t| && t[a].Word? && t[b].Word? ==> t[a].w.e <= t[b].w.q
  }

  lemma {:induction false} TokensOrdered(s: string, i: nat)
    requires i <= |s|
    ensures InLineOrder(Tokens(s, i)) && forall k :: 0 <= k < |Tokens(s, i)| && Tokens(s, i)[k].Word? ==>
            Tokens(s, i)[k].w.q >= i
    decreases |s| - i
  {
    var j := SkipSpace(s, i);
    if j < |s| {
      var (tok, e) := TokenAt(s, j);
      TokensOrdered(s, e);
    }
  }

  /** The characters of a token. */
  function Text(s: string, t: Token): string {
    match t
    case Symbol(c) => [c]
    case Append => ">>"
    case Word(w) => if w.q <= w.e <= |s| then s[w.q..w.e] else []
  }

  function TextOf(s: string, ts: seq<Token>): string {
    if ts == [] then [] else Text(s, ts[0]) + TextOf(s, ts[1..])
  }

  function NonBlank(s: string): string {
    if s == [] then [] else (if IsSpace(s[0]) then [] else [s[0]]) + NonBlank(s[1..])
  }

  /** The tokens spell the line out, blanks apart: nothing is lost, added or put in another order. */
  lemma {:induction false} TokensSpellLine(s: string, i: nat)
    requires i <= |s|
    ensures TextOf(s, Tokens(s, i)) == NonBlank(s[i..])
    decreases |s| - i
  {
    var j := SkipSpace(s, i);
    BlanksGone(s, i, j);
    if j < |s| {
      var (tok, e) := TokenAt(s, j);
      TokensSpellLine(s, e);
      AllKept(s, j, e);
      assert Text(s, tok) == s[j..e];
      assert Tokens(s, i)[0] == tok && Tokens(s, i)[1..] == Tokens(s, e);
    }
  }

  lemma {:induction false} BlanksGone(s: string, i: nat, j: nat)
    requires i <= j <= |s| && forall k :: i <= k < j ==> IsSpace(s[k])
    ensures NonBlank(s[i..]) == NonBlank(s[j..])
    decreases j - i
  {
    if i < j {
      assert s[i..][1..] == s[i + 1..];
      BlanksGone(s, i + 1, j);
    }
  }

  lemma {:induction false} AllKept(s: string, i: nat, j: nat)
    requires i <= j <= |s| && forall k :: i <= k < j ==> !IsSpace(s[k])
    ensures NonBlank(s[i..]) == s[i..j] + NonBlank(s[j..])
    decreases j - i
  {
    if i < j {
      assert s[i..][1..] == s[i + 1..] && s[i..j] == [s[i]] + s[i + 1..j];
      AllKept(s, i + 1, j);
    }
  }

  /** The first character of a token, as peek sees it; '\0' stands for a word's. */
  function Lead(t: Token): char {
    match t
    case Symbol(c) => c
    case Append => '>'
    case Word(_) => '\0'
  }

  method SkipBlanks(s: string, i: nat) returns (j: nat)
    requires i <= |s|
    ensures j == SkipSpace(s, i)
  {
    j := i;
    while j < |s| && IsSpace(s[j])
      invariant i <= j <= |s| && SkipSpace(s, j) == SkipSpace(s, i)
    {
      j := j + 1;
    }
  }

  /** gettoken: the next token of the line, or nothing at its end. */
  method GetToken(s: string, ps: nat) returns (tok: Option<Token>, ps': nat)
    requires ps <= |s|
    ensures ps <= ps' <= |s|
    ensures Tokens(s, ps) == if tok.None? then [] else [tok.value] + Tokens(s, ps')
    ensures tok.Some? ==> ps < ps'
  {
    var i := SkipBlanks(s, ps);
    if i == |s| {
      return None, i;
    }
    TokensSkip(s, ps, i);
    ghost var start := i;
    if s[i] == '|' || s[i] == '(' || s[i] == ')' || s[i] == ';' || s[i] == '&' || s[i] == '<' {
      tok, i := Some(Symbol(s[i])), i + 1;
    } else if s[i] == '>' {
      i := i + 1;
      if i < |s| && s[i] == '>' {
        tok, i := Some(Append), i + 1;
      } else {
        tok := Some(Symbol('>'));
      }
    } else {
      var q := i;
      while i < |s| && !IsSpace(s[i]) && !IsSymbol(s[i])
        invariant q <= i <= |s| && WordEnd(s, i) == WordEnd(s, q)
      {
        i := i + 1;
      }
      tok := Some(Word(Range(q, i)));
    }
    assert (tok.value, i) == TokenAt(s, start);
    ps' := SkipBlanks(s, i);
    TokensSkip(s, i, ps');
  }

  /** peek: step over blanks and say whether the next token starts with one of `toks`. */
  method Peek(s: string, ps: nat, toks: string) returns (b: bool, ps': nat)
    requires ps <= |s| && forall c :: c in toks ==> IsSymbol(c)
    ensures ps <= ps' <= |s| && Tokens(s, ps') == Tokens(s, ps)
    ensures b <==> Tokens(s, ps) != [] && Lead(Tokens(s, ps)[0]) in toks
    ensures Tokens(s, ps) == [] <==> ps' == |s|
  {
    ps' := SkipBlanks(s, ps);
    TokensSkip(s, ps, ps');
    b := ps' < |s| && s[ps'] in toks;
  }
}
