/**
 The tokens of a refusal condition's text: what is read from any text, however it is spaced.
 */
module RefusalTokens {
  import opened Text
  import opened RefusalCondition

  // ---------- tokens of a text ----------

  predicate IsNameStart(c: char) {
    'A' <= c <= 'Z' || 'a' <= c <= 'z' || c == '_'
  }

  predicate IsNameChar(c: char) {
    IsNameStart(c) || '0' <= c <= '9'
  }

  const LETTERS := "ABCDEFGHIJKLMNOPQRSTUVWXYZ" + "abcdefghijklmnopqrstuvwxyz"
  const DIGITS := "0123456789"

  lemma NameCharsListed(c: char)
    ensures IsNameStart(c) <==> c in LETTERS || c == '_'
    ensures IsNameChar(c) <==> c in LETTERS || c == '_' || c in DIGITS
  {
    assert c in LETTERS <==> c in "ABCDEFGHIJKLMNOPQRSTUVWXYZ" || c in "abcdefghijklmnopqrstuvwxyz";
  }

  function NameLength(s: string): (n: nat)
    ensures n <= |s|
    ensures n < |s| ==> !IsNameChar(s[n])
    ensures forall i :: 0 <= i < n ==> IsNameChar(s[i])
  {
    if s != [] && IsNameChar(s[0]) then 1 + NameLength(s[1..]) else 0
  }

  const WIDE := {"&&", "||", "==", "!="}
  const NARROW := {'(', ')', '!', '.'}

  /** The length of the token a text starts with; zero when it starts with none. */
  function Lexeme(s: string): (n: nat)
    ensures n <= |s|
  {
    if |s| >= 2 && s[..2] in WIDE then 2
    else if s != [] && s[0] in NARROW then 1
    else if s != [] && IsNameStart(s[0]) then NameLength(s)
    else 0
  }

  /** `_tokenize_condition`; `None` where it raises. */
  function Tokens(text: string): Option<seq<string>> {
    if text == [] then Some([])
    else if IsSpace(text[0]) then Tokens(text[1..])
    else
      var n := Lexeme(text);
      if n == 0 then None
      else
        var rest := Tokens(text[n..]);
        if rest.None? then None else Some([text[..n]] + rest.value)
  }

  function After(done: seq<string>, rest: Option<seq<string>>): Option<seq<string>> {
    if rest.None? then None else Some(done + rest.value)
  }

  lemma TokensStep(text: string, index: nat, done: seq<string>)
    requires index < |text|
    ensures var n := Lexeme(text[index..]);
            After(done, Tokens(text[index..])) ==
              if IsSpace(text[index]) then After(done, Tokens(text[index + 1..]))
              else if n == 0 then None
              else After(done + [text[index..index + n]], Tokens(text[index + n..]))
  {
    hide IsSpace, Lexeme;
    var ahead := text[index..];
    var n := Lexeme(ahead);
    assert ahead[0] == text[index] && ahead[1..] == text[index + 1..];
    assert ahead[n..] == text[index + n..] && ahead[..n] == text[index..index + n];
    var rest := Tokens(text[index + n..]);
    assert rest.Some? ==> done + ([ahead[..n]] + rest.value) == (done + [ahead[..n]]) + rest.value;
  }

  method Tokenize(text: string) returns (r: Option<seq<string>>)
    ensures r == Tokens(text)
  {
    hide IsSpace, Lexeme;
    var tokens: seq<string> := [];
    var index := 0;
    assert text[0..] == text;
    assert Tokens(text).Some? ==> [] + Tokens(text).value == Tokens(text).value;
    while index < |text|
      invariant 0 <= index <= |text|
      invariant Tokens(text) == After(tokens, Tokens(text[index..]))
    {
      hide Tokens, After;
      TokensStep(text, index, tokens);
      if IsSpace(text[index]) {
        index := index + 1;
        continue;
      }
      var n := Lexeme(text[index..]);
      if n == 0 { return None; }
      tokens := tokens + [text[index..index + n]];
      index := index + n;
    }
    assert text[index..] == [] && tokens + [] == tokens;
    return Some(tokens);
  }

  // ---------- tokens and the whitespace around them ----------

  predicate IsWord(t: string) {
    t != [] && IsNameStart(t[0]) && forall i :: 0 <= i < |t| ==> IsNameChar(t[i])
  }

  predicate IsSymbol(t: string) {
    t in WIDE || (|t| == 1 && t[0] in NARROW)
  }

  predicate IsToken(t: string) {
    IsWord(t) || IsSymbol(t)
  }

  /** Side by side, the two would be read as other tokens. */
  predicate Joins(a: string, b: string) {
    (IsWord(a) && IsWord(b)) || (a == "!" && b == "==")
  }

  /** The tokens with whitespace before, between and behind them. */
  function Spaced(ts: seq<string>, gaps: seq<string>): string
    requires |gaps| == |ts| + 1
  {
    if ts == [] then gaps[0] else gaps[0] + (ts[0] + Spaced(ts[1..], gaps[1..]))
  }

  /** There is whitespace at least where tokens would join. */
  ghost predicate Separated(ts: seq<string>, gaps: seq<string>) {
    && |gaps| == |ts| + 1 && AllSpace(gaps[0])
    && (ts != [] ==>
          && IsToken(ts[0]) && Separated(ts[1..], gaps[1..])
          && (|ts| > 1 && gaps[1] == [] ==> !Joins(ts[0], ts[1])))
  }

  lemma SymbolStarts(t: string)
    requires IsSymbol(t)
    ensures t[0] in {'&', '|', '=', '!', '(', ')', '.'} && (t[0] == '=' ==> t == "==")
    ensures !IsSpace(t[0]) && !IsNameChar(t[0])
  {}

  lemma NameShows(c: char)
    requires IsNameChar(c)
    ensures !IsSpace(c) && c !in {'&', '|', '=', '!', '(', ')', '.'}
  {}

  /** What follows does not lengthen the token. */
  predicate EndsBefore(t: string, rest: string) {
    rest == [] || ((IsWord(t) ==> !IsNameChar(rest[0])) && (t == "!" ==> rest[0] != '='))
  }

  lemma LexemeStops(t: string, rest: string)
    requires IsToken(t) && EndsBefore(t, rest)
    ensures Lexeme(t + rest) == |t| && !IsSpace(t[0])
  {
    hide IsSpace;
    var s := t + rest;
    assert s[0] == t[0];
    if IsWord(t) {
      NameShows(t[0]);
      assert |s| >= 2 ==> s[..2][0] == t[0] && s[..2] !in WIDE;
      assert forall i :: 0 <= i < |t| ==> s[i] == t[i];
      assert NameLength(s) == |t| by {
        assert |t| < |s| ==> s[|t|] == rest[0];
      }
    } else {
      SymbolStarts(t);
      if |t| == 2 {
        assert s[..2] == t;
      } else if |s| >= 2 {
        assert s[..2] == [t[0], rest[0]];
        NarrowStops(t[0], rest[0]);
      }
    }
  }

  lemma NarrowStops(a: char, b: char)
    requires a in NARROW && (a == '!' ==> b != '=')
    ensures [a, b] !in WIDE
  {
    assert forall w :: w in WIDE && w == [a, b] ==> w[0] == a && w[1] == b;
  }

  lemma {:induction false} SpaceSkipped(gap: string, rest: string)
    requires AllSpace(gap)
    ensures Tokens(gap + rest) == Tokens(rest)
  {
    hide IsSpace, Lexeme;
    if gap == [] {
      assert gap + rest == rest;
    } else {
      SpaceSkipped(gap[1..], rest);
      assert (gap + rest)[1..] == gap[1..] + rest;
    }
  }

  lemma TokenTaken(t: string, rest: string)
    requires IsToken(t) && EndsBefore(t, rest)
    ensures Tokens(t + rest) == if Tokens(rest).None? then None else Some([t] + Tokens(rest).value)
  {
    hide IsSpace, Lexeme, IsToken, EndsBefore;
    LexemeStops(t, rest);
    assert t != [] by { TokenShows(t); }
    var s := t + rest;
    assert s[0] == t[0] && s[..|t|] == t && s[|t|..] == rest;
  }

  lemma TokenShows(t: string)
    requires IsToken(t)
    ensures t != []
  {}

  /** What comes behind a token in a spaced text does not lengthen it. */
  lemma SpacedEnds(t: string, ts: seq<string>, gaps: seq<string>)
    requires Separated(ts, gaps) && (ts != [] && gaps[0] == [] ==> !Joins(t, ts[0]))
    ensures EndsBefore(t, Spaced(ts, gaps))
  {
    hide IsSpace, IsNameChar, IsNameStart, Separated;
    SeparatedStart(ts, gaps);
    var rest := Spaced(ts, gaps);
    if gaps[0] != [] {
      assert rest[0] == gaps[0][0];
      SpaceIsNoName(gaps[0][0]);
    } else if ts != [] {
      TokenShows(ts[0]);
      assert rest[0] == ts[0][0];
      if IsSymbol(ts[0]) {
        SymbolStarts(ts[0]);
      } else {
        NameShows(ts[0][0]);
      }
    }
  }

  lemma SeparatedStart(ts: seq<string>, gaps: seq<string>)
    requires Separated(ts, gaps)
    ensures |gaps| == |ts| + 1 && AllSpace(gaps[0])
    ensures ts != [] ==> IsToken(ts[0]) && Separated(ts[1..], gaps[1..])
    ensures |ts| > 1 && gaps[1] == [] ==> !Joins(ts[0], ts[1])
  {}

  lemma SpaceIsNoName(c: char)
    requires IsSpace(c)
    ensures !IsNameChar(c) && c != '='
  {}

  lemma {:induction false} SpacedTokens(ts: seq<string>, gaps: seq<string>)
    requires Separated(ts, gaps)
    ensures Tokens(Spaced(ts, gaps)) == Some(ts)
  {
    hide Tokens, IsToken, EndsBefore, Joins, Separated;
    SeparatedStart(ts, gaps);
    if ts == [] {
      SpaceSkipped(gaps[0], []);
      assert gaps[0] + [] == gaps[0] && Tokens([]) == Some([]) by { NoTokens(); }
    } else {
      var t, rest := ts[0], Spaced(ts[1..], gaps[1..]);
      SpacedTokens(ts[1..], gaps[1..]);
      SpacedEnds(t, ts[1..], gaps[1..]);
      TokenTaken(t, rest);
      SpaceSkipped(gaps[0], t + rest);
      assert ts == [t] + ts[1..];
    }
  }

  lemma NoTokens()
    ensures Tokens([]) == Some([])
  {}

  /** Whatever is tokenized was written as its tokens, separated. */
  lemma {:induction false} TokensWritten(text: string) returns (gaps: seq<string>)
    requires Tokens(text).Some?
    ensures Separated(Tokens(text).value, gaps) && Spaced(Tokens(text).value, gaps) == text
    decreases |text|
  {
    hide IsSpace, Lexeme, IsToken, Joins;
    if text == [] {
      gaps := [[]];
    } else if IsSpace(text[0]) {
      var rest := TokensWritten(text[1..]);
      gaps := WiderStart(text[0], Tokens(text[1..]).value, rest);
      assert text == [text[0]] + text[1..];
    } else {
      var n := Lexeme(text);
      var t, ts := text[..n], Tokens(text[n..]).value;
      var rest := TokensWritten(text[n..]);
      LexemeIsToken(text);
      gaps := [[]] + rest;
      assert gaps[1..] == rest && ([t] + ts)[1..] == ts;
      assert text == t + text[n..];
      SeparatedStart(ts, rest);
      if ts != [] && rest[0] == [] {
        TokenShows(ts[0]);
        assert text[n..][..|ts[0]|] == ts[0];
        NextApart(text, n, ts[0]);
      }
    }
  }

  lemma WiderStart(c: char, ts: seq<string>, gaps: seq<string>) returns (wider: seq<string>)
    requires IsSpace(c) && Separated(ts, gaps)
    ensures Separated(ts, wider) && Spaced(ts, wider) == [c] + Spaced(ts, gaps)
  {
    hide IsSpace, IsToken, Joins;
    wider := [[c] + gaps[0]] + gaps[1..];
    assert wider[1..] == gaps[1..];
    if ts != [] {
      AppendAssociates([c], gaps[0], ts[0] + Spaced(ts[1..], gaps[1..]));
    }
  }

  lemma LexemeIsToken(text: string)
    requires Lexeme(text) > 0
    ensures IsToken(text[..Lexeme(text)])
  {}

  /** A token is read as long as it can be. */
  lemma NextApart(text: string, n: nat, next: string)
    requires n == Lexeme(text) > 0 && next != [] && text[n..] != [] && next[0] == text[n..][0]
    ensures !Joins(text[..n], next)
  {
    var t := text[..n];
    assert t[0] == text[0] && next[0] == text[n];
    if IsWord(t) {
      NameShows(t[0]);
      assert |text| >= 2 ==> text[..2][0] == t[0] && text[..2] !in WIDE;
    } else {
      assert |text| >= 2 && text[0] == '!' && text[1] == '=' ==> text[..2] == "!=";
    }
  }

  /** A text is tokenized exactly when it is tokens with whitespace around them, at least where
      they would join, and then into those. */
  lemma TokensExact(text: string, ts: seq<string>)
    ensures Tokens(text) == Some(ts) <==> exists gaps :: Separated(ts, gaps) && Spaced(ts, gaps) == text
  {
    hide Tokens, Spaced, IsToken, Joins;
    if Tokens(text) == Some(ts) {
      var gaps := TokensWritten(text);
    }
    forall gaps | Separated(ts, gaps) && Spaced(ts, gaps) == text
      ensures Tokens(text) == Some(ts)
    {
      SpacedTokens(ts, gaps);
    }
  }

  // ---------- expressions as text ----------

  ghost predicate AllTokens(ts: seq<string>) {
    forall i :: 0 <= i < |ts| ==> IsToken(ts[i])
  }

  /** No two neighbours would join. */
  ghost predicate Loose(ts: seq<string>) {
    forall i :: 0 <= i < |ts| - 1 ==> !Joins(ts[i], ts[i + 1])
  }

  /** Tokens an expression may start and end with, however they are spaced. */
  ghost predicate Free(ts: seq<string>) {
    && AllTokens(ts) && Loose(ts) && ts != []
    && (IsWord(ts[0]) || ts[0] in {"(", "!"})
    && (IsWord(ts[|ts| - 1]) || ts[|ts| - 1] == ")")
  }

  lemma NameIsWord(name: Name)
    ensures IsWord(NameToken(name))
  {}

  lemma WordsAndSymbols()
    ensures IsWord("true") && IsWord("false") && IsWord("starts_with")
    ensures forall t :: t in {"(", ")", "!", ".", "&&", "||", "==", "!="} ==> IsSymbol(t) && !IsWord(t)
  {}

  lemma LeafFree(c: Cond)
    requires c.Const? || c.Atom?
    ensures Free(LeafTokens(c))
  {
    hide IsWord, IsSymbol;
    WordsAndSymbols();
    if c.Atom? {
      NameIsWord(c.subject);
      NameIsWord(c.other);
    }
  }

  lemma BinaryFree(a: seq<string>, op: string, b: seq<string>)
    requires Free(a) && Free(b) && op in {"&&", "||"}
    ensures Free(a + ([op] + b))
  {
    hide IsWord, IsSymbol;
    WordsAndSymbols();
    var ts := a + ([op] + b);
    assert forall i :: 0 <= i < |ts| ==>
             ts[i] == if i < |a| then a[i] else if i == |a| then op else b[i - |a| - 1];
  }

  lemma ParenFree(a: seq<string>)
    requires Free(a)
    ensures Free(["("] + (a + [")"])) && Free(["!"] + a)
  {
    hide IsWord, IsSymbol;
    WordsAndSymbols();
    var ts := ["("] + (a + [")"]);
    assert forall i :: 0 <= i < |ts| ==> ts[i] == if i == 0 then "(" else if i <= |a| then a[i - 1] else ")";
    assert forall i :: 0 <= i < |a| + 1 ==> (["!"] + a)[i] == if i == 0 then "!" else a[i - 1];
  }

  /** The tokens of an expression may be written without any whitespace. */
  lemma {:induction false} ShowFree(e: Expr)
    requires WellFormed(e)
    ensures Free(Show(e))
  {
    hide Free, LeafTokens;
    match e
    case Leaf(c) => LeafFree(c);
    case Paren(a) => ShowFree(a); ParenFree(Show(a));
    case Neg(a) => ShowFree(a); ParenFree(Show(a));
    case Conj(a, b) => ShowFree(a); ShowFree(b); BinaryFree(Show(a), "&&", Show(b));
    case Disj(a, b) => ShowFree(a); ShowFree(b); BinaryFree(Show(a), "||", Show(b));
  }

  ghost predicate AllGaps(ts: seq<string>, gaps: seq<string>) {
    |gaps| == |ts| + 1 && forall i :: 0 <= i < |gaps| ==> AllSpace(gaps[i])
  }

  lemma {:induction false} LooseSeparated(ts: seq<string>, gaps: seq<string>)
    requires AllTokens(ts) && Loose(ts) && AllGaps(ts, gaps)
    ensures Separated(ts, gaps)
  {
    hide IsSpace, IsToken, Joins, AllSpace;
    if ts != [] {
      LooseSeparated(ts[1..], gaps[1..]);
    }
  }

  lemma {:induction false} SeparatedGaps(ts: seq<string>, gaps: seq<string>)
    requires Separated(ts, gaps)
    ensures AllGaps(ts, gaps)
  {
    hide IsSpace, IsToken, Joins, AllSpace;
    if ts != [] {
      SeparatedGaps(ts[1..], gaps[1..]);
      assert forall i :: 1 <= i < |gaps| ==> gaps[i] == gaps[1..][i - 1];
    }
  }

  /** The condition a text stands for, if it is one. */
  function CondOf(text: string): Option<Cond> {
    match Tokens(text)
    case None => None
    case Some(ts) => Reads(ts)
  }

  /** The verdict on a condition's text. */
  function TextVerdict(text: string, env: Env): Option<bool> {
    match Tokens(text)
    case None => None
    case Some(ts) => Verdict(ts, env)
  }

  /** Any expression, with any whitespace around its tokens, or none, is evaluated to its
      Boolean meaning. */
  lemma TextEvaluates(e: Expr, gaps: seq<string>, env: Env)
    requires WellFormed(e) && AllGaps(Show(e), gaps)
    ensures CondOf(Spaced(Show(e), gaps)) == Some(Erased(e))
    ensures TextVerdict(Spaced(Show(e), gaps), env) == Some(Holds(Erased(e), env))
  {
    hide Tokens, Reads, Separated, Show, AllGaps;
    ShowFree(e);
    LooseSeparated(Show(e), gaps);
    SpacedTokens(Show(e), gaps);
    WrittenReads(e);
  }

  /** And no other text is: a text stands for a condition exactly when it is an expression for it,
      spaced in some way. */
  lemma TextExact(text: string, c: Cond)
    ensures CondOf(text) == Some(c) <==>
            exists e, gaps :: WellFormed(e) && Erased(e) == c && AllGaps(Show(e), gaps) && Spaced(Show(e), gaps) == text
  {
    hide Tokens, Reads, Separated, Show, Spaced, Erased, WellFormed;
    if CondOf(text) == Some(c) {
      var ts := Tokens(text).value;
      ReadsExact(ts, c);
      var e :| WellFormed(e) && Show(e) == ts && Erased(e) == c;
      var gaps := TokensWritten(text);
      SeparatedGaps(ts, gaps);
    }
    forall e, gaps | WellFormed(e) && Erased(e) == c && AllGaps(Show(e), gaps) && Spaced(Show(e), gaps) == text
      ensures CondOf(text) == Some(c)
    {
      TextEvaluates(e, gaps, Env([], [], []));
    }
  }

  lemma SpacedOne(t: string, ts: seq<string>, gap: string, gaps: seq<string>)
    requires |gaps| == |ts| + 1
    ensures Spaced([t] + ts, [gap] + gaps) == gap + (t + Spaced(ts, gaps))
  {
    assert ([t] + ts)[1..] == ts && ([gap] + gaps)[1..] == gaps;
  }

  lemma SpacedLast(t: string, gap: string)
    ensures Spaced([t], [gap, ""]) == gap + t
  {
    assert t + "" == t && [t][1..] == [] && [gap, ""][1..] == [""];
  }

  lemma SpacedTight(t: string, ts: seq<string>, gaps: seq<string>)
    requires |gaps| == |ts| + 1
    ensures Spaced([t] + ts, [""] + gaps) == t + Spaced(ts, gaps)
  {
    SpacedOne(t, ts, "", gaps);
    assert "" + (t + Spaced(ts, gaps)) == t + Spaced(ts, gaps);
  }

  /** The refusal as `assert_grant` writes it: `write.starts_with(gitdir) && write != administration_root`. */
  const GUARDED := "write" + ("." + ("starts_with" + ("(" + ("gitdir" + (")" + GUARDED_END)))))
  const GUARDED_END := " " + ("&&" + (" " + ("write" + (" " + ("!=" + (" " + "administration_root"))))))

  lemma GuardedEnd() returns (ts: seq<string>, gaps: seq<string>)
    ensures ts == ["&&", "write", "!=", "administration_root"] && gaps == [" ", " ", " ", " ", ""]
    ensures Spaced(ts, gaps) == GUARDED_END
  {
    hide Spaced;
    SpacedLast("administration_root", " ");
    SpacedOne("!=", ["administration_root"], " ", [" ", ""]);
    SpacedOne("write", ["!="] + ["administration_root"], " ", [" "] + [" ", ""]);
    SpacedOne("&&", ["write"] + (["!="] + ["administration_root"]), " ", [" "] + ([" "] + [" ", ""]));
    ts := ["&&"] + (["write"] + (["!="] + ["administration_root"]));
    gaps := [" "] + ([" "] + ([" "] + [" ", ""]));
  }

  lemma GuardedText() returns (ts: seq<string>, gaps: seq<string>)
    ensures ts == ["write", ".", "starts_with", "(", "gitdir", ")", "&&", "write", "!=", "administration_root"]
    ensures gaps == ["", "", "", "", "", "", " ", " ", " ", " ", ""] && Spaced(ts, gaps) == GUARDED
  {
    hide Spaced;
    ts, gaps := GuardedEnd();
    SpacedTight(")", ts, gaps);
    ts, gaps := [")"] + ts, [""] + gaps;
    SpacedTight("gitdir", ts, gaps);
    ts, gaps := ["gitdir"] + ts, [""] + gaps;
    SpacedTight("(", ts, gaps);
    ts, gaps := ["("] + ts, [""] + gaps;
    SpacedTight("starts_with", ts, gaps);
    ts, gaps := ["starts_with"] + ts, [""] + gaps;
    SpacedTight(".", ts, gaps);
    ts, gaps := ["."] + ts, [""] + gaps;
    SpacedTight("write", ts, gaps);
    ts, gaps := ["write"] + ts, [""] + gaps;
  }

  lemma GuardedConditionReads()
    ensures CondOf(GUARDED) == Some(And(Atom(StartsWith, Write, Gitdir), Atom(Differs, Write, AdministrationRoot)))
  {
    hide Spaced, CondOf, TextVerdict, GUARDED;
    var e := Conj(Leaf(Atom(StartsWith, Write, Gitdir)), Leaf(Atom(Differs, Write, AdministrationRoot)));
    var ts, gaps := GuardedText();
    assert Show(e) == ts;
    assert forall i :: 0 <= i < |gaps| ==> gaps[i] in {"", " "};
    BlanksAreGaps();
    TextEvaluates(e, gaps, Env([], [], []));
  }

  lemma BlanksAreGaps()
    ensures AllSpace("") && AllSpace(" ")
  {
    SpaceIsSpace();
  }
}
