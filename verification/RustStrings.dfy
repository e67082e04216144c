/**
 `parse_rust_string` of `scripts/check_command_catalog_ownership.py`: reading a Rust string
 literal, with its escapes and line continuations.
 */
module RustStrings {
  import opened Text

  const MARGIN := {' ', '\t'}

  function SkipMargin(text: string, i: nat): (n: nat)
    requires i <= |text|
    ensures i <= n <= |text|
    ensures n < |text| ==> text[n] !in MARGIN
    ensures forall j :: i <= j < n ==> text[j] in MARGIN
    decreases |text| - i
  {
    if i < |text| && text[i] in MARGIN then SkipMargin(text, i + 1) else i
  }

  /** What an escape stands for: an unknown one stands for its own character. */
  function Unescaped(c: char): char {
    match c
    case 'n' => '\n'
    case 't' => '\t'
    case 'r' => '\r'
    case _ => c
  }

  /** The rest of a literal from index `i` on: its value and the index past the closing quote. */
  function ReadFrom(text: string, i: nat): Option<(string, nat)>
    decreases |text| - i
  {
    if i >= |text| then None
    else if text[i] == '\"' then Some(([], i + 1))
    else if text[i] != '\\' then Then([text[i]], ReadFrom(text, i + 1))
    else if i + 1 == |text| then None
    else if text[i + 1] == '\n' then ReadFrom(text, SkipMargin(text, i + 2))
    else Then([Unescaped(text[i + 1])], ReadFrom(text, i + 2))
  }

  function Then(piece: string, rest: Option<(string, nat)>): Option<(string, nat)> {
    if rest.None? then None else Some((piece + rest.value.0, rest.value.1))
  }

  function Literal(text: string, start: nat): Option<(string, nat)> {
    if start >= |text| || text[start] != '\"' then None else ReadFrom(text, start + 1)
  }

  method ParseRustString(text: string, start: nat) returns (r: Option<(string, nat)>)
    ensures r == Literal(text, start)
  {
    if start >= |text| || text[start] != '\"' {
      return None;
    }
    var i := start + 1;
    var out: string := [];
    ThenNothing(ReadFrom(text, i));
    while i < |text|
      invariant Literal(text, start) == Then(out, ReadFrom(text, i))
      decreases |text| - i
    {
      var ch := text[i];
      if ch == '\\' {
        if i + 1 == |text| {
          // A lone backslash at the end: nothing is read, and the literal never closes.
          i := i + 2;
          continue;
        }
        var next := text[i + 1];
        if next == '\n' {
          i := i + 2;
          ghost var margin := i;
          while i < |text| && text[i] in MARGIN
            invariant margin <= i <= |text| && SkipMargin(text, i) == SkipMargin(text, margin)
          {
            i := i + 1;
          }
          continue;
        }
        ThenTwice(out, [Unescaped(next)], ReadFrom(text, i + 2));
        out := out + [if next == 'n' then '\n' else if next == 't' then '\t' else if next == 'r' then '\r' else next];
        i := i + 2;
        continue;
      }
      if ch == '\"' {
        assert out + [] == out;
        return Some((out, i + 1));
      }
      ThenTwice(out, [ch], ReadFrom(text, i + 1));
      out := out + [ch];
      i := i + 1;
    }
    return None;
  }

  lemma ThenNothing(rest: Option<(string, nat)>)
    ensures Then([], rest) == rest
  {
    assert rest.Some? ==> [] + rest.value.0 == rest.value.0;
  }

  lemma ThenTwice(a: string, b: string, rest: Option<(string, nat)>)
    ensures Then(a, Then(b, rest)) == Then(a + b, rest)
  {
    if rest.Some? {
      assert a + (b + rest.value.0) == (a + b) + rest.value.0;
    }
  }

  // ---------- spelling a literal ----------

  /** A piece of a literal: a character as it is, an escape, or a line continuation. */
  datatype Piece = Plain(c: char) | Escape(c: char) | Continuation(margin: string)

  function Spell(p: Piece): (s: string)
    ensures s != []
  {
    match p
    case Plain(c) => [c]
    case Escape(c) => ['\\', c]
    case Continuation(margin) => ['\\', '\n'] + margin
  }

  function Means(p: Piece): string {
    match p
    case Plain(c) => [c]
    case Escape(c) => [Unescaped(c)]
    case Continuation(_) => []
  }

  function SpellAll(ps: seq<Piece>): string {
    if ps == [] then [] else Spell(ps[0]) + SpellAll(ps[1..])
  }

  function MeansAll(ps: seq<Piece>): string {
    if ps == [] then [] else Means(ps[0]) + MeansAll(ps[1..])
  }

  /** A quote or backslash must be escaped. */
  ghost predicate PieceOk(p: Piece) {
    match p
    case Plain(c) => c != '\"' && c != '\\'
    case Escape(c) => c != '\n'
    case Continuation(margin) => forall i :: 0 <= i < |margin| ==> margin[i] in MARGIN
  }

  /** A continuation swallows the margin after it, so what follows must not start with one. */
  ghost predicate Spellable(ps: seq<Piece>) {
    ps == [] ||
    (&& PieceOk(ps[0]) && Spellable(ps[1..])
     && (ps[0].Continuation? && |ps| > 1 && ps[1].Plain? ==> ps[1].c !in MARGIN))
  }

  lemma {:induction false} MarginSkipped(text: string, i: nat, n: nat)
    requires i <= n <= |text| && (forall j :: i <= j < n ==> text[j] in MARGIN) && (n < |text| ==> text[n] !in MARGIN)
    ensures SkipMargin(text, i) == n
    decreases n - i
  {
    if i < n {
      MarginSkipped(text, i + 1, n);
    }
  }

  /** The spelled pieces stand at `i`, closed by a quote. */
  ghost predicate Stands(text: string, i: nat, ps: seq<Piece>) {
    OccursAt(text, i, SpellAll(ps) + ['\"'])
  }

  lemma StandsStep(text: string, i: nat, ps: seq<Piece>)
    requires Stands(text, i, ps)
    ensures ps == [] ==> i < |text| && text[i] == '\"'
    ensures ps != [] ==>
              && OccursAt(text, i, Spell(ps[0])) && i + |Spell(ps[0])| < |text|
              && Stands(text, i + |Spell(ps[0])|, ps[1..])
              && text[i + |Spell(ps[0])|] == if |ps| == 1 then '\"' else Spell(ps[1])[0]
  {
    hide OccursAt;
    if ps == [] {
      OccursSplit(text, i, [], ['\"']);
    } else {
      var own, rest := Spell(ps[0]), SpellAll(ps[1..]) + ['\"'];
      assert SpellAll(ps) + ['\"'] == own + rest;
      OccursSplit(text, i, own, rest);
      assert |ps| > 1 ==> SpellAll(ps[1..])[0] == Spell(ps[1])[0];
    }
  }

  lemma PieceReads(text: string, i: nat, p: Piece)
    requires PieceOk(p) && OccursAt(text, i, Spell(p)) && i + |Spell(p)| < |text|
    requires p.Continuation? ==> text[i + |Spell(p)|] !in MARGIN
    ensures ReadFrom(text, i) == Then(Means(p), ReadFrom(text, i + |Spell(p)|))
  {
    var own := Spell(p);
    assert forall j :: 0 <= j < |own| ==> text[i + j] == text[i..i + |own|][j] == own[j];
    assert text[i] == own[0] && (|own| > 1 ==> text[i + 1] == own[1]);
    if p.Continuation? {
      assert forall j :: i + 2 <= j < i + |own| ==> text[j] == own[j - i] == p.margin[j - i - 2];
      MarginSkipped(text, i + 2, i + |own|);
      ThenNothing(ReadFrom(text, i + |own|));
    }
  }

  /** However a literal is spelled, reading it gives what its pieces mean. */
  lemma {:induction false} SpelledReads(text: string, i: nat, ps: seq<Piece>)
    requires Spellable(ps) && Stands(text, i, ps)
    ensures ReadFrom(text, i) == Some((MeansAll(ps), i + |SpellAll(ps)| + 1))
    decreases |ps|
  {
    hide Stands, PieceOk, OccursAt, ReadFrom, Spell, Means;
    StandsStep(text, i, ps);
    if ps == [] {
      QuoteReads(text, i);
    } else {
      SpellableStep(ps);
      PieceReads(text, i, ps[0]);
      SpelledReads(text, i + |Spell(ps[0])|, ps[1..]);
    }
  }

  lemma QuoteReads(text: string, i: nat)
    requires i < |text| && text[i] == '\"'
    ensures ReadFrom(text, i) == Some(([], i + 1))
  {}

  lemma SpellableStep(ps: seq<Piece>)
    requires Spellable(ps) && ps != []
    ensures PieceOk(ps[0]) && Spellable(ps[1..])
    ensures ps[0].Continuation? ==> (if |ps| == 1 then '\"' else Spell(ps[1])[0]) !in MARGIN
  {}

  lemma StandsMore(text: string, i: nat, p: Piece, ps: seq<Piece>)
    requires OccursAt(text, i, Spell(p)) && Stands(text, i + |Spell(p)|, ps)
    ensures Stands(text, i, [p] + ps) && |SpellAll([p] + ps)| == |Spell(p)| + |SpellAll(ps)|
  {
    hide Spell;
    assert ([p] + ps)[1..] == ps;
    var own, rest := Spell(p), SpellAll(ps) + ['\"'];
    assert SpellAll([p] + ps) + ['\"'] == own + rest;
    assert text[i..i + |own| + |rest|] == text[i..i + |own|] + text[i + |own|..i + |own| + |rest|];
  }

  lemma StandsNothing(text: string, i: nat)
    requires i < |text| && text[i] == '\"'
    ensures Stands(text, i, [])
  {
    assert text[i..i + 1] == ['\"'];
  }

  /** Whatever is read was spelled in pieces. */
  lemma {:induction false} ReadWritten(text: string, i: nat) returns (ps: seq<Piece>)
    requires ReadFrom(text, i).Some?
    ensures Spellable(ps) && Stands(text, i, ps)
    ensures ReadFrom(text, i).value == (MeansAll(ps), i + |SpellAll(ps)| + 1)
    decreases |text| - i
  {
    hide Stands, OccursAt, SpellAll, PieceOk;
    if text[i] == '\"' {
      ps := [];
      StandsNothing(text, i);
      assert SpellAll([]) == [] by { NothingSpelled(); }
    } else {
      var p := PieceAt(text, i);
      var next := i + |Spell(p)|;
      var rest := ReadWritten(text, next);
      ps := [p] + rest;
      StandsMore(text, i, p, rest);
      assert ps[1..] == rest;
      if p.Continuation? && rest != [] && rest[0].Plain? {
        StandsStep(text, next, rest);
        OccursOne(text, next, rest[0].c);
      }
    }
  }

  lemma NothingSpelled()
    ensures SpellAll([]) == []
  {}

  lemma OccursOne(text: string, i: nat, c: char)
    requires OccursAt(text, i, [c])
    ensures i < |text| && text[i] == c
  {
    OccursFirst(text, i, [c]);
  }

  /** The piece a literal goes on with. */
  lemma PieceAt(text: string, i: nat) returns (p: Piece)
    requires i < |text| && text[i] != '\"' && ReadFrom(text, i).Some?
    ensures PieceOk(p) && OccursAt(text, i, Spell(p))
    ensures ReadFrom(text, i) == Then(Means(p), ReadFrom(text, i + |Spell(p)|))
    ensures p.Continuation? && i + |Spell(p)| < |text| ==> text[i + |Spell(p)|] !in MARGIN
  {
    hide ReadFrom;
    ReadUnfolds(text, i);
    if text[i] != '\\' {
      p := Plain(text[i]);
      assert text[i..i + 1] == [text[i]];
    } else if text[i + 1] == '\n' {
      var m := SkipMargin(text, i + 2);
      p := Continuation(text[i + 2..m]);
      ContinuationAt(text, i, m);
      ThenNothing(ReadFrom(text, m));
    } else {
      p := Escape(text[i + 1]);
      assert text[i..i + 2] == ['\\', text[i + 1]];
    }
  }

  lemma ContinuationAt(text: string, i: nat, m: nat)
    requires i + 2 <= m <= |text| && text[i] == '\\' && text[i + 1] == '\n'
    ensures OccursAt(text, i, Spell(Continuation(text[i + 2..m]))) && i + |Spell(Continuation(text[i + 2..m]))| == m
  {
    assert text[i..m] == ['\\', '\n'] + text[i + 2..m];
  }

  lemma ReadUnfolds(text: string, i: nat)
    requires i < |text| && text[i] != '\"' && ReadFrom(text, i).Some?
    ensures text[i] != '\\' ==> ReadFrom(text, i) == Then([text[i]], ReadFrom(text, i + 1))
    ensures text[i] == '\\' ==> i + 1 < |text|
    ensures text[i] == '\\' && text[i + 1] == '\n' ==> ReadFrom(text, i) == ReadFrom(text, SkipMargin(text, i + 2))
    ensures text[i] == '\\' && text[i + 1] != '\n' ==>
              ReadFrom(text, i) == Then([Unescaped(text[i + 1])], ReadFrom(text, i + 2))
  {
    hide SkipMargin, Then;
  }

  /** A literal is read exactly when it is spelled in pieces and closed, and then as what they mean. */
  lemma ReadExact(text: string, i: nat, value: string, end: nat)
    ensures ReadFrom(text, i) == Some((value, end)) <==>
            exists ps :: Spellable(ps) && Stands(text, i, ps) && MeansAll(ps) == value && end == i + |SpellAll(ps)| + 1
  {
    hide ReadFrom, Spellable, Stands, MeansAll, SpellAll;
    if ReadFrom(text, i) == Some((value, end)) {
      var ps := ReadWritten(text, i);
    }
    forall ps | Spellable(ps) && Stands(text, i, ps) && MeansAll(ps) == value && end == i + |SpellAll(ps)| + 1
      ensures ReadFrom(text, i) == Some((value, end))
    {
      SpelledReads(text, i, ps);
    }
  }

  /** Three letters stand for control characters behind a backslash; any other character for itself. */
  lemma EscapesListed(c: char)
    ensures Unescaped('n') == '\n' && Unescaped('t') == '\t' && Unescaped('r') == '\r'
    ensures c !in "ntr" ==> Unescaped(c) == c
  {}

  /** The usual spelling of a string: escape what must be. */
  function Escaped(s: string): seq<Piece> {
    if s == [] then []
    else [match s[0]
          case '\n' => Escape('n')
          case '\t' => Escape('t')
          case '\r' => Escape('r')
          case '\"' => Escape('\"')
          case '\\' => Escape('\\')
          case c => Plain(c)] + Escaped(s[1..])
  }

  lemma {:induction false} EscapedMeans(s: string)
    ensures Spellable(Escaped(s)) && MeansAll(Escaped(s)) == s
  {
    if s != [] {
      EscapedMeans(s[1..]);
      assert Escaped(s)[1..] == Escaped(s[1..]);
      assert s == [s[0]] + s[1..];
    }
  }

  /** Quoting any string and reading it back gives the string and the index past the closing
      quote, whatever stands around it. */
  lemma LiteralRoundTrip(before: string, s: string, after: string)
    ensures var quoted := ['\"'] + (SpellAll(Escaped(s)) + ['\"']);
            Literal(before + quoted + after, |before|) == Some((s, |before| + |quoted|))
  {
    hide ReadFrom, SpellAll, Escaped;
    EscapedMeans(s);
    LiteralReads(before, Escaped(s), after);
  }

  lemma {:induction false} ContinuationMeans(a: seq<Piece>, margin: string, b: seq<Piece>)
    requires Spellable(a + b) && Spellable([Continuation(margin)] + b)
    ensures Spellable(a + ([Continuation(margin)] + b))
    ensures MeansAll(a + ([Continuation(margin)] + b)) == MeansAll(a + b)
    decreases |a|
  {
    var c := [Continuation(margin)] + b;
    if a == [] {
      assert a + c == c && a + b == b && c[1..] == b;
      assert MeansAll(c) == [] + MeansAll(b) == MeansAll(b);
    } else {
      assert (a + b)[1..] == a[1..] + b && (a + c)[1..] == a[1..] + c;
      assert (a + b)[0] == a[0] == (a + c)[0];
      assert |a| > 1 ==> (a + b)[1] == a[1] == (a + c)[1];
      assert |a| == 1 ==> (a + c)[1] == c[0];
      ContinuationMeans(a[1..], margin, b);
    }
  }

  /** A continuation inserted before any piece that does not start with a space or a tab changes
      nothing in what is read from the literal. */
  lemma ContinuationNeutral(before: string, a: seq<Piece>, margin: string, b: seq<Piece>, after: string)
    requires Spellable(a + b) && Spellable([Continuation(margin)] + b)
    ensures var quoted := ['\"'] + (SpellAll(a + ([Continuation(margin)] + b)) + ['\"']);
            Literal(before + quoted + after, |before|) == Some((MeansAll(a + b), |before| + |quoted|))
  {
    hide ReadFrom, SpellAll, MeansAll, Spellable;
    ContinuationMeans(a, margin, b);
    LiteralReads(before, a + ([Continuation(margin)] + b), after);
  }

  /** A spelled literal between quotes, whatever stands around it. */
  lemma LiteralReads(before: string, ps: seq<Piece>, after: string)
    requires Spellable(ps)
    ensures var quoted := ['\"'] + (SpellAll(ps) + ['\"']);
            Literal(before + quoted + after, |before|) == Some((MeansAll(ps), |before| + |quoted|))
  {
    hide ReadFrom, SpellAll, MeansAll, Spellable;
    var body := SpellAll(ps) + ['\"'];
    var quoted := ['\"'] + body;
    var text := before + quoted + after;
    assert text[|before|] == '\"' && text[|before| + 1..|before| + 1 + |body|] == body;
    SpelledReads(text, |before| + 1, ps);
  }
}
