/**
 `_code` of `scripts/check_model_profile_capability_mirror.py`: comments and literals of a
 Rust source blanked, every offset kept.
 */
module CodeMask {
  import opened Text
  import opened Blanking

  // ---------- the literal a text starts with ----------

  function Hashes(s: string, i: nat): (n: nat)
    requires i <= |s|
    ensures i <= n <= |s|
    ensures forall j :: i <= j < n ==> s[j] == '#'
    ensures n < |s| ==> s[n] != '#'
    decreases |s| - i
  {
    if i < |s| && s[i] == '#' then Hashes(s, i + 1) else i
  }

  /** Just past the next occurrence of `t`, or the end of the text. */
  function Through(s: string, t: string, i: nat): (n: nat)
    requires i <= |s|
    ensures i <= n <= |s|
  {
    match FindFrom(s, i, t)
    case None => |s|
    case Some(e) => e + |t|
  }

  function Repeat(c: char, n: nat): (s: string)
    ensures |s| == n && forall i :: 0 <= i < n ==> s[i] == c
  {
    seq(n, _ => c)
  }

  predicate RawOpens(s: string) {
    && |s| > 1 && s[0] == 'r' && s[1] in {'\"', '#'}
    && Hashes(s, 1) < |s| && s[Hashes(s, 1)] == '\"'
  }

  /** The end of an ordinary string, scanning from `i`. */
  function StringEnd(s: string, i: nat): (n: nat)
    ensures i <= |s| ==> i <= n <= |s|
    ensures i > |s| ==> n == |s|
    decreases |s| - i
  {
    if i >= |s| then |s|
    else if s[i] == '\\' then StringEnd(s, i + 2)
    else if s[i] == '\"' then i + 1
    else StringEnd(s, i + 1)
  }

  /** The length of the literal or comment `s` starts with; zero when it starts with code. */
  function LiteralLength(s: string): (n: nat)
    ensures n <= |s|
  {
    if s == [] then 0
    else if RawOpens(s) then
      var h := Hashes(s, 1);
      Through(s, ['\"'] + Repeat('#', h - 1), h + 1)
    else if s[0] == '\"' then StringEnd(s, 1)
    else if s[0] == '\'' && |s| > 1 && s[1] == '\\' then Clip(Seek(s, '\'', 1) + 1, s)
    else if s[0] == '\'' && |s| > 2 && s[2] == '\'' then 3
    else if |s| > 1 && s[0] == '/' && s[1] == '*' then Through(s, "*/", 2)
    else if |s| > 1 && s[0] == '/' && s[1] == '/' then Seek(s, '\n', 0)
    else 0
  }

  /** What makes the scanner start blanking; it looks at a bounded piece of the text ahead. */
  predicate Opens(s: string) {
    && s != []
    && (|| RawOpens(s)
        || s[0] == '\"'
        || (s[0] == '\'' && ((|s| > 1 && s[1] == '\\') || (|s| > 2 && s[2] == '\'')))
        || (|s| > 1 && s[0] == '/' && s[1] in {'*', '/'}))
  }

  lemma OpensLength(s: string)
    ensures Opens(s) <==> LiteralLength(s) > 0
  {
    if |s| > 1 && s[0] == '/' && s[1] == '/' {
      assert Seek(s, '\n', 0) == Seek(s, '\n', 1);
    }
  }

  function Masked(s: string): string
    decreases |s|
  {
    if s == [] then []
    else
      var n := LiteralLength(s);
      if n > 0 then Blank(s[..n]) + Masked(s[n..]) else [s[0]] + Masked(s[1..])
  }

  // ---------- the laws ----------

  lemma {:induction false} MaskedBlanks(s: string)
    ensures Blanks(Masked(s), s)
    decreases |s|
  {
    hide Blanks, LiteralLength;
    if s == [] {
      BlanksSelf([]);
    } else {
      var n := LiteralLength(s);
      if n > 0 {
        MaskedBlanks(s[n..]);
        BlankBlanks(s[..n]);
        BlanksJoin(Blank(s[..n]), Masked(s[n..]), s[..n], s[n..]);
        assert s == s[..n] + s[n..];
      } else {
        MaskedBlanks(s[1..]);
        BlanksSelf([s[0]]);
        BlanksJoin([s[0]], Masked(s[1..]), [s[0]], s[1..]);
        assert s == [s[0]] + s[1..];
      }
    }
  }

  /** Blanking what follows a code character never makes it open a literal. */
  lemma NothingOpens(t: string, s: string)
    requires Blanks(t, s) && s != [] && t[0] == s[0] && !Opens(s)
    ensures !Opens(t)
  {
    if RawOpens(t) {
      var h := Hashes(t, 1);
      assert t[1] == s[1] && t[h] == s[h];
      assert forall j :: 1 <= j < h ==> s[j] == t[j] == '#';
      HashesAt(s, 1, h);
    }
  }

  lemma {:induction false} HashesAt(s: string, i: nat, h: nat)
    requires i <= h < |s| && s[h] != '#' && forall j :: i <= j < h ==> s[j] == '#'
    ensures Hashes(s, i) == h
    decreases h - i
  {
    if i < h {
      HashesAt(s, i + 1, h);
    }
  }

  lemma {:induction false} MaskedPast(pad: string, rest: string)
    requires forall j :: 0 <= j < |pad| ==> pad[j] == ' ' || pad[j] == '\n'
    ensures Masked(pad + rest) == pad + Masked(rest)
    decreases |pad|
  {
    hide RawOpens, LiteralLength, Opens;
    if pad == [] {
      assert pad + rest == rest;
    } else {
      var s := pad + rest;
      assert s[0] == pad[0] && s[1..] == pad[1..] + rest;
      assert !Opens(s) by { BlankOpensNothing(s); }
      OpensLength(s);
      MaskedPast(pad[1..], rest);
      assert pad == [pad[0]] + pad[1..];
    }
  }

  lemma BlankOpensNothing(s: string)
    requires s != [] && (s[0] == ' ' || s[0] == '\n')
    ensures !Opens(s)
  {}

  /** Masking again changes nothing: no comment or literal is left, and none has appeared. */
  lemma {:induction false} MaskedTwice(s: string)
    ensures Masked(Masked(s)) == Masked(s)
    decreases |s|
  {
    hide LiteralLength, Opens, Blanks;
    if s != [] {
      OpensLength(s);
      var n := LiteralLength(s);
      if n > 0 {
        MaskedTwice(s[n..]);
        MaskedPast(Blank(s[..n]), Masked(s[n..]));
      } else {
        MaskedTwice(s[1..]);
        MaskedBlanks(s);
        var t := Masked(s);
        assert t[0] == s[0] && t[1..] == Masked(s[1..]);
        NothingOpens(t, s);
        OpensLength(t);
      }
    }
  }

  // ---------- which characters are blanked ----------

  datatype Lexeme =
    | CodeChar(c: char)
    | Raw(hashes: nat, body: string)
    | Quoted(body: string)
    | Character(c: char)
    | EscapedCharacter(body: string)
    | LineNote(text: string)
    | BlockNote(text: string)
    | OpenRaw(hashes: nat, body: string)
    | OpenQuoted(body: string)
    | OpenCharacter(body: string)
    | OpenNote(text: string)

  function Terminator(hashes: nat): string {
    ['\"'] + Repeat('#', hashes)
  }

  function RawHead(hashes: nat): string {
    ['r'] + (Repeat('#', hashes) + ['\"'])
  }

  function Spelled(x: Lexeme): string {
    match x
    case CodeChar(c) => [c]
    case Raw(h, body) => ['r'] + (Repeat('#', h) + (['\"'] + (body + Terminator(h))))
    case Quoted(body) => ['\"'] + (body + ['\"'])
    case Character(c) => ['\'', c, '\'']
    case EscapedCharacter(body) => ['\'', '\\'] + (body + ['\''])
    case LineNote(t) => "//" + t
    case BlockNote(t) => "/*" + (t + "*/")
    case OpenRaw(h, body) => RawHead(h) + body
    case OpenQuoted(body) => ['\"'] + body
    case OpenCharacter(body) => ['\'', '\\'] + body
    case OpenNote(t) => "/*" + t
  }

  ghost predicate Absent(t: string, s: string, limit: nat) {
    forall i: nat :: i < limit ==> !OccursAt(s, i, t)
  }

  /** With what follows, the character starts no literal and no comment. */
  ghost predicate StartsNothing(c: char, following: string) {
    && c != '\"'
    && (c == '\'' ==> !(|following| > 0 && following[0] == '\\') && !(|following| > 1 && following[1] == '\''))
    && (c == '/' ==> !(|following| > 0 && following[0] in {'*', '/'}))
    && (c == 'r' ==> forall h: nat :: !OccursAt(following, 0, Repeat('#', h) + ['\"']))
  }

  lemma OpensExact(c: char, following: string)
    ensures Opens([c] + following) <==> !StartsNothing(c, following)
  {
    var s := [c] + following;
    assert forall i :: 0 <= i < |following| ==> s[i + 1] == following[i];
    RawOpensExact(c, following);
  }

  lemma RawOpensExact(c: char, following: string)
    ensures RawOpens([c] + following) <==> c == 'r' && exists h: nat :: OccursAt(following, 0, Repeat('#', h) + ['\"'])
  {
    var s := [c] + following;
    if RawOpens(s) {
      var h := Hashes(s, 1) - 1;
      assert forall j :: 0 <= j <= h ==> following[j] == s[j + 1];
      assert following[..h + 1] == Repeat('#', h) + ['\"'];
      assert OccursAt(following, 0, Repeat('#', h) + ['\"']);
    }
    forall h: nat | OccursAt(following, 0, Repeat('#', h) + ['\"']) && c == 'r'
      ensures RawOpens(s)
    {
      var t := Repeat('#', h) + ['\"'];
      assert following[0..h + 1] == t && t[h] == '\"';
      assert forall j :: 0 <= j <= h ==> s[j + 1] == t[j];
      HashesAt(s, 1, h + 1);
    }
  }

  ghost predicate LexemeOk(x: Lexeme, following: string) {
    match x
    case CodeChar(c) => StartsNothing(c, following)
    case Raw(h, body) => Absent(Terminator(h), body + Terminator(h), |body|)
    case Quoted(body) => StringBody(body, '\"')
    case Character(c) => c != '\\'
    case EscapedCharacter(body) => '\'' !in body
    case LineNote(t) => '\n' !in t && (following == [] || following[0] == '\n')
    case BlockNote(t) => Absent("*/", t + "*/", |t|)
    case OpenRaw(h, body) => following == [] && Absent(Terminator(h), body, |body|)
    case OpenQuoted(body) => following == [] && OpenBody(body, '\"')
    case OpenCharacter(body) => following == [] && '\'' !in body
    case OpenNote(t) => following == [] && Absent("*/", t, |t|)
  }

  /** A terminator is found at the end of the body it does not occur in. */
  lemma TerminatorFound(head: string, body: string, t: string, rest: string)
    requires t != [] && Absent(t, body + t, |body|)
    ensures var s := head + (body + t) + rest;
            Through(s, t, |head|) == |head| + |body| + |t|
  {
    var s := head + (body + t) + rest;
    var e := |head| + |body|;
    assert s[e..e + |t|] == t;
    forall j: nat | |head| <= j < e
      ensures !OccursAt(s, j, t)
    {
      assert s[j..j + |t|] == (body + t)[j - |head|..j - |head| + |t|];
      assert !OccursAt(body + t, j - |head|, t);
    }
    assert OccursAt(s, e, t);
    var r := FindFrom(s, |head|, t);
    assert r.Some? && r.value <= e;
  }

  lemma {:induction false} StringEndAt(s: string, i: nat, body: string)
    requires StringBody(body, '\"') && i + |body| < |s| && s[i..i + |body|] == body && s[i + |body|] == '\"'
    ensures StringEnd(s, i) == i + |body| + 1
    decreases |body|
  {
    if body != [] {
      var n := if body[0] == '\\' then 2 else 1;
      assert s[i] == s[i..i + |body|][0];
      assert s[i + n..i + |body|] == s[i..i + |body|][n..];
      StringEndAt(s, i + n, body[n..]);
    }
  }

  /** The scanner blanks a lexeme whole, or keeps a code character. */
  lemma LexemeMasked(x: Lexeme, rest: string)
    requires LexemeOk(x, rest)
    ensures LiteralLength(Spelled(x) + rest) == if x.CodeChar? then 0 else |Spelled(x)|
  {
    hide Opens, Absent, Repeat;
    var own := Spelled(x);
    var s := own + rest;
    match x
    case CodeChar(c) =>
      OpensExact(c, rest);
      OpensLength(s);
    case Raw(h, body) => RawMasked(h, body, rest);
    case Quoted(body) =>
      assert s[0] == '\"' && s[1..1 + |body|] == body && s[1 + |body|] == '\"';
      StringEndAt(s, 1, body);
    case Character(c) => assert s[0] == '\'' && s[1] == c && s[2] == '\'';
    case EscapedCharacter(body) =>
      var e := |body| + 2;
      assert s[0] == '\'' && s[1] == '\\' && s[e] == '\'' && forall j :: 2 <= j < e ==> s[j] == body[j - 2];
      SeekAt(s, '\'', 1, e);
    case LineNote(t) =>
      LineStops(t, rest);
      assert s == "//" + t + rest;
      assert Seek(s, '\n', 0) == Seek(s, '\n', 1);
    case BlockNote(t) =>
      TerminatorFound("/*", t, "*/", rest);
      assert s == "/*" + (t + "*/") + rest && s[0] == '/' && s[1] == '*';
    case OpenRaw(h, body) => OpenRawMasked(h, body);
    case OpenQuoted(body) => OpenQuotedMasked(body);
    case OpenCharacter(body) => OpenCharacterMasked(body);
    case OpenNote(t) => OpenNoteMasked(t);
  }

  lemma OpenRawMasked(h: nat, body: string)
    requires Absent(Terminator(h), body, |body|)
    ensures LiteralLength(RawHead(h) + body + []) == |RawHead(h) + body|
  {
    hide Through, StringEnd;
    var head := RawHead(h);
    var s := head + body + [];
    assert s[0] == 'r' && s[h + 1] == '\"' && (forall j :: 1 <= j < h + 1 ==> s[j] == '#');
    HashesAt(s, 1, h + 1);
    NotThrough(head, body, Terminator(h));
    assert s == head + body;
  }

  /** What does not occur behind the head is not found there. */
  lemma NotThrough(head: string, body: string, t: string)
    requires t != [] && Absent(t, body, |body|)
    ensures Through(head + body, t, |head|) == |head + body|
  {
    var s := head + body;
    forall j: nat | |head| <= j
      ensures !OccursAt(s, j, t)
    {
      if OccursAt(s, j, t) {
        assert s[j..j + |t|] == body[j - |head|..j - |head| + |t|];
        assert OccursAt(body, j - |head|, t);
      }
    }
    var r := FindFrom(s, |head|, t);
    assert r.None?;
  }

  lemma {:induction false} StringEndOpen(s: string, i: nat, body: string)
    requires OpenBody(body, '\"') && i + |body| == |s| && s[i..] == body
    ensures StringEnd(s, i) == |s|
    decreases |body|
  {
    if body != [] {
      assert s[i] == s[i..][0];
      if body[0] != '\\' || |body| > 1 {
        var n := if body[0] == '\\' then 2 else 1;
        assert s[i + n..] == s[i..][n..];
        StringEndOpen(s, i + n, body[n..]);
      }
    }
  }

  lemma OpenQuotedMasked(body: string)
    requires OpenBody(body, '\"')
    ensures LiteralLength(['\"'] + body + []) == |['\"'] + body|
  {
    var s := ['\"'] + body + [];
    assert s[0] == '\"' && s[1..] == body;
    StringEndOpen(s, 1, body);
  }

  lemma OpenCharacterMasked(body: string)
    requires '\'' !in body
    ensures LiteralLength(['\'', '\\'] + body + []) == |['\'', '\\'] + body|
  {
    var s := ['\'', '\\'] + body + [];
    assert s[0] == '\'' && s[1] == '\\' && forall j :: 2 <= j < |s| ==> s[j] == body[j - 2];
    SeekAt(s, '\'', 1, |s|);
  }

  lemma OpenNoteMasked(t: string)
    requires Absent("*/", t, |t|)
    ensures LiteralLength("/*" + t + []) == |"/*" + t|
  {
    var s := "/*" + t + [];
    assert s == "/*" + t && s[0] == '/' && s[1] == '*';
    NotThrough("/*", t, "*/");
  }

  lemma RawMasked(h: nat, body: string, rest: string)
    requires Absent(Terminator(h), body + Terminator(h), |body|)
    ensures LiteralLength(Spelled(Raw(h, body)) + rest) == |Spelled(Raw(h, body))|
  {
    hide Absent, Through, StringEnd;
    var head := ['r'] + (Repeat('#', h) + ['\"']);
    var s := Spelled(Raw(h, body)) + rest;
    assert s == head + (body + Terminator(h)) + rest;
    assert s[0] == 'r' && s[h + 1] == '\"' && (forall j :: 1 <= j < h + 1 ==> s[j] == '#');
    HashesAt(s, 1, h + 1);
    TerminatorFound(head, body, Terminator(h), rest);
  }

  function SpelledOf(xs: seq<Lexeme>): string {
    if xs == [] then [] else Spelled(xs[0]) + SpelledOf(xs[1..])
  }

  /** The source with exactly its comments and literals blanked. */
  function LiteralsBlanked(xs: seq<Lexeme>): string {
    if xs == [] then []
    else (if xs[0].CodeChar? then Spelled(xs[0]) else Blank(Spelled(xs[0]))) + LiteralsBlanked(xs[1..])
  }

  ghost predicate LexemesOk(xs: seq<Lexeme>) {
    xs == [] || (LexemeOk(xs[0], SpelledOf(xs[1..])) && LexemesOk(xs[1..]))
  }

  /** Every source, lexeme by lexeme: literals and comments are blanked, code is kept. */
  lemma {:induction false} ExactlyLiteralsBlanked(xs: seq<Lexeme>)
    requires LexemesOk(xs)
    ensures Masked(SpelledOf(xs)) == LiteralsBlanked(xs)
  {
    hide LiteralLength, LexemeOk;
    if xs != [] {
      var own, rest := Spelled(xs[0]), SpelledOf(xs[1..]);
      var s := own + rest;
      LexemeMasked(xs[0], rest);
      assert s[..|own|] == own && s[|own|..] == rest && |own| > 0;
      assert xs[0].CodeChar? ==> own == [s[0]];
      ExactlyLiteralsBlanked(xs[1..]);
    }
  }

  lemma FirstRaw(s: string) returns (x: Lexeme)
    requires RawOpens(s)
    ensures 0 < |Spelled(x)| <= |s| && s[..|Spelled(x)|] == Spelled(x) && LexemeOk(x, s[|Spelled(x)|..])
  {
    hide Repeat, Absent, RawHead, Terminator;
    var h := RawHeadOf(s);
    var t := Terminator(h);
    TerminatorShows(h);
    var r := FindFrom(s, h + 2, t);
    if r.Some? {
      x := FirstClosedRaw(s, h, r.value);
    } else {
      var body := s[h + 2..];
      x := OpenRaw(h, body);
      AbsentBehind(s, h + 2, t);
      assert s == s[..h + 2] + body && s[|s|..] == [] && s[..|s|] == s;
    }
  }

  lemma TerminatorShows(h: nat)
    ensures Terminator(h) != []
  {}

  lemma FirstClosedRaw(s: string, h: nat, e: nat) returns (x: Lexeme)
    requires h + 2 <= e && OccursAt(s, e, Terminator(h)) && s[..h + 2] == RawHead(h)
    requires forall i: nat :: h + 2 <= i < e ==> !OccursAt(s, i, Terminator(h))
    ensures 0 < |Spelled(x)| <= |s| && s[..|Spelled(x)|] == Spelled(x) && LexemeOk(x, s[|Spelled(x)|..])
  {
    hide Repeat, Absent, RawHead, Terminator, Spelled;
    var t := Terminator(h);
    var body := s[h + 2..e];
    TerminatorShows(h);
    x := Raw(h, body);
    AbsentInside(s, h + 2, e, t);
    OccursEnd(s, e, t);
    RawSpelled(h, body);
    assert s[..e + |t|] == s[..h + 2] + body + s[e..e + |t|];
  }

  lemma RawHeadOf(s: string) returns (h: nat)
    requires RawOpens(s)
    ensures h + 2 <= |s| && s[..h + 2] == RawHead(h)
  {
    h := Hashes(s, 1) - 1;
    assert forall i :: 0 <= i < h + 2 ==> s[i] == if i == 0 then 'r' else if i <= h then '#' else '\"';
  }

  lemma OccursEnd(s: string, e: nat, t: string)
    requires OccursAt(s, e, t)
    ensures e + |t| <= |s| && s[e..e + |t|] == t
  {}

  lemma RawSpelled(h: nat, body: string)
    ensures Spelled(Raw(h, body)) == RawHead(h) + body + Terminator(h)
  {}

  lemma SliceOfSlice(s: string, a: nat, c: nat, i: nat, j: nat)
    requires a <= c <= |s| && i <= j <= c - a
    ensures s[a..c][i..j] == s[a + i..a + j]
  {
    var x, y := s[a..c][i..j], s[a + i..a + j];
    forall k | 0 <= k < j - i
      ensures x[k] == y[k]
    {
      assert x[k] == s[a..c][i + k] == s[a + i + k];
    }
  }

  lemma AbsentInside(s: string, a: nat, e: nat, t: string)
    requires t != [] && a <= e && OccursAt(s, e, t) && forall i: nat :: a <= i < e ==> !OccursAt(s, i, t)
    ensures Absent(t, s[a..e] + t, e - a)
  {
    var b := s[a..e] + t;
    assert s[e..e + |t|] == t && s[a..e + |t|] == s[a..e] + s[e..e + |t|];
    assert b == s[a..e + |t|];
    forall i: nat | i < e - a
      ensures !OccursAt(b, i, t)
    {
      assert !OccursAt(s, a + i, t);
      if i + |t| <= |b| {
        SliceOfSlice(s, a, e + |t|, i, i + |t|);
      }
    }
  }

  lemma AbsentBehind(s: string, a: nat, t: string)
    requires a <= |s| && forall i: nat :: a <= i ==> !OccursAt(s, i, t)
    ensures Absent(t, s[a..], |s| - a)
  {
    var b := s[a..];
    forall i: nat | i < |b|
      ensures !OccursAt(b, i, t)
    {
      assert !OccursAt(s, a + i, t);
      if i + |t| <= |b| {
        assert s[a..|s|] == b;
        SliceOfSlice(s, a, |s|, i, i + |t|);
      }
    }
  }

  lemma FirstQuoted(s: string) returns (x: Lexeme)
    requires s != [] && s[0] == '\"'
    ensures 0 < |Spelled(x)| <= |s| && s[..|Spelled(x)|] == Spelled(x) && LexemeOk(x, s[|Spelled(x)|..])
  {
    hide StringBody, OpenBody;
    var n := BodySplit(s[1..], '\"');
    if n < |s| - 1 {
      var body := s[1..][..n];
      x := Quoted(body);
      assert s[n + 1] == '\"' && s[..n + 2] == ['\"'] + (body + ['\"']);
    } else {
      x := OpenQuoted(s[1..]);
      assert s == ['\"'] + s[1..] && s[|s|..] == [] && s[..|s|] == s;
    }
  }

  lemma FirstCharacter(s: string) returns (x: Lexeme)
    requires |s| > 1 && s[0] == '\'' && (s[1] == '\\' || (|s| > 2 && s[2] == '\''))
    ensures 0 < |Spelled(x)| <= |s| && s[..|Spelled(x)|] == Spelled(x) && LexemeOk(x, s[|Spelled(x)|..])
  {
    if s[1] != '\\' {
      x := Character(s[1]);
      assert s[..3] == [s[0], s[1], s[2]];
    } else {
      var n := Seek(s, '\'', 1);
      assert s[1] != '\'';
      var body := s[2..n];
      assert forall j :: 2 <= j < n ==> s[j] != '\'';
      if n < |s| {
        x := EscapedCharacter(body);
        assert s[..n + 1] == ['\'', '\\'] + (body + ['\'']);
      } else {
        x := OpenCharacter(body);
        assert s == ['\'', '\\'] + body && s[|s|..] == [] && s[..|s|] == s;
      }
    }
  }

  lemma FirstNote(s: string) returns (x: Lexeme)
    requires |s| > 1 && s[0] == '/' && s[1] in {'/', '*'}
    ensures 0 < |Spelled(x)| <= |s| && s[..|Spelled(x)|] == Spelled(x) && LexemeOk(x, s[|Spelled(x)|..])
  {
    if s[1] == '/' {
      var n := Seek(s, '\n', 1);
      assert s[1] != '\n';
      x := LineNote(s[2..n]);
      assert s[..n] == "//" + s[2..n] && forall j :: 2 <= j < n ==> s[j] != '\n';
    } else {
      var r := FindFrom(s, 2, "*/");
      if r.Some? {
        var e := r.value;
        x := BlockNote(s[2..e]);
        assert s[e..e + 2] == "*/" && s[..e + 2] == "/*" + (s[2..e] + "*/");
        AbsentInside(s, 2, e, "*/");
      } else {
        x := OpenNote(s[2..]);
        assert s == "/*" + s[2..] && s[|s|..] == [] && s[..|s|] == s;
        AbsentBehind(s, 2, "*/");
      }
    }
  }

  /** The lexeme a source starts with. */
  lemma FirstLexeme(s: string) returns (x: Lexeme)
    requires s != []
    ensures 0 < |Spelled(x)| <= |s| && s[..|Spelled(x)|] == Spelled(x) && LexemeOk(x, s[|Spelled(x)|..])
  {
    hide RawOpens, StartsNothing, Spelled, LexemeOk;
    if RawOpens(s) {
      x := FirstRaw(s);
    } else if s[0] == '\"' {
      x := FirstQuoted(s);
    } else if Opens(s) && s[0] == '\'' {
      x := FirstCharacter(s);
    } else if Opens(s) {
      x := FirstNote(s);
    } else {
      x := FirstCode(s);
    }
  }

  lemma FirstCode(s: string) returns (x: Lexeme)
    requires s != [] && !Opens(s)
    ensures 0 < |Spelled(x)| <= |s| && s[..|Spelled(x)|] == Spelled(x) && LexemeOk(x, s[|Spelled(x)|..])
  {
    hide Opens, StartsNothing;
    assert s == [s[0]] + s[1..];
    OpensExact(s[0], s[1..]);
    x := CodeChar(s[0]);
  }

  /** Every source is made of such lexemes, so all of it is accounted for. */
  lemma {:induction false} EverySourceInLexemes(s: string) returns (xs: seq<Lexeme>)
    ensures LexemesOk(xs) && SpelledOf(xs) == s
    decreases |s|
  {
    hide LexemeOk, Spelled;
    if s == [] {
      xs := [];
    } else {
      var x := FirstLexeme(s);
      var n := |Spelled(x)|;
      var rest := EverySourceInLexemes(s[n..]);
      xs := [x] + rest;
      assert xs[1..] == rest && s == s[..n] + s[n..];
    }
  }

  /** What is left of any source, lexeme by lexeme. */
  lemma EveryLiteralBlanked(s: string)
    ensures exists xs :: LexemesOk(xs) && SpelledOf(xs) == s && Masked(s) == LiteralsBlanked(xs)
  {
    hide LexemesOk, SpelledOf, LiteralsBlanked, Masked;
    var xs := EverySourceInLexemes(s);
    ExactlyLiteralsBlanked(xs);
  }

  // ---------- the scanner ----------

  method LiteralEnd(source: string, index: nat) returns (n: nat)
    requires index < |source|
    ensures n == LiteralLength(source[index..])
  {
    hide Through;
    var s := source[index..];
    if s[0] == 'r' && |s| > 1 && s[1] in {'\"', '#'} {
      var cursor, hashes := 1, 0;
      while cursor < |s| && s[cursor] == '#'
        invariant 1 <= cursor <= |s| && hashes == cursor - 1
        invariant Hashes(s, cursor) == Hashes(s, 1)
      {
        hashes, cursor := hashes + 1, cursor + 1;
      }
      if cursor < |s| && s[cursor] == '\"' {
        return Through(s, ['\"'] + Repeat('#', hashes), cursor + 1);
      }
    }
    if s[0] == '\"' {
      var cursor := 1;
      while cursor < |s|
        invariant 1 <= cursor && StringEnd(s, cursor) == StringEnd(s, 1)
        decreases |s| - cursor
      {
        if s[cursor] == '\\' {
          cursor := cursor + 2;
          continue;
        }
        if s[cursor] == '\"' {
          cursor := cursor + 1;
          return cursor;
        }
        cursor := cursor + 1;
      }
      return |s|;
    }
    if s[0] == '\'' {
      if |s| > 1 && s[1] == '\\' {
        var cursor := 1;
        while cursor < |s| && s[cursor] != '\''
          invariant 1 <= cursor <= |s| && Seek(s, '\'', cursor) == Seek(s, '\'', 1)
        {
          cursor := cursor + 1;
        }
        return if cursor + 1 <= |s| then cursor + 1 else |s|;
      }
      if |s| > 2 && s[2] == '\'' {
        return 3;
      }
    }
    if |s| > 1 && s[0] == '/' && s[1] == '*' {
      return Through(s, "*/", 2);
    }
    if |s| > 1 && s[0] == '/' && s[1] == '/' {
      return Seek(s, '\n', 0);
    }
    return 0;
  }

  lemma NothingMasked()
    ensures Masked([]) == []
  {}

  lemma MaskedUnfolds(s: string)
    requires s != []
    ensures var n := LiteralLength(s);
            Masked(s) == if n > 0 then Blank(s[..n]) + Masked(s[n..]) else [s[0]] + Masked(s[1..])
  {
    hide LiteralLength, Blank;
  }

  /** One turn of the scanner's loop. */
  lemma MaskStep(out: string, source: string, index: nat)
    requires index < |source|
    ensures var s := source[index..];
            var n := LiteralLength(s);
            out + Masked(s) ==
              if n > 0 then (out + Blank(source[index..index + n])) + Masked(source[index + n..])
              else (out + [source[index]]) + Masked(source[index + 1..])
  {
    hide LiteralLength, Blank, Blanks, Masked;
    var s := source[index..];
    var n := LiteralLength(s);
    MaskedUnfolds(s);
    assert s[..n] == source[index..index + n] && s[n..] == source[index + n..];
    assert s[0] == source[index] && s[1..] == source[index + 1..];
    if n > 0 {
      AppendAssociates(out, Blank(s[..n]), Masked(s[n..]));
    } else {
      AppendAssociates(out, [s[0]], Masked(s[1..]));
    }
  }

  method MaskSource(source: string) returns (r: string)
    ensures r == Masked(source)
    ensures Blanks(r, source) && Masked(r) == r
    ensures forall offset: nat :: LineOf(r, offset) == LineOf(source, offset)
  {
    hide LiteralLength, Blanks, LineOf, Masked, Blank;
    var out: string := [];
    var index := 0;
    assert source[0..] == source;
    while index < |source|
      invariant 0 <= index <= |source|
      invariant out + Masked(source[index..]) == Masked(source)
    {
      MaskStep(out, source, index);
      var n := LiteralEnd(source, index);
      if n > 0 {
        out := out + Blank(source[index..index + n]);
        index := index + n;
      } else {
        out := out + [source[index]];
        index := index + 1;
      }
    }
    assert source[index..] == [] && out + [] == out;
    NothingMasked();
    r := out;
    MaskedBlanks(source);
    MaskedTwice(source);
    forall offset: nat ensures LineOf(r, offset) == LineOf(source, offset) {
      SameLine(r, source, offset);
    }
  }
}
