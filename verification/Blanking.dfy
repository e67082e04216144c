/**
 Blanking comments and literals without moving anything: `strip_comments` of the desktop
 panel and editor guards, and `_code` of the capability mirror guard.
 */
module Blanking {
  import opened Text

  // ---------- the blanking laws ----------

  /** `t` is `s` with some characters, none of them a newline, turned into spaces. */
  ghost predicate Blanks(t: string, s: string) {
    |t| == |s| && forall j :: 0 <= j < |s| ==> t[j] == s[j] || (t[j] == ' ' && s[j] != '\n')
  }

  /** `_blank`: keep the newlines, blank the rest. */
  function Blank(s: string): (t: string)
    ensures Blanks(t, s)
    ensures forall j :: 0 <= j < |t| ==> t[j] == ' ' || t[j] == '\n'
  {
    seq(|s|, i requires 0 <= i < |s| => if s[i] == '\n' then '\n' else ' ')
  }

  function NewlinesIn(s: string): nat {
    if s == [] then 0 else (if s[0] == '\n' then 1 else 0) + NewlinesIn(s[1..])
  }

  /** `_line_of`: the 1-based line number of an offset. */
  function LineOf(text: string, offset: nat): nat {
    NewlinesIn(text[..if offset <= |text| then offset else |text|]) + 1
  }

  /** Newlines are counted, each once. */
  lemma {:induction false} NewlinesJoin(a: string, b: string)
    ensures NewlinesIn(a + b) == NewlinesIn(a) + NewlinesIn(b)
    ensures NewlinesIn("\n") == 1 && ('\n' !in a ==> NewlinesIn(a) == 0)
  {
    if a == [] {
      assert a + b == b;
    } else {
      assert (a + b)[1..] == a[1..] + b;
      NewlinesJoin(a[1..], b);
    }
  }

  /** The line of an offset: one more than the newlines before it. */
  lemma LineOfExact(before: string, after: string)
    ensures LineOf(before + after, |before|) == NewlinesIn(before) + 1
    ensures forall offset: nat :: offset >= |before| ==> LineOf(before, offset) == NewlinesIn(before) + 1
  {
    assert (before + after)[..|before|] == before && before[..|before|] == before;
  }

  lemma {:induction false} BlanksNewlines(t: string, s: string)
    requires Blanks(t, s)
    ensures NewlinesIn(t) == NewlinesIn(s)
  {
    if s != [] {
      assert forall j :: 0 <= j < |s| - 1 ==> t[1..][j] == t[j + 1] && s[1..][j] == s[j + 1];
      BlanksNewlines(t[1..], s[1..]);
    }
  }

  /** Every offset is on the same line before and after blanking. */
  lemma SameLine(t: string, s: string, offset: nat)
    requires Blanks(t, s)
    ensures LineOf(t, offset) == LineOf(s, offset)
  {
    var n := if offset <= |s| then offset else |s|;
    BlanksNewlines(t[..n], s[..n]);
  }

  lemma BlanksJoin(a: string, b: string, x: string, y: string)
    requires Blanks(a, x) && Blanks(b, y)
    ensures Blanks(a + b, x + y)
  {}

  // ---------- strip_comments ----------

  const JS_QUOTES := {'\'', '\"', '`'}

  /** Where the scan for `*``/` stops; it starts at the opening slash. */
  function BlockStop(s: string, i: nat): (n: nat)
    requires i <= |s|
    ensures i <= n <= |s|
    decreases |s| - i
  {
    if i == |s| || (s[i] == '*' && i + 1 < |s| && s[i + 1] == '/') then i else BlockStop(s, i + 1)
  }

  function Clip(n: nat, s: string): (m: nat)
    ensures m <= |s| && m <= n
  {
    if n <= |s| then n else |s|
  }

  /** The text with its comments blanked, from outside a string or inside one. */
  function Stripped(s: string, quote: Option<char>): string
    decreases |s|
  {
    if s == [] then []
    else if quote.Some? then
      if s[0] == '\\' then s[..Clip(2, s)] + Stripped(s[Clip(2, s)..], quote)
      else [s[0]] + Stripped(s[1..], if s[0] == quote.value then None else quote)
    else if s[0] in JS_QUOTES then [s[0]] + Stripped(s[1..], Some(s[0]))
    else if |s| > 1 && s[0] == '/' && s[1] == '/' then
      var n := Seek(s, '\n', 1);
      Blank(s[..n]) + Stripped(s[n..], None)
    else if |s| > 1 && s[0] == '/' && s[1] == '*' then
      var n := Clip(BlockStop(s, 1) + 2, s);
      Blank(s[..n]) + Stripped(s[n..], None)
    else [s[0]] + Stripped(s[1..], None)
  }

  lemma {:induction false} StrippedBlanks(s: string, quote: Option<char>)
    ensures Blanks(Stripped(s, quote), s)
    decreases |s|
  {
    hide Blanks, Blank;
    if s == [] {
      BlanksSelf([]);
    } else {
      var n, quote' := StripStep(s, quote);
      StrippedBlanks(s[n..], quote');
      BlanksSelf(s[..n]);
      assert s == s[..n] + s[n..];
      if Comment(s, quote) {
        assert Blanks(Blank(s[..n]), s[..n]) by { BlankBlanks(s[..n]); }
        BlanksJoin(Blank(s[..n]), Stripped(s[n..], quote'), s[..n], s[n..]);
      } else {
        BlanksJoin(s[..n], Stripped(s[n..], quote'), s[..n], s[n..]);
      }
    }
  }

  lemma BlanksSelf(s: string)
    ensures Blanks(s, s)
  {}

  lemma BlankBlanks(s: string)
    ensures Blanks(Blank(s), s)
  {}

  predicate Comment(s: string, quote: Option<char>) {
    quote.None? && |s| > 1 && s[0] == '/' && s[1] in {'/', '*'}
  }

  /** One turn of the scanner: a piece kept or blanked whole, then the rest. */
  lemma StripStep(s: string, quote: Option<char>) returns (n: nat, quote': Option<char>)
    requires s != []
    ensures 0 < n <= |s|
    ensures Stripped(s, quote) == (if Comment(s, quote) then Blank(s[..n]) else s[..n]) + Stripped(s[n..], quote')
    ensures Comment(s, quote) ==>
              quote' == None && n == if s[1] == '/' then Seek(s, '\n', 1) else Clip(BlockStop(s, 1) + 2, s)
    ensures !Comment(s, quote) ==>
              n == 1 || (n == 2 && quote.Some? && s[0] == '\\')
    ensures !Comment(s, quote) ==>
              quote' == if quote.Some? then (if s[0] == quote.value && s[0] != '\\' then None else quote)
                        else if s[0] in JS_QUOTES then Some(s[0]) else None
    ensures !Comment(s, quote) && n == 1 ==> !(quote.Some? && s[0] == '\\' && |s| > 1)
  {
    hide Blank;
    n, quote' := 1, quote;
    assert s[..1] == [s[0]];
    if quote.Some? {
      if s[0] == '\\' {
        n := Clip(2, s);
      } else if s[0] == quote.value {
        quote' := None;
      }
    } else if s[0] in JS_QUOTES {
      quote' := Some(s[0]);
    } else if Comment(s, quote) {
      n := if s[1] == '/' then Seek(s, '\n', 1) else Clip(BlockStop(s, 1) + 2, s);
    }
  }

  /** Blanked text is passed over unchanged. */
  lemma {:induction false} StrippedPast(pad: string, rest: string)
    requires forall j :: 0 <= j < |pad| ==> pad[j] == ' ' || pad[j] == '\n'
    ensures Stripped(pad + rest, None) == pad + Stripped(rest, None)
  {
    if pad == [] {
      assert pad + rest == rest;
    } else {
      StrippedPast(pad[1..], rest);
      assert (pad + rest)[1..] == pad[1..] + rest;
      assert pad == [pad[0]] + pad[1..];
      AppendAssociates([pad[0]], pad[1..], Stripped(rest, None));
    }
  }

  /** Stripping comments again changes nothing: what is left holds no comment. */
  lemma {:induction false} StrippedTwice(s: string, quote: Option<char>)
    ensures Stripped(Stripped(s, quote), quote) == Stripped(s, quote)
    decreases |s|
  {
    if s != [] {
      var n, quote' := StripStep(s, quote);
      var rest := Stripped(s[n..], quote');
      StrippedTwice(s[n..], quote');
      StrippedBlanks(s[n..], quote');
      var t := Stripped(s, quote);
      if Comment(s, quote) {
        StrippedPast(Blank(s[..n]), rest);
      } else {
        assert t == s[..n] + rest && t[..n] == s[..n] && t[n..] == rest;
        assert t[0] == s[0] && (n == 2 ==> t[1] == s[1]);
        assert n == 1 && |t| > 1 ==> t[1] == rest[0] && (rest[0] == s[1] || rest[0] == ' ') by {
          assert n == 1 && |t| > 1 ==> s[n..][0] == s[1];
        }
        var m, quote'' := StripStep(t, quote);
      }
    }
  }

  // ---------- which characters are blanked ----------

  /** The pieces a script is made of. */
  datatype Piece =
    | Code(c: char)
    | Str(quote: char, body: string)
    | LineComment(text: string)
    | BlockComment(text: string)
    | OpenStr(quote: char, body: string)
    | OpenComment(text: string)
    | SlashComment

  function Source(p: Piece): string {
    match p
    case Code(c) => [c]
    case Str(q, body) => [q] + (body + [q])
    case LineComment(t) => "//" + t
    case BlockComment(t) => "/*" + (t + "*/")
    case OpenStr(q, body) => [q] + body
    case OpenComment(t) => "/*" + t
    case SlashComment => "/*/"
  }

  predicate IsComment(p: Piece) {
    p.LineComment? || p.BlockComment? || p.OpenComment? || p.SlashComment?
  }

  function SourceOf(ps: seq<Piece>): string {
    if ps == [] then [] else Source(ps[0]) + SourceOf(ps[1..])
  }

  /** The script with exactly its comments blanked. */
  function CommentsBlanked(ps: seq<Piece>): string {
    if ps == [] then []
    else (if IsComment(ps[0]) then Blank(Source(ps[0])) else Source(ps[0]))
         + CommentsBlanked(ps[1..])
  }

  /** A string body: every backslash escapes a character, and the quote appears only escaped. */
  predicate StringBody(s: string, quote: char) {
    s == [] || if s[0] == '\\' then |s| > 1 && StringBody(s[2..], quote) else s[0] != quote && StringBody(s[1..], quote)
  }

  /** A string body that no quote ends, up to the end of the text. */
  predicate OpenBody(s: string, quote: char) {
    s == [] || if s[0] == '\\' then |s| == 1 || OpenBody(s[2..], quote) else s[0] != quote && OpenBody(s[1..], quote)
  }

  predicate ClosesAt(s: string, j: nat) {
    j + 1 < |s| && s[j] == '*' && s[j + 1] == '/'
  }

  /** Nothing closes the comment, the opening star included. */
  ghost predicate NoClose(t: string) {
    forall j :: 1 <= j <= |t| ==> !ClosesAt("/*" + t, j)
  }

  ghost predicate PieceOk(p: Piece, following: string) {
    match p
    case Code(c) => c !in JS_QUOTES && (c == '/' && following != [] ==> following[0] !in {'/', '*'})
    case Str(q, body) => q in JS_QUOTES && StringBody(body, q)
    case LineComment(t) => '\n' !in t && (following == [] || following[0] == '\n')
    case BlockComment(t) => NoClose(t)
    case OpenStr(q, body) => q in JS_QUOTES && OpenBody(body, q) && following == []
    case OpenComment(t) => NoClose(t) && following == []
    case SlashComment => true
  }

  ghost predicate PiecesOk(ps: seq<Piece>) {
    ps == [] || (PieceOk(ps[0], SourceOf(ps[1..])) && PiecesOk(ps[1..]))
  }

  lemma {:induction false} StringKept(body: string, quote: char, rest: string)
    requires quote != '\\' && StringBody(body, quote)
    ensures Stripped(body + ([quote] + rest), Some(quote)) == body + ([quote] + Stripped(rest, None))
    decreases |body|
  {
    var s := body + ([quote] + rest);
    if body == [] {
      assert s == [quote] + rest && s[1..] == rest;
      assert [] + ([quote] + Stripped(rest, None)) == [quote] + Stripped(rest, None);
    } else {
      var n := if body[0] == '\\' then 2 else 1;
      assert s[0] == body[0] && s[..n] == body[..n] && s[n..] == body[n..] + ([quote] + rest);
      StringKept(body[n..], quote, rest);
      assert body == body[..n] + body[n..];
      AppendAssociates(body[..n], body[n..], [quote] + Stripped(rest, None));
    }
  }

  lemma {:induction false} BlockStopAt(s: string, i: nat, e: nat)
    requires i <= e < |s| - 1 && s[e] == '*' && s[e + 1] == '/'
    requires forall j :: i <= j < e ==> !ClosesAt(s, j)
    ensures BlockStop(s, i) == e
    decreases e - i
  {
    if i < e {
      assert !ClosesAt(s, i);
      BlockStopAt(s, i + 1, e);
    }
  }

  lemma SeekAt(s: string, c: char, i: nat, e: nat)
    requires i <= e <= |s| && (e < |s| ==> s[e] == c) && forall j :: i <= j < e ==> s[j] != c
    ensures Seek(s, c, i) == e
  {
    hide Seek;
  }

  lemma PieceStripped(p: Piece, rest: string)
    requires PieceOk(p, rest)
    ensures Stripped(Source(p) + rest, None) ==
              (if IsComment(p) then Blank(Source(p)) else Source(p)) + Stripped(rest, None)
  {
    hide Blank, Stripped, PieceOk, Source;
    match p
    case Code(c) => CodeKept(c, rest);
    case Str(q, body) => QuotedKept(q, body, rest);
    case OpenStr(q, body) => OpenKept(q, body, rest);
    case _ =>
      CommentStops(p, rest);
      CommentBlanked(Source(p), rest);
  }

  /** The scanner stops where the comment ends. */
  lemma CommentStops(p: Piece, rest: string)
    requires PieceOk(p, rest) && IsComment(p)
    ensures var s := Source(p) + rest;
            && Comment(s, None)
            && |Source(p)| == if s[1] == '/' then Seek(s, '\n', 1) else Clip(BlockStop(s, 1) + 2, s)
  {
    hide Seek, BlockStop, NoClose;
    match p
    case LineComment(t) => LineStops(t, rest);
    case BlockComment(t) => BlockStops(t, rest);
    case OpenComment(t) =>
      assert Source(p) + rest == Source(p);
      BlockRuns(t);
    case SlashComment => SlashStops(rest);
  }

  lemma SlashStops(rest: string)
    ensures var s := "/*/" + rest; s[0] == '/' && s[1] == '*' && BlockStop(s, 1) == 1
  {}

  lemma OpenKept(q: char, body: string, rest: string)
    requires PieceOk(OpenStr(q, body), rest)
    ensures Stripped(Source(OpenStr(q, body)) + rest, None) == Source(OpenStr(q, body)) + Stripped(rest, None)
  {
    hide OpenBody;
    var s := [q] + body + rest;
    assert s[0] == q && s[1..] == body;
    OpenBodyKept(body, q);
    assert Stripped(rest, None) == [] && [q] + body + [] == [q] + body;
  }

  lemma {:induction false} OpenBodyKept(body: string, quote: char)
    requires quote != '\\' && OpenBody(body, quote)
    ensures Stripped(body, Some(quote)) == body
    decreases |body|
  {
    if body != [] {
      if body[0] == '\\' {
        if |body| > 1 {
          OpenBodyKept(body[2..], quote);
          assert body == body[..2] + body[2..];
        }
      } else {
        OpenBodyKept(body[1..], quote);
        assert body == [body[0]] + body[1..];
      }
    }
  }

  lemma {:induction false} BlockStopNone(s: string, i: nat)
    requires i <= |s| && forall j :: i <= j < |s| ==> !ClosesAt(s, j)
    ensures BlockStop(s, i) == |s|
    decreases |s| - i
  {
    if i < |s| {
      assert !ClosesAt(s, i);
      BlockStopNone(s, i + 1);
    }
  }

  lemma BlockRuns(t: string)
    requires NoClose(t)
    ensures var s := "/*" + t; s[0] == '/' && s[1] == '*' && BlockStop(s, 1) == |s|
  {
    BlockStopNone("/*" + t, 1);
  }

  lemma CodeKept(c: char, rest: string)
    requires PieceOk(Code(c), rest)
    ensures Stripped(Source(Code(c)) + rest, None) == Source(Code(c)) + Stripped(rest, None)
  {
    var s := [c] + rest;
    assert s[0] == c && s[1..] == rest && (rest != [] ==> s[1] == rest[0]);
  }

  lemma QuotedKept(q: char, body: string, rest: string)
    requires PieceOk(Str(q, body), rest)
    ensures Stripped(Source(Str(q, body)) + rest, None) == Source(Str(q, body)) + Stripped(rest, None)
  {
    hide StringBody;
    var s := [q] + (body + [q]) + rest;
    assert s[0] == q && s[1..] == body + ([q] + rest);
    StringKept(body, q, rest);
    assert [q] + (body + ([q] + Stripped(rest, None))) == [q] + (body + [q]) + Stripped(rest, None);
  }

  lemma CommentBlanked(own: string, rest: string)
    requires var s := own + rest;
             && Comment(s, None)
             && |own| == if s[1] == '/' then Seek(s, '\n', 1) else Clip(BlockStop(s, 1) + 2, s)
    ensures Stripped(own + rest, None) == Blank(own) + Stripped(rest, None)
  {
    hide Blank, Stripped, Seek, BlockStop;
    var s := own + rest;
    var n, quote' := StripStep(s, None);
    assert s[..n] == own && s[n..] == rest;
  }

  lemma LineStops(t: string, rest: string)
    requires '\n' !in t && (rest == [] || rest[0] == '\n')
    ensures var s := "//" + t + rest; s[0] == '/' && s[1] == '/' && Seek(s, '\n', 1) == |t| + 2
  {
    var s := "//" + t + rest;
    assert forall j :: 2 <= j < |t| + 2 ==> s[j] == t[j - 2];
    assert rest != [] ==> s[|t| + 2] == rest[0];
    SeekAt(s, '\n', 1, |t| + 2);
  }

  lemma BlockStops(t: string, rest: string)
    requires NoClose(t)
    ensures var s := "/*" + (t + "*/") + rest; s[0] == '/' && s[1] == '*' && BlockStop(s, 1) == |t| + 2
  {
    var s := "/*" + (t + "*/") + rest;
    var e := |t| + 2;
    assert s[e] == '*' && s[e + 1] == '/';
    forall j | 1 <= j < e
      ensures !ClosesAt(s, j)
    {
      assert !ClosesAt("/*" + t, j);
      assert s[j] == ("/*" + t)[j] && s[j + 1] == if j + 1 < e then ("/*" + t)[j + 1] else '*';
    }
    BlockStopAt(s, 1, e);
  }

  /** Every script, piece by piece: its comments are blanked and nothing else is touched. */
  lemma {:induction false} ExactlyCommentsBlanked(ps: seq<Piece>)
    requires PiecesOk(ps)
    ensures Stripped(SourceOf(ps), None) == CommentsBlanked(ps)
  {
    if ps != [] {
      PieceStripped(ps[0], SourceOf(ps[1..]));
      ExactlyCommentsBlanked(ps[1..]);
    }
  }

  /** Where a string body ends: at its quote, or with the text. */
  lemma {:induction false} BodySplit(s: string, quote: char) returns (n: nat)
    requires quote != '\\'
    ensures n <= |s|
    ensures if n < |s| then s[n] == quote && StringBody(s[..n], quote) else OpenBody(s, quote)
    decreases |s|
  {
    if s == [] || s[0] == quote {
      n := 0;
    } else if s[0] == '\\' && |s| == 1 {
      n := 1;
    } else {
      var step := if s[0] == '\\' then 2 else 1;
      var m := BodySplit(s[step..], quote);
      n := step + m;
      if n < |s| {
        assert s[..n][step..] == s[step..][..m];
      }
    }
  }

  lemma NoCloseBefore(s: string, e: nat)
    requires 2 <= e <= |s| && s[0] == '/' && s[1] == '*'
    requires forall j :: 1 <= j < e ==> !ClosesAt(s, j)
    ensures NoClose(s[2..e])
  {
    var t := s[2..e];
    assert "/*" + t == s[..e];
    forall j | 1 <= j <= |t|
      ensures !ClosesAt("/*" + t, j)
    {
      assert !ClosesAt(s, j);
    }
  }

  lemma {:induction false} BlockStopFirst(s: string, i: nat)
    requires i <= |s|
    ensures var e := BlockStop(s, i);
            && (e < |s| ==> ClosesAt(s, e))
            && forall j :: i <= j < e ==> !ClosesAt(s, j)
    decreases |s| - i
  {
    if i < |s| && !ClosesAt(s, i) {
      BlockStopFirst(s, i + 1);
    }
  }

  /** The piece a text starts with. */
  lemma FirstPiece(s: string) returns (p: Piece)
    requires s != []
    ensures 0 < |Source(p)| <= |s| && s[..|Source(p)|] == Source(p) && PieceOk(p, s[|Source(p)|..])
  {
    if s[0] in JS_QUOTES {
      p := FirstString(s);
    } else if Comment(s, None) && s[1] == '/' {
      var n := Seek(s, '\n', 1);
      assert s[1] != '\n';
      p := LineComment(s[2..n]);
      assert s[..n] == "//" + s[2..n] && forall j :: 2 <= j < n ==> s[j] != '\n';
    } else if Comment(s, None) {
      p := FirstBlock(s);
    } else {
      p := Code(s[0]);
    }
  }

  lemma FirstString(s: string) returns (p: Piece)
    requires s != [] && s[0] in JS_QUOTES
    ensures 0 < |Source(p)| <= |s| && s[..|Source(p)|] == Source(p) && PieceOk(p, s[|Source(p)|..])
  {
    hide StringBody, OpenBody;
    var n := BodySplit(s[1..], s[0]);
    if n < |s| - 1 {
      var body := s[1..][..n];
      p := Str(s[0], body);
      assert s[n + 1] == s[0] && s[..n + 2] == [s[0]] + (body + [s[0]]);
    } else {
      p := OpenStr(s[0], s[1..]);
      assert s == [s[0]] + s[1..] && s[|s|..] == [] && s[..|s|] == s;
    }
  }

  lemma FirstBlock(s: string) returns (p: Piece)
    requires |s| > 1 && s[0] == '/' && s[1] == '*'
    ensures 0 < |Source(p)| <= |s| && s[..|Source(p)|] == Source(p) && PieceOk(p, s[|Source(p)|..])
  {
    hide BlockStop, NoClose;
    BlockStopFirst(s, 1);
    var e := BlockStop(s, 1);
    if e == |s| {
      NoCloseBefore(s, e);
      p := OpenComment(s[2..e]);
      assert s == "/*" + s[2..e] && s[..|s|] == s && s[|s|..] == [];
    } else if e == 1 {
      p := SlashComment;
      assert s[..3] == [s[0], s[1], s[2]];
    } else {
      NoCloseBefore(s, e);
      p := BlockComment(s[2..e]);
      assert s[..e + 2] == "/*" + (s[2..e] + "*/");
    }
  }

  /** Every text is made of such pieces, so all of it is accounted for. */
  lemma {:induction false} EveryTextInPieces(s: string) returns (ps: seq<Piece>)
    ensures PiecesOk(ps) && SourceOf(ps) == s
    decreases |s|
  {
    hide PieceOk, Source;
    if s == [] {
      ps := [];
    } else {
      var p := FirstPiece(s);
      var n := |Source(p)|;
      var rest := EveryTextInPieces(s[n..]);
      ps := [p] + rest;
      assert ps[1..] == rest && s == s[..n] + s[n..];
    }
  }

  /** What is left of any text, piece by piece. */
  lemma EveryCommentBlanked(s: string)
    ensures exists ps :: PiecesOk(ps) && SourceOf(ps) == s && Stripped(s, None) == CommentsBlanked(ps)
  {
    hide PiecesOk, SourceOf, CommentsBlanked, Stripped;
    var ps := EveryTextInPieces(s);
    ExactlyCommentsBlanked(ps);
  }

  // ---------- the scanner ----------

  /** The line-comment loop: blank up to the next newline. */
  method BlankLine(out: array<char>, text: string, index: nat) returns (cursor: nat)
    requires out.Length == |text| && index + 1 < |text| && text[index] == '/' && text[index + 1] == '/'
    requires out[index..] == text[index..]
    modifies out
    ensures index < cursor <= |text| && cursor - index == Seek(text[index..], '\n', 1)
    ensures out[..cursor] == old(out[..index]) + Blank(text[index..][..cursor - index])
    ensures out[cursor..] == text[cursor..]
  {
    ghost var before, s := out[..], text[index..];
    cursor := index;
    while cursor < |text| && text[cursor] != '\n'
      invariant index <= cursor <= |text|
      invariant Seek(s, '\n', if cursor == index then 1 else cursor - index) == Seek(s, '\n', 1)
      invariant Painted(out[..], before, text, index, cursor)
    {
      out[cursor] := ' ';
      cursor := cursor + 1;
    }
    Blanked(before, text, out[..], index, cursor);
  }

  /** The block-comment loops: find the end, then blank through it. */
  method BlankBlock(out: array<char>, text: string, index: nat) returns (cursor: nat)
    requires out.Length == |text| && index + 1 < |text| && text[index] == '/' && text[index + 1] == '*'
    requires out[index..] == text[index..]
    modifies out
    ensures index < cursor <= |text| && cursor - index == BlockStop(text[index..], 1)
    ensures var stop := Clip(cursor + 2, text);
            && out[..stop] == old(out[..index]) + Blank(text[index..][..stop - index])
            && out[stop..] == text[stop..]
  {
    ghost var before, s := out[..], text[index..];
    cursor := index;
    while cursor < |text| && !(text[cursor] == '*' && cursor + 1 < |text| && text[cursor + 1] == '/')
      invariant index <= cursor <= |text|
      invariant BlockStop(s, if cursor == index then 1 else cursor - index) == BlockStop(s, 1)
      invariant Painted(out[..], before, text, index, cursor)
    {
      assert text[cursor] == s[cursor - index] && before[cursor] == before[index..][cursor - index];
      if text[cursor] != '\n' {
        out[cursor] := ' ';
      }
      cursor := cursor + 1;
    }
    var stop := if cursor + 2 <= |text| then cursor + 2 else |text|;
    for position := index to stop
      invariant Painted(out[..], before, text, index, if position > cursor then position else cursor)
    {
      assert text[position] == s[position - index] && before[position] == before[index..][position - index];
      if text[position] != '\n' {
        out[position] := ' ';
      }
    }
    Blanked(before, text, out[..], index, stop);
  }

  /** `strip_comments`: the scanner writes spaces into a copy of the text. */
  method StripComments(text: string) returns (r: string)
    ensures r == Stripped(text, None)
    ensures Blanks(r, text) && Stripped(r, None) == r
    ensures forall offset: nat :: LineOf(r, offset) == LineOf(text, offset)
  {
    hide Stripped, Blank, Seek, BlockStop, Blanks, LineOf, Progress;
    var length := |text|;
    var out := new char[length](i requires 0 <= i < length => text[i]);
    var index := 0;
    var quote: Option<char> := None;
    assert out[..] == text;
    Starts(text);
    while index < length
      invariant 0 <= index && Progress(out[..], text, index, quote)
      decreases length - index
    {
      ghost var before := out[..];
      var ch := text[index];
      if quote.None? && ch == '/' && index + 1 < length && text[index + 1] in {'/', '*'} {
        InStep(before, text, index, quote);
        if text[index + 1] == '/' {
          var cursor := BlankLine(out, text, index);
          Replaced(before, out[..], text, index, cursor);
          index := cursor;
        } else {
          var cursor := BlankBlock(out, text, index);
          Replaced(before, out[..], text, index, cursor + 2);
          index := cursor + 2;
        }
        continue;
      }
      Kept(before, text, index, quote);
      if quote.Some? {
        if ch == '\\' {
          index := index + 2;
          continue;
        }
        if ch == quote.value { quote := None; }
      } else if ch in JS_QUOTES {
        quote := Some(ch);
      }
      index := index + 1;
    }
    Ends(out[..], text, index, quote);
    r := out[..];
    StripLaws(text);
  }

  /** The laws of blanking, for every text. */
  lemma StripLaws(text: string)
    ensures var r := Stripped(text, None);
            && Blanks(r, text) && Stripped(r, None) == r
            && forall offset: nat :: LineOf(r, offset) == LineOf(text, offset)
  {
    hide Stripped, Blanks, LineOf;
    var r := Stripped(text, None);
    StrippedBlanks(text, None);
    StrippedTwice(text, None);
    forall offset: nat ensures LineOf(r, offset) == LineOf(text, offset) {
      SameLine(r, text, offset);
    }
  }

  /** The copy is done up to `index` (or the end), and untouched beyond. */
  ghost predicate Progress(out: string, text: string, index: nat, quote: Option<char>) {
    var c := Clip(index, text);
    && |out| == |text| && out[c..] == text[c..]
    && out[..c] + Stripped(text[c..], quote) == Stripped(text, None)
  }

  lemma Starts(text: string)
    ensures Progress(text, text, 0, None)
  {
    assert text[0..] == text && text[..0] + Stripped(text, None) == Stripped(text, None);
  }

  lemma Ends(out: string, text: string, index: nat, quote: Option<char>)
    requires Progress(out, text, index, quote) && index >= |text|
    ensures out == Stripped(text, None)
  {
    assert text[|text|..] == [] && out[..|text|] == out && out + [] == out;
  }

  lemma InStep(out: string, text: string, index: nat, quote: Option<char>)
    requires Progress(out, text, index, quote) && index < |text|
    ensures |out| == |text| && out[index..] == text[index..]
  {}

  /** A kept piece: the copy needs no change. */
  lemma Kept(out: string, text: string, index: nat, quote: Option<char>)
    requires Progress(out, text, index, quote) && index < |text| && !Comment(text[index..], quote)
    ensures var ch := text[index];
            Progress(out, text, if quote.Some? && ch == '\\' then index + 2 else index + 1,
                     if quote.Some? then (if ch == quote.value && ch != '\\' then None else quote)
                     else if ch in JS_QUOTES then Some(ch) else None)
  {
    hide Stripped;
    var s := text[index..];
    var n, quote' := StripStep(s, quote);
    assert s[n..] == text[index + n..] && out[index..][n..] == out[index + n..];
    assert out[..index + n] == out[..index] + s[..n] by {
      assert out[..index + n] == out[..index] + out[index..][..n];
    }
    assert out[..index] + (s[..n] + Stripped(s[n..], quote')) == out[..index + n] + Stripped(text[index + n..], quote');
    assert s[0] == text[index];
  }

  /** A blanked piece, once written, stands for the comment it replaces. */
  lemma Replaced(before: string, out: string, text: string, index: nat, next: nat)
    requires Progress(before, text, index, None) && index < |text| && Comment(text[index..], None)
    requires var s := text[index..];
             next == if s[1] == '/' then index + Seek(s, '\n', 1) else index + BlockStop(s, 1) + 2
    requires var stop := Clip(next, text);
             && |out| == |text| && index <= stop && out[stop..] == text[stop..]
             && out[..stop] == before[..index] + Blank(text[index..][..stop - index])
    ensures Progress(out, text, next, None)
  {
    hide Stripped, Blank;
    var s, stop := text[index..], Clip(next, text);
    var n, quote' := StripStep(s, None);
    assert n == stop - index;
    assert s[n..] == text[stop..];
    var rest := Stripped(text[stop..], None);
    assert before[..index] + (Blank(s[..n]) + rest) == out[..stop] + rest;
  }

  /** `out` is `before` with `[index, done)` blanked. */
  ghost predicate Painted(out: string, before: string, text: string, index: nat, done: nat) {
    && |out| == |before| == |text|
    && forall j :: 0 <= j < |text| ==>
         out[j] == if index <= j < done then (if text[j] == '\n' then '\n' else ' ') else before[j]
  }

  /** A blanked piece: the copy holds its blanks. */
  lemma Blanked(before: string, text: string, out: string, index: nat, stop: nat)
    requires index <= stop <= |text| && |before| == |text| && before[index..] == text[index..]
    requires Painted(out, before, text, index, stop)
    ensures out[stop..] == text[stop..]
    ensures out[..stop] == before[..index] + Blank(text[index..][..stop - index])
  {
    assert forall j :: index <= j < |text| ==> before[j] == before[index..][j - index] == text[j];
    var piece := text[index..][..stop - index];
    assert forall j :: index <= j < stop ==> piece[j - index] == text[j];
  }
}
