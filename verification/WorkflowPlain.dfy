/**
 Workflow syntax, line by line: how the parser reads a printed key, item or scalar, plain or
 quoted, with a comment trailing it or not.
 */
module WorkflowPlain {
  import opened Text
  import opened WorkflowLexis
  import opened WorkflowParser

  // ---------- texts that survive a line ----------

  /** Scanning `s` from `i` inside `quote` meets no comment and ends outside quotes. */
  predicate Scans(s: string, i: nat, quote: Option<char>)
    requires i <= |s|
    decreases |s| - i
  {
    if i == |s| then quote.None?
    else if quote.Some? then Scans(s, i + 1, if s[i] == quote.value then None else quote)
    else if s[i] in QUOTES then Scans(s, i + 1, Some(s[i]))
    else !(s[i] == '#' && (i == 0 || s[i - 1] in BLANKS)) && Scans(s, i + 1, None)
  }

  /** A text that stands on a line without any of it being taken for a comment. */
  ghost predicate Tame(s: string) {
    Trimmed(s) && Scans(s, 0, None)
  }

  ghost predicate OnlyBlanks(s: string) {
    forall i :: 0 <= i < |s| ==> s[i] in BLANKS
  }

  /** A text that quotes do not start; they may stand inside it in pairs. */
  ghost predicate Unquotable(s: string) {
    Tame(s) && s[0] !in QUOTES
  }

  /** No colon that could end a key. */
  ghost predicate NoColon(s: string) {
    forall j :: 0 <= j < |s| ==> !ColonAt(s, j)
  }

  /** A key may end in a colon only if its own colon follows at once. */
  ghost predicate PlainKey(s: string, gap: string) {
    Unquotable(s) && s[0] != '-' && forall j :: 0 <= j < |s| && ColonAt(s, j) ==> j == |s| - 1 && gap == []
  }

  ghost predicate PlainValue(s: string) {
    Unquotable(s) && s[0] !in {'|', '>'} && !IsFlow(s)
  }

  ghost predicate PlainItem(s: string) {
    Unquotable(s) && NoColon(s) && !IsFlow(s)
  }

  /** What follows the colon when a block scalar does: a bar or an angle, and anything. */
  ghost predicate BlockHeader(s: string) {
    Tame(s) && s[0] in {'|', '>'} && NoColon(s)
  }

  /** A text between quotes it does not hold. */
  predicate Quotable(quote: char, s: string) {
    quote in QUOTES && quote !in s
  }

  function InQuotes(quote: char, s: string): string {
    [quote] + (s + [quote])
  }

  /** What may stand behind the text of a line: blanks, and a comment after at least one. */
  ghost predicate TailOk(t: string) {
    t == [] || (t[0] in BLANKS && (TailOk(t[1..]) || (|t| > 1 && t[1] == '#')))
  }

  // ---------- scanning ----------

  lemma {:induction false} ScansShifted(a: string, b: string, j: nat, quote: Option<char>)
    requires j <= |b| && Scans(b, j, quote)
    ensures Scans(a + b, |a| + j, quote)
    decreases |b| - j
  {
    if j < |b| {
      assert (a + b)[|a| + j] == b[j] && (j > 0 ==> (a + b)[|a| + j - 1] == b[j - 1]);
      ScansShifted(a, b, j + 1, After(quote, b[j]));
    }
  }

  lemma {:induction false} ScansJoin(a: string, b: string, i: nat, quote: Option<char>)
    requires i <= |a| && Scans(a, i, quote) && Scans(b, 0, None)
    ensures Scans(a + b, i, quote)
    decreases |a| - i
  {
    if i == |a| {
      ScansShifted(a, b, 0, None);
    } else {
      assert (a + b)[i] == a[i] && (i > 0 ==> (a + b)[i - 1] == a[i - 1]);
      ScansJoin(a, b, i + 1, After(quote, a[i]));
    }
  }

  lemma BlanksAreSpace(s: string)
    requires OnlyBlanks(s)
    ensures AllSpace(s)
  {
    SpaceIsSpace();
  }

  lemma {:induction false} BlanksScan(s: string, i: nat)
    requires OnlyBlanks(s) && i <= |s|
    ensures Scans(s, i, None)
    decreases |s| - i
  {
    if i < |s| {
      BlanksScan(s, i + 1);
    }
  }

  lemma NoBlanks()
    ensures OnlyBlanks([])
  {}

  lemma OneScans(c: char)
    requires c !in QUOTES && c != '#'
    ensures Scans([c], 0, None)
  {
    assert Scans([c], 1, None);
  }

  lemma {:induction false} SpacesScan(n: nat, i: nat)
    requires i <= n
    ensures Scans(Spaces(n), i, None)
    decreases n - i
  {
    if i < n {
      SpacesScan(n, i + 1);
    }
  }

  lemma {:induction false} QuotedScans(s: string, i: nat, quote: char)
    requires i <= |s| && Quotable(quote, s)
    ensures Scans(s + [quote], i, Some(quote))
    decreases |s| - i
  {
    var t := s + [quote];
    if i < |s| {
      assert t[i] == s[i] && s[i] in s;
      QuotedScans(s, i + 1, quote);
    } else {
      assert t[i] == quote && Scans(t, i + 1, None);
    }
  }

  lemma QuotedTame(quote: char, s: string)
    requires Quotable(quote, s)
    ensures Tame(InQuotes(quote, s)) && Unquoted(InQuotes(quote, s)) == s
  {
    var t := InQuotes(quote, s);
    QuotedScans(s, 0, quote);
    ScansShifted([quote], s + [quote], 0, Some(quote));
    assert t[0] == quote && t[|t| - 1] == quote && t[1..|t| - 1] == s;
  }

  /** Up to the end of a text that scans, no comment cuts the line. */
  lemma {:induction false} NoComment(head: string, tail: string, i: nat, quote: Option<char>)
    requires i <= |head| && Scans(head, i, quote)
    ensures CommentCut(head + tail, i, quote) == CommentCut(head + tail, |head|, None)
    decreases |head| - i
  {
    if i < |head| {
      assert (head + tail)[i] == head[i] && (i > 0 ==> (head + tail)[i - 1] == head[i - 1]);
      NoComment(head, tail, i + 1, After(quote, head[i]));
    }
  }

  /** Only blanks stand between the text and its comment. */
  lemma {:induction false} TailCut(line: string, i: nat)
    requires i <= |line| && TailOk(line[i..])
    ensures forall j :: i <= j < CommentCut(line, i, None) ==> line[j] in BLANKS
    decreases |line| - i
  {
    if i < |line| {
      assert line[i..][0] == line[i] && line[i..][1..] == line[i + 1..];
      if TailOk(line[i + 1..]) {
        TailCut(line, i + 1);
      } else {
        assert line[i..][1] == line[i + 1];
      }
    }
  }

  /** An indented tame text is read as itself, whatever comment follows it. */
  lemma TameLine(n: nat, s: string, tail: string)
    requires Tame(s) && TailOk(tail)
    ensures var line := Spaces(n) + s + tail;
            !Ignorable(line) && Indent(line) == n && Content(line) == s
  {
    hide IsSpace, TrimLeft, TrimRight, TailOk, CommentCut, Scans;
    var head := Spaces(n) + s;
    var line := head + tail;
    assert IsSpace(' ') && IsSpace('\t') by { SpaceIsSpace(); }
    assert s[0] != '#' by { TameStart(s); }
    assert line == Spaces(n) + (s + tail) && (s + tail)[0] == s[0];
    IndentPadded(n, s + tail);
    TrimLeftPadded(Spaces(n), s + tail);
    TrimRightKeeps(s + tail);
    SpacesScan(n, 0);
    ScansJoin(Spaces(n), s, 0, None);
    NoComment(head, tail, 0, None);
    assert line[|head|..] == tail;
    TailCut(line, |head|);
    var cut := CommentCut(line, |head|, None);
    var blanks := line[|head|..cut];
    assert line[..cut] == Spaces(n) + s + blanks;
    assert forall i :: 0 <= i < |blanks| ==> blanks[i] == line[|head| + i];
    StripPadded(Spaces(n), s, blanks);
  }

  lemma TameStart(s: string)
    requires Tame(s)
    ensures s[0] != '#'
  {}

  lemma StripAlone(s: string)
    requires Trimmed(s)
    ensures Strip(s) == s
  {
    StripPadded([], s, []);
    assert [] + s + [] == s;
  }

  // ---------- keys ----------

  /** A key, and the blanks around its colon. */
  datatype Key =
    | Bare(name: string, gap: string, lead: string)
    | Quoted(quote: char, name: string, gap: string, lead: string)

  function Shown(k: Key): string {
    if k.Bare? then k.name else InQuotes(k.quote, k.name)
  }

  ghost predicate KeyOk(k: Key) {
    && OnlyBlanks(k.gap) && OnlyBlanks(k.lead) && k.lead != []
    && if k.Bare? then PlainKey(k.name, k.gap) else Quotable(k.quote, k.name)
  }

  lemma ShownTame(k: Key)
    requires KeyOk(k)
    ensures Tame(Shown(k)) && Shown(k)[0] != '-' && Unquoted(Shown(k)) == k.name
  {
    hide Scans, Trimmed;
    if k.Quoted? {
      QuotedTame(k.quote, k.name);
      assert k.quote != '-';
    }
  }

  lemma {:induction false} QuotePrefix(a: string, b: string, i: nat)
    requires i <= |a|
    ensures QuoteAt(a + b, i) == QuoteAt(a, i)
  {
    if i > 0 {
      QuotePrefix(a, b, i - 1);
    }
  }

  /** A text that scans ends outside quotes. */
  lemma {:induction false} ScansQuote(s: string, i: nat)
    requires i <= |s| && Scans(s, i, QuoteAt(s, i))
    ensures QuoteAt(s, |s|) == None
    decreases |s| - i
  {
    if i < |s| {
      ScansQuote(s, i + 1);
    }
  }

  lemma {:induction false} QuoteInside(quote: char, name: string, j: nat)
    requires Quotable(quote, name) && 1 <= j <= |name| + 1
    ensures QuoteAt(InQuotes(quote, name), j) == Some(quote)
  {
    var s := InQuotes(quote, name);
    assert s[0] == quote && QuoteAt(s, 0) == None;
    if j > 1 {
      QuoteInside(quote, name, j - 1);
      assert s[j - 1] == name[j - 2] && name[j - 2] in name;
    }
  }

  /** No colon inside a shown key ends it. */
  lemma NoColonShown(k: Key, tail: string, j: nat)
    requires KeyOk(k) && tail != [] && tail[0] == (if k.gap == [] then ':' else k.gap[0]) && j < |Shown(k)|
    ensures !ColonAt(Shown(k) + tail, j)
  {
    hide Scans, Trimmed;
    var key := Shown(k);
    var s := key + tail;
    assert s[j] == key[j] && s[j + 1] == if j + 1 < |key| then key[j + 1] else tail[0];
    QuotePrefix(key, tail, j);
    if k.Bare? {
      assert ColonAt(s, j) ==> ColonAt(key, j);
    } else if 0 < j < |key| - 1 {
      QuoteInside(k.quote, k.name, j);
    } else {
      assert key[j] == k.quote;
    }
  }

  /** The colon that ends a shown key is the one behind it and its blanks. */
  lemma KeyPrefix(k: Key, rest: string)
    requires KeyOk(k) && (rest == [] || rest[0] in BLANKS)
    ensures var head := Shown(k) + k.gap;
            var s := head + ([':'] + rest);
            KeyColon(s, 0, None) == Some(|head|) && s[..|head|] == head && s[|head| + 1..] == rest
  {
    hide Scans, Trimmed, KeyColon, Shown, ColonAt, KeyOk;
    var key := Shown(k);
    var head := key + k.gap;
    var s := head + ([':'] + rest);
    KeyEndsAtFirstColon(s);
    HeadScans(k);
    ScansQuote(head, 0);
    QuotePrefix(head, [':'] + rest, |head|);
    assert s[|head|] == ':' && (rest != [] ==> s[|head| + 1] == rest[0]);
    ColonIsAt(s, |head|);
    assert s == key + (k.gap + ([':'] + rest));
    forall j | 0 <= j < |head|
      ensures !ColonAt(s, j)
    {
      if j < |key| {
        NoColonShown(k, k.gap + ([':'] + rest), j);
      } else {
        GapHasNoColon(k, s, j) by { assert s[j] == k.gap[j - |key|]; }
      }
    }
  }

  lemma ColonIsAt(s: string, i: nat)
    requires i < |s| && s[i] == ':' && QuoteAt(s, i) == None && (i + 1 == |s| || s[i + 1] in BLANKS)
    ensures ColonAt(s, i)
  {}

  lemma GapHasNoColon(k: Key, s: string, j: nat)
    requires KeyOk(k) && j < |s| && s[j] in k.gap
    ensures !ColonAt(s, j)
  {}

  lemma HeadScans(k: Key)
    requires KeyOk(k)
    ensures Scans(Shown(k) + k.gap, 0, None) && QuoteAt(Shown(k) + k.gap, 0) == None
  {
    hide Scans, Trimmed, Shown;
    ShownTame(k);
    BlanksScan(k.gap, 0);
    ScansJoin(Shown(k), k.gap, 0, None);
  }

  // ---------- entry lines ----------

  /** What follows the colon of a printed entry line. */
  function Tail(k: Key, text: string): string {
    if text == [] then [] else k.lead + text
  }

  function EntryText(k: Key, text: string): string {
    (Shown(k) + k.gap) + ([':'] + Tail(k, text))
  }

  lemma TailScans(k: Key, text: string)
    requires KeyOk(k) && (text == [] || Tame(text))
    ensures Scans([':'] + Tail(k, text), 0, None)
    ensures var t := [':'] + Tail(k, text); !IsSpace(t[|t| - 1])
  {
    hide IsSpace, Scans, PlainKey;
    OneScans(':');
    assert !IsSpace(':') by { ColonShows(); }
    if text == [] {
      assert [':'] + [] == [':'];
    } else {
      BlanksScan(k.lead, 0);
      ScansJoin(k.lead, text, 0, None);
      ScansJoin([':'], k.lead + text, 0, None);
    }
  }

  lemma ColonShows()
    ensures !IsSpace(':')
  {}

  lemma EntryTextTame(k: Key, text: string)
    requires KeyOk(k) && (text == [] || Tame(text))
    ensures Tame(EntryText(k, text)) && EntryText(k, text)[0] == Shown(k)[0] != '-'
  {
    hide IsSpace, Scans, Shown, KeyOk, Tail;
    ShownTame(k);
    HeadScans(k);
    TailScans(k, text);
    ScansJoin(Shown(k) + k.gap, [':'] + Tail(k, text), 0, None);
  }

  lemma EntryTextSplits(k: Key, text: string)
    requires KeyOk(k) && (text == [] || Tame(text))
    ensures SplitAtKey(EntryText(k, text)) == Keyed(k.name, Tail(k, text))
    ensures Strip(Tail(k, text)) == text
  {
    hide IsSpace, Strip, Scans, KeyColon, Shown, Unquoted, Trimmed, KeyOk, Tail;
    TailStripped(k, text);
    KeyPrefix(k, Tail(k, text));
    KeyStripped(k);
  }

  lemma TailStripped(k: Key, text: string)
    requires KeyOk(k) && (text == [] || Tame(text))
    ensures Strip(Tail(k, text)) == text && (Tail(k, text) == [] || Tail(k, text)[0] in BLANKS)
  {
    hide IsSpace, Strip, Scans, PlainKey;
    BlanksAreSpace(k.lead);
    if text == [] {
      StripBlank([]);
    } else {
      StripPadded(k.lead, text, []);
      assert k.lead + text + [] == k.lead + text;
    }
  }

  lemma KeyStripped(k: Key)
    requires KeyOk(k)
    ensures Unquoted(Strip(Shown(k) + k.gap)) == k.name
  {
    hide IsSpace, Strip, Scans, Shown, PlainKey, Unquoted, Trimmed;
    ShownTame(k);
    BlanksAreSpace(k.gap);
    StripPadded([], Shown(k), k.gap);
    assert [] + Shown(k) + k.gap == Shown(k) + k.gap;
  }

  /** An entry line of a mapping. */
  lemma EntryLine(n: nat, k: Key, text: string, tail: string)
    requires KeyOk(k) && (text == [] || Tame(text)) && TailOk(tail)
    ensures var line := Spaces(n) + EntryText(k, text) + tail;
            && !Ignorable(line) && Indent(line) == n
            && !StartsWithChar(Content(line), '-')
            && SplitAtKey(Content(line)) == Keyed(k.name, Tail(k, text)) && Strip(Tail(k, text)) == text
  {
    hide Ignorable, Content, SplitAtKey, Strip, Indent, EntryText, TailOk, KeyOk, Shown;
    EntryTextTame(k, text);
    EntryTextSplits(k, text);
    TameLine(n, EntryText(k, text), tail);
  }

  // ---------- scalars ----------

  lemma PlainParses(text: string)
    requires Unquotable(text) && !IsFlow(text)
    ensures ParseScalar(text) == Scalar(text)
  {
    hide IsSpace, Strip, Scans;
    StripAlone(text);
  }

  lemma QuotedParses(quote: char, text: string)
    requires Quotable(quote, text)
    ensures ParseScalar(InQuotes(quote, text)) == Scalar(text)
  {
    hide IsSpace, Strip, Scans, Unquoted;
    QuotedTame(quote, text);
    StripAlone(InQuotes(quote, text));
  }

  lemma NoColonNoKey(text: string)
    requires NoColon(text)
    ensures SplitAtKey(text) == NoKey
  {
    NoColonIsNoKey(text);
  }

  lemma PlainItemIsScalar(text: string)
    requires PlainItem(text)
    ensures SplitAtKey(text) == NoKey && ParseScalar(text) == Scalar(text)
  {
    hide Scans;
    NoColonNoKey(text);
    PlainParses(text);
  }

  lemma HeaderIsScalar(text: string)
    requires BlockHeader(text)
    ensures SplitAtKey(text) == NoKey && ParseScalar(text) == Scalar(text)
  {
    hide Scans;
    NoColonNoKey(text);
    PlainParses(text);
  }

  // ---------- item lines ----------

  function DashText(gap: nat, text: string): string {
    "-" + (Spaces(gap) + text)
  }

  lemma DashTextTame(gap: nat, text: string)
    requires Tame(text)
    ensures Tame(DashText(gap, text))
  {
    hide Scans, IsSpace;
    assert !IsSpace('-') && Scans("-", 0, None) by { DashScans(); }
    SpacesScan(gap, 0);
    ScansJoin(Spaces(gap), text, 0, None);
    ScansJoin("-", Spaces(gap) + text, 0, None);
    var s := DashText(gap, text);
    assert s[0] == '-' && s[|s| - 1] == text[|text| - 1];
  }

  lemma DashScans()
    ensures !IsSpace('-') && Scans("-", 0, None) && Tame("-")
  {
    assert Scans("-", 1, None);
  }

  /** An item line: a dash, a gap and a tame text. */
  lemma ItemLine(n: nat, gap: nat, text: string, tail: string)
    requires Tame(text) && TailOk(tail)
    ensures var line := Spaces(n) + DashText(gap, text) + tail;
            && !Ignorable(line) && Indent(line) == n
            && Content(line) == DashText(gap, text)
            && ItemText(line) == text && ItemColumn(line) == n + 1 + gap
  {
    hide IsSpace, TrimLeft, TrimRight, Strip, Content, Ignorable, TailOk, Scans;
    var s := DashText(gap, text);
    var line := Spaces(n) + s + tail;
    SpaceIsSpace();
    DashTextTame(gap, text);
    TameLine(n, s, tail);
    assert s[1..] == Spaces(gap) + text + [];
    StripPadded(Spaces(gap), text, []);
    assert line[n] == '-';
    assert Seek(line, '-', 0) == n;
    assert line[n + 1..] == Spaces(gap) + (text + tail) && (text + tail)[0] == text[0];
    IndentPadded(gap, text + tail);
  }

  /** A bare dash. */
  lemma BareDash(n: nat, tail: string)
    requires TailOk(tail)
    ensures var line := Spaces(n) + "-" + tail;
            && !Ignorable(line) && Indent(line) == n
            && Content(line) == "-" && ItemText(line) == []
  {
    hide TrimLeft, TrimRight, Content, Ignorable, TailOk, Scans, Tame;
    DashScans();
    TameLine(n, "-", tail);
    StripBlank([]);
    assert "-"[1..] == [];
  }

  /** A compact item is rewritten to exactly the line of the mapping's first entry. */
  lemma CompactLine(n: nat, gap: nat, k: Key, text: string, tail: string)
    requires KeyOk(k) && k.Bare? && (text == [] || Tame(text)) && TailOk(tail)
    ensures var line := Spaces(n) + DashText(gap, EntryText(k, text)) + tail;
            && !Ignorable(line) && Indent(line) == n && StartsWithChar(Content(line), '-')
            && OpensMapping(line) && ItemText(line) != [] && ItemColumn(line) == n + 1 + gap
            && Undashed(line) == Spaces(n + 1 + gap) + EntryText(k, text)
  {
    hide Ignorable, Content, SplitAtKey, Strip, Indent, EntryText, ItemText, ItemColumn, TailOk, Scans, Spaces,
         IsSpace, KeyOk, Shown;
    EntryTextTame(k, text);
    EntryTextSplits(k, text);
    ItemLine(n, gap, EntryText(k, text), tail);
    BareStart(k);
  }

  lemma BareStart(k: Key)
    requires KeyOk(k) && k.Bare?
    ensures Shown(k) != [] && Shown(k)[0] !in QUOTES
  {
    hide Scans;
  }
}
