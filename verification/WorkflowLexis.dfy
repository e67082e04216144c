/**
 One line of a workflow file: comments, keys and scalars
 (`_strip_comment`, `_split_key` and `_parse_scalar` of the desktop gate guard).
 */
module WorkflowLexis {
  import opened Text

  const QUOTES := {'\'', '\"'}
  const BLANKS := {' ', '\t'}

  // ---------- quotes ----------

  /** The quote that is open after `c`, when `quote` was open before it. */
  function After(quote: Option<char>, c: char): Option<char> {
    if quote.Some? then (if c == quote.value then None else quote)
    else if c in QUOTES then Some(c)
    else None
  }

  /** The quote that is open before index `i`, if any. */
  function QuoteAt(line: string, i: nat): Option<char>
    requires i <= |line|
  {
    if i == 0 then None else After(QuoteAt(line, i - 1), line[i - 1])
  }

  // ---------- comments ----------

  /** A `#` outside quotes that is first or behind a blank. */
  predicate CommentAt(line: string, i: nat) {
    && i < |line| && line[i] == '#' && QuoteAt(line, i).None?
    && (i == 0 || line[i - 1] in BLANKS)
  }

  /** Where the trailing comment starts, scanning from `i` inside `quote` (if any). */
  function CommentCut(line: string, i: nat, quote: Option<char>): (cut: nat)
    requires i <= |line|
    ensures i <= cut <= |line|
    decreases |line| - i
  {
    if i == |line| then i
    else if quote.Some? then CommentCut(line, i + 1, if line[i] == quote.value then None else quote)
    else if line[i] in QUOTES then CommentCut(line, i + 1, Some(line[i]))
    else if line[i] == '#' && (i == 0 || line[i - 1] in BLANKS) then i
    else CommentCut(line, i + 1, None)
  }

  lemma {:induction false} CutFrom(line: string, i: nat)
    requires i <= |line|
    ensures var cut := CommentCut(line, i, QuoteAt(line, i));
            (cut == |line| || CommentAt(line, cut)) && forall j :: i <= j < cut ==> !CommentAt(line, j)
    decreases |line| - i
  {
    if i < |line| && !CommentAt(line, i) {
      CutFrom(line, i + 1);
    }
  }

  /** The cut is at the first comment, or at the end of a line that has none. */
  lemma CutIsFirstComment(line: string)
    ensures var cut := CommentCut(line, 0, None);
            (cut == |line| || CommentAt(line, cut)) && forall j :: 0 <= j < cut ==> !CommentAt(line, j)
  {
    CutFrom(line, 0);
  }

  function Uncommented(line: string): string {
    line[..CommentCut(line, 0, None)]
  }

  method StripComment(line: string) returns (r: string)
    ensures r == Uncommented(line)
  {
    var quote: Option<char> := None;
    for i := 0 to |line|
      invariant CommentCut(line, 0, None) == CommentCut(line, i, quote)
    {
      var ch := line[i];
      if quote.Some? {
        if ch == quote.value { quote := None; }
      } else if ch in QUOTES {
        quote := Some(ch);
      } else if ch == '#' && (i == 0 || line[i - 1] in BLANKS) {
        return line[..i];
      }
    }
    return line;
  }

  /** What the parser reads of a line. */
  function Content(line: string): string {
    Strip(Uncommented(line))
  }

  predicate StartsWithChar(s: string, c: char) {
    s != [] && s[0] == c
  }

  predicate IsBlank(line: string) {
    Strip(line) == []
  }

  /** A blank line or a whole-line comment. */
  predicate Ignorable(line: string) {
    IsBlank(line) || StartsWithChar(Strip(line), '#')
  }

  /** Only whitespace, or whitespace and then a `#`. */
  lemma IgnorableExact(line: string)
    ensures Ignorable(line) <==>
            AllSpace(line) || exists i :: 0 <= i < |line| && line[i] == '#' && AllSpace(line[..i])
  {
    hide IsSpace, Strip;
    StripEmpty(line);
    if !AllSpace(line) {
      StripStart(line);
      var n := Leading(line);
      assert line[n] == '#' ==> AllSpace(line[..n]);
      forall i | 0 <= i < |line| && line[i] == '#' && AllSpace(line[..i])
        ensures i == n
      {
        HashShows();
        LeadingIs(line, i);
      }
    }
  }

  lemma LeadingIs(s: string, i: nat)
    requires i < |s| && !IsSpace(s[i]) && AllSpace(s[..i])
    ensures Leading(s) == i
  {
    hide IsSpace, Leading;
    var before := s[..i];
    assert forall j :: 0 <= j < i ==> s[j] == before[j];
  }

  lemma HashShows()
    ensures !IsSpace('#')
  {}

  lemma StripStart(s: string)
    requires !AllSpace(s)
    ensures Leading(s) < |s| && Strip(s) != [] && Strip(s)[0] == s[Leading(s)]
  {
    hide IsSpace, Leading, Kept;
    var t := s[Leading(s)..];
    assert Kept(t) > 0;
  }

  // ---------- keys ----------

  /** The index of the colon that separates a key from its value. */
  function KeyColon(s: string, i: nat, quote: Option<char>): (r: Option<nat>)
    requires i <= |s|
    ensures r.Some? ==> i <= r.value < |s| && s[r.value] == ':'
    decreases |s| - i
  {
    if i == |s| then None
    else if quote.Some? then KeyColon(s, i + 1, if s[i] == quote.value then None else quote)
    else if s[i] in QUOTES then KeyColon(s, i + 1, Some(s[i]))
    else if s[i] == ':' && (i + 1 == |s| || s[i + 1] in BLANKS) then Some(i)
    else KeyColon(s, i + 1, None)
  }

  /** A colon outside quotes that is last or before a blank. */
  predicate ColonAt(s: string, i: nat) {
    && i < |s| && s[i] == ':' && QuoteAt(s, i).None?
    && (i + 1 == |s| || s[i + 1] in BLANKS)
  }

  lemma {:induction false} ColonFrom(s: string, i: nat)
    requires i <= |s|
    ensures match KeyColon(s, i, QuoteAt(s, i))
            case Some(c) => ColonAt(s, c) && forall j :: i <= j < c ==> !ColonAt(s, j)
            case None => forall j :: i <= j < |s| ==> !ColonAt(s, j)
    decreases |s| - i
  {
    if i < |s| && !ColonAt(s, i) {
      ColonFrom(s, i + 1);
    }
  }

  /** A key ends at the first separating colon; without one there is no key. */
  lemma KeyEndsAtFirstColon(s: string)
    ensures match KeyColon(s, 0, None)
            case Some(c) => ColonAt(s, c) && forall j :: 0 <= j < c ==> !ColonAt(s, j)
            case None => forall j :: 0 <= j < |s| ==> !ColonAt(s, j)
  {
    ColonFrom(s, 0);
  }

  function Unquoted(s: string): string {
    if |s| >= 2 && s[0] == s[|s| - 1] && s[0] in QUOTES then s[1..|s| - 1] else s
  }

  /** A text between two quotes of a kind loses them; any other is left as it is. */
  lemma UnquotedExact(s: string)
    ensures forall q, t :: q in QUOTES && s == [q] + (t + [q]) ==> Unquoted(s) == t
    ensures (forall q, t :: q in QUOTES ==> s != [q] + (t + [q])) ==> Unquoted(s) == s
  {
    forall q, t | q in QUOTES && s == [q] + (t + [q])
      ensures Unquoted(s) == t
    {
      assert s[0] == q && s[|s| - 1] == q && s[1..|s| - 1] == t;
    }
    if Unquoted(s) != s {
      assert s == [s[0]] + (s[1..|s| - 1] + [s[0]]);
    }
  }

  datatype KeySplit = NoKey | Keyed(key: string, rest: string)

  function SplitAtKey(content: string): KeySplit {
    match KeyColon(content, 0, None)
    case None => NoKey
    case Some(i) => Keyed(Unquoted(Strip(content[..i])), content[i + 1..])
  }

  lemma NoColonIsNoKey(text: string)
    requires forall j :: 0 <= j < |text| ==> !ColonAt(text, j)
    ensures SplitAtKey(text) == NoKey
  {
    hide ColonAt, KeyColon;
    KeyEndsAtFirstColon(text);
  }

  method SplitKey(content: string) returns (r: KeySplit)
    ensures r == SplitAtKey(content)
  {
    var quote: Option<char> := None;
    for i := 0 to |content|
      invariant KeyColon(content, 0, None) == KeyColon(content, i, quote)
    {
      var ch := content[i];
      if quote.Some? {
        if ch == quote.value { quote := None; }
      } else if ch in QUOTES {
        quote := Some(ch);
      } else if ch == ':' {
        var rest := content[i + 1..];
        if rest == [] || rest[0] in BLANKS {
          return Keyed(Unquoted(Strip(content[..i])), rest);
        }
      }
    }
    return NoKey;
  }

  // ---------- scalars ----------

  /** The parsed form of a workflow; a dictionary keeps insertion order, as Python's does. */
  datatype Value =
    | Null
    | Scalar(text: string)
    | List(items: seq<Value>)
    | Dict(entries: seq<(string, Value)>)

  /** `s.split(",")`. */
  function SplitCommas(s: string): (parts: seq<string>)
    ensures |parts| > 0
    ensures forall p :: p in parts ==> |p| <= |s|
  {
    var i := Seek(s, ',', 0);
    if i == |s| then [s] else [s[..i]] + SplitCommas(s[i + 1..])
  }

  function Commas(s: string): nat {
    if s == [] then 0 else Commas(s[..|s| - 1]) + if s[|s| - 1] == ',' then 1 else 0
  }

  lemma {:induction false} CommasJoin(a: string, b: string)
    ensures Commas(a + b) == Commas(a) + Commas(b)
  {
    if b == [] {
      assert a + b == a;
    } else {
      var init := b[..|b| - 1];
      assert (a + b)[..|a + b| - 1] == a + init;
      CommasJoin(a, init);
    }
  }

  lemma {:induction false} CommaFree(s: string)
    ensures Commas(s) == 0 <==> ',' !in s
  {
    if s != [] {
      CommaFree(s[..|s| - 1]);
      assert s == s[..|s| - 1] + [s[|s| - 1]];
    }
  }

  lemma CommasAround(a: string, b: string)
    ensures Commas(a + ([','] + b)) == Commas(a) + 1 + Commas(b)
  {
    CommasJoin(a, [','] + b);
    CommasJoin([','], b);
    assert [','][..0] == [];
  }

  /** One part more than there are commas. */
  lemma {:induction false} SplitCount(s: string)
    ensures |SplitCommas(s)| == Commas(s) + 1
  {
    hide Commas;
    var i := Seek(s, ',', 0);
    var a := s[..i];
    assert ',' !in a;
    CommaFree(a);
    if i == |s| {
      assert a == s;
    } else {
      var b := s[i + 1..];
      SplitCount(b);
      CommasAround(a, b);
      assert s == a + ([','] + b);
    }
  }

  /** A part without commas, and the parts after its comma. */
  lemma SplitAtComma(first: string, rest: string)
    requires ',' !in first
    ensures SplitCommas(first) == [first]
    ensures SplitCommas(first + ([','] + rest)) == [first] + SplitCommas(rest)
  {
    var s := first + ([','] + rest);
    assert forall j :: 0 <= j < |first| ==> s[j] == first[j] && first[j] in first;
    assert s[|first|] == ',';
    assert Seek(s, ',', 0) == |first| && Seek(first, ',', 0) == |first|;
    assert s[..|first|] == first && s[|first| + 1..] == rest;
  }

  predicate IsFlow(s: string) {
    s != [] && s[0] == '[' && s[|s| - 1] == ']'
  }

  lemma FlowBrackets(s: string)
    ensures IsFlow(s) <==> exists inner :: s == ['['] + (inner + [']'])
  {
    if IsFlow(s) {
      assert s == ['['] + (s[1..|s| - 1] + [']']);
    }
  }

  /** `_parse_scalar`: a flow sequence, a quoted scalar or a plain one. */
  function ParseScalar(raw: string): Value
    decreases |raw|, 1
  {
    StripShortens(raw);
    var text := Strip(raw);
    if IsFlow(text) then
      var inner := Strip(text[1..|text| - 1]);
      if inner == [] then List([])
      else
        StripShortens(text[1..|text| - 1]);
        List(ParseScalars(SplitCommas(inner), |raw|))
    else Scalar(Unquoted(text))
  }

  /** What stands between the brackets is stripped, split at its commas, and read part by part. */
  lemma FlowParses(raw: string)
    requires Strip(raw) == raw && IsFlow(raw)
    ensures var inner := Strip(raw[1..|raw| - 1]);
            && (inner != [] ==> forall p :: p in SplitCommas(inner) ==> |p| < |raw|)
            && ParseScalar(raw) == List(if inner == [] then [] else ParseScalars(SplitCommas(inner), |raw|))
  {
    hide Strip, SplitCommas, ParseScalars, Unquoted;
    var inner := Strip(raw[1..|raw| - 1]);
    StripShortens(raw[1..|raw| - 1]);
    PartsShorter(inner, |raw|);
  }

  lemma PartsShorter(s: string, bound: nat)
    requires |s| < bound
    ensures forall p :: p in SplitCommas(s) ==> |p| < bound
  {
    hide SplitCommas;
  }

  lemma {:induction false} ScalarsCount(parts: seq<string>, bound: nat)
    requires forall p :: p in parts ==> |p| < bound
    ensures |ParseScalars(parts, bound)| == |parts|
    decreases parts
  {
    if parts != [] {
      assert forall p :: p in parts[1..] ==> p in parts;
      ScalarsCount(parts[1..], bound);
    }
  }

  function ParseScalars(parts: seq<string>, ghost bound: nat): seq<Value>
    requires forall p :: p in parts ==> |p| < bound
    decreases bound, 0, |parts|
  {
    if parts == [] then []
    else
      assert parts[0] in parts;
      [ParseScalar(parts[0])] + ParseScalars(parts[1..], bound)
  }
}
