/**
 The indentation parser of `scripts/check_desktop_gate_wiring.py`: a cursor over a list of
 lines, one of which `_parse_sequence` overwrites in place and re-reads. The functions state
 what each routine computes from the lines and the cursor; class `Workflow` is the parser.
 */
module WorkflowParser {
  import opened Text
  import opened WorkflowLexis

  datatype State = State(lines: seq<string>, pos: nat) {
    predicate Valid() {
      pos <= |lines|
    }

    /** The cursor stays in range and never moves back, and no line comes or goes. */
    ghost predicate LeadsTo(next: State) {
      && |next.lines| == |lines|
      && pos <= next.pos <= |lines|
      && Untouched(next)
    }

    /** Lines behind the old cursor and beyond the new one keep their text. */
    ghost predicate Untouched(next: State)
      requires |next.lines| == |lines|
    {
      forall i :: 0 <= i < |lines| && (i < pos || next.pos < i) ==> next.lines[i] == lines[i]
    }
  }

  datatype Parsed<+T> = Parsed(value: T, st: State)

  // ---------- what the routines compute ----------

  /** The first line at or after `pos` that carries content. */
  function SkipFrom(lines: seq<string>, pos: nat): (p: nat)
    requires pos <= |lines|
    ensures pos <= p <= |lines|
    ensures p < |lines| ==> !Ignorable(lines[p])
    ensures forall j :: pos <= j < p ==> Ignorable(lines[j])
    decreases |lines| - pos
  {
    if pos < |lines| && Ignorable(lines[pos]) then SkipFrom(lines, pos + 1) else pos
  }

  /** `result[key] = value` on a Python dictionary. */
  function Put(d: seq<(string, Value)>, key: string, value: Value): seq<(string, Value)> {
    if d == [] then [(key, value)]
    else if d[0].0 == key then [(key, value)] + d[1..]
    else [d[0]] + Put(d[1..], key, value)
  }

  /** A new key goes to the end. */
  lemma {:induction false} PutNew(d: seq<(string, Value)>, key: string, value: Value)
    requires forall i :: 0 <= i < |d| ==> d[i].0 != key
    ensures Put(d, key, value) == d + [(key, value)]
  {
    if d != [] {
      PutNew(d[1..], key, value);
      assert d == [d[0]] + d[1..];
    }
  }

  /** A key that is there already keeps its place and takes the new value. */
  lemma {:induction false} PutOld(before: seq<(string, Value)>, key: string, was: Value,
                                  after: seq<(string, Value)>, value: Value)
    requires forall i :: 0 <= i < |before| ==> before[i].0 != key
    ensures Put(before + ([(key, was)] + after), key, value) == before + ([(key, value)] + after)
  {
    var d := before + ([(key, was)] + after);
    if before != [] {
      PutOld(before[1..], key, was, after, value);
      assert d[1..] == before[1..] + ([(key, was)] + after);
      assert before == [before[0]] + before[1..];
    } else {
      assert d == [(key, was)] + after && d[1..] == after;
    }
  }

  function JoinLines(body: seq<string>): string {
    if body == [] then []
    else if |body| == 1 then body[0]
    else body[0] + "\n" + JoinLines(body[1..])
  }

  /** Lines are joined by line feeds, and by nothing else. */
  lemma {:induction false} JoinLinesJoin(a: seq<string>, b: seq<string>)
    ensures JoinLines([]) == [] && (|a| == 1 ==> JoinLines(a) == a[0])
    ensures a != [] && b != [] ==> JoinLines(a + b) == JoinLines(a) + ("\n" + JoinLines(b))
  {
    if a != [] && b != [] {
      assert (a + b)[1..] == a[1..] + b;
      if |a| > 1 {
        JoinLinesJoin(a[1..], b);
      } else {
        assert a[1..] + b == b;
      }
    }
  }

  /** Drop the blank lines at the end of a block scalar. */
  function DropBlankTail(body: seq<string>): seq<string> {
    if body != [] && IsBlank(body[|body| - 1]) then DropBlankTail(body[..|body| - 1]) else body
  }

  /** What is dropped is blank, and what is left ends in a line that is not. */
  lemma {:induction false} DropExact(body: seq<string>)
    ensures var kept := DropBlankTail(body);
            && kept <= body && (kept != [] ==> !IsBlank(kept[|kept| - 1]))
            && forall i :: |kept| <= i < |body| ==> IsBlank(body[i])
  {
    hide IsBlank;
    if body != [] && IsBlank(body[|body| - 1]) {
      DropExact(body[..|body| - 1]);
    }
  }

  /** A line without the margin's columns, blank or not. */
  function BodyLine(line: string, margin: nat): string {
    if margin <= |line| then line[margin..] else []
  }

  /** The margin is cut off every line, whatever stands in it. */
  lemma BodyLineExact(margin: string, rest: string)
    ensures BodyLine(margin + rest, |margin|) == rest
    ensures forall m :: m > |rest| ==> BodyLine(rest, m) == []
  {}

  /** The lines of a block scalar, and the position after them. */
  function BlockLines(lines: seq<string>, pos: nat, parent: nat, margin: Option<nat>, body: seq<string>)
    : (r: (seq<string>, nat))
    requires pos <= |lines|
    ensures pos <= r.1 <= |lines|
    decreases |lines| - pos
  {
    if pos == |lines| then (body, pos)
    else if IsBlank(lines[pos]) then BlockLines(lines, pos + 1, parent, margin, body + [[]])
    else if Indent(lines[pos]) <= parent then (body, pos)
    else
      var m := if margin.Some? then margin.value else Indent(lines[pos]);
      BlockLines(lines, pos + 1, parent, Some(m), body + [BodyLine(lines[pos], m)])
  }

  function BlockScalar(st: State, parent: nat): (r: Parsed<string>)
    requires st.Valid()
    ensures st.LeadsTo(r.st) && r.st.lines == st.lines
  {
    var (body, pos) := BlockLines(st.lines, st.pos, parent, None, []);
    Parsed(JoinLines(DropBlankTail(body)), st.(pos := pos))
  }

  /** A line whose content starts with a dash has a dash at or after its indentation. */
  lemma DashPosition(line: string)
    requires StartsWithChar(Content(line), '-')
    ensures Indent(line) <= Seek(line, '-', 0) < |line|
  {
    hide IsSpace, TrimLeft, TrimRight, CommentCut, Indent, Seek, Strip;
    var bare := Uncommented(line);
    StripShape(bare);
    var a, b :| 0 <= a <= b <= |bare| && Strip(bare) == bare[a..b];
    assert bare[a..b][0] == bare[a] == line[a];
  }

  /** The text of a sequence item, and the line that replaces it when it opens a mapping. */
  function ItemText(line: string): string
    requires StartsWithChar(Content(line), '-')
  {
    Strip(Content(line)[1..])
  }

  function ItemColumn(line: string): (c: nat)
    requires StartsWithChar(Content(line), '-')
    ensures c > Indent(line)
  {
    DashPosition(line);
    var dash := Seek(line, '-', 0);
    dash + 1 + Indent(line[dash + 1..])
  }

  function Undashed(line: string): string
    requires StartsWithChar(Content(line), '-')
  {
    Spaces(ItemColumn(line)) + ItemText(line)
  }

  lemma ItemParts(line: string)
    requires StartsWithChar(Content(line), '-')
    ensures var dash := Seek(line, '-', 0);
            && dash < |line| && ItemColumn(line) == dash + 1 + Indent(line[dash + 1..])
            && Undashed(line) == Spaces(ItemColumn(line)) + ItemText(line)
  {
    hide IsSpace, Strip, Content, Uncommented, Indent, Seek, Spaces, ItemText, TrimLeft, TrimRight, CommentCut;
    DashPosition(line);
  }

  predicate OpensMapping(line: string)
    requires StartsWithChar(Content(line), '-')
  {
    SplitAtKey(ItemText(line)).Keyed? && ItemText(line)[0] !in QUOTES
  }

  lemma UndashedIndent(line: string)
    requires StartsWithChar(Content(line), '-') && OpensMapping(line)
    ensures Indent(Undashed(line)) == ItemColumn(line) > Indent(line)
  {
    StripShape(Content(line)[1..]);
    IndentPadded(ItemColumn(line), ItemText(line));
  }

  /** `_parse_mapping`, with the entries read so far. */
  function Mapping(st: State, indent: nat, acc: seq<(string, Value)>): (r: Parsed<seq<(string, Value)>>)
    requires st.Valid()
    ensures st.LeadsTo(r.st)
    ensures r.st.pos == st.pos ==> r.st == st
    decreases |st.lines| - st.pos, 0
  {
    var p := SkipFrom(st.lines, st.pos);
    var here := st.(pos := p);
    if p == |st.lines| || Indent(st.lines[p]) != indent then Parsed(acc, here)
    else
      var content := Content(st.lines[p]);
      if StartsWithChar(content, '-') then Parsed(acc, here)
      else
        var next := st.(pos := p + 1);
        match SplitAtKey(content)
        case NoKey => Mapping(next, indent, acc)
        case Keyed(key, raw) =>
          var v := EntryValue(next, indent, Strip(raw));
          Mapping(v.st, indent, Put(acc, key, v.value))
  }

  /** The value of a mapping entry: `rest` is what its own line holds of it. */
  function EntryValue(st: State, indent: nat, rest: string): (r: Parsed<Value>)
    requires st.Valid()
    ensures st.LeadsTo(r.st)
    decreases |st.lines| - st.pos, 4
  {
    if rest == [] then Nested(st, indent)
    else if rest[0] in {'|', '>'} then
      var b := BlockScalar(st, indent);
      Parsed(Scalar(b.value), b.st)
    else Parsed(ParseScalar(rest), st)
  }

  /** Whether `_parse_sequence` would still read the line under the cursor. */
  ghost function Pending(st: State, indent: nat): nat {
    if st.pos < |st.lines| && Indent(st.lines[st.pos]) == indent then 1 else 0
  }

  /** `_parse_sequence`, with the items read so far. */
  function Sequence(st: State, indent: nat, acc: seq<Value>): (r: Parsed<seq<Value>>)
    requires st.Valid()
    ensures st.LeadsTo(r.st)
    decreases |st.lines| - st.pos, 1, Pending(st, indent)
  {
    hide IsSpace, Strip, Uncommented, SplitAtKey, ParseScalar, Undashed, Ignorable, Spaces;
    var p := SkipFrom(st.lines, st.pos);
    var here := st.(pos := p);
    if p == |st.lines| || Indent(st.lines[p]) != indent || !StartsWithChar(Content(st.lines[p]), '-')
    then Parsed(acc, here)
    else
      var line := st.lines[p];
      var rest := ItemText(line);
      var next := st.(pos := p + 1);
      if rest == [] then
        var v := Nested(next, indent);
        Sequence(v.st, indent, acc + [v.value])
      else if OpensMapping(line) then
        UndashedIndent(line);
        var m := Mapping(here.(lines := here.lines[p := Undashed(line)]), ItemColumn(line), []);
        Sequence(m.st, indent, acc + [Dict(m.value)])
      else
        Sequence(next, indent, acc + [ParseScalar(rest)])
  }

  predicate AtItem(st: State, indent: nat) {
    && st.pos < |st.lines| && !Ignorable(st.lines[st.pos])
    && Indent(st.lines[st.pos]) == indent && StartsWithChar(Content(st.lines[st.pos]), '-')
  }

  /** `_parse_sequence` reads on from the next line with content, and stops unless it is an item. */
  lemma SequenceResume(st: State, indent: nat, acc: seq<Value>)
    requires st.Valid()
    ensures var here := st.(pos := SkipFrom(st.lines, st.pos));
            && Sequence(st, indent, acc) == Sequence(here, indent, acc)
            && (!AtItem(here, indent) ==> Sequence(st, indent, acc) == Parsed(acc, here))
  {
    hide Strip, Uncommented, SplitAtKey, ParseScalar, Indent, Mapping, Nested, Undashed, ItemText;
    var p := SkipFrom(st.lines, st.pos);
    assert SkipFrom(st.lines, p) == p;
  }

  /** One turn of the loop of `_parse_sequence`. */
  lemma SequenceTurn(st: State, indent: nat, acc: seq<Value>)
    requires AtItem(st, indent)
    ensures var line := st.lines[st.pos];
            var rest := ItemText(line);
            var next := st.(pos := st.pos + 1);
            Sequence(st, indent, acc) ==
              if rest == [] then
                var v := Nested(next, indent); Sequence(v.st, indent, acc + [v.value])
              else if OpensMapping(line) then
                var m := Mapping(st.(lines := st.lines[st.pos := Undashed(line)]), ItemColumn(line), []);
                Sequence(m.st, indent, acc + [Dict(m.value)])
              else Sequence(next, indent, acc + [ParseScalar(rest)])
  {
    hide Strip, Uncommented, SplitAtKey, ParseScalar, Indent, Mapping, Nested, Undashed, ItemText;
    assert SkipFrom(st.lines, st.pos) == st.pos;
  }

  /** Re-reading the rewritten line makes progress: either the nested mapping consumes it, or
      its indentation has grown past the sequence's and the loop stops there. */
  lemma RewriteProgress(st: State, indent: nat, acc: seq<Value>)
    requires AtItem(st, indent) && OpensMapping(st.lines[st.pos])
    ensures var line := st.lines[st.pos];
            var rewritten := st.(lines := st.lines[st.pos := Undashed(line)]);
            var m := Mapping(rewritten, ItemColumn(line), []);
            m.st.pos > st.pos || (m.st == rewritten && Sequence(m.st, indent, acc) == Parsed(acc, m.st))
  {
    hide Strip, Uncommented, SplitAtKey, ParseScalar, Indent, Nested;
    var line := st.lines[st.pos];
    UndashedIndent(line);
    var rewritten := st.(lines := st.lines[st.pos := Undashed(line)]);
    if Mapping(rewritten, ItemColumn(line), []).st.pos == st.pos {
      assert SkipFrom(rewritten.lines, st.pos) == st.pos;
      SequenceResume(rewritten, indent, acc);
    }
  }

  /** In a mapping, a line without a separating colon is passed over. */
  lemma MappingPassesOver(st: State, indent: nat, acc: seq<(string, Value)>)
    requires st.Valid() && SkipFrom(st.lines, st.pos) < |st.lines|
    requires var line := st.lines[SkipFrom(st.lines, st.pos)];
             && Indent(line) == indent && !StartsWithChar(Content(line), '-')
             && forall j :: 0 <= j < |Content(line)| ==> !ColonAt(Content(line), j)
    ensures Mapping(st, indent, acc) == Mapping(st.(pos := SkipFrom(st.lines, st.pos) + 1), indent, acc)
  {
    hide Content, Indent, ColonAt, Ignorable, SplitAtKey, EntryValue, Put, State.LeadsTo, SkipFrom;
    NoColonIsNoKey(Content(st.lines[SkipFrom(st.lines, st.pos)]));
  }

  /** `_parse_node`. */
  function Node(st: State, indent: nat): (r: Parsed<Value>)
    requires st.Valid()
    ensures st.LeadsTo(r.st)
    decreases |st.lines| - st.pos, 2
  {
    var p := SkipFrom(st.lines, st.pos);
    var here := st.(pos := p);
    if p == |st.lines| then Parsed(Null, here)
    else if StartsWithChar(Content(st.lines[p]), '-') then
      var s := Sequence(here, indent, []);
      Parsed(List(s.value), s.st)
    else
      var m := Mapping(here, indent, []);
      Parsed(Dict(m.value), m.st)
  }

  /** `_parse_nested`. */
  function Nested(st: State, parent: nat): (r: Parsed<Value>)
    requires st.Valid()
    ensures st.LeadsTo(r.st)
    decreases |st.lines| - st.pos, 3
  {
    var p := SkipFrom(st.lines, st.pos);
    if p == |st.lines| then Parsed(Null, st)
    else
      var here := st.(pos := p);
      var indent := Indent(st.lines[p]);
      if indent == parent && StartsWithChar(Content(st.lines[p]), '-') then
        var s := Sequence(here, indent, []);
        Parsed(List(s.value), s.st)
      else if indent <= parent then Parsed(Null, st)
      else Node(here, indent)
  }

  /** `parse`: the document, or the empty dictionary when it is not a mapping. */
  function Document(lines: seq<string>): Value {
    var p := SkipFrom(lines, 0);
    if p == |lines| then Dict([])
    else
      var v := Node(State(lines, p), Indent(lines[p])).value;
      if v.Dict? then v else Dict([])
  }

  /** A text without content, or one that starts with an item, is the empty document. */
  lemma DocumentOfNothing(lines: seq<string>)
    requires var p := SkipFrom(lines, 0); p < |lines| ==> StartsWithChar(Content(lines[p]), '-')
    ensures Document(lines) == Dict([])
  {
    hide Content, Ignorable, Sequence, Mapping;
    var p := SkipFrom(lines, 0);
    assert SkipFrom(lines, p) == p;
  }

  // ---------- lines of a text ----------

  /** The characters at which Python's `str.splitlines` breaks a line. */
  predicate IsBreak(c: char) {
    var n := c as int;
    0x0A <= n <= 0x0D || 0x1C <= n <= 0x1E || n == 0x85 || n == 0x2028 || n == 0x2029
  }

  function LineLength(text: string): (n: nat)
    ensures n <= |text|
    ensures n < |text| ==> IsBreak(text[n])
    ensures forall i :: 0 <= i < n ==> !IsBreak(text[i])
  {
    if text == [] || IsBreak(text[0]) then 0 else 1 + LineLength(text[1..])
  }

  /** `text.splitlines()`: a carriage return and line feed together are one break. */
  function SplitLines(text: string): seq<string> {
    var n := LineLength(text);
    if text == [] then []
    else if n == |text| then [text]
    else
      var skip := if text[n] == '\r' && n + 1 < |text| && text[n + 1] == '\n' then 2 else 1;
      [text[..n]] + SplitLines(text[n + skip..])
  }

  // ---------- the parser ----------

  class Workflow {
    var lines: seq<string>
    var pos: nat

    function Cursor(): State
      reads this
    {
      State(lines, pos)
    }

    ghost predicate Valid()
      reads this
    {
      Cursor().Valid()
    }

    constructor (text: string)
      ensures Cursor() == State(SplitLines(text), 0) && Valid()
    {
      lines, pos := SplitLines(text), 0;
    }

    method SkipIgnorable()
      requires Valid()
      modifies this`pos
      ensures Valid() && pos == SkipFrom(lines, old(pos))
    {
      while pos < |lines|
        invariant old(pos) <= pos <= |lines|
        invariant SkipFrom(lines, pos) == SkipFrom(lines, old(pos))
      {
        var stripped := Strip(lines[pos]);
        if stripped == [] || stripped[0] == '#' {
          pos := pos + 1;
          continue;
        }
        return;
      }
    }

    method Parse() returns (value: Value)
      requires Valid() && pos == 0
      modifies this
      ensures Valid() && |lines| == |old(lines)|
      ensures value == Document(old(lines))
    {
      SkipIgnorable();
      if pos >= |lines| {
        return Dict([]);
      }
      value := ParseNode(Indent(lines[pos]));
      if !value.Dict? {
        value := Dict([]);
      }
    }

    method ParseNode(indent: nat) returns (value: Value)
      requires Valid()
      modifies this
      ensures Valid()
      ensures Parsed(value, Cursor()) == Node(old(Cursor()), indent)
      decreases |lines| - pos, 2
    {
      SkipIgnorable();
      if pos >= |lines| {
        return Null;
      }
      var bare := StripComment(lines[pos]);
      if StartsWithChar(Strip(bare), '-') {
        var items := ParseSequence(indent);
        return List(items);
      }
      var entries := ParseMapping(indent);
      return Dict(entries);
    }

    method ParseMapping(indent: nat) returns (result: seq<(string, Value)>)
      requires Valid()
      modifies this
      ensures Valid()
      ensures Parsed(result, Cursor()) == Mapping(old(Cursor()), indent, [])
      decreases |lines| - pos, 0
    {
      hide State.Untouched, IsSpace, Strip, Uncommented, SplitAtKey, ParseScalar, Nested, BlockScalar, Indent, Put;
      result := [];
      while true
        invariant Valid() && old(pos) <= pos && |lines| == |old(lines)|
        invariant Mapping(Cursor(), indent, result) == Mapping(old(Cursor()), indent, [])
        decreases |lines| - pos
      {
        SkipIgnorable();
        if pos >= |lines| { break; }
        var line := lines[pos];
        if Indent(line) != indent { break; }
        var bare := StripComment(line);
        var content := Strip(bare);
        if StartsWithChar(content, '-') { break; }
        var split := SplitKey(content);
        pos := pos + 1;
        if split.NoKey? {
          // Not a mapping entry: skipped rather than misread.
          continue;
        }
        var rest := Strip(split.rest);
        var value;
        if rest != [] && rest[0] in {'|', '>'} {
          var text := ParseBlockScalar(indent);
          value := Scalar(text);
        } else if rest != [] {
          value := ParseScalar(rest);
        } else {
          value := ParseNested(indent);
        }
        result := Put(result, split.key, value);
      }
    }

    method ParseSequence(indent: nat) returns (items: seq<Value>)
      requires Valid()
      modifies this
      ensures Valid()
      ensures Parsed(items, Cursor()) == Sequence(old(Cursor()), indent, [])
      decreases |lines| - pos, 1
    {
      hide State.Untouched, IsSpace, Strip, Uncommented, SplitAtKey, ParseScalar, Mapping, Sequence, Nested, Seek,
           Indent, Spaces, SkipFrom, Ignorable, Undashed, ItemColumn;
      items := [];
      while true
        invariant Valid() && old(pos) <= pos && |lines| == |old(lines)|
        invariant Sequence(Cursor(), indent, items) == Sequence(old(Cursor()), indent, [])
        decreases |lines| - pos, Pending(Cursor(), indent)
      {
        SequenceResume(Cursor(), indent, items);
        SkipIgnorable();
        if pos >= |lines| { break; }
        var line := lines[pos];
        if Indent(line) != indent { break; }
        var bare := StripComment(line);
        var content := Strip(bare);
        if !StartsWithChar(content, '-') { break; }
        DashPosition(line);
        ghost var here := Cursor();
        SequenceTurn(here, indent, items);
        assert content == Content(line);
        var dash := Seek(line, '-', 0);
        var after := line[dash + 1..];
        var spaces := Indent(after);
        var rest := Strip(content[1..]);
        if rest == [] {
          pos := pos + 1;
          var value := ParseNested(indent);
          items := items + [value];
          continue;
        }
        var column := dash + 1 + spaces;
        var split := SplitKey(rest);
        if split.Keyed? && rest[0] !in QUOTES {
          // `- name: something` opens a mapping at the column its content starts in: the
          // dash becomes spaces and the same line is read again, as an entry.
          UndashedIndent(line);
          lines := lines[pos := Spaces(column) + rest];
          assert column == ItemColumn(line) && Spaces(column) + rest == Undashed(line) by {
            ItemParts(line);
          }
          assert Cursor() == here.(lines := here.lines[here.pos := Undashed(line)]);
          var entries := ParseMapping(column);
          items := items + [Dict(entries)];
          continue;
        }
        pos := pos + 1;
        items := items + [ParseScalar(rest)];
      }
    }

    method ParseNested(parent: nat) returns (value: Value)
      requires Valid()
      modifies this
      ensures Valid()
      ensures Parsed(value, Cursor()) == Nested(old(Cursor()), parent)
      decreases |lines| - pos, 3
    {
      var saved := pos;
      SkipIgnorable();
      if pos >= |lines| {
        pos := saved;
        return Null;
      }
      var indent := Indent(lines[pos]);
      var bare := StripComment(lines[pos]);
      if indent == parent && StartsWithChar(Strip(bare), '-') {
        var items := ParseSequence(indent);
        return List(items);
      }
      if indent <= parent {
        pos := saved;
        return Null;
      }
      value := ParseNode(indent);
    }

    method ParseBlockScalar(parent: nat) returns (text: string)
      requires Valid()
      modifies this`pos
      ensures Valid()
      ensures Parsed(text, Cursor()) == BlockScalar(old(Cursor()), parent)
    {
      hide IsSpace, Strip, Indent, BodyLine, JoinLines;
      var body: seq<string> := [];
      var margin: Option<nat> := None;
      while pos < |lines|
        invariant old(pos) <= pos <= |lines|
        invariant BlockLines(lines, pos, parent, margin, body) == BlockLines(lines, old(pos), parent, None, [])
      {
        var line := lines[pos];
        if Strip(line) == [] {
          body := body + [[]];
          pos := pos + 1;
          continue;
        }
        if Indent(line) <= parent { break; }
        if margin.None? {
          margin := Some(Indent(line));
        }
        body := body + [BodyLine(line, margin.value)];
        pos := pos + 1;
      }
      ghost var whole := body;
      while body != [] && Strip(body[|body| - 1]) == []
        invariant DropBlankTail(body) == DropBlankTail(whole)
      {
        body := body[..|body| - 1];
      }
      text := JoinLines(body);
    }
  }
}
