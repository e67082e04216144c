/**
 Printing then parsing: what the parser reads from every printed layout, and exactly when
 that is the tree that was printed.
 */
module WorkflowRoundTrip {
  import opened Text
  import opened WorkflowLexis
  import opened WorkflowPlain
  import opened WorkflowFlow
  import opened WorkflowLayout
  import P = WorkflowParser

  // ---------- chunks of lines ----------

  /** `st` has read everything before line `e`, and at most noise after it. */
  ghost predicate Reached(lines: seq<string>, e: nat, st: P.State)
    requires e <= |lines|
  {
    && |st.lines| == |lines| && st.Valid() && st.lines[e..] == lines[e..]
    && P.SkipFrom(st.lines, st.pos) == P.SkipFrom(st.lines, e)
  }

  /** The next line with content is deeper than any the parser is looking for. */
  ghost predicate Stuck(st: P.State, n: nat) {
    && st.Valid()
    && var p := P.SkipFrom(st.lines, st.pos);
       p < |st.lines| && Indent(st.lines[p]) > n
  }

  /** Everything before line `e` has been read, unless the parser `stops` short of it. */
  ghost predicate Ends(lines: seq<string>, e: nat, n: nat, stops: bool, st: P.State)
    requires e <= |lines|
  {
    if stops then Stuck(st, n) else Reached(lines, e, st)
  }

  lemma {:induction false} SkipSuffix(a: seq<string>, b: seq<string>, e: nat)
    requires |a| == |b| && e <= |a| && a[e..] == b[e..]
    ensures P.SkipFrom(a, e) == P.SkipFrom(b, e)
    ensures P.SkipFrom(a, e) < |a| ==> a[P.SkipFrom(a, e)] == b[P.SkipFrom(a, e)]
    decreases |a| - e
  {
    if e < |a| {
      assert a[e] == a[e..][0] == b[e];
      assert a[e + 1..] == a[e..][1..] && b[e + 1..] == b[e..][1..];
      SkipSuffix(a, b, e + 1);
    }
  }

  lemma OccursInSuffix(a: seq<string>, b: seq<string>, e: nat, k: nat, chunk: seq<string>)
    requires |a| == |b| && e <= k && e <= |a| && a[e..] == b[e..] && OccursAt(a, k, chunk)
    ensures OccursAt(b, k, chunk)
  {
    forall i | k <= i < k + |chunk|
      ensures a[i] == b[i]
    {
      assert a[i] == a[e..][i - e] && b[i] == b[e..][i - e];
    }
  }

  lemma {:induction false} SkipNoise(lines: seq<string>, k: nat, noise: seq<string>)
    requires OccursAt(lines, k, noise) && forall line :: line in noise ==> Ignorable(line)
    ensures P.SkipFrom(lines, k) == P.SkipFrom(lines, k + |noise|)
    decreases |noise|
  {
    if noise != [] {
      OccursFirst(lines, k, noise);
      assert noise[0] in noise;
      SkipNoise(lines, k + 1, noise[1..]);
    }
  }

  // ---------- what may follow ----------

  /** After noise: the end, a shallower line, or one at `n` that is not an item. */
  ghost predicate EndsAt(lines: seq<string>, e: nat, n: nat)
    requires e <= |lines|
  {
    var p := P.SkipFrom(lines, e);
    p == |lines| || Indent(lines[p]) < n || (Indent(lines[p]) == n && !StartsWithChar(Content(lines[p]), '-'))
  }

  /** After noise: the end, or a line shallower than `n`. */
  ghost predicate EndsBefore(lines: seq<string>, e: nat, n: nat)
    requires e <= |lines|
  {
    var p := P.SkipFrom(lines, e);
    p == |lines| || Indent(lines[p]) < n
  }

  ghost predicate Closes(lines: seq<string>, e: nat, open: Option<nat>)
    requires e <= |lines|
  {
    open.Some? ==> Shallow(lines[e..], open.value)
  }

  lemma {:induction false} ShallowThrough(noise: seq<string>, rest: seq<string>, limit: nat)
    requires Shallow(noise, limit) && Shallow(rest, limit)
    ensures Shallow(noise + rest, limit)
  {
    if noise == [] {
      assert noise + rest == rest;
    } else {
      assert (noise + rest)[1..] == noise[1..] + rest;
      if IsBlank(noise[0]) {
        ShallowThrough(noise[1..], rest, limit);
      }
    }
  }

  /** Noise and then a line at indentation `n` close whatever block was open before. */
  lemma NoiseCloses(lines: seq<string>, k: nat, noise: seq<string>, n: nat, open: Option<nat>)
    requires OccursAt(lines, k, noise) && NoiseOk(noise, open) && k + |noise| < |lines|
    requires var line := lines[k + |noise|]; !Ignorable(line) && Indent(line) == n
    requires open.Some? ==> open.value >= n
    ensures P.SkipFrom(lines, k) == k + |noise|
    ensures Closes(lines, k, open)
  {
    hide Strip, Indent;
    SkipNoise(lines, k, noise);
    if open.Some? {
      var rest := lines[k + |noise|..];
      assert Shallow(rest, open.value);
      ShallowThrough(noise, rest, open.value);
      assert lines[k..] == noise + rest;
    }
  }

  /** An open block's key is at least as deep as the entries or items around it. */
  lemma {:induction false} OpenDeep(value: Layout, n: nat)
    ensures Open(value, n).Some? ==> Open(value, n).value >= n
    ensures OpenItem(value, n).Some? ==> OpenItem(value, n).value >= n
    decreases value
  {
    match value
    case Map(step, entries) => OpenEntriesDeep(entries, n + 1 + step); OpenEntriesDeep(entries, n + 2 + step);
    case Seq(step, items) => OpenItemsDeep(items, n + step); OpenItemsDeep(items, n + 1 + step);
    case _ =>
  }

  lemma {:induction false} OpenEntriesDeep(entries: seq<Entry>, n: nat)
    ensures OpenEntries(entries, n).Some? ==> OpenEntries(entries, n).value >= n
    decreases entries
  {
    if |entries| == 1 {
      OpenDeep(entries[0].value, n);
    } else if |entries| > 1 {
      OpenEntriesDeep(entries[1..], n);
    }
  }

  lemma {:induction false} OpenItemsDeep(items: seq<Item>, n: nat)
    ensures OpenItems(items, n).Some? ==> OpenItems(items, n).value >= n
    decreases items
  {
    if |items| == 1 {
      OpenDeep(items[0].value, n);
    } else if |items| > 1 {
      OpenItemsDeep(items[1..], n);
    }
  }

  // ---------- block scalars ----------

  lemma PaddedBlank(n: nat, t: string)
    ensures IsBlank(Spaces(n) + t) == IsBlank(t) && Ignorable(Spaces(n) + t) == Ignorable(t)
  {
    hide IsSpace, Strip;
    SpaceIsSpace();
    PaddedStrip(Spaces(n), t);
  }

  lemma PaddedIndent(n: nat, t: string)
    ensures Indent(Spaces(n) + t) >= n
    ensures P.BodyLine(Spaces(n) + t, n) == t
  {
    var s := Spaces(n) + t;
    assert forall i :: 0 <= i < n ==> s[i] == ' ';
  }

  /** One turn of the loop of `_parse_block_scalar`. */
  lemma BlockTurn(lines: seq<string>, k: nat, parent: nat, margin: Option<nat>, acc: seq<string>)
    requires k < |lines|
    ensures IsBlank(lines[k]) ==>
              P.BlockLines(lines, k, parent, margin, acc) == P.BlockLines(lines, k + 1, parent, margin, acc + [[]])
    ensures !IsBlank(lines[k]) && Indent(lines[k]) > parent ==>
              var m := if margin.Some? then margin.value else Indent(lines[k]);
              P.BlockLines(lines, k, parent, margin, acc)
              == P.BlockLines(lines, k + 1, parent, Some(m), acc + [P.BodyLine(lines[k], m)])
  {
    hide IsBlank, Indent, P.BodyLine;
  }

  /** The first line of a printed body is read back. */
  lemma BodyTurn(lines: seq<string>, k: nat, parent: nat, m: nat, margin: Option<nat>, body: seq<BodyLine>,
                 acc: seq<string>)
    requires body != [] && OccursAt(lines, k, PrintBody(body, m)) && parent < m
    requires margin == None || margin == Some(m)
    requires BodyOk(body, margin.None?)
    ensures OccursAt(lines, k + 1, PrintBody(body[1..], m)) && k < |lines|
    ensures var margin' := if body[0].Text? then Some(m) else margin;
            && BodyOk(body[1..], margin'.None?)
            && P.BlockLines(lines, k, parent, margin, acc)
            == P.BlockLines(lines, k + 1, parent, margin', acc + [BodyText(body)[0]])
  {
    hide IsBlank, Indent, OccursAt, P.BodyLine, P.BlockLines, Spaces, Ignorable;
    OccursFirst(lines, k, PrintBody(body, m));
    BlockTurn(lines, k, parent, margin, acc);
    if body[0].Text? {
      PaddedBlank(m, body[0].text);
      PaddedIndent(m, body[0].text);
      if margin.None? {
        IndentPadded(m, body[0].text);
      }
    }
  }

  /** The body of a block scalar is read back line by line. */
  lemma {:induction false} BodyRead(lines: seq<string>, k: nat, parent: nat, m: nat, margin: Option<nat>,
                                    body: seq<BodyLine>, acc: seq<string>)
    returns (margin': Option<nat>)
    requires OccursAt(lines, k, PrintBody(body, m)) && parent < m
    requires margin == None || margin == Some(m)
    requires BodyOk(body, margin.None?)
    ensures P.BlockLines(lines, k, parent, margin, acc)
         == P.BlockLines(lines, k + |body|, parent, margin', acc + BodyText(body))
    decreases |body|
  {
    hide OccursAt, P.BlockLines, PrintBody, BodyOk;
    if body == [] {
      assert acc + BodyText(body) == acc;
      margin' := margin;
    } else {
      BodyTurn(lines, k, parent, m, margin, body, acc);
      AppendAssociates(acc, [BodyText(body)[0]], BodyText(body[1..]));
      margin' := BodyRead(lines, k + 1, parent, m, if body[0].Text? then Some(m) else margin, body[1..],
                          acc + [BodyText(body)[0]]);
    }
  }

  function Blanks(n: nat): (r: seq<string>)
    ensures |r| == n
    ensures forall i :: 0 <= i < n ==> r[i] == []
  {
    seq(n, _ => [])
  }

  /** The blank lines after a block are read as part of it. */
  lemma {:induction false} TailRead(lines: seq<string>, e: nat, parent: nat, margin: Option<nat>, acc: seq<string>)
    returns (c: nat)
    requires e <= |lines| && Shallow(lines[e..], parent)
    ensures e + c <= |lines|
    ensures P.BlockLines(lines, e, parent, margin, acc) == (acc + Blanks(c), e + c)
    ensures P.SkipFrom(lines, e + c) == P.SkipFrom(lines, e)
    decreases |lines| - e
  {
    hide Strip, Indent;
    if e < |lines| && IsBlank(lines[e]) {
      assert lines[e..][1..] == lines[e + 1..];
      c := TailRead(lines, e + 1, parent, margin, acc + [[]]);
      assert (acc + [[]]) + Blanks(c) == acc + Blanks(c + 1);
      c := c + 1;
    } else {
      c := 0;
      assert acc + Blanks(0) == acc;
      assert e < |lines| ==> lines[e..][0] == lines[e];
    }
  }

  lemma {:induction false} TailDropped(body: seq<string>, n: nat)
    requires body == [] || !IsBlank(body[|body| - 1])
    ensures P.DropBlankTail(body + Blanks(n)) == body
  {
    hide IsSpace;
    var s := body + Blanks(n);
    if n == 0 {
      assert s == body;
    } else {
      assert s[..|s| - 1] == body + Blanks(n - 1);
      assert s[|s| - 1] == [] && Strip([]) == [];
      TailDropped(body, n - 1);
    }
  }

  lemma {:induction false} LastLineCarriesText(body: seq<BodyLine>, flush: bool)
    requires BodyOk(body, flush)
    ensures |BodyText(body)| == |body|
    ensures body != [] ==> !IsBlank(BodyText(body)[|body| - 1])
  {
    hide Strip;
    if body != [] {
      LastLineCarriesText(body[1..], if body[0].Text? then false else flush);
    }
  }

  lemma LiteralRead(lines: seq<string>, k: nat, n: nat, step: nat, body: seq<BodyLine>)
    requires OccursAt(lines, k, PrintBody(body, n + 1 + step)) && BodyOk(body, true)
    requires Closes(lines, k + |body|, Some(n))
    ensures var r := P.BlockScalar(P.State(lines, k), n);
            r.value == P.JoinLines(BodyText(body)) && Reached(lines, k + |body|, r.st)
  {
    hide Strip, Indent, PrintBody, BodyText, BodyOk, Shallow, P.JoinLines, P.DropBlankTail;
    var margin := BodyRead(lines, k, n, n + 1 + step, None, body, []);
    assert [] + BodyText(body) == BodyText(body);
    var c := TailRead(lines, k + |body|, n, margin, BodyText(body));
    LastLineCarriesText(body, true);
    TailDropped(BodyText(body), c);
  }

  // ---------- one line of the parser ----------

  lemma HeadTame(value: Layout, n: nat)
    requires ValueOk(value, n)
    ensures Head(value) == [] || Tame(Head(value))
  {
    hide EntriesOk, ItemsOk, BodyOk;
    match value
    case QuotedText(q, t) => QuotedTame(q, t);
    case Flow(pad, parts) => FlowTame(pad, parts);
    case _ =>
  }

  lemma MappingAtEntry(st: P.State, n: nat, acc: seq<(string, Value)>, q: nat, key: Key, text: string, tail: string)
    requires st.Valid() && P.SkipFrom(st.lines, st.pos) == q < |st.lines|
    requires KeyOk(key) && (text == [] || Tame(text)) && TailOk(tail)
    requires st.lines[q] == Spaces(n) + EntryText(key, text) + tail
    ensures var v := P.EntryValue(P.State(st.lines, q + 1), n, text);
            P.Mapping(st, n, acc) == P.Mapping(v.st, n, P.Put(acc, key.name, v.value))
  {
    hide Strip, Content, SplitAtKey, Indent, EntryText, P.EntryValue, P.Put, Ignorable, TailOk;
    EntryLine(n, key, text, tail);
  }

  lemma EntriesPrint(entries: seq<Entry>, n: nat)
    requires entries != []
    ensures var e := entries[0];
            PrintEntries(entries, n) ==
              e.noise + ([Spaces(n) + EntryHead(e) + e.tail] + PrintBelow(e.value, n)) + PrintEntries(entries[1..], n)
  {
    hide EntryHead, PrintBelow, Spaces;
  }

  lemma FirstEntry(entries: seq<Entry>, n: nat, open: Option<nat>)
    requires entries != [] && EntriesOk(entries, n, open)
    ensures var e := entries[0];
            && NoiseOk(e.noise, open) && TailOk(e.tail) && KeyOk(e.key) && ValueOk(e.value, n)
            && EntriesOk(entries[1..], n, Open(e.value, n))
  {}

  /** The parser stands before the entries: noise, then the first entry's line. */
  lemma EntriesStart(lines: seq<string>, k: nat, entries: seq<Entry>, n: nat, open: Option<nat>)
    requires entries != [] && EntriesOk(entries, n, open) && OccursAt(lines, k, PrintEntries(entries, n))
    requires open.Some? ==> open.value >= n
    ensures var q := k + |entries[0].noise|;
            && P.SkipFrom(lines, k) == q < |lines| && Closes(lines, k, open)
            && lines[q] == Spaces(n) + EntryHead(entries[0]) + entries[0].tail
            && Indent(lines[q]) == n && !StartsWithChar(Content(lines[q]), '-')
            && OccursAt(lines, q + 1, PrintBelow(entries[0].value, n))
            && OccursAt(lines, q + 1 + |PrintBelow(entries[0].value, n)|, PrintEntries(entries[1..], n))
            && q + 1 + |PrintBelow(entries[0].value, n)| + |PrintEntries(entries[1..], n)|
               == k + |PrintEntries(entries, n)|
  {
    hide Strip, Content, SplitAtKey, Indent, EntryText, Ignorable, KeyOk, Tame, PrintBelow, ValueOk, TailOk,
         OccursAt, Spaces, NoiseOk, Closes, P.SkipFrom, Scans, Open, EntriesOk, PrintEntries;
    var e := entries[0];
    var own := [Spaces(n) + EntryHead(e) + e.tail] + PrintBelow(e.value, n);
    FirstEntry(entries, n, open);
    EntriesPrint(entries, n);
    OccursSplit(lines, k, e.noise + own, PrintEntries(entries[1..], n));
    OccursSplit(lines, k, e.noise, own);
    OccursFirst(lines, k + |e.noise|, own);
    assert own[1..] == PrintBelow(e.value, n);
    HeadTame(e.value, n);
    EntryLine(n, e.key, Head(e.value), e.tail);
    NoiseCloses(lines, k, e.noise, n, open);
  }

  /** Likewise for items; the first line of an item is at the sequence's indentation. */
  lemma ItemsStart(lines: seq<string>, k: nat, items: seq<Item>, n: nat, open: Option<nat>)
    requires items != [] && ItemsOk(items, n, open) && OccursAt(lines, k, PrintItems(items, n))
    requires open.Some? ==> open.value >= n
    ensures var q := k + |items[0].noise|;
            var own := PrintItem(items[0].value, n, items[0].tail);
            && own != []
            && P.SkipFrom(lines, k) == q < |lines| && Closes(lines, k, open)
            && lines[q] == own[0] && P.AtItem(P.State(lines, q), n)
            && OccursAt(lines, q, own)
            && OccursAt(lines, q + |own|, PrintItems(items[1..], n))
            && q + |own| + |PrintItems(items[1..], n)| == k + |PrintItems(items, n)|
  {
    hide Strip, Content, Indent, Ignorable, PrintItem, ItemOk, TailOk, OccursAt, NoiseOk, Closes;
    var own := PrintItem(items[0].value, n, items[0].tail);
    OccursSplit(lines, k, items[0].noise + own, PrintItems(items[1..], n));
    OccursSplit(lines, k, items[0].noise, own);
    ItemFirstLine(items[0].value, n, items[0].tail);
    OccursFirst(lines, k + |items[0].noise|, own);
    NoiseCloses(lines, k, items[0].noise, n, open);
  }

  lemma ItemFirstLine(value: Layout, n: nat, tail: string)
    requires ItemOk(value, n) && TailOk(tail)
    ensures PrintItem(value, n, tail) != []
    ensures var line := PrintItem(value, n, tail)[0];
            !Ignorable(line) && Indent(line) == n && StartsWithChar(Content(line), '-')
  {
    hide Strip, Content, Indent, Ignorable, EntryText, KeyOk, Tame, PrintEntries, PrintBelow, PrintItems,
         PrintBody, ValueOk, ItemsOk, BodyOk, TailOk, NoiseOk, Spaces, P.ItemText, P.ItemColumn, Open;
    match value
    case Absent => BareDash(n, tail);
    case Plain(t) => ItemLine(n, 1, t, tail);
    case QuotedText(q, t) =>
      QuotedTame(q, t);
      ItemLine(n, 1, InQuotes(q, t), tail);
    case Flow(pad, parts) =>
      FlowTame(pad, parts);
      ItemLine(n, 1, FlowText(pad, parts), tail);
    case Literal(header, _, _) => ItemLine(n, 1, header, tail);
    case Map(step, entries) =>
      HeadTame(entries[0].value, n + 2 + step);
      EntryTextTame(entries[0].key, Head(entries[0].value));
      ItemLine(n, 1 + step, EntryHead(entries[0]), tail);
    case Seq(_, _) => BareDash(n, tail);
  }

  // ---------- reading a layout ----------

  ghost predicate NotDeeper(lines: seq<string>, e: nat, n: nat)
    requires e <= |lines|
  {
    var p := P.SkipFrom(lines, e);
    p == |lines| || Indent(lines[p]) <= n
  }

  /** Reading up to line `e1` leaves what follows line `e` as it was. */
  lemma ReadOn(lines: seq<string>, e1: nat, st: P.State, e: nat, n: nat, open: Option<nat>)
    requires e1 <= e <= |lines| && Reached(lines, e1, st)
    ensures EndsAt(st.lines, e, n) == EndsAt(lines, e, n)
    ensures EndsBefore(st.lines, e, n) == EndsBefore(lines, e, n)
    ensures Closes(st.lines, e, open) == Closes(lines, e, open)
    ensures forall end: P.State :: Reached(st.lines, e, end) ==> Reached(lines, e, end)
  {
    hide Indent, Content, Shallow, Ignorable;
    assert lines[e..] == lines[e1..][e - e1..] && st.lines[e..] == st.lines[e1..][e - e1..];
    SkipSuffix(lines, st.lines, e);
  }

  lemma NestedNull(lines: seq<string>, k: nat, n: nat)
    requires k <= |lines| && EndsAt(lines, k, n)
    ensures P.Nested(P.State(lines, k), n) == P.Parsed(Null, P.State(lines, k))
    ensures Reached(lines, k, P.State(lines, k))
  {
    hide Indent, Content, P.Sequence, P.Node;
  }

  /** A deeper line after the noise opens a nested block; so does an item at the same depth. */
  lemma NestedBlock(lines: seq<string>, k: nat, n: nat)
    requires k <= |lines| && P.SkipFrom(lines, k) < |lines|
    requires var line := lines[P.SkipFrom(lines, k)];
             Indent(line) > n || (Indent(line) == n && StartsWithChar(Content(line), '-'))
    ensures var here := P.State(lines, P.SkipFrom(lines, k));
            var indent := Indent(lines[here.pos]);
            && P.SkipFrom(lines, here.pos) == here.pos
            && P.Nested(P.State(lines, k), n) ==
                 if StartsWithChar(Content(lines[here.pos]), '-') then
                   var s := P.Sequence(here, indent, []); P.Parsed(List(s.value), s.st)
                 else
                   var m := P.Mapping(here, indent, []); P.Parsed(Dict(m.value), m.st)
  {
    hide Indent, Content, P.Sequence, P.Mapping;
    var p := P.SkipFrom(lines, k);
    assert P.SkipFrom(lines, p) == p;
  }

  lemma {:induction false} EntriesRead(st: P.State, n: nat, entries: seq<Entry>, k: nat, open: Option<nat>,
                                       acc: seq<(string, Value)>)
    requires st.Valid() && OccursAt(st.lines, k, PrintEntries(entries, n))
    requires P.SkipFrom(st.lines, st.pos) == P.SkipFrom(st.lines, k)
    requires EntriesOk(entries, n, open) && (open.Some? ==> open.value >= n)
    requires var e := k + |PrintEntries(entries, n)|;
             EndsBefore(st.lines, e, n) && Closes(st.lines, e, OpenEntries(entries, n))
    ensures var r := P.Mapping(st, n, acc);
            && r.value == ReadEntries(acc, entries)
            && Ends(st.lines, k + |PrintEntries(entries, n)|, n, StopsEntries(entries), r.st)
    decreases entries, 0
  {
    hide Strip, Content, Indent, Ignorable, EntryText, KeyOk, Tame, Shallow, P.Mapping, P.EntryValue, Read, Stuck,
         Stops, PrintBelow, ValueOk, Open, Reached, Closes, P.Put, P.State.LeadsTo, NoiseOk, Head, OpenEntries,
         PrintEntries, P.SkipFrom, EndsBefore, EndsAt, OccursAt;
    var lines := st.lines;
    if entries == [] {
      NothingPrinted(n);
      MappingStops(st, k, n, acc);
    } else {
      var value, rest := entries[0].value, entries[1..];
      EntriesStart(lines, k, entries, n, open);
      EntriesFollow(lines, k, entries, n, open);
      var q := k + |entries[0].noise|;
      HeadTame(value, n);
      MappingAtEntry(st, n, acc, q, entries[0].key, Head(value), entries[0].tail);
      ValueRead(lines, q + 1, n, value);
      var v := P.EntryValue(P.State(lines, q + 1), n, Head(value));
      var acc2 := P.Put(acc, entries[0].key.name, v.value);
      if Stops(value) {
        MappingStuck(v.st, n, acc2);
      } else {
        EntriesReadOn(lines, q + 1 + |PrintBelow(value, n)|, v.st, rest, n, Open(value, n), acc2);
      }
    }
  }

  /** What follows the first entry: the next one, or what follows them all. */
  lemma EntriesFollow(lines: seq<string>, k: nat, entries: seq<Entry>, n: nat, open: Option<nat>)
    requires entries != [] && EntriesOk(entries, n, open) && OccursAt(lines, k, PrintEntries(entries, n))
    requires open.Some? ==> open.value >= n
    requires var e := k + |PrintEntries(entries, n)|;
             EndsBefore(lines, e, n) && Closes(lines, e, OpenEntries(entries, n))
    ensures var value := entries[0].value;
            var e1 := k + |entries[0].noise| + 1 + |PrintBelow(value, n)|;
            && e1 <= |lines| && EndsAt(lines, e1, n) && Closes(lines, e1, Open(value, n))
            && Closes(lines, k + |PrintEntries(entries, n)|, OpenEntries(entries[1..], n))
            && (Open(value, n).Some? ==> Open(value, n).value >= n)
  {
    hide Strip, Content, Indent, Ignorable, KeyOk, Shallow, PrintBelow, ValueOk, Open, NoiseOk, Head, P.SkipFrom,
         OccursAt, PrintEntries, EntryHead;
    assert PrintEntries([], n) == [] by { NothingPrinted(n); }
    var value, rest := entries[0].value, entries[1..];
    EntriesStart(lines, k, entries, n, open);
    OpenDeep(value, n);
    if rest != [] {
      EntriesStart(lines, k + |entries[0].noise| + 1 + |PrintBelow(value, n)|, rest, n, Open(value, n));
    }
  }

  lemma NothingPrinted(n: nat)
    ensures PrintEntries([], n) == [] && PrintItems([], n) == [] && ReadItems([]) == []
  {}

  lemma ItemsFollow(lines: seq<string>, k: nat, items: seq<Item>, n: nat, open: Option<nat>)
    requires items != [] && ItemsOk(items, n, open) && OccursAt(lines, k, PrintItems(items, n))
    requires open.Some? ==> open.value >= n
    requires var e := k + |PrintItems(items, n)|;
             EndsAt(lines, e, n) && Closes(lines, e, OpenItems(items, n))
    ensures var value := items[0].value;
            var e1 := k + |items[0].noise| + |PrintItem(value, n, items[0].tail)|;
            && e1 <= |lines| && NotDeeper(lines, e1, n) && Closes(lines, e1, OpenItem(value, n))
            && (items[1..] == [] ==> EndsAt(lines, e1, n))
            && Closes(lines, k + |PrintItems(items, n)|, OpenItems(items[1..], n))
            && (OpenItem(value, n).Some? ==> OpenItem(value, n).value >= n)
  {
    hide Strip, Content, Indent, Ignorable, Shallow, PrintItem, ItemOk, OpenItem, NoiseOk, P.SkipFrom, OccursAt,
         PrintItems;
    assert PrintItems([], n) == [] by { NothingPrinted(n); }
    var value, rest := items[0].value, items[1..];
    ItemsStart(lines, k, items, n, open);
    OpenDeep(value, n);
    if rest != [] {
      ItemsStart(lines, k + |items[0].noise| + |PrintItem(value, n, items[0].tail)|, rest, n, OpenItem(value, n));
    }
  }

  /** The entries after the first, from wherever reading the first one stopped. */
  lemma {:induction false} EntriesReadOn(lines: seq<string>, e1: nat, st: P.State, rest: seq<Entry>, n: nat,
                                         open: Option<nat>, acc: seq<(string, Value)>)
    requires e1 <= |lines| && Reached(lines, e1, st) && OccursAt(lines, e1, PrintEntries(rest, n))
    requires EntriesOk(rest, n, open) && (open.Some? ==> open.value >= n)
    requires var e := e1 + |PrintEntries(rest, n)|;
             EndsBefore(lines, e, n) && Closes(lines, e, OpenEntries(rest, n))
    ensures var r := P.Mapping(st, n, acc);
            && r.value == ReadEntries(acc, rest)
            && Ends(lines, e1 + |PrintEntries(rest, n)|, n, StopsEntries(rest), r.st)
    decreases rest, 1
  {
    hide P.Mapping, Stuck, StopsEntries, PrintEntries, EntriesOk, EndsBefore, Closes, OpenEntries, ReadEntries,
         Reached, OccursAt, P.SkipFrom;
    ReachedFacts(lines, e1, st);
    OccursWithin(lines, e1, PrintEntries(rest, n));
    OccursInSuffix(lines, st.lines, e1, e1, PrintEntries(rest, n));
    ReadOn(lines, e1, st, e1 + |PrintEntries(rest, n)|, n, OpenEntries(rest, n));
    EntriesRead(st, n, rest, e1, open, acc);
  }

  lemma MappingStops(st: P.State, e: nat, n: nat, acc: seq<(string, Value)>)
    requires st.Valid() && e <= |st.lines| && P.SkipFrom(st.lines, st.pos) == P.SkipFrom(st.lines, e)
    requires EndsBefore(st.lines, e, n)
    ensures var r := P.Mapping(st, n, acc); r.value == acc && Reached(st.lines, e, r.st)
  {
    hide Indent, Content;
    var p := P.SkipFrom(st.lines, st.pos);
    assert P.SkipFrom(st.lines, p) == p;
  }

  lemma MappingStuck(st: P.State, n: nat, acc: seq<(string, Value)>)
    requires Stuck(st, n)
    ensures var r := P.Mapping(st, n, acc); r.value == acc && Stuck(r.st, n)
  {
    hide Indent, Content, Ignorable;
    var p := P.SkipFrom(st.lines, st.pos);
    assert P.SkipFrom(st.lines, p) == p;
  }

  lemma SequenceStuck(st: P.State, n: nat, acc: seq<Value>)
    requires Stuck(st, n)
    ensures var r := P.Sequence(st, n, acc); r.value == acc && Stuck(r.st, n)
  {
    hide Indent, Content, P.Sequence, Ignorable;
    var p := P.SkipFrom(st.lines, st.pos);
    assert P.SkipFrom(st.lines, p) == p;
    P.SequenceResume(st, n, acc);
  }

  /** Who is stuck at some depth is stuck at every smaller one. */
  lemma EndsShallower(lines: seq<string>, e: nat, n: nat, m: nat, stops: bool, st: P.State)
    requires n <= m && e <= |lines| && Ends(lines, e, m, stops, st)
    ensures Ends(lines, e, n, stops, st)
  {
    hide Indent, Reached, P.SkipFrom;
  }

  lemma {:induction false} ValueRead(lines: seq<string>, k: nat, n: nat, value: Layout)
    requires ValueOk(value, n) && OccursAt(lines, k, PrintBelow(value, n))
    requires var e := k + |PrintBelow(value, n)|; EndsAt(lines, e, n) && Closes(lines, e, Open(value, n))
    ensures var v := P.EntryValue(P.State(lines, k), n, Head(value));
            v.value == Read(value) && Ends(lines, k + |PrintBelow(value, n)|, n, Stops(value), v.st)
    decreases value
  {
    hide Stuck, StopsEntries, StopsItems, Strip, Content, Indent, Ignorable, Shallow, P.Mapping, P.Sequence,
         P.Nested, P.BlockScalar, Reached, PrintEntries, PrintItems, EntriesOk, ItemsOk, ReadEntries, ReadItems,
         OpenEntries, OpenItems, Closes, P.State.LeadsTo, P.SkipFrom, EndsAt;
    match value
    case Absent => NestedNull(lines, k, n);
    case Plain(t) =>
      PlainParses(t);
      AlreadyThere(lines, k);
    case QuotedText(q, t) =>
      QuotedParses(q, t);
      AlreadyThere(lines, k);
    case Flow(pad, parts) =>
      FlowIs(pad, parts);
      AlreadyThere(lines, k);
    case Literal(_, step, body) => LiteralRead(lines, k, n, step, body);
    case Map(step, entries) => NestedEntries(lines, k, n, n + 1 + step, entries);
    case Seq(step, items) =>
      EndsDeeper(lines, k + |PrintItems(items, n + step)|, n, n + step);
      NestedItems(lines, k, n, n + step, items);
  }

  lemma EndsDeeper(lines: seq<string>, e: nat, n: nat, m: nat)
    requires e <= |lines|
    ensures n <= m && EndsAt(lines, e, n) ==> EndsAt(lines, e, m)
    ensures n < m && (EndsAt(lines, e, n) || NotDeeper(lines, e, n)) ==> EndsAt(lines, e, m) && EndsBefore(lines, e, m)
  {
    hide Indent, Content, P.SkipFrom;
  }

  /** A mapping nested under a key. */
  lemma {:induction false} NestedEntries(lines: seq<string>, k: nat, n: nat, m: nat, entries: seq<Entry>)
    requires n < m && entries != [] && EntriesOk(entries, m, None) && OccursAt(lines, k, PrintEntries(entries, m))
    requires var e := k + |PrintEntries(entries, m)|;
             EndsAt(lines, e, n) && Closes(lines, e, OpenEntries(entries, m))
    ensures var v := P.Nested(P.State(lines, k), n);
            && v.value == Dict(ReadEntries([], entries))
            && Ends(lines, k + |PrintEntries(entries, m)|, n, StopsEntries(entries), v.st)
    decreases entries, 1
  {
    hide Ends, StopsEntries, Strip, Content, Indent, Ignorable, Shallow, P.Mapping, P.Sequence, P.Nested,
         PrintEntries, EntriesOk, ReadEntries, OpenEntries, Closes, P.State.LeadsTo, P.SkipFrom, EndsAt,
         EndsBefore, EntryHead, Spaces, PrintBelow, OccursAt;
    OccursWithin(lines, k, PrintEntries(entries, m));
    EntriesStart(lines, k, entries, m, None);
    NestedBlock(lines, k, n);
    EndsDeeper(lines, k + |PrintEntries(entries, m)|, n, m);
    EntriesRead(P.State(lines, P.SkipFrom(lines, k)), m, entries, k, None, []);
    var st := P.Nested(P.State(lines, k), n).st;
    EndsShallower(lines, k + |PrintEntries(entries, m)|, n, m, StopsEntries(entries), st);
  }

  /** A sequence nested under a key or a bare dash, or standing at its own depth. */
  lemma {:induction false} NestedItems(lines: seq<string>, k: nat, n: nat, m: nat, items: seq<Item>)
    requires n <= m && items != [] && ItemsOk(items, m, None) && OccursAt(lines, k, PrintItems(items, m))
    requires var e := k + |PrintItems(items, m)|;
             EndsAt(lines, e, m) && Closes(lines, e, OpenItems(items, m))
    ensures var v := P.Nested(P.State(lines, k), n);
            && v.value == List(ReadItems(items))
            && Ends(lines, k + |PrintItems(items, m)|, n, StopsItems(items), v.st)
    decreases items, 2
  {
    hide Ends, StopsItems, Strip, Content, Indent, Ignorable, OccursAt, Shallow, P.Mapping, P.Sequence, P.Nested,
         Reached, PrintItems, ItemsOk, ReadItems, OpenItems, Closes, P.State.LeadsTo, P.SkipFrom, EndsAt;
    ItemsStart(lines, k, items, m, None);
    NestedBlock(lines, k, n);
    ItemsRead(P.State(lines, P.SkipFrom(lines, k)), m, items, k, None, []);
    assert [] + ReadItems(items) == ReadItems(items);
    OccursWithin(lines, k, PrintItems(items, m));
    var st := P.Nested(P.State(lines, k), n).st;
    EndsShallower(lines, k + |PrintItems(items, m)|, n, m, StopsItems(items), st);
  }

  lemma AlreadyThere(lines: seq<string>, k: nat)
    requires k <= |lines|
    ensures Reached(lines, k, P.State(lines, k))
  {}

  lemma {:induction false} ItemsRead(st: P.State, n: nat, items: seq<Item>, k: nat, open: Option<nat>,
                                     acc: seq<Value>)
    requires st.Valid() && OccursAt(st.lines, k, PrintItems(items, n))
    requires P.SkipFrom(st.lines, st.pos) == P.SkipFrom(st.lines, k)
    requires ItemsOk(items, n, open) && (open.Some? ==> open.value >= n)
    requires var e := k + |PrintItems(items, n)|;
             EndsAt(st.lines, e, n) && Closes(st.lines, e, OpenItems(items, n))
    ensures var r := P.Sequence(st, n, acc);
            && r.value == acc + ReadItems(items)
            && Ends(st.lines, k + |PrintItems(items, n)|, n, StopsItems(items), r.st)
    decreases items, 1
  {
    hide Stuck, StopsItem, ReadItem, Strip, Content, Indent, Ignorable, Shallow, P.Sequence, Read, PrintItem,
         ItemOk, OpenItem, Reached, Closes, P.State.LeadsTo, NoiseOk, OpenItems, PrintItems, P.SkipFrom, EndsAt,
         ReadItems, NotDeeper, OccursAt, P.AtItem;
    var lines := st.lines;
    if items == [] {
      NothingPrinted(n);
      SequenceStops(st, k, n, acc);
    } else {
      var value, rest := items[0].value, items[1..];
      ItemsStart(lines, k, items, n, open);
      ItemsFollow(lines, k, items, n, open);
      var q := k + |items[0].noise|;
      P.SequenceResume(st, n, acc);
      if value.Absent? && rest != [] {
        AbsentPrint(n, items[0].tail);
        SwallowRead(lines, q, n, items[0].tail, rest, acc);
      } else {
        var st2 := ItemRead(lines, q, n, value, items[0].tail, acc);
        var e1, acc2 := q + |PrintItem(value, n, items[0].tail)|, acc + [ReadItem(value)];
        if StopsItem(value) {
          SequenceStuck(st2, n, acc2);
        } else {
          ItemsReadOn(lines, e1, st2, rest, n, OpenItem(value, n), acc2);
        }
      }
      ReadItemsStep(items, acc);
    }
  }

  lemma ReadItemsStep(items: seq<Item>, acc: seq<Value>)
    requires items != []
    ensures acc + ReadItems(items) ==
              if items[0].value.Absent? && items[1..] != [] then acc + [List(ReadItems(items[1..]))]
              else acc + [ReadItem(items[0].value)] + if StopsItem(items[0].value) then [] else ReadItems(items[1..])
  {
    hide ReadItem, StopsItem;
  }

  lemma AbsentPrint(n: nat, tail: string)
    ensures PrintItem(Absent, n, tail) == [Spaces(n) + "-" + tail] && OpenItem(Absent, n) == None && !StopsItem(Absent)
  {}

  lemma SequenceStops(st: P.State, e: nat, n: nat, acc: seq<Value>)
    requires st.Valid() && e <= |st.lines| && P.SkipFrom(st.lines, st.pos) == P.SkipFrom(st.lines, e)
    requires EndsAt(st.lines, e, n)
    ensures var r := P.Sequence(st, n, acc); r.value == acc && Reached(st.lines, e, r.st)
  {
    hide Indent, Content, P.Sequence;
    var p := P.SkipFrom(st.lines, st.pos);
    assert P.SkipFrom(st.lines, p) == p;
    P.SequenceResume(st, n, acc);
  }

  lemma {:induction false} ItemsReadOn(lines: seq<string>, e1: nat, st: P.State, rest: seq<Item>, n: nat,
                                       open: Option<nat>, acc: seq<Value>)
    requires e1 <= |lines| && Reached(lines, e1, st) && OccursAt(lines, e1, PrintItems(rest, n))
    requires ItemsOk(rest, n, open) && (open.Some? ==> open.value >= n)
    requires var e := e1 + |PrintItems(rest, n)|;
             EndsAt(lines, e, n) && Closes(lines, e, OpenItems(rest, n))
    ensures var r := P.Sequence(st, n, acc);
            && r.value == acc + ReadItems(rest)
            && Ends(lines, e1 + |PrintItems(rest, n)|, n, StopsItems(rest), r.st)
    decreases rest, 2
  {
    hide Stuck, StopsItems, P.Sequence, PrintItems, ItemsOk, EndsAt, Closes, OpenItems, ReadItems, Reached,
         OccursAt, P.SkipFrom;
    ReachedFacts(lines, e1, st);
    OccursWithin(lines, e1, PrintItems(rest, n));
    OccursInSuffix(lines, st.lines, e1, e1, PrintItems(rest, n));
    ReadOn(lines, e1, st, e1 + |PrintItems(rest, n)|, n, OpenItems(rest, n));
    ItemsRead(st, n, rest, e1, open, acc);
  }

  /** An absent item that is not the last: the parser takes the items after it for its value. */
  lemma {:induction false} SwallowRead(lines: seq<string>, q: nat, n: nat, tail: string, rest: seq<Item>,
                                       acc: seq<Value>)
    requires rest != [] && ItemsOk(rest, n, None) && TailOk(tail)
    requires OccursAt(lines, q, [Spaces(n) + "-" + tail]) && P.AtItem(P.State(lines, q), n)
    requires OccursAt(lines, q + 1, PrintItems(rest, n))
    requires var e := q + 1 + |PrintItems(rest, n)|;
             EndsAt(lines, e, n) && Closes(lines, e, OpenItems(rest, n))
    ensures var r := P.Sequence(P.State(lines, q), n, acc);
            && r.value == acc + [List(ReadItems(rest))]
            && Ends(lines, q + 1 + |PrintItems(rest, n)|, n, StopsItems(rest), r.st)
    decreases rest, 3
  {
    hide Stuck, StopsItems, Strip, Content, Indent, Ignorable, Shallow, P.Sequence, P.Nested, PrintItems, ItemsOk,
         OpenItems, ReadItems, Closes, Reached, EndsAt, P.State.LeadsTo, P.SkipFrom, TailOk;
    BareDash(n, tail);
    OccursFirst(lines, q, [Spaces(n) + "-" + tail]);
    P.SequenceTurn(P.State(lines, q), n, acc);
    NestedItems(lines, q + 1, n, n, rest);
    var v := P.Nested(P.State(lines, q + 1), n);
    var e := q + 1 + |PrintItems(rest, n)|;
    if StopsItems(rest) {
      SequenceStuck(v.st, n, acc + [v.value]);
    } else {
      ReadOn(lines, e, v.st, e, n, None);
      SequenceStops(v.st, e, n, acc + [v.value]) by { ReachedFacts(lines, e, v.st); }
    }
  }

  lemma ReachedFacts(lines: seq<string>, e: nat, st: P.State)
    requires e <= |lines| && Reached(lines, e, st)
    ensures |st.lines| == |lines| && st.Valid() && P.SkipFrom(st.lines, st.pos) == P.SkipFrom(st.lines, e)
    ensures st.lines[e..] == lines[e..]
  {}

  /** One item, when it is not swallowing. */
  lemma {:induction false} ItemRead(lines: seq<string>, q: nat, n: nat, value: Layout, tail: string,
                                    acc: seq<Value>)
    returns (st2: P.State)
    requires ItemOk(value, n) && TailOk(tail)
    requires OccursAt(lines, q, PrintItem(value, n, tail)) && P.AtItem(P.State(lines, q), n)
    requires var e1 := q + |PrintItem(value, n, tail)|;
             && NotDeeper(lines, e1, n) && Closes(lines, e1, OpenItem(value, n))
             && (value.Absent? ==> EndsAt(lines, e1, n))
    ensures Ends(lines, q + |PrintItem(value, n, tail)|, n, StopsItem(value), st2)
    ensures P.Sequence(P.State(lines, q), n, acc) == P.Sequence(st2, n, acc + [ReadItem(value)])
    decreases value
  {
    hide Stuck, HasContent, StopsEntries, StopsItems, Below, Unquoted, EntryHead, Strip, Content, Indent,
         Ignorable, EntryText, KeyOk, Tame, Shallow, P.Sequence, P.Mapping, P.Nested, SplitAtKey, PrintEntries,
         PrintItems, PrintBelow, EntriesOk, ItemsOk, OpenItems, OpenEntries, ReadItems, ReadEntries, Reached,
         Closes, P.State.LeadsTo, P.SkipFrom, Spaces, DashText, TailOk, Scans, ParseScalar, EndsAt, NotDeeper,
         P.AtItem;
    match value
    case Absent =>
      st2 := DashRead(lines, q, n, tail, acc);
      NestedNull(lines, q + 1, n);
    case Plain(t) =>
      PlainItemIsScalar(t);
      st2 := ScalarItemRead(lines, q, n, 1, t, tail, acc);
    case QuotedText(quote, t) =>
      QuotedTame(quote, t);
      QuotedParses(quote, t);
      st2 := ScalarItemRead(lines, q, n, 1, InQuotes(quote, t), tail, acc);
    case Flow(pad, parts) =>
      FlowTame(pad, parts);
      FlowIs(pad, parts);
      NoColonNoKey(FlowText(pad, parts));
      st2 := ScalarItemRead(lines, q, n, 1, FlowText(pad, parts), tail, acc);
    case Literal(header, step, body) =>
      st2 := BlockItemRead(lines, q, n, header, step, body, tail, acc);
    case Map(step, entries) =>
      if QuotedFirst(value) {
        st2 := QuotedItemRead(lines, q, n, step, entries, tail, acc);
      } else {
        st2 := CompactRead(lines, q, n, step, entries, tail, acc);
      }
    case Seq(step, items) =>
      OccursSplit(lines, q, [Spaces(n) + "-" + tail], PrintItems(items, n + 1 + step));
      st2 := DashRead(lines, q, n, tail, acc);
      EndsDeeper(lines, q + 1 + |PrintItems(items, n + 1 + step)|, n, n + 1 + step);
      NestedItems(lines, q + 1, n, n + 1 + step, items);
  }

  /** A bare dash hands over to `_parse_nested`. */
  lemma DashRead(lines: seq<string>, q: nat, n: nat, tail: string, acc: seq<Value>) returns (st2: P.State)
    requires TailOk(tail) && OccursAt(lines, q, [Spaces(n) + "-" + tail]) && P.AtItem(P.State(lines, q), n)
    ensures var v := P.Nested(P.State(lines, q + 1), n);
            st2 == v.st && P.Sequence(P.State(lines, q), n, acc) == P.Sequence(st2, n, acc + [v.value])
  {
    hide Strip, Content, Indent, Ignorable, P.Sequence, P.Nested, TailOk;
    BareDash(n, tail);
    OccursFirst(lines, q, [Spaces(n) + "-" + tail]);
    P.SequenceTurn(P.State(lines, q), n, acc);
    st2 := P.Nested(P.State(lines, q + 1), n).st;
  }

  /** What `Read` says of a flow sequence is what the parser makes of its text. */
  lemma FlowIs(pad: string, parts: seq<Part>)
    requires FlowOk(pad, parts)
    ensures ParseScalar(FlowText(pad, parts)) == Read(Flow(pad, parts))
    ensures Read(Flow(pad, parts)) == Meaning(Flow(pad, parts)) <==> NoCommas(parts)
  {
    hide ParseScalar, FlowText, NoCommas, FlowOk;
    FlowExact(pad, parts);
  }

  lemma ScalarItemRead(lines: seq<string>, q: nat, n: nat, gap: nat, shown: string, tail: string, acc: seq<Value>)
    returns (st2: P.State)
    requires Tame(shown) && TailOk(tail)
    requires OccursAt(lines, q, [Spaces(n) + DashText(gap, shown) + tail])
    requires P.AtItem(P.State(lines, q), n)
    requires SplitAtKey(shown) == NoKey || shown[0] in QUOTES
    ensures st2 == P.State(lines, q + 1) && Reached(lines, q + 1, st2)
    ensures P.Sequence(P.State(lines, q), n, acc) == P.Sequence(st2, n, acc + [ParseScalar(shown)])
  {
    hide Strip, Content, Indent, Ignorable, P.Sequence, SplitAtKey, ParseScalar, TailOk, Scans;
    ItemLine(n, gap, shown, tail);
    OccursFirst(lines, q, [Spaces(n) + DashText(gap, shown) + tail]);
    P.SequenceTurn(P.State(lines, q), n, acc);
    st2 := P.State(lines, q + 1);
  }

  /** A block scalar as an item: the bar is read as a scalar, and its body is not read at all. */
  lemma BlockItemRead(lines: seq<string>, q: nat, n: nat, header: string, step: nat, body: seq<BodyLine>,
                      tail: string, acc: seq<Value>)
    returns (st2: P.State)
    requires BlockHeader(header) && BodyOk(body, true) && TailOk(tail)
    requires OccursAt(lines, q, PrintItem(Literal(header, step, body), n, tail)) && P.AtItem(P.State(lines, q), n)
    ensures Ends(lines, q + |PrintItem(Literal(header, step, body), n, tail)|, n, HasContent(body), st2)
    ensures P.Sequence(P.State(lines, q), n, acc) == P.Sequence(st2, n, acc + [Scalar(header)])
  {
    hide Strip, Content, Indent, Ignorable, P.Sequence, SplitAtKey, ParseScalar, TailOk, Scans, Stuck, HasContent,
         P.SkipFrom, PrintBody, BodyOk, OccursAt, DashText, Spaces, P.AtItem, Tame;
    var first := [Spaces(n) + DashText(1, header) + tail];
    OccursSplit(lines, q, first, PrintBody(body, n + 1 + step));
    HeaderIsScalar(header);
    st2 := ScalarItemRead(lines, q, n, 1, header, tail, acc);
    BodySkipped(lines, q + 1, n, n + 1 + step, body, true);
  }

  lemma SkipTurn(lines: seq<string>, k: nat)
    requires k < |lines|
    ensures P.SkipFrom(lines, k) == if Ignorable(lines[k]) then P.SkipFrom(lines, k + 1) else k
  {
    hide Ignorable;
  }

  /** Skipping what can be ignored runs through a body, or stops at its first line with content. */
  lemma {:induction false} BodySkipped(lines: seq<string>, k: nat, n: nat, m: nat, body: seq<BodyLine>, flush: bool)
    requires OccursAt(lines, k, PrintBody(body, m)) && n < m && BodyOk(body, flush)
    ensures if HasContent(body) then Stuck(P.State(lines, k), n)
            else P.SkipFrom(lines, k) == P.SkipFrom(lines, k + |body|)
    decreases body
  {
    hide Strip, Indent, OccursAt, Spaces, StartsWithChar, P.SkipFrom;
    if body != [] {
      OccursFirst(lines, k, PrintBody(body, m));
      SkipTurn(lines, k);
      if body[0].Text? {
        PaddedBlank(m, body[0].text);
        PaddedIndent(m, body[0].text);
      }
      BodySkipped(lines, k + 1, n, m, body[1..], if body[0].Text? then false else flush);
    }
  }

  /** Likewise for whatever is printed below an entry's own line. */
  lemma BelowSkipped(lines: seq<string>, k: nat, n: nat, c: nat, value: Layout)
    requires n < c && ValueOk(value, c) && OccursAt(lines, k, PrintBelow(value, c))
    ensures if Below(value) then Stuck(P.State(lines, k), n)
            else P.SkipFrom(lines, k) == P.SkipFrom(lines, k + |PrintBelow(value, c)|)
  {
    hide Strip, Content, Indent, Ignorable, OccursAt, Spaces, PrintEntries, PrintItems, PrintBody, EntriesOk,
         ItemsOk, BodyOk, HasContent, Closes, TailOk, EntryHead, P.SkipFrom;
    match value {
      case Map(step, inner) => EntriesStart(lines, k, inner, c + 1 + step, None);
      case Seq(step, items) => ItemsStart(lines, k, items, c + step, None);
      case Literal(_, step, body) => BodySkipped(lines, k, n, c + 1 + step, body, true);
      case _ =>
    }
  }

  /** Skipping from below an entry's line stops inside its value, at the next entry, or past both. */
  lemma EntrySkipped(lines: seq<string>, k: nat, n: nat, c: nat, value: Layout, rest: seq<Entry>)
    requires n < c && ValueOk(value, c) && EntriesOk(rest, c, Open(value, c))
    requires OccursAt(lines, k, PrintBelow(value, c) + PrintEntries(rest, c))
    ensures Ends(lines, k + |PrintBelow(value, c) + PrintEntries(rest, c)|, n, Below(value) || rest != [],
                 P.State(lines, k))
  {
    hide Strip, Content, Indent, Ignorable, OccursAt, Spaces, PrintEntries, PrintBelow, EntriesOk, ValueOk, Below,
         Closes, TailOk, EntryHead, P.SkipFrom;
    var k2 := k + |PrintBelow(value, c)|;
    OccursSplit(lines, k, PrintBelow(value, c), PrintEntries(rest, c));
    BelowSkipped(lines, k, n, c, value);
    NothingPrinted(c);
    if !Below(value) && rest != [] {
      OpenDeep(value, c);
      EntriesStart(lines, k2, rest, c, Open(value, c));
    }
  }

  /** A compact item whose first key is quoted: its line is read as a scalar. */
  lemma QuotedItemRead(lines: seq<string>, q: nat, n: nat, step: nat, entries: seq<Entry>, tail: string,
                       acc: seq<Value>)
    returns (st2: P.State)
    requires ItemOk(Map(step, entries), n) && entries[0].key.Quoted? && TailOk(tail)
    requires OccursAt(lines, q, PrintItem(Map(step, entries), n, tail)) && P.AtItem(P.State(lines, q), n)
    ensures Ends(lines, q + |PrintItem(Map(step, entries), n, tail)|, n, StopsItem(Map(step, entries)), st2)
    ensures P.Sequence(P.State(lines, q), n, acc)
         == P.Sequence(st2, n, acc + [Scalar(Unquoted(EntryHead(entries[0])))])
  {
    hide Strip, Content, Indent, Ignorable, P.Sequence, SplitAtKey, ParseScalar, TailOk, Scans, Ends, OccursAt,
         P.AtItem, Spaces, DashText, Unquoted, PrintEntries, PrintBelow, EntriesOk, EntryText, Tame, Below;
    var c := n + 2 + step;
    var first := [Spaces(n) + DashText(1 + step, EntryHead(entries[0])) + tail];
    var below := PrintBelow(entries[0].value, c) + PrintEntries(entries[1..], c);
    assert PrintItem(Map(step, entries), n, tail) == first + below;
    OccursSplit(lines, q, first, below);
    FirstEntry(entries, c, None);
    HeadTame(entries[0].value, c);
    QuotedEntryScalar(entries[0].key, Head(entries[0].value));
    st2 := ScalarItemRead(lines, q, n, 1 + step, EntryHead(entries[0]), tail, acc);
    EntrySkipped(lines, q + 1, n, c, entries[0].value, entries[1..]);
  }

  lemma QuotedEntryScalar(k: Key, text: string)
    requires KeyOk(k) && k.Quoted? && (text == [] || Tame(text))
    ensures var s := EntryText(k, text);
            Tame(s) && s[0] in QUOTES && ParseScalar(s) == Scalar(Unquoted(s))
  {
    hide Strip, Scans, Unquoted, Trimmed;
    var s := EntryText(k, text);
    EntryTextTame(k, text);
    assert s[0] == k.quote;
    StripAlone(s);
  }

  /** A compact item: the dash's line is rewritten to the line of the mapping's first entry. */
  lemma {:induction false} CompactRead(lines: seq<string>, q: nat, n: nat, step: nat, entries: seq<Entry>,
                                       tail: string, acc: seq<Value>)
    returns (st2: P.State)
    requires TailOk(tail)
    requires entries != [] && entries[0].key.Bare? && entries[0].noise == [] && entries[0].tail == []
    requires EntriesOk(entries, n + 2 + step, None)
    requires OccursAt(lines, q, PrintItem(Map(step, entries), n, tail)) && P.AtItem(P.State(lines, q), n)
    requires var e1 := q + |PrintItem(Map(step, entries), n, tail)|;
             NotDeeper(lines, e1, n) && Closes(lines, e1, OpenEntries(entries, n + 2 + step))
    ensures Ends(lines, q + |PrintItem(Map(step, entries), n, tail)|, n, StopsEntries(entries), st2)
    ensures P.Sequence(P.State(lines, q), n, acc) == P.Sequence(st2, n, acc + [Dict(ReadEntries([], entries))])
    decreases entries, 1
  {
    hide Stuck, StopsEntries, Strip, Content, Indent, Ignorable, EntryText, KeyOk, Tame, Shallow, P.Sequence,
         P.Mapping, SplitAtKey, PrintBelow, ValueOk, OpenEntries, ReadEntries, Reached, Closes, P.SkipFrom,
         OccursAt, NotDeeper, EndsBefore, PrintItem, PrintEntries, EntriesOk, DashText, P.AtItem, P.OpensMapping,
         P.Undashed, P.ItemText, P.ItemColumn, P.State.LeadsTo, Spaces, NoiseOk, TailOk;
    var item := PrintItem(Map(step, entries), n, tail);
    var c := n + 2 + step;
    var head := Spaces(c) + EntryHead(entries[0]);
    FirstEntry(entries, c, None);
    CompactPrint(step, entries, n, tail);
    OccursFirst(lines, q, item);
    OccursWithin(lines, q, item);
    HeadTame(entries[0].value, c);
    CompactLine(n, 1 + step, entries[0].key, Head(entries[0].value), tail);
    P.SequenceTurn(P.State(lines, q), n, acc);
    var lines2 := lines[q := head];
    ReplaceFirst(lines, q, item, head);
    var e1 := q + |item|;
    RewrittenTail(lines, q, head, e1, n, c, OpenEntries(entries, c));
    EntriesRead(P.State(lines2, q), c, entries, q, None, []);
    st2 := P.Mapping(P.State(lines2, q), c, []).st;
    EndsShallower(lines2, e1, n, c, StopsEntries(entries), st2);
  }

  /** A compact item is the mapping it opens, but for its first line. */
  lemma CompactPrint(step: nat, entries: seq<Entry>, n: nat, tail: string)
    requires entries != [] && entries[0].noise == [] && entries[0].tail == []
    ensures var item, c := PrintItem(Map(step, entries), n, tail), n + 2 + step;
            && item != [] && item[0] == Spaces(n) + DashText(1 + step, EntryHead(entries[0])) + tail
            && PrintEntries(entries, c) == [Spaces(c) + EntryHead(entries[0])] + item[1..]
  {
    hide EntryHead, PrintBelow, Spaces, DashText, PrintEntries;
    var c := n + 2 + step;
    var head := Spaces(c) + EntryHead(entries[0]);
    var below, rest := PrintBelow(entries[0].value, c), PrintEntries(entries[1..], c);
    assert head + [] == head;
    EntriesPrint(entries, c);
    Rehead(Spaces(n) + DashText(1 + step, EntryHead(entries[0])) + tail, head, below, rest);
  }

  lemma Rehead(first: string, head: string, below: seq<string>, rest: seq<string>)
    ensures [head] + ([first] + below + rest)[1..] == [] + ([head] + below) + rest
  {
    AppendAssociates([first], below, rest);
    AppendAssociates([head], below, rest);
    assert ([first] + (below + rest))[1..] == below + rest;
  }

  lemma ReplaceFirst(lines: seq<string>, q: nat, chunk: seq<string>, head: string)
    requires OccursAt(lines, q, chunk) && chunk != []
    ensures OccursAt(lines[q := head], q, [head] + chunk[1..])
  {
    var lines2 := lines[q := head];
    var e := q + |chunk|;
    assert lines2[q + 1..e] == lines[q..e][1..];
    assert lines2[q..e] == [head] + lines2[q + 1..e];
  }

  lemma RewrittenTail(lines: seq<string>, q: nat, head: string, e: nat, n: nat, c: nat, open: Option<nat>)
    requires q < e <= |lines| && NotDeeper(lines, e, n) && n < c && Closes(lines, e, open)
    ensures EndsBefore(lines[q := head], e, c) && Closes(lines[q := head], e, open)
    ensures forall end: P.State :: Reached(lines[q := head], e, end) ==> Reached(lines, e, end)
  {
    hide Indent, Shallow, Ignorable;
    assert lines[q := head][e..] == lines[e..];
    SkipSuffix(lines, lines[q := head], e);
  }

  // ---------- the theorems ----------

  /** Parsing the printed lines of any layout returns what `Read` says. */
  lemma PrintedReads(entries: seq<Entry>, n: nat, trailing: seq<string>)
    requires entries != [] && EntriesOk(entries, n, None)
    requires NoiseOk(trailing, OpenEntries(entries, n))
    ensures P.Document(PrintEntries(entries, n) + trailing) == Dict(ReadEntries([], entries))
  {
    hide Strip, Content, Indent, Ignorable, Shallow, P.Mapping, P.Sequence, PrintEntries, EntriesOk, ReadEntries,
         OpenEntries, P.State.LeadsTo, OccursAt, Ends, StopsEntries, P.Document, EntryHead, Spaces, PrintBelow,
         P.SkipFrom;
    var printed := PrintEntries(entries, n);
    var lines := printed + trailing;
    TwoChunks(printed, trailing);
    SkipNoise(lines, |printed|, trailing);
    EntriesStart(lines, 0, entries, n, None);
    NothingFollows(lines);
    DocumentIsMapping(lines);
    EntriesRead(P.State(lines, P.SkipFrom(lines, 0)), n, entries, 0, None, []);
  }

  lemma NothingFollows(lines: seq<string>)
    ensures P.SkipFrom(lines, |lines|) == |lines|
  {}

  /** A document whose first line with content is not an item. */
  lemma DocumentIsMapping(lines: seq<string>)
    requires P.SkipFrom(lines, 0) < |lines| && !StartsWithChar(Content(lines[P.SkipFrom(lines, 0)]), '-')
    ensures var here := P.State(lines, P.SkipFrom(lines, 0));
            && P.SkipFrom(lines, here.pos) == here.pos
            && P.Document(lines) == Dict(P.Mapping(here, Indent(lines[here.pos]), []).value)
  {
    hide Strip, Content, Indent, Ignorable, P.Mapping, P.Sequence;
    var p := P.SkipFrom(lines, 0);
    assert P.SkipFrom(lines, p) == p;
  }

  lemma TwoChunks(a: seq<string>, b: seq<string>)
    ensures OccursAt(a + b, 0, a) && OccursAt(a + b, |a|, b) && (a + b)[|a|..] == b
  {}

  const BREAKS := {
    "\n", "\r\n", "\r", "\U{000B}", "\U{000C}", "\U{001C}", "\U{001D}", "\U{001E}", "\U{0085}", "\U{2028}", "\U{2029}"}

  /** Lines, each followed by its end. */
  function Ended(lines: seq<string>, ends: seq<string>): string
    requires |lines| == |ends|
  {
    if lines == [] then [] else lines[0] + (ends[0] + Ended(lines[1..], ends[1..]))
  }

  ghost predicate BreakFree(line: string) {
    forall i :: 0 <= i < |line| ==> !P.IsBreak(line[i])
  }

  /** Every line is ended, but for a last one that is not empty; a carriage return does not meet a
      line feed. */
  ghost predicate EndsOk(lines: seq<string>, ends: seq<string>) {
    && |lines| == |ends|
    && (lines != [] ==>
          && BreakFree(lines[0])
          && (ends[0] in BREAKS || (ends[0] == [] && |lines| == 1 && lines[0] != []))
          && (ends[0] == "\r" && |lines| > 1 && lines[1] == [] && ends[1] != [] ==> ends[1][0] != '\n')
          && EndsOk(lines[1..], ends[1..]))
  }

  lemma BreaksListed(c: char)
    ensures P.IsBreak(c) <==> [c] in BREAKS
  {
    assert forall b :: b in BREAKS && b == [c] ==> b[0] == c;
  }

  lemma EndIsBreak(end: string)
    requires end in BREAKS
    ensures P.IsBreak(end[0]) && |end| == (if end == "\r\n" then 2 else 1) && (end[0] == '\r' ==> end in {"\r", "\r\n"})
  {}

  lemma EndedStart(lines: seq<string>, ends: seq<string>)
    requires EndsOk(lines, ends)
    ensures var text := Ended(lines, ends);
            text != [] && text[0] == '\n' ==> lines != [] && lines[0] == [] && ends[0] != [] && ends[0][0] == '\n'
  {
    hide P.IsBreak;
    BreaksListed('\n');
    if lines != [] && lines[0] != [] {
      assert Ended(lines, ends)[0] == lines[0][0];
    }
  }

  lemma SplitOne(line: string, end: string, rest: string)
    requires BreakFree(line) && end in BREAKS && (end == "\r" && rest != [] ==> rest[0] != '\n')
    ensures P.SplitLines(line + (end + rest)) == [line] + P.SplitLines(rest)
  {
    hide P.IsBreak, BREAKS, P.LineLength, BreakFree;
    var text, n := line + (end + rest), |line|;
    EndIsBreak(end);
    LineEnds(line, end + rest);
    assert text[n] == end[0] && (n + 1 < |text| ==> text[n + 1] == if |end| == 2 then end[1] else rest[0]);
    assert text[..n] == line && text[n + |end|..] == rest;
  }

  lemma LineEnds(line: string, tail: string)
    requires BreakFree(line) && tail != [] && P.IsBreak(tail[0])
    ensures P.LineLength(line + tail) == |line|
  {
    hide P.IsBreak, P.LineLength;
    var text := line + tail;
    assert text[|line|] == tail[0] && forall i :: 0 <= i < |line| ==> text[i] == line[i];
  }

  lemma SplitLast(line: string)
    requires BreakFree(line) && line != []
    ensures P.SplitLines(line) == [line]
  {
    hide P.IsBreak;
    assert P.LineLength(line) == |line|;
  }

  /** `splitlines` gives back the lines, however they are ended. */
  lemma {:induction false} SplitEnded(lines: seq<string>, ends: seq<string>)
    requires EndsOk(lines, ends)
    ensures P.SplitLines(Ended(lines, ends)) == lines
  {
    hide P.IsBreak, P.SplitLines, BREAKS, BreakFree;
    if lines == [] {
      assert P.SplitLines([]) == [] by { NoLines(); }
    } else {
      var line, end, rest := lines[0], ends[0], Ended(lines[1..], ends[1..]);
      assert lines == [line] + lines[1..];
      if end == [] {
        EndsShow();
        assert lines[1..] == [] && line + (end + rest) == line;
        SplitLast(line);
      } else {
        SplitEnded(lines[1..], ends[1..]);
        EndedStart(lines[1..], ends[1..]);
        SplitOne(line, end, rest);
      }
    }
  }

  lemma NoLines()
    ensures P.SplitLines([]) == []
  {}

  lemma EndsShow()
    ensures [] !in BREAKS
  {}

  // ---------- when reading loses nothing ----------

  /** Keys are distinct, block headers stand on one line, and flow elements can be printed. */
  ghost predicate Regular(value: Layout)
    decreases value
  {
    match value
    case Flow(pad, parts) => FlowOk(pad, parts)
    case Literal(header, _, _) => '\n' !in header && !Ignorable(header)
    case Map(_, entries) => RegularEntries(entries)
    case Seq(_, items) => forall i :: 0 <= i < |items| ==> Regular(items[i].value)
    case _ => true
  }

  ghost predicate RegularEntries(entries: seq<Entry>)
    decreases entries
  {
    KeysDiffer(entries) && forall i :: 0 <= i < |entries| ==> Regular(entries[i].value)
  }

  /** Read back as printed, standing `last` in the document or not: absent items end their
      sequences, no compact item starts with a quoted key, no flow element holds a comma, and no
      item is a block scalar, but for one at the end of the document that holds its own header. */
  ghost predicate ReadsBack(value: Layout, last: bool)
    decreases value, 0
  {
    match value
    case Flow(_, parts) => NoCommas(parts)
    case Map(_, entries) => ReadsBackEntries(entries, last)
    case Seq(_, items) => ReadsBackItems(items, last)
    case _ => true
  }

  ghost predicate ReadsBackEntries(entries: seq<Entry>, last: bool)
    decreases entries
  {
    forall i :: 0 <= i < |entries| ==> ReadsBack(entries[i].value, last && i == |entries| - 1)
  }

  ghost predicate ReadsBackItem(value: Layout, last: bool)
    decreases value, 1
  {
    if value.Literal? then last && value.body == [Text(value.header)] else !QuotedFirst(value) && ReadsBack(value, last)
  }

  ghost predicate ReadsBackItems(items: seq<Item>, last: bool)
    decreases items
  {
    forall i :: 0 <= i < |items| ==>
      && ReadsBackItem(items[i].value, last && i == |items| - 1)
      && (items[i].value.Absent? ==> i == |items| - 1)
  }

  /** The entries read, in the order of the text. */
  function ReadPairs(entries: seq<Entry>): seq<(string, Value)> {
    if entries == [] then []
    else
      [(entries[0].key.name, Read(entries[0].value))]
      + if Stops(entries[0].value) then [] else ReadPairs(entries[1..])
  }

  ghost predicate KeysDiffer(entries: seq<Entry>) {
    forall i, j :: 0 <= i < j < |entries| ==> entries[i].key.name != entries[j].key.name
  }

  ghost predicate NewKeys(acc: seq<(string, Value)>, entries: seq<Entry>) {
    forall i, j :: 0 <= i < |acc| && 0 <= j < |entries| ==> acc[i].0 != entries[j].key.name
  }

  lemma NewKeysStep(acc: seq<(string, Value)>, entries: seq<Entry>, value: Value)
    requires entries != [] && KeysDiffer(entries) && NewKeys(acc, entries)
    ensures KeysDiffer(entries[1..]) && NewKeys(acc + [(entries[0].key.name, value)], entries[1..])
    ensures forall i :: 0 <= i < |acc| ==> acc[i].0 != entries[0].key.name
  {
    var rest := entries[1..];
    assert forall j :: 0 <= j < |rest| ==> rest[j] == entries[j + 1];
  }

  /** With distinct keys, filling a dictionary lists the entries in order. */
  lemma {:induction false} ReadDistinct(acc: seq<(string, Value)>, entries: seq<Entry>)
    requires KeysDiffer(entries) && NewKeys(acc, entries)
    ensures ReadEntries(acc, entries) == acc + ReadPairs(entries)
    decreases entries
  {
    hide Read, P.Put, Stops, KeysDiffer, NewKeys;
    if entries == [] {
      assert ReadPairs(entries) == [] && acc + [] == acc;
    } else {
      var pair, rest := (entries[0].key.name, Read(entries[0].value)), entries[1..];
      NewKeysStep(acc, entries, pair.1);
      P.PutNew(acc, pair.0, pair.1);
      if !Stops(entries[0].value) {
        ReadDistinct(acc + [pair], rest);
        AppendAssociates(acc, [pair], ReadPairs(rest));
      }
    }
  }

  /** The value is read as meant, and reading goes on behind it, exactly when it reads back. */
  lemma {:induction false} ReadExact(value: Layout, last: bool)
    requires Regular(value)
    ensures Read(value) == Meaning(value) && (Stops(value) ==> last) <==> ReadsBack(value, last)
    decreases value, 0
  {
    match value
    case Map(_, entries) =>
      ReadDistinct([], entries);
      assert [] + ReadPairs(entries) == ReadPairs(entries);
      ReadExactEntries(entries, last);
    case Seq(_, items) => ReadExactItems(items, last);
    case Flow(pad, parts) => FlowIs(pad, parts);
    case _ =>
  }

  lemma {:induction false} ReadExactEntries(entries: seq<Entry>, last: bool)
    requires forall i :: 0 <= i < |entries| ==> Regular(entries[i].value)
    ensures ReadPairs(entries) == MeaningEntries(entries) && (StopsEntries(entries) ==> last)
            <==> ReadsBackEntries(entries, last)
    decreases entries
  {
    hide Read, Meaning, Stops, Regular, ReadsBack;
    if entries != [] {
      var rest := entries[1..];
      var lastHere := last && rest == [];
      ReadExact(entries[0].value, lastHere);
      ReadExactEntries(rest, last);
      var first := entries[0].value;
      assert ReadsBackEntries(entries, last) <==> ReadsBack(first, lastHere) && ReadsBackEntries(rest, last) by {
        assert forall i :: 0 < i < |entries| ==> entries[i] == rest[i - 1];
        assert forall i :: 0 <= i < |rest| ==> rest[i] == entries[i + 1];
      }
      assert ReadPairs(entries)[0].1 == Read(first) && MeaningEntries(entries)[0].1 == Meaning(first);
      assert MeaningEntries(entries)[1..] == MeaningEntries(rest);
      if Stops(entries[0].value) {
        assert rest != [] ==> |MeaningEntries(entries)| > 1;
      } else {
        assert ReadPairs(entries)[1..] == ReadPairs(rest);
      }
    }
  }

  lemma ReadExactItem(value: Layout, last: bool)
    requires Regular(value)
    ensures ReadItem(value) == Meaning(value) && (StopsItem(value) ==> last) <==> ReadsBackItem(value, last)
    decreases value, 1
  {
    hide Regular, Unquoted, EntryHead, ReadsBack, Ignorable;
    if value.Literal? {
      HeaderOfRegular(value);
      LoneHeader(value.header, value.body);
    } else if !QuotedFirst(value) {
      ReadExact(value, last);
    }
  }

  lemma NothingIgnored()
    ensures Ignorable([])
  {
    StripBlank([]);
  }

  lemma HeaderOfRegular(value: Layout)
    requires Regular(value) && value.Literal?
    ensures '\n' !in value.header && !Ignorable(value.header)
  {}

  /** A block's text is one line only if it has one; and then the parser stops at it. */
  lemma LoneHeader(header: string, body: seq<BodyLine>)
    requires '\n' !in header && !Ignorable(header)
    ensures P.JoinLines(BodyText(body)) == header <==> body == [Text(header)]
    ensures body == [Text(header)] ==> HasContent(body)
  {
    hide Ignorable;
    assert Ignorable([]) by { NothingIgnored(); }
    if |body| == 1 {
      assert body == [body[0]] && BodyText(body[1..]) == [];
    } else if |body| > 1 {
      var first, rest := BodyText(body)[0], P.JoinLines(BodyText(body)[1..]);
      assert |BodyText(body[1..])| > 0;
      assert P.JoinLines(BodyText(body)) == first + "\n" + rest;
      assert (first + "\n" + rest)[|first|] == '\n';
    }
  }

  lemma {:induction false} ReadExactItems(items: seq<Item>, last: bool)
    requires forall i :: 0 <= i < |items| ==> Regular(items[i].value)
    ensures ReadItems(items) == MeaningItems(items) && (StopsItems(items) ==> last) <==> ReadsBackItems(items, last)
    decreases items
  {
    hide ReadItem, Meaning, StopsItem, Regular, ReadsBackItem;
    if items != [] {
      var rest := items[1..];
      var first := items[0].value;
      var lastHere := last && rest == [];
      assert MeaningItems(items)[0] == Meaning(first) && MeaningItems(items)[1..] == MeaningItems(rest);
      if first.Absent? && rest != [] {
        assert ReadItems(items)[0].List?;
        AbsentMeans();
      } else {
        ReadExactItem(first, lastHere);
        ReadExactItems(rest, last);
        assert ReadsBackItems(items, last) <==> ReadsBackItem(first, lastHere) && ReadsBackItems(rest, last) by {
          assert forall i :: 0 < i < |items| ==> items[i] == rest[i - 1];
          assert forall i :: 0 <= i < |rest| ==> rest[i] == items[i + 1];
        }
        assert ReadItems(items)[0] == ReadItem(first);
        if StopsItem(first) {
          assert rest != [] ==> |MeaningItems(items)| > 1;
        } else {
          assert ReadItems(items)[1..] == ReadItems(rest);
        }
      }
    }
  }

  lemma AbsentMeans()
    ensures Meaning(Absent) == Null
  {}

  /** Print, then parse: the same tree comes back if and only if the layout reads back. */
  lemma RoundTrip(entries: seq<Entry>, n: nat, trailing: seq<string>, ends: seq<string>)
    requires entries != [] && EntriesOk(entries, n, None) && RegularEntries(entries)
    requires NoiseOk(trailing, OpenEntries(entries, n))
    requires EndsOk(PrintEntries(entries, n) + trailing, ends)
    ensures var text := Ended(PrintEntries(entries, n) + trailing, ends);
            P.Document(P.SplitLines(text)) == Dict(MeaningEntries(entries)) <==> ReadsBackEntries(entries, true)
  {
    hide EntriesOk, PrintEntries, NoiseOk, P.Document, P.SplitLines, EndsOk;
    PrintedReads(entries, n, trailing);
    SplitEnded(PrintEntries(entries, n) + trailing, ends);
    ReadExact(Map(0, entries), true);
  }

  // ---------- documents that are misread ----------

  /** A key as it is usually written. */
  function Plainly(name: string): Key {
    Bare(name, [], " ")
  }

  predicate IsLower(c: char) { 'a' <= c <= 'z' }

  ghost predicate IsLetters(s: string) {
    s != [] && forall i :: 0 <= i < |s| ==> IsLower(s[i])
  }

  lemma {:induction false} LettersScan(s: string, i: nat)
    requires IsLetters(s) && i <= |s|
    ensures Scans(s, i, None)
    decreases |s| - i
  {
    if i < |s| {
      LettersScan(s, i + 1);
    }
  }

  lemma LettersPlain(s: string)
    requires IsLetters(s)
    ensures KeyOk(Plainly(s)) && PlainItem(s) && PlainValue(s) && !IsBlank(s) && !Ignorable(s)
  {
    LettersScan(s, 0);
    StripAlone(s);
  }

  lemma LetterPlain(c: char)
    requires IsLower(c)
    ensures KeyOk(Plainly([c])) && PlainItem([c]) && PlainValue([c]) && !IsBlank([c]) && !Ignorable([c])
  {
    LettersPlain([c]);
  }

  /** A document of one line. */
  lemma OneEntry(key: Key, value: Layout)
    requires KeyOk(key) && ValueOk(value, 0) && PrintBelow(value, 0) == [] && Open(value, 0) == None && !Stops(value)
    ensures P.Document([EntryText(key, Head(value))]) == Dict([(key.name, Read(value))])
  {
    hide P.Document, KeyOk, EntryText, ValueOk, PrintBelow, Open, Stops, Read, Head;
    var entries := [Entry([], key, value, [])];
    var line := EntryText(key, Head(value));
    assert entries[1..] == [] && Spaces(0) + line + [] == line;
    assert PrintEntries(entries, 0) + [] == [line];
    assert NoiseOk([], None) by { NoNoise(); }
    assert EntriesOk(entries[1..], 0, Open(value, 0));
    assert EntriesOk(entries, 0, None);
    PrintedReads(entries, 0, []);
  }

  /** `branches: [main]`, as the guarded workflow has it. */
  lemma BranchesRead()
    ensures P.Document(["branches: [main]"]) == Dict([("branches", List([Scalar("main")]))])
  {
    hide P.Document, KeyOk, EntryText, ValueOk, Head, Read;
    LettersPlain("branches");
    BranchesShown();
    MainRead();
    OneEntry(Plainly("branches"), Flow([], [Part([], "main", [])]));
  }

  lemma BranchesShown()
    ensures EntryText(Plainly("branches"), "[main]") == "branches: [main]"
  {
    assert "branches" + [] == "branches" && [':'] + (" " + "[main]") == ": [main]";
  }

  lemma OneWordFlow(word: string)
    requires IsLetters(word)
    ensures var value := Flow([], [Part([], word, [])]);
            ValueOk(value, 0) && Head(value) == ['['] + (word + [']']) && Read(value) == List([Scalar(word)])
  {
    hide Scans, ParseScalar;
    var part := Part([], word, []);
    LettersPlain(word);
    NoBlanks();
    assert Joined([part]) == word && [] + word == word;
    assert [part][1..] == [] && word[0] !in QUOTES;
    assert NoCommas([part]) && Unquoted(word) == word;
    assert PartsMean([part]) == [Scalar(word)];
  }

  lemma MainRead()
    ensures var value := Flow([], [Part([], "main", [])]);
            ValueOk(value, 0) && Head(value) == "[main]" && Read(value) == List([Scalar("main")])
  {
    hide ValueOk, Head, Read;
    OneWordFlow("main");
  }

  /** A sequence under the key `k`, as text and as read. */
  lemma UnderKey(items: seq<Item>)
    requires items != [] && ItemsOk(items, 2, None)
    ensures P.Document(["k:"] + PrintItems(items, 2)) == Dict([("k", List(ReadItems(items)))])
  {
    hide PrintItems, ItemsOk, ReadItems, OpenItems, StopsItems, P.Document, KeyOk;
    var value := Seq(2, items);
    var entries := [Entry([], Plainly("k"), value, [])];
    assert entries[1..] == [];
    LetterPlain('k');
    assert Spaces(0) + EntryText(Plainly("k"), []) + [] == "k:";
    assert PrintEntries(entries[1..], 0) == [] && PrintBelow(value, 0) == PrintItems(items, 2);
    assert PrintEntries(entries, 0) + [] == ["k:"] + PrintItems(items, 2);
    assert EntriesOk(entries[1..], 0, Open(value, 0)) && ValueOk(value, 0) && NoiseOk([], None);
    assert EntriesOk(entries, 0, None);
    PrintedReads(entries, 0, []);
    assert ReadEntries([], entries) == [("k", Read(value))];
  }

  /** `k:` over the items `-` and `- x` is read as a list holding a list. */
  lemma AbsentItemMisread()
    ensures P.Document(["k:", "  -", "  - x"]) == Dict([("k", List([List([Scalar("x")])]))])
  {
    hide P.Document, NoiseOk, PlainItem;
    var items := [Item([], Absent, []), Item([], Plain("x"), [])];
    LetterPlain('x');
    assert items[1..] == [items[1]] && items[1..][1..] == [];
    assert NoiseOk([], None) by { NoNoise(); }
    assert Spaces(2) + "-" + [] == "  -" && Spaces(2) + DashText(1, "x") + [] == "  - x";
    assert PrintItems(items[1..], 2) == ["  - x"] && ["k:"] + PrintItems(items, 2) == ["k:", "  -", "  - x"];
    assert ItemsOk(items[1..], 2, None);
    UnderKey(items);
    assert ReadItems(items[1..]) == [Scalar("x")];
  }

  lemma NoNoise()
    ensures NoiseOk([], None)
  {}

  lemma BarIsHeader()
    ensures BlockHeader("|")
  {
    assert Scans("|", 1, None);
  }

  /** A block scalar as an item is read as its bar. */
  lemma BlockItemMisread()
    ensures P.Document(["k:", "  - |", "    x"]) == Dict([("k", List([Scalar("|")]))])
  {
    hide P.Document, NoiseOk, BlockHeader, Ignorable;
    var body := [Text("x")];
    var items := [Item([], Literal("|", 1, body), [])];
    LetterPlain('x');
    BarIsHeader();
    assert items[1..] == [] && body[1..] == [];
    assert NoiseOk([], None) by { NoNoise(); }
    assert BodyOk(body, true) && ItemsOk(items[1..], 2, Some(2));
    assert Spaces(2) + DashText(1, "|") + [] == "  - |" && Spaces(4) + "x" == "    x";
    assert PrintBody(body, 4) == ["    x"] && ["k:"] + PrintItems(items, 2) == ["k:", "  - |", "    x"];
    UnderKey(items);
    assert ReadItems(items) == [ReadItem(items[0].value)];
  }

  /** A compact item whose first key is quoted is read as its line, and what follows it is lost. */
  lemma QuotedKeyMisread()
    ensures P.Document(["k:", "  - 'a': x", "    b: y", "  - z"]) == Dict([("k", List([Scalar("'a': x")]))])
  {
    hide P.Document, NoiseOk, EntriesOk, PrintItem, ReadItem, StopsItem, PlainItem, KeyOk, ItemOk;
    var a, b := Entry([], Quoted('\'', "a", [], " "), Plain("x"), []), Entry([], Plainly("b"), Plain("y"), []);
    var quoted := Map(0, [a, b]);
    var items := [Item([], quoted, []), Item([], Plain("z"), [])];
    QuotedItem(a, b);
    LastItem();
    assert items[1..] == [Item([], Plain("z"), [])];
    assert NoiseOk([], None) by { NoNoise(); }
    assert PrintItems(items, 2) == ["  - 'a': x", "    b: y", "  - z"];
    assert ["k:"] + PrintItems(items, 2) == ["k:", "  - 'a': x", "    b: y", "  - z"];
    assert ItemsOk(items, 2, None);
    UnderKey(items);
    assert ReadItems(items) == [ReadItem(quoted)];
  }

  lemma LastItem()
    ensures var last := [Item([], Plain("z"), [])]; ItemsOk(last, 2, None) && PrintItems(last, 2) == ["  - z"]
  {
    hide NoiseOk, PlainItem;
    var last := [Item([], Plain("z"), [])];
    LetterPlain('z');
    assert NoiseOk([], None) by { NoNoise(); }
    assert last[1..] == [] && Spaces(2) + DashText(1, "z") + [] == "  - z";
  }

  lemma QuotedItem(a: Entry, b: Entry)
    requires a == Entry([], Quoted('\'', "a", [], " "), Plain("x"), []) && b == Entry([], Plainly("b"), Plain("y"), [])
    ensures var value := Map(0, [a, b]);
            && PrintItem(value, 2, []) == ["  - 'a': x", "    b: y"]
            && ItemOk(value, 2) && OpenItem(value, 2) == None
            && StopsItem(value) && ReadItem(value) == Scalar("'a': x")
  {
    hide EntriesOk, OpenEntries, PrintEntries, ReadEntries, StopsEntries, EntryHead;
    TwoEntries(a, b);
    assert Spaces(2) + DashText(1, "'a': x") + [] == "  - 'a': x";
    assert Unquoted("'a': x") == "'a': x";
  }

  lemma TwoEntries(a: Entry, b: Entry)
    requires a == Entry([], Quoted('\'', "a", [], " "), Plain("x"), []) && b == Entry([], Plainly("b"), Plain("y"), [])
    ensures EntriesOk([a, b], 4, None) && OpenEntries([a, b], 4) == None
    ensures EntryHead(a) == "'a': x" && [a, b][1..] == [b] && PrintEntries([b], 4) == ["    b: y"]
  {
    hide NoiseOk, KeyOk, PlainValue, EntryHead, Spaces, Tame;
    LetterPlain('x');
    LetterPlain('y');
    LetterPlain('b');
    TwoHeads(a, b);
    assert NoiseOk([], None) by { NoNoise(); }
    assert [b][1..] == [] && [a, b][1..] == [b];
    assert EntriesOk([b], 4, None);
  }

  lemma TwoHeads(a: Entry, b: Entry)
    requires a == Entry([], Quoted('\'', "a", [], " "), Plain("x"), []) && b == Entry([], Plainly("b"), Plain("y"), [])
    ensures KeyOk(a.key) && EntryHead(a) == "'a': x" && EntryHead(b) == "b: y"
    ensures Spaces(4) + EntryHead(b) + [] == "    b: y"
  {
    assert InQuotes('\'', "a") == "'a'" && ([':'] + Tail(a.key, "x")) == ": x";
    assert ([':'] + Tail(b.key, "y")) == ": y";
  }
}
