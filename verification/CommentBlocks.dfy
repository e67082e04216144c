/**
 Comment blocks of `scripts/check_comment_budget.py`: `measure`, `_facts_from_scan` and the R3
 rule group adjacent comment spans with three copies of the same loop.
 */
module CommentBlocks {
  import opened Text

  /** A comment's first and last line, and its words. */
  datatype Span = Span(start: int, end: int, words: nat)

  /** A run of spans: first line and last line. */
  datatype Block = Block(start: int, end: int) {
    function Extent(): int { end - start + 1 }
  }

  // ---------- blocks, declaratively ----------

  /** The next comment starts on the line after the previous one ends. */
  predicate Adjacent(a: Span, b: Span) {
    b.start == a.end + 1
  }

  /** `[i, j]` is a maximal run of adjacent spans. */
  ghost predicate MaximalRun(spans: seq<Span>, i: int, j: int) {
    && 0 <= i <= j < |spans|
    && (forall k :: i <= k < j ==> Adjacent(spans[k], spans[k + 1]))
    && (i > 0 ==> !Adjacent(spans[i - 1], spans[i]))
    && (j < |spans| - 1 ==> !Adjacent(spans[j], spans[j + 1]))
  }

  /** `blocks` lists the maximal runs `runs`, in order and without gaps. */
  ghost predicate Partitions(spans: seq<Span>, runs: seq<(int, int)>, blocks: seq<Block>) {
    && |runs| == |blocks|
    && (forall k :: 0 <= k < |runs| ==>
          && MaximalRun(spans, runs[k].0, runs[k].1)
          && blocks[k] == Block(spans[runs[k].0].start, spans[runs[k].1].end))
    && (forall k :: 0 <= k < |runs| - 1 ==> runs[k + 1].0 == runs[k].1 + 1)
    && (if spans == [] then runs == [] else runs != [] && runs[0].0 == 0 && runs[|runs| - 1].1 == |spans| - 1)
  }

  // ---------- blocks, as the loops compute them ----------

  /** The blocks closed so far and the block being extended, after the first `n` spans. */
  datatype Progress = Progress(closed: seq<Block>, current: Option<Block>)

  function After(spans: seq<Span>, n: nat): Progress
    requires n <= |spans|
  {
    if n == 0 then Progress([], None)
    else
      var p := After(spans, n - 1);
      var s := spans[n - 1];
      if n > 1 && Adjacent(spans[n - 2], s) && p.current.Some? then
        Progress(p.closed, Some(Block(p.current.value.start, s.end)))
      else
        Progress(p.closed + (if p.current.Some? then [p.current.value] else []), Some(Block(s.start, s.end)))
  }

  function Blocks(spans: seq<Span>): seq<Block> {
    var p := After(spans, |spans|);
    p.closed + (if p.current.Some? then [p.current.value] else [])
  }

  function Longest(blocks: seq<Block>): int {
    if blocks == [] then 0
    else
      var l := Longest(blocks[..|blocks| - 1]);
      var e := blocks[|blocks| - 1].Extent();
      if l >= e then l else e
  }

  function Lines(spans: seq<Span>): int {
    if spans == [] then 0
    else Lines(spans[..|spans| - 1]) + (spans[|spans| - 1].end - spans[|spans| - 1].start + 1)
  }

  function Words(spans: seq<Span>): nat {
    if spans == [] then 0 else Words(spans[..|spans| - 1]) + spans[|spans| - 1].words
  }

  /** Lines and words are summed over the spans. */
  lemma {:induction false} SumsJoin(a: seq<Span>, b: seq<Span>)
    ensures Lines(a + b) == Lines(a) + Lines(b) && Words(a + b) == Words(a) + Words(b)
  {
    if b == [] {
      assert a + b == a;
    } else {
      var init := b[..|b| - 1];
      assert (a + b)[..|a + b| - 1] == a + init;
      SumsJoin(a, init);
    }
  }

  lemma SumsOfOne(s: Span)
    ensures Lines([]) == 0 && Words([]) == 0
    ensures Lines([s]) == s.end + 1 - s.start && Words([s]) == s.words
  {
    assert [s][..0] == [];
  }

  datatype Counts = Counts(lines: int, words: nat, blocks: nat, longest: int)

  function CountsOf(spans: seq<Span>): Counts {
    Counts(Lines(spans), Words(spans), |Blocks(spans)|, Longest(Blocks(spans)))
  }

  // ---------- the three loops ----------

  /** What the running variables hold after `n` spans. */
  ghost predicate Running(spans: seq<Span>, n: nat, previous: Option<int>, start: Option<int>, end: int) {
    && n <= |spans|
    && previous == (if n == 0 then None else Some(spans[n - 1].end))
    && (start.Some? <==> n > 0)
    && After(spans, n).current == if start.Some? then Some(Block(start.value, end)) else None
  }

  lemma RunningStarts(spans: seq<Span>)
    ensures Running(spans, 0, None, None, 0) && After(spans, 0).closed == [] && Longest([]) == 0
  {}

  /** One turn of the loops: the span extends the current block, or closes it and opens the next. */
  lemma RunningStep(spans: seq<Span>, i: nat, previous: Option<int>, start: Option<int>, end: int)
    requires i < |spans| && Running(spans, i, previous, start, end)
    ensures var s, closed := spans[i], After(spans, i).closed;
            if previous.Some? && s.start == previous.value + 1 then
              Running(spans, i + 1, Some(s.end), start, s.end) && After(spans, i + 1).closed == closed
            else
              && Running(spans, i + 1, Some(s.end), Some(s.start), s.end)
              && After(spans, i + 1).closed == if start.Some? then closed + [Block(start.value, end)] else closed
  {}

  lemma RunningEnds(spans: seq<Span>, previous: Option<int>, start: Option<int>, end: int)
    requires Running(spans, |spans|, previous, start, end)
    ensures var closed := After(spans, |spans|).closed;
            Blocks(spans) == if start.Some? then closed + [Block(start.value, end)] else closed
  {}

  /** `measure`: the counts in one loop, the blocks in a second. */
  method Measure(spans: seq<Span>) returns (r: Counts)
    ensures r == CountsOf(spans)
  {
    hide Longest, After, Running, Blocks;
    var lines, words := 0, 0;
    for i := 0 to |spans|
      invariant lines == Lines(spans[..i]) && words == Words(spans[..i])
    {
      assert spans[..i + 1][..i] == spans[..i];
      lines := lines + (spans[i].end - spans[i].start + 1);
      words := words + spans[i].words;
    }
    assert spans[..|spans|] == spans;
    var blocks, longest := 0, 0;
    var previous: Option<int>, start: Option<int>, end := None, None, 0;
    RunningStarts(spans);
    for i := 0 to |spans|
      invariant Running(spans, i, previous, start, end)
      invariant blocks == |After(spans, i).closed| && longest == Longest(After(spans, i).closed)
    {
      RunningStep(spans, i, previous, start, end);
      if previous.Some? && spans[i].start == previous.value + 1 {
        end := spans[i].end;
      } else {
        if start.Some? {
          blocks := blocks + 1;
          longest := Max(longest, end - start.value + 1);
          LongestGrows(After(spans, i).closed, Block(start.value, end));
        }
        start, end := Some(spans[i].start), spans[i].end;
      }
      previous := Some(spans[i].end);
    }
    RunningEnds(spans, previous, start, end);
    if start.Some? {
      blocks := blocks + 1;
      longest := Max(longest, end - start.value + 1);
      LongestGrows(After(spans, |spans|).closed, Block(start.value, end));
    }
    return Counts(lines, words, blocks, longest);
  }

  /** `_facts_from_scan`: everything in one loop. */
  method FactsFromScan(spans: seq<Span>) returns (r: Counts)
    ensures r == CountsOf(spans)
  {
    hide Longest, After, Running, Blocks;
    var lines, words, blocks, longest := 0, 0, 0, 0;
    var previous: Option<int>, start: Option<int>, end := None, None, 0;
    RunningStarts(spans);
    for i := 0 to |spans|
      invariant lines == Lines(spans[..i]) && words == Words(spans[..i])
      invariant Running(spans, i, previous, start, end)
      invariant blocks == |After(spans, i).closed| && longest == Longest(After(spans, i).closed)
    {
      RunningStep(spans, i, previous, start, end);
      assert spans[..i + 1][..i] == spans[..i];
      lines := lines + (spans[i].end - spans[i].start + 1);
      words := words + spans[i].words;
      if previous.Some? && spans[i].start == previous.value + 1 {
        end := spans[i].end;
      } else {
        if start.Some? {
          blocks := blocks + 1;
          longest := Max(longest, end - start.value + 1);
          LongestGrows(After(spans, i).closed, Block(start.value, end));
        }
        start, end := Some(spans[i].start), spans[i].end;
      }
      previous := Some(spans[i].end);
    }
    assert spans[..|spans|] == spans;
    RunningEnds(spans, previous, start, end);
    if start.Some? {
      blocks := blocks + 1;
      longest := Max(longest, end - start.value + 1);
      LongestGrows(After(spans, |spans|).closed, Block(start.value, end));
    }
    return Counts(lines, words, blocks, longest);
  }

  /** Oversized blocks whose starting line is not exempt. */
  function Oversized(blocks: seq<Block>, limit: int, exempt: set<int>): seq<Block> {
    if blocks == [] then []
    else
      var b := blocks[|blocks| - 1];
      Oversized(blocks[..|blocks| - 1], limit, exempt)
      + (if b.Extent() > limit && b.start + 1 !in exempt then [b] else [])
  }

  /** Rule R3 on one file: `_check_block` on every block. */
  method CheckBlocks(spans: seq<Span>, limit: int, exempt: set<int>) returns (violations: seq<Block>)
    ensures violations == Oversized(Blocks(spans), limit, exempt)
  {
    hide After, Running, Blocks, Oversized;
    violations := [];
    var previous: Option<int>, start: Option<int>, end := None, None, 0;
    RunningStarts(spans);
    NoneOversized(limit, exempt);
    for i := 0 to |spans|
      invariant Running(spans, i, previous, start, end)
      invariant violations == Oversized(After(spans, i).closed, limit, exempt)
    {
      RunningStep(spans, i, previous, start, end);
      if previous.Some? && spans[i].start == previous.value + 1 {
        end := spans[i].end;
      } else {
        if start.Some? {
          OversizedGrows(After(spans, i).closed, Block(start.value, end), limit, exempt);
          violations := CheckBlock(violations, start.value, end, limit, exempt);
        }
        start, end := Some(spans[i].start), spans[i].end;
      }
      previous := Some(spans[i].end);
    }
    RunningEnds(spans, previous, start, end);
    if start.Some? {
      OversizedGrows(After(spans, |spans|).closed, Block(start.value, end), limit, exempt);
      violations := CheckBlock(violations, start.value, end, limit, exempt);
    }
  }

  lemma NoneOversized(limit: int, exempt: set<int>)
    ensures Oversized([], limit, exempt) == []
  {}

  method CheckBlock(violations: seq<Block>, start: int, end: int, limit: int, exempt: set<int>) returns (r: seq<Block>)
    ensures var b := Block(start, end);
            r == violations + if b.Extent() > limit && start + 1 !in exempt then [b] else []
  {
    r := violations;
    var length := end - start + 1;
    if length <= limit { return; }
    if start + 1 !in exempt {
      r := r + [Block(start, end)];
    }
  }

  function Max(a: int, b: int): int {
    if a >= b then a else b
  }

  lemma LongestGrows(blocks: seq<Block>, b: Block)
    ensures Longest(blocks + [b]) == Max(Longest(blocks), b.Extent())
  {
    assert (blocks + [b])[..|blocks|] == blocks;
  }

  lemma OversizedGrows(blocks: seq<Block>, b: Block, limit: int, exempt: set<int>)
    ensures Oversized(blocks + [b], limit, exempt)
         == Oversized(blocks, limit, exempt) + if b.Extent() > limit && b.start + 1 !in exempt then [b] else []
  {
    assert (blocks + [b])[..|blocks|] == blocks;
  }

  // ---------- what the loops mean ----------

  lemma {:induction false} AfterPrefix(spans: seq<Span>, n: nat, m: nat)
    requires n <= m <= |spans|
    ensures After(spans, n) == After(spans[..m], n)
  {
    if n > 0 {
      AfterPrefix(spans, n - 1, m);
    }
  }

  /** Dropping the last span: how the blocks of the rest become the blocks of all. */
  lemma BlocksStep(spans: seq<Span>)
    requires spans != []
    ensures var n := |spans| - 1;
            var before, last := Blocks(spans[..n]), spans[n];
            Blocks(spans) ==
              if n > 0 && before != [] && Adjacent(spans[n - 1], last)
              then before[..|before| - 1] + [Block(before[|before| - 1].start, last.end)]
              else before + [Block(last.start, last.end)]
    ensures |spans| > 1 ==> Blocks(spans[..|spans| - 1]) != []
  {
    var n := |spans| - 1;
    AfterPrefix(spans, n, n);
    var p := After(spans, n);
    assert n > 0 ==> p.current.Some?;
  }

  lemma RunKept(spans: seq<Span>, last: Span, i: int, j: int)
    requires MaximalRun(spans, i, j)
    ensures 0 <= i <= j < |spans|
    ensures j < |spans| - 1 || !Adjacent(spans[j], last) ==> MaximalRun(spans + [last], i, j)
    ensures j == |spans| - 1 && Adjacent(spans[j], last) ==> MaximalRun(spans + [last], i, j + 1)
  {
    hide Adjacent;
    assert forall k :: 0 <= k < |spans| ==> (spans + [last])[k] == spans[k];
  }

  /** The new last span extends the last run. */
  lemma RunExtends(spans: seq<Span>, runs: seq<(int, int)>, blocks: seq<Block>, last: Span)
    requires spans != [] && Partitions(spans, runs, blocks) && Adjacent(spans[|spans| - 1], last)
    ensures var k := |runs| - 1;
            Partitions(spans + [last], runs[..k] + [(runs[k].0, |spans|)],
                       blocks[..k] + [Block(blocks[k].start, last.end)])
  {
    hide MaximalRun, Adjacent;
    forall i | 0 <= i < |runs|
      ensures 0 <= runs[i].0 <= runs[i].1 < |spans|
      ensures MaximalRun(spans + [last], runs[i].0, if i < |runs| - 1 then runs[i].1 else |spans|)
    {
      RunKept(spans, last, runs[i].0, runs[i].1);
      if i < |runs| - 1 {
        RunKept(spans, last, runs[i + 1].0, runs[i + 1].1);
      }
    }
  }

  /** The new last span starts a run of its own. */
  lemma RunStarts(spans: seq<Span>, runs: seq<(int, int)>, blocks: seq<Block>, last: Span)
    requires Partitions(spans, runs, blocks) && (spans != [] ==> !Adjacent(spans[|spans| - 1], last))
    ensures Partitions(spans + [last], runs + [(|spans|, |spans|)], blocks + [Block(last.start, last.end)])
  {
    hide MaximalRun, Adjacent;
    forall i | 0 <= i < |runs|
      ensures 0 <= runs[i].0 <= runs[i].1 < |spans| && MaximalRun(spans + [last], runs[i].0, runs[i].1)
    {
      RunKept(spans, last, runs[i].0, runs[i].1);
    }
    LoneRun(spans, last);
  }

  lemma LoneRun(spans: seq<Span>, last: Span)
    requires spans != [] ==> !Adjacent(spans[|spans| - 1], last)
    ensures MaximalRun(spans + [last], |spans|, |spans|)
  {}

  /** The loops find the maximal runs of adjacent spans, all of them, in order. */
  lemma {:induction false} BlocksPartition(spans: seq<Span>) returns (runs: seq<(int, int)>)
    ensures Partitions(spans, runs, Blocks(spans))
  {
    hide Blocks, Adjacent, MaximalRun;
    if spans == [] {
      runs := [];
      assert Blocks([]) == [] by { NoBlocks(); }
    } else {
      var n := |spans| - 1;
      var init, last := spans[..n], spans[n];
      assert spans == init + [last];
      var before := BlocksPartition(init);
      BlocksStep(spans);
      if n > 0 && Adjacent(spans[n - 1], last) {
        RunExtends(init, before, Blocks(init), last);
        runs := before[..|before| - 1] + [(before[|before| - 1].0, n)];
      } else {
        RunStarts(init, before, Blocks(init), last);
        runs := before + [(n, n)];
      }
    }
  }

  lemma NoBlocks()
    ensures Blocks([]) == []
  {}

  /** Every maximal run is one of those listed, so the number of blocks is the number of runs. */
  lemma EveryRunListed(spans: seq<Span>, runs: seq<(int, int)>, blocks: seq<Block>, i: int, j: int)
    requires Partitions(spans, runs, blocks) && MaximalRun(spans, i, j)
    ensures (i, j) in runs
  {
    var k := 0;
    while k < |runs| - 1 && runs[k + 1].0 <= i
      invariant 0 <= k < |runs| && runs[k].0 <= i
    {
      k := k + 1;
    }
    SameRun(spans, runs[k].0, runs[k].1, i, j);
    assert runs[k] == (i, j);
  }

  /** Maximal runs that share a span are the same run. */
  lemma SameRun(spans: seq<Span>, a: int, b: int, i: int, j: int)
    requires MaximalRun(spans, a, b) && MaximalRun(spans, i, j) && a <= i <= b
    ensures i == a && j == b
  {
    hide Adjacent;
  }

  lemma {:induction false} LongestIsLargest(blocks: seq<Block>)
    ensures Longest(blocks) >= 0
    ensures forall b :: b in blocks ==> b.Extent() <= Longest(blocks)
    ensures Longest(blocks) == 0 || exists b :: b in blocks && b.Extent() == Longest(blocks)
  {
    if blocks != [] {
      LongestIsLargest(blocks[..|blocks| - 1]);
      assert blocks == blocks[..|blocks| - 1] + [blocks[|blocks| - 1]];
    }
  }

  lemma {:induction false} OversizedMeans(blocks: seq<Block>, limit: int, exempt: set<int>)
    ensures forall b :: b in Oversized(blocks, limit, exempt) <==>
              b in blocks && b.Extent() > limit && b.start + 1 !in exempt
  {
    if blocks != [] {
      OversizedMeans(blocks[..|blocks| - 1], limit, exempt);
      assert blocks == blocks[..|blocks| - 1] + [blocks[|blocks| - 1]];
    }
  }

  /** With no exemptions, R3 fires for a file if and only if its longest block is over the limit. */
  lemma RuleThreeExact(spans: seq<Span>, limit: nat)
    ensures Oversized(Blocks(spans), limit, {}) != [] <==> CountsOf(spans).longest > limit
  {
    hide Blocks;
    var blocks := Blocks(spans);
    OversizedMeans(blocks, limit, {});
    LongestIsLargest(blocks);
    if Oversized(blocks, limit, {}) != [] {
      assert Oversized(blocks, limit, {})[0] in Oversized(blocks, limit, {});
    }
    if Longest(blocks) > limit {
      var b :| b in blocks && b.Extent() == Longest(blocks);
      assert b in Oversized(blocks, limit, {});
    }
  }
}
