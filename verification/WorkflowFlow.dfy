/**
 Flow sequences on one line: `[main, 'x y']`. The parser splits what stands between the brackets
 at every comma.
 */
module WorkflowFlow {
  import opened Text
  import opened WorkflowLexis
  import opened WorkflowPlain

  /** An element, and the blanks around it. */
  datatype Part = Part(before: string, text: string, after: string)

  function Padded(p: Part): string {
    p.before + (p.text + p.after)
  }

  function Joined(parts: seq<Part>): string {
    if parts == [] then []
    else if |parts| == 1 then Padded(parts[0])
    else Padded(parts[0]) + ([','] + Joined(parts[1..]))
  }

  function FlowText(pad: string, parts: seq<Part>): string {
    ['['] + ((pad + Joined(parts)) + [']'])
  }

  ghost predicate PartOk(p: Part) {
    OnlyBlanks(p.before) && OnlyBlanks(p.after) && Tame(p.text) && !IsFlow(p.text)
  }

  ghost predicate FlowOk(pad: string, parts: seq<Part>) {
    OnlyBlanks(pad) && forall i :: 0 <= i < |parts| ==> PartOk(parts[i])
  }

  /** An element is a plain scalar, or one between quotes. */
  function PartsMean(parts: seq<Part>): seq<Value> {
    if parts == [] then [] else [Scalar(Unquoted(parts[0].text))] + PartsMean(parts[1..])
  }

  predicate NoCommas(parts: seq<Part>) {
    forall i :: 0 <= i < |parts| ==> ',' !in parts[i].text
  }

  // ---------- a flow sequence on its line ----------

  lemma {:induction false} JoinedScans(parts: seq<Part>)
    requires forall i :: 0 <= i < |parts| ==> PartOk(parts[i])
    ensures Scans(Joined(parts), 0, None)
  {
    hide Scans, OnlyBlanks, Trimmed, IsFlow;
    if parts == [] {
      BlanksScan([], 0) by { NoBlanks(); }
    } else {
      var p := parts[0];
      BlanksScan(p.before, 0);
      BlanksScan(p.after, 0);
      ScansJoin(p.text, p.after, 0, None);
      ScansJoin(p.before, p.text + p.after, 0, None);
      if |parts| > 1 {
        JoinedScans(parts[1..]);
        OneScans(',');
        ScansJoin([','], Joined(parts[1..]), 0, None);
        ScansJoin(Padded(p), [','] + Joined(parts[1..]), 0, None);
      }
    }
  }

  lemma FlowTame(pad: string, parts: seq<Part>)
    requires FlowOk(pad, parts)
    ensures Tame(FlowText(pad, parts)) && IsFlow(FlowText(pad, parts)) && FlowText(pad, parts)[0] == '['
  {
    hide Scans, OnlyBlanks, PartOk, IsSpace, Joined;
    var inner := pad + Joined(parts);
    JoinedScans(parts);
    BlanksScan(pad, 0);
    ScansJoin(pad, Joined(parts), 0, None);
    OneScans('[');
    OneScans(']');
    ScansJoin(inner, [']'], 0, None);
    ScansJoin(['['], inner + [']'], 0, None);
    assert !IsSpace('[') && !IsSpace(']') by { BracketsShow(); }
  }

  lemma BracketsShow()
    ensures !IsSpace('[') && !IsSpace(']')
  {}

  // ---------- splitting ----------

  /** The blanks at both ends of the list are stripped with it. */
  function Tight(parts: seq<Part>): seq<Part>
    requires parts != []
  {
    TightEnd([parts[0].(before := [])] + parts[1..])
  }

  function TightEnd(parts: seq<Part>): seq<Part>
    requires parts != []
  {
    var n := |parts| - 1;
    parts[..n] + [parts[n].(after := [])]
  }

  lemma {:induction false} TightEndJoined(parts: seq<Part>)
    requires parts != []
    ensures Joined(parts) == Joined(TightEnd(parts)) + parts[|parts| - 1].after
  {
    var t := TightEnd(parts);
    var p := parts[0];
    if |parts| == 1 {
      assert Padded(p) == Padded(t[0]) + p.after;
    } else {
      var rest := parts[1..];
      TightEndJoined(rest);
      assert t[1..] == TightEnd(rest) && t[0] == p;
      AppendAssociates([','], Joined(TightEnd(rest)), parts[|parts| - 1].after);
      AppendAssociates(Padded(p), [','] + Joined(TightEnd(rest)), parts[|parts| - 1].after);
    }
  }

  lemma TightStartJoined(parts: seq<Part>)
    requires parts != []
    ensures Joined(parts) == parts[0].before + Joined([parts[0].(before := [])] + parts[1..])
  {
    hide Padded;
    var p := parts[0];
    var q := p.(before := []);
    var t := [q] + parts[1..];
    assert t[1..] == parts[1..];
    assert Padded(p) == p.before + Padded(q) by { TightPart(p); }
    if |parts| > 1 {
      AppendAssociates(p.before, Padded(q), [','] + Joined(parts[1..]));
    }
  }

  lemma TightPart(p: Part)
    ensures Padded(p) == p.before + Padded(p.(before := []))
  {}

  /** What is left starts with the first element and ends with the last. */
  lemma {:induction false} JoinedTrimmed(parts: seq<Part>)
    requires parts != [] && parts[|parts| - 1].after == [] && Trimmed(parts[|parts| - 1].text)
    ensures Joined(parts) != [] && !IsSpace(Joined(parts)[|Joined(parts)| - 1])
    ensures parts[0].before == [] && Trimmed(parts[0].text) ==> Trimmed(Joined(parts))
  {
    hide IsSpace, Padded;
    var p := parts[0];
    PaddedEnds(p);
    if |parts| > 1 {
      var rest := Joined(parts[1..]);
      JoinedTrimmed(parts[1..]);
      assert Joined(parts)[|Joined(parts)| - 1] == rest[|rest| - 1];
    }
    assert Padded(p) != [] ==> Joined(parts)[0] == Padded(p)[0];
  }

  lemma PaddedEnds(p: Part)
    ensures p.text != [] ==> Padded(p) != []
    ensures p.text != [] && p.before == [] ==> Padded(p)[0] == p.text[0]
    ensures p.text != [] && p.after == [] ==> Padded(p)[|Padded(p)| - 1] == p.text[|p.text| - 1]
  {}

  lemma InnerStripped(pad: string, parts: seq<Part>)
    requires FlowOk(pad, parts) && parts != []
    ensures Strip(pad + Joined(parts)) == Joined(Tight(parts))
  {
    hide IsSpace, Strip, Joined, Scans, IsFlow;
    var p, last := parts[0], parts[|parts| - 1];
    var s := [p.(before := [])] + parts[1..];
    var t := Tight(parts);
    TightStartJoined(parts);
    TightEndJoined(s);
    assert s[|s| - 1].after == last.after && s[|s| - 1].text == last.text && t[|t| - 1].text == last.text;
    assert t[0].before == [] && t[0].text == p.text;
    assert PartOk(p) && PartOk(last);
    JoinedTrimmed(t);
    BlanksAreSpace(pad);
    BlanksAreSpace(p.before);
    BlanksAreSpace(last.after);
    StripPadded(pad + p.before, Joined(t), last.after);
    assert pad + (p.before + (Joined(t) + last.after)) == (pad + p.before) + Joined(t) + last.after;
  }

  function Paddeds(parts: seq<Part>): seq<string> {
    if parts == [] then [] else [Padded(parts[0])] + Paddeds(parts[1..])
  }

  lemma {:induction false} JoinedSplits(parts: seq<Part>)
    requires parts != [] && forall i :: 0 <= i < |parts| ==> ',' !in Padded(parts[i])
    ensures SplitCommas(Joined(parts)) == Paddeds(parts)
  {
    hide Padded;
    SplitAtComma(Padded(parts[0]), Joined(parts[1..]));
    if |parts| == 1 {
      assert parts[1..] == [];
    } else {
      JoinedSplits(parts[1..]);
    }
  }

  lemma {:induction false} JoinedCommas(parts: seq<Part>)
    requires parts != []
    ensures Commas(Joined(parts)) >= |parts| - 1
    ensures Commas(Joined(parts)) == |parts| - 1 ==> forall i :: 0 <= i < |parts| ==> ',' !in Padded(parts[i])
  {
    hide Commas, Padded;
    var p := parts[0];
    CommaFree(Padded(p));
    if |parts| > 1 {
      JoinedCommas(parts[1..]);
      CommasAround(Padded(p), Joined(parts[1..]));
      assert forall i :: 1 <= i < |parts| ==> parts[i] == parts[1..][i - 1];
    }
  }

  // ---------- reading ----------

  lemma {:induction false} PaddedsRead(parts: seq<Part>, bound: nat)
    requires forall i :: 0 <= i < |parts| ==> PartOk(parts[i])
    requires forall s :: s in Paddeds(parts) ==> |s| < bound
    ensures ParseScalars(Paddeds(parts), bound) == PartsMean(parts)
    decreases parts
  {
    hide ParseScalar, OnlyBlanks, PartOk, Padded;
    if parts != [] {
      PartReads(parts[0]);
      assert Paddeds(parts)[1..] == Paddeds(parts[1..]);
      PaddedsRead(parts[1..], bound);
    }
  }

  lemma PartReads(p: Part)
    requires PartOk(p)
    ensures ParseScalar(Padded(p)) == Scalar(Unquoted(p.text))
  {
    hide IsSpace, Strip, Scans, Unquoted;
    BlanksAreSpace(p.before);
    BlanksAreSpace(p.after);
    StripPadded(p.before, p.text, p.after);
    assert p.before + p.text + p.after == Padded(p);
  }

  lemma InnerText(pad: string, parts: seq<Part>)
    ensures var s := FlowText(pad, parts); s[1..|s| - 1] == pad + Joined(parts)
  {}

  lemma TightKeeps(parts: seq<Part>)
    requires parts != [] && forall i :: 0 <= i < |parts| ==> PartOk(parts[i])
    ensures |Tight(parts)| == |parts|
    ensures forall i :: 0 <= i < |parts| ==> PartOk(Tight(parts)[i]) && Tight(parts)[i].text == parts[i].text
  {
    hide Scans, Trimmed, IsFlow;
    NoBlanks();
  }

  lemma {:induction false} SameMeaning(a: seq<Part>, b: seq<Part>)
    requires |a| == |b| && forall i :: 0 <= i < |a| ==> a[i].text == b[i].text
    ensures PartsMean(a) == PartsMean(b) && |PartsMean(a)| == |a|
  {
    if a != [] {
      SameMeaning(a[1..], b[1..]);
    }
  }

  lemma CommasOutside(p: Part)
    requires PartOk(p)
    ensures ',' in Padded(p) <==> ',' in p.text
  {
    hide Scans, Trimmed, IsFlow;
    assert forall c :: c in Padded(p) <==> c in p.before || c in p.text || c in p.after;
    assert ',' !in p.before && ',' !in p.after;
  }

  lemma EmptyReads(pad: string)
    requires OnlyBlanks(pad)
    ensures ParseScalar(FlowText(pad, [])) == List([])
  {
    hide IsSpace, Strip, Scans, ParseScalar;
    FlowTame(pad, []);
    StripAlone(FlowText(pad, []));
    FlowParses(FlowText(pad, []));
    InnerText(pad, []);
    assert pad + [] == pad;
    BlanksAreSpace(pad);
    StripBlank(pad);
  }

  /** A flow sequence is read as the list of its elements, in order, if and only if no element
      holds a comma, be it between quotes. */
  lemma FlowExact(pad: string, parts: seq<Part>)
    requires FlowOk(pad, parts)
    ensures ParseScalar(FlowText(pad, parts)) == List(PartsMean(parts)) <==> NoCommas(parts)
  {
    hide IsSpace, Strip, Scans, ParseScalar, ParseScalars, SplitCommas, FlowText, Joined, Tight, PartOk, OnlyBlanks,
         Padded, Paddeds, IsFlow, PartsMean;
    if parts == [] {
      EmptyReads(pad);
      SameMeaning([], []);
    } else {
      var s, t := FlowText(pad, parts), Tight(parts);
      FlowTame(pad, parts);
      StripAlone(s);
      FlowParses(s);
      InnerText(pad, parts);
      InnerStripped(pad, parts);
      TightKeeps(parts);
      JoinedTight(parts);
      SameMeaning(parts, t);
      SplitCount(Joined(t));
      ScalarsCount(SplitCommas(Joined(t)), |s|);
      JoinedCommas(t);
      forall i | 0 <= i < |t|
        ensures ',' in Padded(t[i]) <==> ',' in parts[i].text
      {
        CommasOutside(t[i]);
      }
      if NoCommas(parts) {
        JoinedSplits(t);
        PaddedsRead(t, |s|);
      }
    }
  }

  lemma JoinedTight(parts: seq<Part>)
    requires parts != [] && forall i :: 0 <= i < |parts| ==> PartOk(parts[i])
    ensures Joined(Tight(parts)) != []
  {
    hide IsSpace, Scans, IsFlow, OnlyBlanks, Joined;
    var t := Tight(parts);
    assert t[|t| - 1].after == [] && t[|t| - 1].text == parts[|parts| - 1].text;
    assert PartOk(parts[|parts| - 1]);
    JoinedTrimmed(t);
  }

  /** `['a,b']` is split inside the quotes. */
  lemma QuotedCommaMisread()
    ensures ParseScalar("['a,b']") == List([Scalar("'a"), Scalar("b'")])
  {
    hide Strip, ParseScalar, ParseScalars, SplitCommas;
    var s, inner := "['a,b']", "'a,b'";
    QuotedCommaTexts();
    StripAlone(s);
    FlowParses(s);
    StripAlone(inner);
    assert s[1..|s| - 1] == inner == "'a" + ([','] + "b'");
    SplitAtComma("'a", "b'");
    SplitAtComma("b'", []);
    assert SplitCommas(inner) == ["'a", "b'"];
    TwoScalars("'a", "b'", |s|);
  }

  lemma QuotedCommaTexts()
    ensures Trimmed("['a,b']") && Trimmed("'a,b'") && Trimmed("'a") && Trimmed("b'")
    ensures ParseScalar("'a") == Scalar("'a") && ParseScalar("b'") == Scalar("b'")
  {
    hide Strip;
    StripAlone("'a");
    StripAlone("b'");
  }

  lemma TwoScalars(a: string, b: string, bound: nat)
    requires |a| < bound && |b| < bound
    ensures ParseScalars([a, b], bound) == [ParseScalar(a), ParseScalar(b)]
  {
    hide ParseScalar;
    assert [a, b][1..] == [b] && [b][1..] == [];
    assert ParseScalars([], bound) == [];
    assert ParseScalars([b], bound) == [ParseScalar(b)] + ParseScalars([b][1..], bound);
    assert ParseScalars([a, b], bound) == [ParseScalar(a)] + ParseScalars([b], bound);
  }
}
