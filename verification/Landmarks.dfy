/**
 Ordered landmarks before a provider entry: `_find_call` and `_check_ordered_landmarks` of
 `scripts/check_delegated_continuation_authority.py`.
 */
module Landmarks {
  import opened Text

  /** Just past the last newline before `index`. */
  function LineStart(text: string, index: nat): (n: nat)
    requires index <= |text|
    ensures n <= index
    decreases index
  {
    if index == 0 || text[index - 1] == '\n' then index else LineStart(text, index - 1)
  }

  /** It is where the line that holds `index` starts. */
  lemma {:induction false} LineStartExact(text: string, index: nat)
    requires index <= |text|
    ensures var n := LineStart(text, index);
            (n == 0 || text[n - 1] == '\n') && forall i :: n <= i < index ==> text[i] != '\n'
  {
    if !(index == 0 || text[index - 1] == '\n') {
      LineStartExact(text, index - 1);
    }
  }

  predicate EndsWithFn(s: string) {
    |s| >= 2 && s[|s| - 2..] == "fn"
  }

  /** The line before the occurrence ends in `fn`: a definition, not a call. */
  predicate IsDefinition(text: string, index: nat)
    requires index <= |text|
  {
    EndsWithFn(Strip(text[LineStart(text, index)..index]))
  }

  /** In the part of its line before `index`, starting at `n`, stands `fn`, at `m`, and only
      whitespace behind it. */
  ghost predicate FnBefore(text: string, index: nat, n: nat, m: nat)
    requires index <= |text|
  {
    && n <= m && m + 2 <= index
    && (n == 0 || text[n - 1] == '\n') && (forall i :: n <= i < index ==> text[i] != '\n')
    && text[m] == 'f' && text[m + 1] == 'n' && AllSpace(text[m + 2..index])
  }

  /** An occurrence is a definition exactly when `fn` is the last word before it on its line. */
  lemma DefinitionExact(text: string, index: nat)
    requires index <= |text|
    ensures IsDefinition(text, index) <==> exists n: nat, m: nat :: FnBefore(text, index, n, m)
  {
    hide IsDefinition, FnBefore;
    if IsDefinition(text, index) {
      var m := DefinitionHasFn(text, index);
    }
    forall n: nat, m: nat | FnBefore(text, index, n, m)
      ensures IsDefinition(text, index)
    {
      FnMakesDefinition(text, index, n, m);
    }
  }

  lemma DefinitionHasFn(text: string, index: nat) returns (m: nat)
    requires index <= |text| && IsDefinition(text, index)
    ensures FnBefore(text, index, LineStart(text, index), m)
  {
    hide IsSpace, Strip, LineStart, AllSpace, EndsWithFn;
    var n := LineStart(text, index);
    LineStartExact(text, index);
    var k := FnFound(text[n..index]);
    TailOf(text, n, k + 2, index);
    m := n + k;
  }

  lemma FnMakesDefinition(text: string, index: nat, n: nat, m: nat)
    requires index <= |text| && FnBefore(text, index, n, m)
    ensures IsDefinition(text, index)
  {
    hide IsSpace, Strip, LineStart, AllSpace, EndsWithFn;
    LineStartExact(text, index);
    assert LineStart(text, index) == n;
    TailOf(text, n, m - n + 2, index);
    StripToFn(text[n..index], m - n);
  }

  lemma TailOf(text: string, n: nat, k: nat, index: nat)
    requires n + k <= index <= |text|
    ensures text[n..index][k..] == text[n + k..index]
  {}

  ghost predicate FnAt(p: string, m: nat) {
    m + 2 <= |p| && p[m] == 'f' && p[m + 1] == 'n' && AllSpace(p[m + 2..])
  }

  lemma FnFound(p: string) returns (m: nat)
    requires EndsWithFn(Strip(p))
    ensures FnAt(p, m)
  {
    hide IsSpace, Strip, AllSpace;
    StripShape(p);
    var a, b :| 0 <= a <= b <= |p| && Strip(p) == p[a..b] && AllSpace(p[..a]) && AllSpace(p[b..]);
    m := b - 2;
    var core := p[a..b];
    assert core[|core| - 2..][0] == p[m] && core[|core| - 2..][1] == p[m + 1];
  }

  lemma StripToFn(p: string, m: nat)
    requires FnAt(p, m)
    ensures EndsWithFn(Strip(p))
  {
    hide IsSpace, Strip, Leading;
    assert !IsSpace('f') && !IsSpace('n') by { FnShows(); }
    var a := Leading(p);
    assert a <= m;
    var core := p[a..m + 2];
    assert p == p[..a] + core + p[m + 2..];
    StripPadded(p[..a], core, p[m + 2..]);
    assert core[|core| - 2..] == "fn";
  }

  lemma FnShows()
    ensures !IsSpace('f') && !IsSpace('n')
  {}

  /** The worker's own definition of a landmark. */
  lemma AsyncFnIsDefinition(rest: string)
    ensures IsDefinition("async fn " + rest, 9)
  {
    hide IsDefinition, IsSpace;
    var text := "async fn " + rest;
    DefinitionExact(text, 9);
    SpaceIsSpace();
    assert text[8..9] == " " && forall i :: 0 <= i < 9 ==> text[i] == "async fn "[i] && "async fn "[i] != '\n';
    assert FnBefore(text, 9, 0, 6);
  }

  predicate DefinitionAt(text: string, marker: string, i: nat) {
    OccursAt(text, i, marker) && IsDefinition(text, i)
  }

  predicate CallAt(text: string, marker: string, i: nat) {
    OccursAt(text, i, marker) && !IsDefinition(text, i)
  }

  /** The search ends: behind a definition, an empty marker is found again where it was. */
  predicate Terminates(text: string, marker: string, start: nat) {
    marker != [] || start > |text| || !IsDefinition(text, start)
  }

  /** What `_find_call` returns: after a definition it searches on behind the whole marker. */
  function NextCall(text: string, marker: string, start: nat): (r: Option<nat>)
    requires Terminates(text, marker, start)
    ensures r.Some? ==> start <= r.value && CallAt(text, marker, r.value)
    decreases |text| - start
  {
    var found := FindFrom(text, start, marker);
    if found.None? then None
    else if !IsDefinition(text, found.value) then found
    else NextCall(text, marker, found.value + |marker|)
  }

  /** Otherwise one turn of the loop leads back to itself. */
  lemma SearchRepeats(text: string, marker: string, start: nat)
    requires !Terminates(text, marker, start)
    ensures FindFrom(text, start, marker) == Some(start) && IsDefinition(text, start)
    ensures FindFrom(text, start + |marker|, marker) == Some(start)
  {}

  lemma EmptyFound(text: string, start: nat)
    ensures FindFrom(text, start, []) == if start <= |text| then Some(start) else None
  {}

  method FindCall(text: string, marker: string, start: nat) returns (r: Option<nat>)
    requires Terminates(text, marker, start)
    ensures r == NextCall(text, marker, start)
  {
    hide Strip, LineStart, FindFrom, OccursAt;
    r := FindFrom(text, start, marker);
    EmptyFound(text, start);
    while r.Some?
      invariant r.Some? ==> OccursAt(text, r.value, marker) && r.value + |marker| <= |text|
      invariant r.Some? && IsDefinition(text, r.value) ==> marker != []
      invariant NextCall(text, marker, start) ==
                if r.None? then None
                else if !IsDefinition(text, r.value) then r
                else NextCall(text, marker, r.value + |marker|)
      decreases r.Some?, if r.Some? then |text| - r.value else 0
    {
      var prefix := Strip(text[LineStart(text, r.value)..r.value]);
      if !EndsWithFn(prefix) {
        return;
      }
      r := FindFrom(text, r.value + |marker|, marker);
    }
  }

  // ---------- least calls ----------

  /** `r` is the first call at or after `start`. */
  ghost predicate IsLeastCall(text: string, marker: string, start: nat, r: Option<nat>) {
    && (r.Some? ==> start <= r.value && CallAt(text, marker, r.value))
    && (forall i: nat :: start <= i && CallAt(text, marker, i) ==> r.Some? && r.value <= i)
  }

  ghost predicate FindsLeast(text: string, marker: string, start: nat)
    requires marker != []
  {
    IsLeastCall(text, marker, start, NextCall(text, marker, start))
  }

  /** No call starts strictly inside a definition's marker. */
  ghost predicate Apart(text: string, marker: string) {
    forall d: nat, c: nat :: DefinitionAt(text, marker, d) && CallAt(text, marker, c) ==> !(d < c < d + |marker|)
  }

  lemma {:induction false} NextCallLeast(text: string, marker: string, start: nat)
    requires marker != [] && Apart(text, marker)
    ensures IsLeastCall(text, marker, start, NextCall(text, marker, start))
    decreases |text| - start
  {
    hide IsDefinition, OccursAt;
    var found := FindFrom(text, start, marker);
    if found.Some? && IsDefinition(text, found.value) {
      assert DefinitionAt(text, marker, found.value);
      NextCallLeast(text, marker, found.value + |marker|);
    }
  }

  /** `_find_call` returns the least call from every start exactly when no call starts inside a
      definition's marker. */
  lemma FindCallExact(text: string, marker: string)
    requires marker != []
    ensures Apart(text, marker) <==> forall start: nat :: FindsLeast(text, marker, start)
  {
    hide IsDefinition, FindFrom, OccursAt;
    if Apart(text, marker) {
      forall start: nat
        ensures FindsLeast(text, marker, start)
      {
        NextCallLeast(text, marker, start);
      }
    } else {
      var d: nat, c: nat :| DefinitionAt(text, marker, d) && CallAt(text, marker, c) && d < c < d + |marker|;
      var r := NextCall(text, marker, d);
      assert FindFrom(text, d, marker) == Some(d);
      assert r == NextCall(text, marker, d + |marker|);
      assert !FindsLeast(text, marker, d);
    }
  }

  /** A marker no proper suffix of which is also a prefix cannot overlap itself. */
  ghost predicate Borderless(marker: string) {
    forall k :: 0 < k < |marker| ==> marker[k..] != marker[..|marker| - k]
  }

  lemma OverlapIsBorder(text: string, marker: string, d: nat, c: nat)
    requires OccursAt(text, d, marker) && OccursAt(text, c, marker) && d < c < d + |marker|
    ensures marker[c - d..] == marker[..|marker| - (c - d)]
  {
    var k := c - d;
    assert text[d..d + |marker|][k..] == text[c..d + |marker|] == text[c..c + |marker|][..|marker| - k];
  }

  lemma BorderlessApart(text: string, marker: string)
    requires Borderless(marker)
    ensures Apart(text, marker)
  {
    hide IsDefinition;
    forall d: nat, c: nat | DefinitionAt(text, marker, d) && CallAt(text, marker, c)
      ensures !(d < c < d + |marker|)
    {
      if d < c < d + |marker| {
        OverlapIsBorder(text, marker, d, c);
        assert false;
      }
    }
  }

  /** `fn ababa`: behind the definition of `aba` a call starts inside it, and is missed. */
  lemma OverlapMissed()
    ensures !Apart("fn ababa", "aba") && !FindsLeast("fn ababa", "aba", 3)
  {
    hide Strip, IsDefinition;
    var text, marker := "fn ababa", "aba";
    assert IsDefinition(text, 3) && !IsDefinition(text, 5) by { AfterFn(); }
    assert text[3..6] == marker && text[5..8] == marker;
    assert DefinitionAt(text, marker, 3) && CallAt(text, marker, 5);
    assert FindFrom(text, 3, marker) == Some(3);
    assert NextCall(text, marker, 3) == NextCall(text, marker, 6) == None;
  }

  lemma AfterFn()
    ensures IsDefinition("fn ababa", 3) && !IsDefinition("fn ababa", 5)
  {
    hide IsDefinition;
    var text := "fn ababa";
    SpaceIsSpace();
    DefinitionExact(text, 3);
    DefinitionExact(text, 5);
    assert text[2..3] == " ";
    assert FnBefore(text, 3, 0, 0);
    assert !AllSpace(text[2..5]) by { LetterShows(text[2..5]); }
    assert forall m :: 0 <= m < 5 && text[m] == 'f' ==> m == 0;
  }

  lemma LetterShows(s: string)
    requires |s| > 1 && s[1] == 'a'
    ensures !AllSpace(s)
  {}

  /** A border lies on one side of a character that occurs once: it is short, and its ends are
      those of the marker. */
  lemma RareCharacter(before: string, c: char, after: string)
    requires c !in before && c !in after
    requires forall j :: 0 <= j < |before| && j < |after| ==>
               before[j] != after[|after| - 1] || after[|after| - 1 - j] != before[0]
    ensures Borderless(before + [c] + after)
  {
    var marker, u := before + [c] + after, |before|;
    assert forall i :: 0 <= i < |marker| && i != u ==> marker[i] in before + after;
    forall k | 0 < k < |marker|
      ensures marker[k..] != marker[..|marker| - k]
    {
      var n := |marker| - k;
      var a, b := marker[k..], marker[..n];
      if u < n {
        assert a[u] == marker[k + u] != marker[u] == b[u];
      } else if k <= u {
        assert a[u - k] == marker[u] != marker[u - k] == b[u - k];
      } else {
        assert a[n - 1] == after[|after| - 1] && b[n - 1] == before[n - 1];
        assert a[0] == after[|after| - n] && b[0] == before[0];
      }
    }
  }

  // ---------- ordered landmarks ----------

  /** What is reported, and the offset whose line is named. */
  datatype Finding = NoTerminal | Missing(landmark: nat, at: nat) | TooLate(landmark: nat, at: nat)

  /** One call per landmark, in order, none overlapping the one before, none past `limit`. */
  ghost predicate Choice(text: string, landmarks: seq<string>, start: nat, limit: nat, calls: seq<nat>)
    decreases landmarks
  {
    && |calls| == |landmarks|
    && (landmarks != [] ==>
          && start <= calls[0] <= limit && CallAt(text, landmarks[0], calls[0])
          && Choice(text, landmarks[1..], calls[0] + |landmarks[0]|, limit, calls[1..]))
  }

  ghost predicate Satisfiable(text: string, landmarks: seq<string>, start: nat, limit: nat) {
    exists calls :: Choice(text, landmarks, start, limit, calls)
  }

  /** Starting earlier never hurts. */
  lemma {:induction false} EarlierStart(text: string, landmarks: seq<string>, start: nat, later: nat, limit: nat)
    requires start <= later && Satisfiable(text, landmarks, later, limit)
    ensures Satisfiable(text, landmarks, start, limit)
  {
    var calls :| Choice(text, landmarks, later, limit, calls);
    assert Choice(text, landmarks, start, limit, calls);
  }

  /** The exchange step: if any choice works, so does one that takes the least call first. */
  lemma {:induction false} GreedyStep(text: string, landmarks: seq<string>, start: nat, limit: nat)
    requires landmarks != [] && landmarks[0] != [] && Apart(text, landmarks[0])
    ensures var r := NextCall(text, landmarks[0], start);
            Satisfiable(text, landmarks, start, limit) <==>
            r.Some? && r.value <= limit && Satisfiable(text, landmarks[1..], r.value + |landmarks[0]|, limit)
  {
    hide IsDefinition, NextCall;
    NextCallLeast(text, landmarks[0], start);
    var r := NextCall(text, landmarks[0], start);
    if Satisfiable(text, landmarks, start, limit) {
      var calls :| Choice(text, landmarks, start, limit, calls);
      assert CallAt(text, landmarks[0], calls[0]);
      assert Choice(text, landmarks[1..], calls[0] + |landmarks[0]|, limit, calls[1..]);
      EarlierStart(text, landmarks[1..], r.value + |landmarks[0]|, calls[0] + |landmarks[0]|, limit);
    }
    if r.Some? && r.value <= limit && Satisfiable(text, landmarks[1..], r.value + |landmarks[0]|, limit) {
      var rest :| Choice(text, landmarks[1..], r.value + |landmarks[0]|, limit, rest);
      var calls := [r.value] + rest;
      assert calls[1..] == rest;
      assert Choice(text, landmarks, start, limit, calls);
    }
  }

  /** What `_check_ordered_landmarks` reports on the landmarks from number `k` on. */
  function Reported(text: string, landmarks: seq<string>, k: nat, cursor: nat, limit: nat): seq<Finding>
    requires k <= |landmarks| && forall j :: 0 <= j < |landmarks| ==> landmarks[j] != []
    decreases |landmarks| - k
  {
    if k == |landmarks| then []
    else
      match NextCall(text, landmarks[k], cursor)
      case None => [Missing(k, cursor)] + Reported(text, landmarks, k + 1, cursor, limit)
      case Some(i) =>
        if i > limit then [TooLate(k, i)] + Reported(text, landmarks, k + 1, cursor, limit)
        else Reported(text, landmarks, k + 1, i + |landmarks[k]|, limit)
  }

  function Findings(text: string, landmarks: seq<string>, terminal: string): seq<Finding>
    requires forall j :: 0 <= j < |landmarks| ==> landmarks[j] != []
  {
    match FindFrom(text, 0, terminal)
    case None => [NoTerminal]
    case Some(end) => Reported(text, landmarks, 0, 0, end)
  }

  /** Where the search for landmark `k` starts: behind the last of those before it that were found
      in time. */
  function Cursor(text: string, landmarks: seq<string>, k: nat, limit: nat): nat
    requires k <= |landmarks| && forall j :: 0 <= j < |landmarks| ==> landmarks[j] != []
  {
    if k == 0 then 0
    else
      var cursor := Cursor(text, landmarks, k - 1, limit);
      match NextCall(text, landmarks[k - 1], cursor)
      case None => cursor
      case Some(i) => if i > limit then cursor else i + |landmarks[k - 1]|
  }

  /** What a finding says of a landmark. */
  ghost predicate LandmarkReports(text: string, landmarks: seq<string>, limit: nat, f: Finding)
    requires forall j :: 0 <= j < |landmarks| ==> landmarks[j] != []
  {
    && !f.NoTerminal? && f.landmark < |landmarks|
    && var cursor := Cursor(text, landmarks, f.landmark, limit);
       var found := NextCall(text, landmarks[f.landmark], cursor);
       if f.Missing? then found == None && f.at == cursor else found == Some(f.at) && f.at > limit
  }

  /** What a finding says. */
  ghost predicate Reports(text: string, landmarks: seq<string>, terminal: string, f: Finding)
    requires forall j :: 0 <= j < |landmarks| ==> landmarks[j] != []
  {
    match FindFrom(text, 0, terminal)
    case None => f == NoTerminal
    case Some(end) => LandmarkReports(text, landmarks, end, f)
  }

  /** What is reported of one landmark, if anything. */
  function ReportedOf(text: string, landmarks: seq<string>, k: nat, limit: nat): seq<Finding>
    requires k < |landmarks| && forall j :: 0 <= j < |landmarks| ==> landmarks[j] != []
  {
    var cursor := Cursor(text, landmarks, k, limit);
    match NextCall(text, landmarks[k], cursor)
    case None => [Missing(k, cursor)]
    case Some(i) => if i > limit then [TooLate(k, i)] else []
  }

  /** One turn of the loop: what is reported of landmark `k`, and then of the others. */
  lemma ReportedTurn(text: string, landmarks: seq<string>, k: nat, limit: nat)
    requires k < |landmarks| && forall j :: 0 <= j < |landmarks| ==> landmarks[j] != []
    ensures Reported(text, landmarks, k, Cursor(text, landmarks, k, limit), limit)
         == ReportedOf(text, landmarks, k, limit)
            + Reported(text, landmarks, k + 1, Cursor(text, landmarks, k + 1, limit), limit)
  {
    hide NextCall, Reported;
    var cursor := Cursor(text, landmarks, k, limit);
    var rest := Reported(text, landmarks, k + 1, Cursor(text, landmarks, k + 1, limit), limit);
    ReportedUnfolds(text, landmarks, k, cursor, limit);
    assert [] + rest == rest;
  }

  lemma ReportedUnfolds(text: string, landmarks: seq<string>, k: nat, cursor: nat, limit: nat)
    requires k < |landmarks| && forall j :: 0 <= j < |landmarks| ==> landmarks[j] != []
    ensures Reported(text, landmarks, k, cursor, limit) ==
              match NextCall(text, landmarks[k], cursor)
              case None => [Missing(k, cursor)] + Reported(text, landmarks, k + 1, cursor, limit)
              case Some(i) =>
                if i > limit then [TooLate(k, i)] + Reported(text, landmarks, k + 1, cursor, limit)
                else Reported(text, landmarks, k + 1, i + |landmarks[k]|, limit)
  {
    hide NextCall;
  }

  lemma ReportedOfMeans(text: string, landmarks: seq<string>, k: nat, limit: nat, f: Finding)
    requires k < |landmarks| && forall j :: 0 <= j < |landmarks| ==> landmarks[j] != []
    ensures f in ReportedOf(text, landmarks, k, limit) <==>
            LandmarkReports(text, landmarks, limit, f) && f.landmark == k
  {
    hide NextCall, Cursor, CallAt, IsDefinition;
    var cursor := Cursor(text, landmarks, k, limit);
    var found := NextCall(text, landmarks[k], cursor);
    assert f in ReportedOf(text, landmarks, k, limit) <==>
      || (found == None && f == Missing(k, cursor))
      || (found.Some? && found.value > limit && f == TooLate(k, found.value));
  }

  /** Every landmark is looked at, whatever was reported before it. */
  lemma {:induction false} ReportedMeans(text: string, landmarks: seq<string>, k: nat, limit: nat, f: Finding)
    requires k <= |landmarks| && forall j :: 0 <= j < |landmarks| ==> landmarks[j] != []
    ensures f in Reported(text, landmarks, k, Cursor(text, landmarks, k, limit), limit) <==>
            LandmarkReports(text, landmarks, limit, f) && f.landmark >= k
    decreases |landmarks| - k
  {
    hide NextCall, Cursor, ReportedOf, LandmarkReports, Reported;
    LandmarkInRange(text, landmarks, limit, f);
    if k == |landmarks| {
      NothingReported(text, landmarks, Cursor(text, landmarks, k, limit), limit);
    } else {
      ReportedTurn(text, landmarks, k, limit);
      ReportedOfMeans(text, landmarks, k, limit, f);
      ReportedMeans(text, landmarks, k + 1, limit, f);
    }
  }

  lemma NothingReported(text: string, landmarks: seq<string>, cursor: nat, limit: nat)
    requires forall j :: 0 <= j < |landmarks| ==> landmarks[j] != []
    ensures Reported(text, landmarks, |landmarks|, cursor, limit) == []
  {}

  lemma LandmarkInRange(text: string, landmarks: seq<string>, limit: nat, f: Finding)
    requires forall j :: 0 <= j < |landmarks| ==> landmarks[j] != []
    ensures LandmarkReports(text, landmarks, limit, f) ==> !f.NoTerminal? && f.landmark < |landmarks|
  {}

  /** For markers that cannot hide a call: a landmark is missing when it is not called from the
      cursor on, and late when it is, but only behind the terminal marker. */
  lemma ReportsExact(text: string, landmarks: seq<string>, limit: nat, f: Finding)
    requires forall j :: 0 <= j < |landmarks| ==> landmarks[j] != [] && Apart(text, landmarks[j])
    requires !f.NoTerminal? && f.landmark < |landmarks|
    ensures var marker, cursor := landmarks[f.landmark], Cursor(text, landmarks, f.landmark, limit);
            LandmarkReports(text, landmarks, limit, f) <==>
              if f.Missing? then f.at == cursor && forall i: nat :: cursor <= i ==> !CallAt(text, marker, i)
              else f.at > limit && IsLeastCall(text, marker, cursor, Some(f.at))
  {
    hide NextCall, CallAt, Apart;
    NextCallLeast(text, landmarks[f.landmark], Cursor(text, landmarks, f.landmark, limit));
  }

  lemma FindingsMean(text: string, landmarks: seq<string>, terminal: string)
    requires forall j :: 0 <= j < |landmarks| ==> landmarks[j] != []
    ensures forall f :: f in Findings(text, landmarks, terminal) <==> Reports(text, landmarks, terminal, f)
  {
    hide Reported, LandmarkReports, FindFrom;
    var end := FindFrom(text, 0, terminal);
    if end.Some? {
      forall f
        ensures f in Findings(text, landmarks, terminal) <==> Reports(text, landmarks, terminal, f)
      {
        ReportedMeans(text, landmarks, 0, end.value, f);
        LandmarkInRange(text, landmarks, end.value, f);
      }
    }
  }

  method CheckOrderedLandmarks(text: string, landmarks: seq<string>, terminal: string)
    returns (findings: seq<Finding>)
    requires forall j :: 0 <= j < |landmarks| ==> landmarks[j] != []
    ensures findings == Findings(text, landmarks, terminal)
    ensures forall f :: f in findings <==> Reports(text, landmarks, terminal, f)
  {
    hide NextCall, FindFrom, OccursAt, IsDefinition, CallAt;
    findings := [];
    FindingsMean(text, landmarks, terminal);
    var end := FindFrom(text, 0, terminal);
    if end.None? {
      return [NoTerminal];
    }
    var cursor: nat := 0;
    for k := 0 to |landmarks|
      invariant Findings(text, landmarks, terminal) == findings + Reported(text, landmarks, k, cursor, end.value)
    {
      var index := FindCall(text, landmarks[k], cursor);
      if index.None? {
        findings := findings + [Missing(k, cursor)];
        continue;
      }
      if index.value > end.value {
        findings := findings + [TooLate(k, index.value)];
        continue;
      }
      cursor := index.value + |landmarks[k]|;
    }
  }

  lemma {:induction false} ReportedExact(text: string, landmarks: seq<string>, k: nat, cursor: nat, limit: nat)
    requires k <= |landmarks| && forall j :: 0 <= j < |landmarks| ==> landmarks[j] != [] && Apart(text, landmarks[j])
    ensures Reported(text, landmarks, k, cursor, limit) == [] <==> Satisfiable(text, landmarks[k..], cursor, limit)
    decreases |landmarks| - k
  {
    hide NextCall, Apart, CallAt;
    if k == |landmarks| {
      assert Choice(text, landmarks[k..], cursor, limit, []);
    } else {
      assert landmarks[k..][1..] == landmarks[k + 1..];
      GreedyStep(text, landmarks[k..], cursor, limit);
      var r := NextCall(text, landmarks[k], cursor);
      if r.Some? {
        ReportedExact(text, landmarks, k + 1, r.value + |landmarks[k]|, limit);
      }
    }
  }

  /** Whatever the markers, no findings means a choice exists. */
  lemma {:induction false} ReportedSound(text: string, landmarks: seq<string>, k: nat, cursor: nat, limit: nat)
    requires k <= |landmarks| && forall j :: 0 <= j < |landmarks| ==> landmarks[j] != []
    requires Reported(text, landmarks, k, cursor, limit) == []
    ensures Satisfiable(text, landmarks[k..], cursor, limit)
    decreases |landmarks| - k
  {
    hide CallAt, NextCall;
    if k == |landmarks| {
      assert Choice(text, landmarks[k..], cursor, limit, []);
    } else {
      var i := NextCall(text, landmarks[k], cursor).value;
      ReportedSound(text, landmarks, k + 1, i + |landmarks[k]|, limit);
      var rest :| Choice(text, landmarks[k + 1..], i + |landmarks[k]|, limit, rest);
      assert landmarks[k..][1..] == landmarks[k + 1..] && ([i] + rest)[1..] == rest;
      assert Choice(text, landmarks[k..], cursor, limit, [i] + rest);
    }
  }

  /** Greedy matching is exact: there are no findings if and only if the terminal marker occurs
      and some choice of calls, one per landmark in order, precedes its first occurrence. */
  lemma FindingsExact(text: string, landmarks: seq<string>, terminal: string)
    requires forall j :: 0 <= j < |landmarks| ==> landmarks[j] != [] && Apart(text, landmarks[j])
    ensures var end := FindFrom(text, 0, terminal);
            Findings(text, landmarks, terminal) == [] <==> end.Some? && Satisfiable(text, landmarks, 0, end.value)
  {
    hide Reported, Satisfiable, FindFrom;
    var end := FindFrom(text, 0, terminal);
    if end.Some? {
      ReportedExact(text, landmarks, 0, 0, end.value);
      assert landmarks[0..] == landmarks;
    }
  }

  // ---------- the two guarded files ----------

  const PROVENANCE := "delegated_attempt_provenance" + "("
  const SEED := "seed_delegated_context" + "("
  const SEED_REFUSAL := "a claimed continuation " + "may not reach a provider entry"
  const WORKER_LANDMARKS := [PROVENANCE, SEED, SEED_REFUSAL]
  const WORKER_PROVIDER_ENTRY := "agent_loop.run("

  const ATTEMPT_RECORD := "attempt_store.attempts" + "("
  const CONTINUATION_RECORD := "attempt_store.continuation" + "("
  const CONTINUATION_GATE := "a terminal delegated run may " + ("only be resumed by a " + "claimed continuation")
  const EXECUTOR_LANDMARKS := [ATTEMPT_RECORD, CONTINUATION_RECORD, CONTINUATION_GATE]
  const EXECUTOR_ENTRY := "resume_for_continuation("

  lemma CallBorderless(name: string)
    requires '(' !in name
    ensures Borderless(name + "(")
  {
    hide Borderless;
    RareCharacter(name, '(', []);
    assert name + "(" + [] == name + "(";
  }

  lemma CallsBorderless()
    ensures Borderless(PROVENANCE) && Borderless(SEED)
    ensures Borderless(ATTEMPT_RECORD) && Borderless(CONTINUATION_RECORD)
  {
    hide Borderless;
    CallBorderless("delegated_attempt_provenance");
    CallBorderless("seed_delegated_context");
    CallBorderless("attempt_store.attempts");
    CallBorderless("attempt_store.continuation");
  }

  lemma RefusalSplit()
    ensures SEED_REFUSAL == "a c" + ['l'] + ("aimed continuation " + "may not reach a provider entry")
  {
    var a, b, c := "a c", "aimed continuation ", "may not reach a provider entry";
    assert "a claimed continuation " == a + ['l'] + b;
    assert a + ['l'] + b + c == a + ['l'] + (b + c);
  }

  lemma RefusalBorderless()
    ensures Borderless(SEED_REFUSAL)
  {
    hide Borderless, SEED_REFUSAL;
    var a, b, c := "a c", "aimed continuation ", "may not reach a provider entry";
    assert 'l' !in b && 'l' !in c;
    assert a[0] == 'a' && c[|c| - 1] == 'y';
    RareCharacter(a, 'l', b + c);
    RefusalSplit();
  }

  lemma GateSplit()
    ensures CONTINUATION_GATE
         == "a terminal dele" + ['g'] + ("ated run may " + ("only be resumed by a " + "claimed continuation"))
  {
    var a, b, c := "a terminal dele", "ated run may ", "only be resumed by a " + "claimed continuation";
    assert "a terminal delegated run may " == a + ['g'] + b;
    assert a + ['g'] + b + c == a + ['g'] + (b + c);
  }

  lemma GateBorderless()
    ensures Borderless(CONTINUATION_GATE)
  {
    hide Borderless, CONTINUATION_GATE;
    var a, b, c := "a terminal dele", "ated run may ", "only be resumed by a " + "claimed continuation";
    assert 'g' !in b && 'g' !in "only be resumed by a " && 'g' !in "claimed continuation";
    assert |c| == 41 && c[40] == "claimed continuation"[19] == 'n' && c[33] == "claimed continuation"[12] == 'i';
    assert (b + c)[|b + c| - 1] == c[40] && (b + c)[|b + c| - 8] == c[33];
    assert forall j :: 0 <= j < |a| && a[j] == 'n' ==> j == 7;
    RareCharacter(a, 'g', b + c);
    GateSplit();
  }

  /** The worker is found clean if and only if, before its provider entry, the three landmarks
      are called in order; and likewise the executor. */
  lemma WorkerExact(text: string)
    ensures var end := FindFrom(text, 0, WORKER_PROVIDER_ENTRY);
            Findings(text, WORKER_LANDMARKS, WORKER_PROVIDER_ENTRY) == []
            <==> end.Some? && Satisfiable(text, WORKER_LANDMARKS, 0, end.value)
  {
    hide Borderless, Apart, Findings, Satisfiable, FindFrom;
    CallsBorderless();
    RefusalBorderless();
    BorderlessApart(text, PROVENANCE);
    BorderlessApart(text, SEED);
    BorderlessApart(text, SEED_REFUSAL);
    FindingsExact(text, WORKER_LANDMARKS, WORKER_PROVIDER_ENTRY);
  }

  lemma ExecutorExact(text: string)
    ensures var end := FindFrom(text, 0, EXECUTOR_ENTRY);
            Findings(text, EXECUTOR_LANDMARKS, EXECUTOR_ENTRY) == []
            <==> end.Some? && Satisfiable(text, EXECUTOR_LANDMARKS, 0, end.value)
  {
    hide Borderless, Apart, Findings, Satisfiable, FindFrom;
    CallsBorderless();
    GateBorderless();
    BorderlessApart(text, ATTEMPT_RECORD);
    BorderlessApart(text, CONTINUATION_RECORD);
    BorderlessApart(text, CONTINUATION_GATE);
    FindingsExact(text, EXECUTOR_LANDMARKS, EXECUTOR_ENTRY);
  }
}
