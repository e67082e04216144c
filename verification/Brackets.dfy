/**
 Bracket matching over masked text: the per-bracket depth scans, the one-pass stack, and the
 spans a `block_in_place(...)` call protects.
 */
module Brackets {
  import opened Text

  // ---------- depth scans ----------

  /** The forward scan, resumed at `i` with `depth` brackets open. */
  function ScanForward(s: string, open: char, close: char, i: nat, depth: int): (r: Option<nat>)
    requires i <= |s|
    ensures r.Some? ==> i <= r.value < |s|
    decreases |s| - i
  {
    if i == |s| then None
    else if s[i] == open then ScanForward(s, open, close, i + 1, depth + 1)
    else if s[i] == close then if depth == 1 then Some(i) else ScanForward(s, open, close, i + 1, depth - 1)
    else ScanForward(s, open, close, i + 1, depth)
  }

  /** The backward scan, resumed below `i` with `depth` brackets open. */
  function ScanBackward(s: string, open: char, close: char, i: nat, depth: int): (r: Option<nat>)
    requires i <= |s|
    ensures r.Some? ==> r.value < i
    decreases i
  {
    if i == 0 then None
    else if s[i - 1] == close then ScanBackward(s, open, close, i - 1, depth + 1)
    else if s[i - 1] == open then if depth == 1 then Some(i - 1) else ScanBackward(s, open, close, i - 1, depth - 1)
    else ScanBackward(s, open, close, i - 1, depth)
  }

  /** `_matching_brace`, `_matching_paren`. */
  method MatchingForward(s: string, open: char, close: char, at: nat) returns (r: Option<nat>)
    requires at <= |s| && open != close
    ensures r == ScanForward(s, open, close, at, 0)
  {
    var depth := 0;
    for i := at to |s|
      invariant ScanForward(s, open, close, at, 0) == ScanForward(s, open, close, i, depth)
    {
      if s[i] == open {
        depth := depth + 1;
      } else if s[i] == close {
        depth := depth - 1;
        if depth == 0 {
          return Some(i);
        }
      }
    }
    return None;
  }

  /** `_matching_paren_backwards`. */
  method MatchingBackward(s: string, open: char, close: char, at: nat) returns (r: Option<nat>)
    requires at < |s| && open != close
    ensures r == ScanBackward(s, open, close, at + 1, 0)
  {
    var depth := 0;
    for i := at + 1 downto 0
      invariant ScanBackward(s, open, close, at + 1, 0) == ScanBackward(s, open, close, i, depth)
    {
      if s[i] == close {
        depth := depth + 1;
      } else if s[i] == open {
        depth := depth - 1;
        if depth == 0 {
          return Some(i);
        }
      }
    }
    return None;
  }

  // ---------- one pass with a stack ----------

  lemma ScanStep(s: string, open: char, close: char, i: nat, depth: int)
    requires i < |s|
    ensures ScanForward(s, open, close, i, depth) ==
              if s[i] == open then ScanForward(s, open, close, i + 1, depth + 1)
              else if s[i] == close && depth == 1 then Some(i)
              else ScanForward(s, open, close, i + 1, if s[i] == close then depth - 1 else depth)
  {}

  /** The scan from `at` has reached `n` with `depth` brackets open. */
  ghost predicate Waiting(s: string, open: char, close: char, n: nat, at: nat, depth: int) {
    && at < n <= |s| && s[at] == open
    && ScanForward(s, open, close, at, 0) == ScanForward(s, open, close, n, depth)
  }

  /** The scan from every bracket on the stack is under way, deeper the lower it stands. */
  ghost predicate AllWaiting(s: string, open: char, close: char, n: nat, stack: seq<nat>) {
    forall k :: 0 <= k < |stack| ==> Waiting(s, open, close, n, stack[k], |stack| - k)
  }

  lemma StackStep(s: string, open: char, close: char, n: nat, stack: seq<nat>)
    requires n < |s| && open != close && AllWaiting(s, open, close, n, stack)
    ensures s[n] == open ==> AllWaiting(s, open, close, n + 1, stack + [n])
    ensures s[n] == close && stack != [] ==>
              && ScanForward(s, open, close, stack[|stack| - 1], 0) == Some(n)
              && AllWaiting(s, open, close, n + 1, stack[..|stack| - 1])
    ensures s[n] != open && (s[n] != close || stack == []) ==> AllWaiting(s, open, close, n + 1, stack)
  {
    hide ScanForward;
    ScanStep(s, open, close, n, 0);
    forall k | 0 <= k < |stack|
      ensures var d := |stack| - k;
              if s[n] == open then Waiting(s, open, close, n + 1, stack[k], d + 1)
              else if s[n] == close && d == 1 then ScanForward(s, open, close, stack[k], 0) == Some(n)
              else Waiting(s, open, close, n + 1, stack[k], if s[n] == close then d - 1 else d)
    {
      ScanStep(s, open, close, n, |stack| - k);
    }
  }

  /** The opening brackets seen so far are those matched and, in order, those on the stack. */
  ghost predicate Accounted(s: string, open: char, n: nat, stack: seq<nat>, matched: set<nat>)
    requires n <= |s|
  {
    && (forall k :: 0 <= k < |stack| ==> stack[k] !in matched)
    && (forall j, k :: 0 <= j < k < |stack| ==> stack[j] < stack[k])
    && (forall i :: i in stack || i in matched <==> 0 <= i < n && s[i] == open)
  }

  lemma AccountedStep(s: string, open: char, n: nat, stack: seq<nat>, matched: set<nat>)
    requires n < |s| && Accounted(s, open, n, stack, matched)
    ensures s[n] == open ==> Accounted(s, open, n + 1, stack + [n], matched)
    ensures s[n] != open ==> Accounted(s, open, n + 1, stack, matched)
    ensures s[n] != open && stack != [] ==>
              Accounted(s, open, n + 1, stack[..|stack| - 1], matched + {stack[|stack| - 1]})
  {
    hide Accounted;
    if s[n] == open {
      AccountedPush(s, open, n, stack, matched);
    } else {
      AccountedStay(s, open, n, stack, matched);
      if stack != [] {
        AccountedPop(s, open, n + 1, stack, matched);
      }
    }
  }

  lemma AccountedPush(s: string, open: char, n: nat, stack: seq<nat>, matched: set<nat>)
    requires n < |s| && Accounted(s, open, n, stack, matched) && s[n] == open
    ensures Accounted(s, open, n + 1, stack + [n], matched)
  {
    assert forall k :: 0 <= k < |stack| ==> stack[k] in stack;
  }

  lemma AccountedStay(s: string, open: char, n: nat, stack: seq<nat>, matched: set<nat>)
    requires n < |s| && Accounted(s, open, n, stack, matched) && s[n] != open
    ensures Accounted(s, open, n + 1, stack, matched)
  {}

  lemma AccountedPop(s: string, open: char, n: nat, stack: seq<nat>, matched: set<nat>)
    requires n <= |s| && Accounted(s, open, n, stack, matched) && stack != []
    ensures Accounted(s, open, n, stack[..|stack| - 1], matched + {stack[|stack| - 1]})
  {
    var top := stack[|stack| - 1];
    assert forall i :: i in stack <==> i in stack[..|stack| - 1] || i == top;
  }

  /** `_brace_matches`: the map holds, for every opening bracket, exactly what the depth scan
      from it finds. */
  method BraceMatches(s: string, open: char, close: char) returns (matches: map<nat, nat>)
    requires open != close
    ensures forall i :: 0 <= i < |s| && s[i] == open ==>
              ScanForward(s, open, close, i, 0) == if i in matches then Some(matches[i]) else None
    ensures forall i :: i in matches ==> i < |s| && s[i] == open
  {
    hide ScanForward, AllWaiting, Accounted;
    matches := map[];
    var stack: seq<nat> := [];
    NothingSeen(s, open, close);
    assert matches.Keys == {};
    for n := 0 to |s|
      invariant AllWaiting(s, open, close, n, stack) && Accounted(s, open, n, stack, matches.Keys)
      invariant forall i :: i in matches ==> i < |s| && ScanForward(s, open, close, i, 0) == Some(matches[i])
    {
      StackStep(s, open, close, n, stack);
      AccountedStep(s, open, n, stack, matches.Keys);
      if s[n] == open {
        stack := stack + [n];
      } else if s[n] == close && stack != [] {
        var top := stack[|stack| - 1];
        stack := stack[..|stack| - 1];
        assert matches[top := n].Keys == matches.Keys + {top};
        matches := matches[top := n];
      }
    }
    forall i: nat
      ensures i in matches ==> i < |s| && s[i] == open
      ensures i < |s| && s[i] == open ==>
                ScanForward(s, open, close, i, 0) == if i in matches then Some(matches[i]) else None
    {
      EverythingSeen(s, open, close, stack, matches.Keys, i);
    }
  }

  lemma NothingSeen(s: string, open: char, close: char)
    ensures AllWaiting(s, open, close, 0, []) && Accounted(s, open, 0, [], {})
  {}

  /** At the end of the text, a bracket is matched or still waiting, and then has no match. */
  lemma EverythingSeen(s: string, open: char, close: char, stack: seq<nat>, matched: set<nat>, i: nat)
    requires AllWaiting(s, open, close, |s|, stack) && Accounted(s, open, |s|, stack, matched)
    ensures i in matched ==> i < |s| && s[i] == open
    ensures i < |s| && s[i] == open && i !in matched ==> ScanForward(s, open, close, i, 0) == None
  {
    if i < |s| && s[i] == open && i !in matched {
      var k :| 0 <= k < |stack| && stack[k] == i;
      assert Waiting(s, open, close, |s|, stack[k], |stack| - k);
    }
  }

  // ---------- height ----------

  /** Opening minus closing brackets among the first `n` characters. */
  function Height(s: string, open: char, close: char, n: nat): int
    requires n <= |s|
  {
    if n == 0 then 0
    else Height(s, open, close, n - 1) + (if s[n - 1] == open then 1 else if s[n - 1] == close then -1 else 0)
  }

  /** Between `i` and `j` the height stays above that at `i`, to which it returns after `j`. */
  ghost predicate Encloses(s: string, open: char, close: char, i: nat, j: nat) {
    && i < j < |s|
    && Height(s, open, close, j + 1) == Height(s, open, close, i)
    && forall m: nat :: i < m <= j ==> Height(s, open, close, m) > Height(s, open, close, i)
  }

  lemma {:induction false} ForwardFinds(s: string, open: char, close: char, at: nat, i: nat)
    requires at < i <= |s| && open != close
    requires forall m: nat :: at < m <= i ==> Height(s, open, close, m) > Height(s, open, close, at)
    ensures var r := ScanForward(s, open, close, i, Height(s, open, close, i) - Height(s, open, close, at));
            && (r.Some? ==> Encloses(s, open, close, at, r.value))
            && (r.None? ==> forall m: nat :: at < m <= |s| ==> Height(s, open, close, m) > Height(s, open, close, at))
    decreases |s| - i
  {
    if i < |s| {
      var next := Height(s, open, close, i + 1);
      if next > Height(s, open, close, at) {
        ForwardFinds(s, open, close, at, i + 1);
      }
    }
  }

  lemma {:induction false} BackwardFinds(s: string, open: char, close: char, at: nat, i: nat)
    requires i <= at < |s| && open != close
    requires forall m: nat :: i <= m <= at ==> Height(s, open, close, m) > Height(s, open, close, at + 1)
    ensures var r := ScanBackward(s, open, close, i, Height(s, open, close, i) - Height(s, open, close, at + 1));
            && (r.Some? ==> Encloses(s, open, close, r.value, at))
            && (r.None? ==> forall m: nat :: m <= at ==> Height(s, open, close, m) > Height(s, open, close, at + 1))
    decreases i
  {
    if i > 0 {
      var next := Height(s, open, close, i - 1);
      if next > Height(s, open, close, at + 1) {
        BackwardFinds(s, open, close, at, i - 1);
      }
    }
  }

  /** Wherever it starts, the scan stops at the first closing bracket that brings the height back. */
  lemma {:induction false} ForwardFirst(s: string, open: char, close: char, at: nat, i: nat)
    requires at <= i <= |s| && open != close
    ensures var h := Height(s, open, close, at);
            var r := ScanForward(s, open, close, i, Height(s, open, close, i) - h);
            && (r.Some? ==> i <= r.value < |s| && s[r.value] == close && Height(s, open, close, r.value + 1) == h)
            && forall j :: i <= j < (if r.Some? then r.value else |s|) && s[j] == close ==>
                 Height(s, open, close, j + 1) != h
    decreases |s| - i
  {
    if i < |s| {
      ForwardFirst(s, open, close, at, i + 1);
    }
  }

  /** And backward, at the first opening bracket that does. */
  lemma {:induction false} BackwardFirst(s: string, open: char, close: char, at: nat, i: nat)
    requires i <= at <= |s| && open != close
    ensures var h := Height(s, open, close, at);
            var r := ScanBackward(s, open, close, i, Height(s, open, close, i) - h);
            && (r.Some? ==> r.value < i && s[r.value] == open && Height(s, open, close, r.value) == h)
            && forall j :: (if r.Some? then r.value + 1 else 0) <= j < i && s[j] == open ==>
                 Height(s, open, close, j) != h
    decreases i
  {
    if i > 0 {
      BackwardFirst(s, open, close, at, i - 1);
    }
  }

  /** The forward scan from an opening bracket finds `j` exactly when `i` and `j` enclose. */
  lemma ForwardExact(s: string, open: char, close: char, i: nat, j: nat)
    requires i < |s| && s[i] == open && open != close
    ensures ScanForward(s, open, close, i, 0) == Some(j) <==> Encloses(s, open, close, i, j)
  {
    var h := Height(s, open, close, i);
    assert Height(s, open, close, i + 1) == h + 1;
    ForwardFinds(s, open, close, i, i + 1);
    var r := ScanForward(s, open, close, i, 0);
    assert r == ScanForward(s, open, close, i + 1, 1);
    if Encloses(s, open, close, i, j) {
      assert Height(s, open, close, j + 1) == h;
      if r.Some? {
        assert Height(s, open, close, r.value + 1) == h;
      }
    }
  }

  lemma BackwardExact(s: string, open: char, close: char, i: nat, j: nat)
    requires j < |s| && s[j] == close && open != close
    ensures ScanBackward(s, open, close, j + 1, 0) == Some(i) <==> Encloses(s, open, close, i, j)
  {
    var h := Height(s, open, close, j + 1);
    assert Height(s, open, close, j) == h + 1;
    BackwardFinds(s, open, close, j, j);
    var r := ScanBackward(s, open, close, j + 1, 0);
    assert r == ScanBackward(s, open, close, j, 1);
    if Encloses(s, open, close, i, j) {
      assert Height(s, open, close, i) == h;
      if r.Some? {
        assert Height(s, open, close, r.value) == h;
      }
    }
  }

  /** Forward and backward matching are inverse wherever either succeeds. */
  lemma MatchersInverse(s: string, open: char, close: char, i: nat, j: nat)
    requires i < |s| && j < |s| && open != close
    ensures s[i] == open && ScanForward(s, open, close, i, 0) == Some(j)
       <==> s[j] == close && ScanBackward(s, open, close, j + 1, 0) == Some(i)
  {
    if s[i] == open {
      ForwardExact(s, open, close, i, j);
    }
    if s[j] == close {
      BackwardExact(s, open, close, i, j);
    }
    if Encloses(s, open, close, i, j) {
      assert Height(s, open, close, i + 1) > Height(s, open, close, i);
      assert Height(s, open, close, j) > Height(s, open, close, j + 1);
    }
  }

  /** A bracket opened inside a matched pair is matched inside it. */
  lemma MatchedInside(s: string, open: char, close: char, a: nat, ea: nat, b: nat, eb: nat)
    requires open != close && a < b < ea && b < |s| && s[a] == open && s[b] == open
    requires ScanForward(s, open, close, a, 0) == Some(ea) && ScanForward(s, open, close, b, 0) == Some(eb)
    ensures eb < ea
  {
    hide ScanForward;
    ForwardExact(s, open, close, a, ea);
    ForwardExact(s, open, close, b, eb);
    assert Height(s, open, close, b) > Height(s, open, close, a) == Height(s, open, close, ea + 1);
    assert Height(s, open, close, eb + 1) == Height(s, open, close, b);
  }

  // ---------- protected spans ----------

  /** The bracket opened at `o` is still open after reading index `k`. */
  ghost predicate StillOpen(s: string, o: nat, k: nat) {
    o < k < |s| && forall m: nat :: o < m <= k + 1 ==> Height(s, '(', ')', m) > Height(s, '(', ')', o)
  }

  /** The close of the span that opens at `o`; an unmatched call protects the rest of the text. */
  function SpanEnd(s: string, o: nat): nat
    requires o < |s|
  {
    match ScanForward(s, '(', ')', o, 0)
    case Some(close) => close
    case None => |s|
  }

  /** `_protected_spans`, for the opening parentheses of the `block_in_place` calls. */
  method ProtectedSpans(s: string, opens: seq<nat>) returns (spans: seq<(nat, nat)>)
    requires forall k :: 0 <= k < |opens| ==> opens[k] < |s| && s[opens[k]] == '('
    ensures |spans| == |opens|
    ensures forall k :: 0 <= k < |opens| ==> spans[k] == (opens[k], SpanEnd(s, opens[k]))
  {
    spans := [];
    for k := 0 to |opens|
      invariant |spans| == k
      invariant forall j :: 0 <= j < k ==> spans[j] == (opens[j], SpanEnd(s, opens[j]))
    {
      var close := MatchingForward(s, '(', ')', opens[k]);
      if close.None? {
        spans := spans + [(opens[k], |s|)];
        continue;
      }
      spans := spans + [(opens[k], close.value)];
    }
  }

  /** A span holds exactly the indices at which its parenthesis is still open. */
  lemma InsideSpan(s: string, o: nat, k: nat)
    requires o < |s| && s[o] == '(' && k < |s|
    ensures o < k < SpanEnd(s, o) <==> StillOpen(s, o, k)
  {
    assert Height(s, '(', ')', o + 1) == Height(s, '(', ')', o) + 1;
    ForwardFinds(s, '(', ')', o, o + 1);
    var r := ScanForward(s, '(', ')', o, 0);
    assert r == ScanForward(s, '(', ')', o + 1, 1);
    if r.Some? {
      assert Height(s, '(', ')', r.value + 1) == Height(s, '(', ')', o);
    }
  }

  /** Any two spans are nested or disjoint, whether or not the parentheses balance. */
  lemma SpansLaminar(s: string, a: nat, b: nat)
    requires a < b < |s| && s[a] == '(' && s[b] == '('
    ensures SpanEnd(s, a) < b || SpanEnd(s, b) < SpanEnd(s, a) || SpanEnd(s, b) == SpanEnd(s, a) == |s|
  {
    hide ScanForward;
    var ea, eb := SpanEnd(s, a), SpanEnd(s, b);
    if ea < |s| && b <= ea {
      ForwardExact(s, '(', ')', a, ea);
      assert Height(s, '(', ')', b) > Height(s, '(', ')', a) == Height(s, '(', ')', ea + 1);
      assert Height(s, '(', ')', b + 1) == Height(s, '(', ')', b) + 1;
      assert b < ea;
      InsideSpan(s, b, ea);
      assert !StillOpen(s, b, ea);
      MatchedInside(s, '(', ')', a, ea, b, eb);
    }
  }

  /** `scan_source`: a call site is reported exactly when no `block_in_place` parenthesis is
      still open there. */
  method ReportedSites(s: string, opens: seq<nat>, sites: seq<nat>) returns (reported: seq<nat>)
    requires forall k :: 0 <= k < |opens| ==> opens[k] < |s| && s[opens[k]] == '('
    requires forall k :: 0 <= k < |sites| ==> sites[k] < |s|
    requires forall j, k :: 0 <= j < k < |sites| ==> sites[j] < sites[k]
    ensures forall j, k :: 0 <= j < k < |reported| ==> reported[j] < reported[k]
    ensures forall x :: x in reported <==> x in sites && forall o :: o in opens ==> !StillOpen(s, o, x)
  {
    hide StillOpen, SpanEnd;
    reported := [];
    var spans := ProtectedSpans(s, opens);
    for k := 0 to |sites|
      invariant forall j, k :: 0 <= j < k < |reported| ==> reported[j] < reported[k]
      invariant forall x :: x in reported <==> x in sites[..k] && forall o :: o in opens ==> !StillOpen(s, o, x)
    {
      var x := sites[k];
      assert sites[..k + 1] == sites[..k] + [x];
      assert forall y :: y in sites[..k] ==> y < x;
      assert forall j :: 0 <= j < |reported| ==> reported[j] in reported;
      forall j | 0 <= j < |opens|
        ensures spans[j].0 < x < spans[j].1 <==> StillOpen(s, opens[j], x)
      {
        InsideSpan(s, opens[j], x);
      }
      if exists j :: 0 <= j < |spans| && spans[j].0 < x < spans[j].1 {
        continue;
      }
      reported := reported + [x];
    }
    assert sites[..|sites|] == sites;
  }
}
