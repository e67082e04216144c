/**
 Which function a call stands in: `_function_spans` and `_enclosing_function` of
 `scripts/check_git_consistency_consumers.py`, over masked text.
 */
module FunctionSpans {
  import opened Text
  import opened Brackets

  /** A match of the header pattern: from `fn` or its qualifiers to the end of the pattern. */
  datatype Header = Header(name: string, start: nat, end: nat)

  /** A function: its header's start, the brace taken for its body's, and the brace that closes it. */
  datatype Function = Function(name: string, start: nat, open: nat, end: nat) {
    predicate Covers(offset: nat) {
      start <= offset <= end
    }

    predicate BodyHolds(offset: nat) {
      open <= offset <= end
    }
  }

  /** Matches of a pattern come in order and do not overlap. */
  ghost predicate InOrder(s: string, headers: seq<Header>) {
    && (forall i :: 0 <= i < |headers| ==> headers[i].start < headers[i].end <= |s|)
    && (forall i, j :: 0 <= i < j < |headers| ==> headers[i].end <= headers[j].start)
  }

  /** The function of a header: the first brace after it, and that one's match. */
  function FunctionOf(s: string, h: Header): Option<Function>
    requires h.end <= |s|
  {
    var open := Seek(s, '{', h.end);
    if open == |s| then None
    else
      match ScanForward(s, '{', '}', open, 0)
      case None => None
      case Some(end) => Some(Function(h.name, h.start, open, end))
  }

  /** A header's function: the first brace behind it, and where the height first returns. */
  lemma FunctionExact(s: string, h: Header, f: Function)
    requires h.start < h.end <= |s|
    ensures FunctionOf(s, h) == Some(f) <==>
            && f.name == h.name && f.start == h.start
            && h.end <= f.open < |s| && s[f.open] == '{' && (forall i :: h.end <= i < f.open ==> s[i] != '{')
            && Encloses(s, '{', '}', f.open, f.end)
  {
    hide ScanForward, Encloses;
    var open := Seek(s, '{', h.end);
    if open < |s| {
      ForwardExact(s, '{', '}', open, f.end);
      var r := ScanForward(s, '{', '}', open, 0);
    }
    if h.end <= f.open < |s| && s[f.open] == '{' && forall i :: h.end <= i < f.open ==> s[i] != '{' {
      assert f.open == open;
    }
  }

  ghost predicate HasFunction(s: string, headers: seq<Header>, f: Function)
    requires InOrder(s, headers)
  {
    exists i :: 0 <= i < |headers| && FunctionOf(s, headers[i]) == Some(f)
  }

  /** The functions found start in order, and each is that of a header. */
  ghost predicate AllFunctions(s: string, headers: seq<Header>, fs: seq<Function>)
    requires InOrder(s, headers)
  {
    && (forall f :: f in fs <==> HasFunction(s, headers, f))
    && (forall i, j :: 0 <= i < j < |fs| ==> fs[i].start < fs[j].start)
  }

  method FunctionSpans(s: string, headers: seq<Header>) returns (fs: seq<Function>)
    requires InOrder(s, headers)
    ensures AllFunctions(s, headers, fs)
  {
    hide ScanForward, FunctionOf, HasFunction;
    fs := [];
    var braces := BraceMatches(s, '{', '}');
    for k := 0 to |headers|
      invariant forall f :: f in fs <==> exists i :: 0 <= i < k && FunctionOf(s, headers[i]) == Some(f)
      invariant forall i, j :: 0 <= i < j < |fs| ==> fs[i].start < fs[j].start
      invariant forall i :: 0 <= i < |fs| ==> k > 0 && fs[i].start <= headers[k - 1].start
    {
      var h := headers[k];
      ghost var before := fs;
      var open := Seek(s, '{', h.end);
      FunctionFound(s, h, braces);
      if open < |s| && open in braces {
        fs := fs + [Function(h.name, h.start, open, braces[open])];
      }
      assert forall f :: f in fs <==> f in before || FunctionOf(s, h) == Some(f);
    }
    forall f
      ensures HasFunction(s, headers, f) <==> exists i :: 0 <= i < |headers| && FunctionOf(s, headers[i]) == Some(f)
    {
      HasFunctionMeans(s, headers, f);
    }
  }

  lemma HasFunctionMeans(s: string, headers: seq<Header>, f: Function)
    requires InOrder(s, headers)
    ensures HasFunction(s, headers, f) <==> exists i :: 0 <= i < |headers| && FunctionOf(s, headers[i]) == Some(f)
  {}

  /** The brace map tells what the scan from the header's brace would. */
  lemma FunctionFound(s: string, h: Header, braces: map<nat, nat>)
    requires h.end <= |s|
    requires forall i :: 0 <= i < |s| && s[i] == '{' ==>
               ScanForward(s, '{', '}', i, 0) == if i in braces then Some(braces[i]) else None
    ensures var open := Seek(s, '{', h.end);
            FunctionOf(s, h) ==
              if open < |s| && open in braces then Some(Function(h.name, h.start, open, braces[open])) else None
  {
    hide ScanForward;
  }

  /** The function covering the offset that starts last. */
  ghost predicate Latest(fs: seq<Function>, offset: nat, r: Option<Function>) {
    match r
    case None => forall f :: f in fs ==> !f.Covers(offset)
    case Some(best) =>
      best in fs && best.Covers(offset) && forall f :: f in fs && f.Covers(offset) ==> f.start <= best.start
  }

  method EnclosingFunction(fs: seq<Function>, offset: nat) returns (best: Option<Function>)
    ensures Latest(fs, offset, best)
  {
    best := None;
    for k := 0 to |fs|
      invariant Latest(fs[..k], offset, best)
    {
      assert fs[..k + 1] == fs[..k] + [fs[k]];
      if fs[k].start <= offset <= fs[k].end {
        if best.None? || fs[k].start > best.value.start {
          best := Some(fs[k]);
        }
      }
    }
    assert fs[..|fs|] == fs;
  }

  // ---------- is it the innermost? ----------

  /** The body of `f` lies within that of `g`; of two headers before one brace, the nearer. */
  ghost predicate Within(f: Function, g: Function) {
    g.open <= f.open && f.end <= g.end && (f.open == g.open ==> g.start <= f.start)
  }

  /** The innermost function whose body holds the offset. */
  ghost predicate Innermost(fs: seq<Function>, offset: nat, r: Option<Function>) {
    match r
    case None => forall f :: f in fs ==> !f.BodyHolds(offset)
    case Some(best) =>
      best in fs && best.BodyHolds(offset) && forall f :: f in fs && f.BodyHolds(offset) ==> Within(best, f)
  }

  /** Two functions of one text: the later header has the later brace, and bodies nest. */
  lemma Nested(s: string, headers: seq<Header>, f: Function, g: Function)
    requires InOrder(s, headers) && HasFunction(s, headers, f) && HasFunction(s, headers, g) && f.start <= g.start
    ensures f == g || f.start < g.start
    ensures f.start < f.open < f.end && f.open <= g.open
    ensures g.open <= f.end ==> g.end <= f.end
  {
    hide ScanForward, FunctionOf, Seek;
    var i :| 0 <= i < |headers| && FunctionOf(s, headers[i]) == Some(f);
    var j :| 0 <= j < |headers| && FunctionOf(s, headers[j]) == Some(g);
    FunctionShape(s, headers[i], f);
    FunctionShape(s, headers[j], g);
    if f.open < g.open < f.end {
      MatchedInside(s, '{', '}', f.open, f.end, g.open, g.end);
    }
  }

  lemma FunctionShape(s: string, h: Header, f: Function)
    requires h.start < h.end <= |s| && FunctionOf(s, h) == Some(f)
    ensures f.start == h.start < h.end <= f.open == Seek(s, '{', h.end) < f.end < |s|
    ensures s[f.open] == '{' && s[f.end] == '}' && ScanForward(s, '{', '}', f.open, 0) == Some(f.end)
  {
    hide ScanForward;
    ForwardExact(s, '{', '}', f.open, f.end);
    MatchCloses(s, f.open, f.end);
  }

  lemma MatchCloses(s: string, open: nat, end: nat)
    requires open < |s| && s[open] == '{' && ScanForward(s, '{', '}', open, 0) == Some(end)
    ensures s[end] == '}'
  {
    MatchersInverse(s, '{', '}', open, end);
  }

  /** The answer is the innermost function whose body holds the offset if and only if the offset
      stands between no function's header and its brace. */
  lemma EnclosingExact(s: string, headers: seq<Header>, fs: seq<Function>, offset: nat, r: Option<Function>)
    requires InOrder(s, headers) && AllFunctions(s, headers, fs) && Latest(fs, offset, r)
    ensures Innermost(fs, offset, r) <==> forall f :: f in fs ==> !(f.start <= offset < f.open)
  {
    hide FunctionOf, HasFunction;
    forall f, g | f in fs && g in fs && f.start <= g.start
      ensures f == g || f.start < g.start
      ensures f.start < f.open < f.end && f.open <= g.open
      ensures g.open <= f.end ==> g.end <= f.end
    {
      Nested(s, headers, f, g);
    }
    if r.Some? {
      assert r.value.start <= r.value.start;
    }
    forall f | f in fs && f.start <= offset < f.open
      ensures r.Some? && offset < r.value.open
    {
      assert f.start <= f.start;
    }
  }

  // ---------- a declaration without a body ----------

  const TRAIT := "fn a(){\nfn b();x}\nfn c(){}"
  const HEADERS := [Header("a", 0, 4), Header("b", 8, 12), Header("c", 18, 22)]

  /** The declaration `fn b();` takes the brace of `c`, and claims the `x` in the body of `a`. */
  lemma DeclarationClaims()
    ensures InOrder(TRAIT, HEADERS) && TRAIT[15] == 'x'
    ensures var a, b, c := Function("a", 0, 6, 16), Function("b", 8, 24, 25), Function("c", 18, 24, 25);
            var fs := [a, b, c];
            && AllFunctions(TRAIT, HEADERS, fs)
            && Latest(fs, 15, Some(b)) && !Innermost(fs, 15, Some(b)) && Innermost(fs, 15, Some(a))
  {
    hide ScanForward, Seek;
    var a, b, c := Function("a", 0, 6, 16), Function("b", 8, 24, 25), Function("c", 18, 24, 25);
    TraitFunctions();
    assert forall f :: f in [a, b, c] <==> HasFunction(TRAIT, HEADERS, f) by {
      assert forall i :: 0 <= i < |HEADERS| ==> FunctionOf(TRAIT, HEADERS[i]) == Some([a, b, c][i]);
    }
  }

  lemma TraitFunctions()
    ensures InOrder(TRAIT, HEADERS)
    ensures FunctionOf(TRAIT, HEADERS[0]) == Some(Function("a", 0, 6, 16))
    ensures FunctionOf(TRAIT, HEADERS[1]) == Some(Function("b", 8, 24, 25))
    ensures FunctionOf(TRAIT, HEADERS[2]) == Some(Function("c", 18, 24, 25))
  {
    hide ScanForward, Seek;
    SeekIs(TRAIT, 4, 6);
    SeekIs(TRAIT, 12, 24);
    SeekIs(TRAIT, 22, 24);
    ScanStep(TRAIT, '{', '}', 6, 0);
    PlainRun(TRAIT, 7, 16, 1);
    ScanStep(TRAIT, '{', '}', 16, 1);
    ScanStep(TRAIT, '{', '}', 24, 0);
    ScanStep(TRAIT, '{', '}', 25, 1);
  }

  lemma SeekIs(s: string, i: nat, n: nat)
    requires i <= n < |s| && s[n] == '{' && forall j :: i <= j < n ==> s[j] != '{'
    ensures Seek(s, '{', i) == n
  {}

  /** Nothing happens between braces. */
  lemma {:induction false} PlainRun(s: string, i: nat, n: nat, depth: int)
    requires i <= n <= |s| && forall j :: i <= j < n ==> s[j] != '{' && s[j] != '}'
    ensures ScanForward(s, '{', '}', i, depth) == ScanForward(s, '{', '}', n, depth)
    decreases n - i
  {
    if i < n {
      PlainRun(s, i + 1, n, depth);
    }
  }
}
