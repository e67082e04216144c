/**
 The structural refusal check: four synthetic write roots vouch for a condition over every
 path. What the four decide, and which tests they cannot see.
 */
module RefusalProbes {
  import opened Text
  import opened RefusalCondition
  import opened RefusalTokens

  // ---------- the check ----------

  const GITDIR := "/repo/.git"
  const ADMIN := "/repo/.git/worktrees"
  const HOOKS := "/repo/.git/hooks"
  const BELOW := "/repo/.git/worktrees/other"
  const OUTSIDE := "/repo/checkout"

  function Probe(write: string): Env {
    Env(write, GITDIR, ADMIN)
  }

  datatype Finding =
    | NoRefusal | SeveralRefusals | Tautology | Unreadable
    | HooksAllowed | RootRefused | BelowAllowed | OutsideRefused

  /** The verdicts `_check_structural_refusal` demands. */
  predicate Passes(text: string) {
    && TextVerdict(text, Probe(HOOKS)) == Some(true)
    && TextVerdict(text, Probe(ADMIN)) == Some(false)
    && TextVerdict(text, Probe(BELOW)) == Some(true)
    && TextVerdict(text, Probe(OUTSIDE)) == Some(false)
  }

  method Evaluate(text: string, env: Env) returns (r: Option<bool>)
    ensures r == TextVerdict(text, env)
  {
    var tokens := Tokenize(text);
    if tokens.None? { return None; }
    var evaluator := new Evaluator(tokens.value, env);
    r := evaluator.Evaluate();
  }

  /** What a finding says of the conditions lifted out of `assert_grant`; `tautology` is the
      verdict of the separate text pattern. */
  ghost predicate Reports(conditions: seq<string>, tautology: string -> bool, f: Finding) {
    match f
    case NoRefusal => conditions == []
    case SeveralRefusals => |conditions| > 1
    case Tautology => |conditions| == 1 && tautology(conditions[0])
    case Unreadable => |conditions| == 1 && CondOf(conditions[0]).None?
    case HooksAllowed => |conditions| == 1 && Decides(conditions[0], HOOKS, false)
    case RootRefused => |conditions| == 1 && Decides(conditions[0], ADMIN, true)
    case BelowAllowed => |conditions| == 1 && Decides(conditions[0], BELOW, false)
    case OutsideRefused => |conditions| == 1 && Decides(conditions[0], OUTSIDE, true)
  }

  /** The text stands for a condition, and that has this value for a probe. */
  ghost predicate Decides(text: string, write: string, value: bool) {
    CondOf(text).Some? && Holds(CondOf(text).value, Probe(write)) == value
  }

  method CheckRefusal(conditions: seq<string>, tautology: string -> bool) returns (findings: seq<Finding>)
    ensures forall f :: f in findings <==> Reports(conditions, tautology, f)
    ensures findings == [] <==> |conditions| == 1 && !tautology(conditions[0]) && Passes(conditions[0])
  {
    hide Tokens, Reads, Holds;
    if conditions == [] {
      return [NoRefusal];
    }
    if |conditions| > 1 {
      return [SeveralRefusals];
    }
    findings := [];
    var text := conditions[0];
    if tautology(text) { findings := findings + [Tautology]; }
    var hooks := Evaluate(text, Probe(HOOKS));
    var root := Evaluate(text, Probe(ADMIN));
    var below := Evaluate(text, Probe(BELOW));
    var outside := Evaluate(text, Probe(OUTSIDE));
    if hooks.None? || root.None? || below.None? || outside.None? {
      return findings + [Unreadable];
    }
    if !hooks.value { findings := findings + [HooksAllowed]; }
    if root.value { findings := findings + [RootRefused]; }
    if !below.value { findings := findings + [BelowAllowed]; }
    if outside.value { findings := findings + [OutsideRefused]; }
  }

  // ---------- what the four probes decide ----------

  /** The administration root lies properly inside the Git directory. */
  ghost predicate Proper(env: Env) {
    Components(env.gitdir) < Components(env.administrationRoot)
  }

  /** What a refusal has to do. */
  ghost predicate MustRefuse(env: Env) {
    PathStartsWith(env.write, env.gitdir) && env.write != env.administrationRoot
  }

  /** Tests whose outcome follows from where the write root lies relative to the Git directory
      and the administration root. The others ask whether it is the Git directory, or above one
      of the two. */
  predicate Determined(test: Test, subject: Name, other: Name) {
    match test
    case StartsWith => other != Write || subject == Write
    case _ => !(subject == Write && other == Gitdir) && !(subject == Gitdir && other == Write)
  }

  ghost predicate OnlyTests(c: Cond, allowed: set<(Test, Name, Name)>) {
    match c
    case Const(_) => true
    case Atom(test, subject, other) => Determined(test, subject, other) || (test, subject, other) in allowed
    case Not(a) => OnlyTests(a, allowed)
    case And(a, b) => OnlyTests(a, allowed) && OnlyTests(b, allowed)
    case Or(a, b) => OnlyTests(a, allowed) && OnlyTests(b, allowed)
  }

  ghost predicate Asks(text: string, allowed: set<(Test, Name, Name)>) {
    CondOf(text).Some? && OnlyTests(CondOf(text).value, allowed)
  }

  ghost predicate Alike(a: Env, b: Env) {
    && PathStartsWith(a.write, a.gitdir) == PathStartsWith(b.write, b.gitdir)
    && PathStartsWith(a.write, a.administrationRoot) == PathStartsWith(b.write, b.administrationRoot)
    && (a.write == a.administrationRoot) == (b.write == b.administrationRoot)
  }

  lemma {:induction false} AlikeAgree(c: Cond, a: Env, b: Env)
    requires OnlyTests(c, {}) && Proper(a) && Proper(b) && Alike(a, b)
    ensures Holds(c, a) == Holds(c, b)
  {
    hide Alike, Proper, TestHolds, Determined;
    match c
    case Const(_) =>
    case Atom(test, subject, other) =>
      assert (test, subject, other) !in {};
      AlikeTests(test, subject, other, a, b);
    case Not(x) => AlikeAgree(x, a, b);
    case And(x, y) => AlikeAgree(x, a, b); AlikeAgree(y, a, b);
    case Or(x, y) => AlikeAgree(x, a, b); AlikeAgree(y, a, b);
  }

  lemma AlikeTests(test: Test, subject: Name, other: Name, a: Env, b: Env)
    requires Determined(test, subject, other) && Proper(a) && Proper(b) && Alike(a, b)
    ensures TestHolds(test, a.Lookup(subject), a.Lookup(other)) == TestHolds(test, b.Lookup(subject), b.Lookup(other))
  {
    hide PathStartsWith, Proper;
    ProperFacts(a);
    ProperFacts(b);
  }

  lemma ProperFacts(env: Env)
    requires Proper(env)
    ensures forall name :: PathStartsWith(env.Lookup(name), env.Lookup(name))
    ensures PathStartsWith(env.administrationRoot, env.gitdir) && !PathStartsWith(env.gitdir, env.administrationRoot)
    ensures env.gitdir != env.administrationRoot
  {
    hide Components;
  }

  /** A part of a path between separators is a component unless it is empty or a dot. */
  ghost predicate IsPart(part: string) {
    forall i :: 0 <= i < |part| ==> part[i] !in {'/', '\\'}
  }

  function Kept(part: string): seq<string> {
    if part in {"", "."} then [] else [part]
  }

  lemma ComponentsOne(part: string)
    requires IsPart(part)
    ensures Components(part) == Kept(part)
  {
    assert FirstSeparator(part) == |part|;
  }

  /** Behind a separator of either kind, a part adds itself to the components. */
  lemma {:induction false} ComponentsAppend(path: string, sep: char, part: string)
    requires IsPart(part) && sep in {'/', '\\'}
    ensures Components(path + ([sep] + part)) == Components(path) + Kept(part)
    decreases |path|
  {
    hide FirstSeparator, IsSeparator, Component, Kept, IsPart;
    ComponentsOne(part);
    var tail := [sep] + part;
    var whole := path + tail;
    var n := FirstSeparator(path);
    assert IsSeparator(sep) by { SlashesSeparate(); }
    FirstSeparatorAppend(path, tail);
    assert whole[..n] == path[..n];
    assert Components(whole) == Component(whole[..n]) + Components(whole[n + 1..]);
    if n == |path| {
      assert path[..n] == path && Components(path) == Component(path);
      assert whole[n + 1..] == part;
    } else {
      assert whole[n + 1..] == path[n + 1..] + tail;
      ComponentsAppend(path[n + 1..], sep, part);
    }
  }

  lemma SlashesSeparate()
    ensures IsSeparator('/') && IsSeparator('\\')
  {}

  lemma FirstSeparatorAppend(path: string, tail: string)
    requires tail != [] && IsSeparator(tail[0])
    ensures FirstSeparator(path + tail) == FirstSeparator(path)
  {
    hide FirstSeparator, IsSeparator;
    var n, m := FirstSeparator(path), FirstSeparator(path + tail);
    assert (path + tail)[n] == if n < |path| then path[n] else tail[0];
    assert forall i :: 0 <= i < |path| ==> (path + tail)[i] == path[i];
  }

  lemma ProbePaths()
    ensures [] + (['/'] + "repo") == "/repo" && "/repo" + (['/'] + ".git") == GITDIR
    ensures "/repo" + (['/'] + "checkout") == OUTSIDE && GITDIR + (['/'] + "hooks") == HOOKS
    ensures GITDIR + (['/'] + "worktrees") == ADMIN && ADMIN + (['/'] + "other") == BELOW
  {}

  lemma ProbeComponents()
    ensures Components(GITDIR) == ["repo", ".git"]
    ensures Components(ADMIN) == ["repo", ".git", "worktrees"]
    ensures Components(HOOKS) == ["repo", ".git", "hooks"]
    ensures Components(BELOW) == ["repo", ".git", "worktrees", "other"]
    ensures Components(OUTSIDE) == ["repo", "checkout"]
  {
    hide Components, GITDIR, ADMIN, HOOKS, BELOW, OUTSIDE, IsPart;
    assert Components([]) == [] by { EmptyPath(); }
    ProbePaths();
    ProbeParts();
    ComponentsAppend([], '/', "repo");
    ComponentsAppend("/repo", '/', ".git");
    ComponentsAppend("/repo", '/', "checkout");
    ComponentsAppend(GITDIR, '/', "hooks");
    ComponentsAppend(GITDIR, '/', "worktrees");
    ComponentsAppend(ADMIN, '/', "other");
  }

  lemma EmptyPath()
    ensures Components([]) == []
  {}

  lemma ProbeParts()
    ensures IsPart("repo") && IsPart(".git") && IsPart("checkout")
    ensures IsPart("hooks") && IsPart("worktrees") && IsPart("other")
  {}

  /** The probe that stands for a write root: the four cover every proper environment. */
  function Representative(env: Env): (probe: Env)
  {
    if !PathStartsWith(env.write, env.gitdir) then Probe(OUTSIDE)
    else if !PathStartsWith(env.write, env.administrationRoot) then Probe(HOOKS)
    else if env.write != env.administrationRoot then Probe(BELOW)
    else Probe(ADMIN)
  }

  lemma RepresentativeAlike(env: Env)
    requires Proper(env)
    ensures Proper(Representative(env)) && Alike(env, Representative(env))
  {
    hide Components;
    ProbeComponents();
    var probe := Representative(env);
    assert Components(GITDIR) < Components(ADMIN);
    assert !PathStartsWith(OUTSIDE, GITDIR) by { assert Components(OUTSIDE)[1] != Components(GITDIR)[1]; }
    assert !PathStartsWith(HOOKS, ADMIN) by { assert Components(HOOKS)[2] != Components(ADMIN)[2]; }
    assert PathStartsWith(HOOKS, GITDIR) && PathStartsWith(BELOW, GITDIR) && PathStartsWith(BELOW, ADMIN);
    assert PathStartsWith(env.write, env.administrationRoot) ==> PathStartsWith(env.write, env.gitdir) by {
      PrefixTransitive(Components(env.gitdir), Components(env.administrationRoot), Components(env.write));
    }
    assert !PathStartsWith(OUTSIDE, ADMIN) by {
      PrefixTransitive(Components(GITDIR), Components(ADMIN), Components(OUTSIDE));
    }
    assert BELOW != ADMIN && HOOKS != ADMIN && OUTSIDE != ADMIN;
  }

  lemma PrefixTransitive(a: seq<string>, b: seq<string>, c: seq<string>)
    requires a <= b
    ensures b <= c ==> a <= c
  {}

  /** A condition that gives the four required verdicts and asks only determined tests refuses,
      for every write path and every proper pair of roots, exactly what it must. */
  lemma FourProbesSuffice(text: string, env: Env)
    requires Passes(text) && Asks(text, {}) && Proper(env)
    ensures TextVerdict(text, env) == Some(MustRefuse(env))
  {
    hide Tokens, Reads, Components, Holds;
    RepresentativeAlike(env);
    AlikeAgree(CondOf(text).value, env, Representative(env));
  }

  /** The refusal as it is written passes, and so refuses exactly what it must. */
  lemma GuardedConditionSuffices(env: Env)
    requires Proper(env)
    ensures Passes(GUARDED) && TextVerdict(GUARDED, env) == Some(MustRefuse(env))
  {
    hide Components, Tokens, Reads, GUARDED, Proper, Passes;
    GuardedConditionReads();
    GuardedVerdicts();
    FourProbesSuffice(GUARDED, env);
  }

  lemma GuardedVerdicts()
    ensures Passes(GUARDED)
  {
    hide Components, Tokens, Reads, GUARDED;
    GuardedConditionReads();
    ProbeComponents();
    assert Components(OUTSIDE)[1] != Components(GITDIR)[1];
    assert HOOKS != ADMIN && BELOW != ADMIN;
  }

  // ---------- what they do not ----------

  /** The probes vouch for every condition over the determined tests and `extra`. */
  ghost predicate ProbesVouch(extra: (Test, Name, Name)) {
    forall text, env :: Passes(text) && Asks(text, {extra}) && Proper(env) ==>
      TextVerdict(text, env) == Some(MustRefuse(env))
  }

  /** A condition that excuses the write roots on which an undetermined test singles out the
      Git directory. */
  function Escape(test: Test, subject: Name, other: Name): Cond {
    var base := And(Atom(StartsWith, Write, Gitdir), Atom(Differs, Write, AdministrationRoot));
    And(base, if test == Differs then Atom(test, subject, other) else Not(Atom(test, subject, other)))
  }

  /** A condition written without any whitespace. */
  function Written(c: Cond): string {
    Spaced(Printed(c), seq(|Printed(c)| + 1, _ => ""))
  }

  lemma WrittenEvaluates(c: Cond, env: Env)
    ensures CondOf(Written(c)) == Some(c) && TextVerdict(Written(c), env) == Some(Holds(c, env))
  {
    hide CondOf, TextVerdict, Show;
    BlanksAreGaps();
    TextEvaluates(Least(c, 2), seq(|Printed(c)| + 1, _ => ""), env);
  }

  lemma EscapePasses(test: Test, subject: Name, other: Name)
    requires !Determined(test, subject, other)
    ensures var text := Written(Escape(test, subject, other));
            && Passes(text) && CondOf(text) == Some(Escape(test, subject, other))
            && TextVerdict(text, Probe(GITDIR)) == Some(false) && MustRefuse(Probe(GITDIR)) && Proper(Probe(GITDIR))
  {
    hide Components, Tokens, Reads, Written, Holds, Escape, Proper, MustRefuse;
    var c := Escape(test, subject, other);
    EscapeVerdicts(test, subject, other);
    WrittenEvaluates(c, Probe(GITDIR));
  }

  lemma EscapeVerdicts(test: Test, subject: Name, other: Name)
    requires !Determined(test, subject, other)
    ensures var c := Escape(test, subject, other);
            && Holds(c, Probe(HOOKS)) && !Holds(c, Probe(ADMIN)) && Holds(c, Probe(BELOW)) && !Holds(c, Probe(OUTSIDE))
            && !Holds(c, Probe(GITDIR)) && MustRefuse(Probe(GITDIR)) && Proper(Probe(GITDIR))
  {
    hide Components;
    ProbeComponents();
    assert Components(OUTSIDE)[1] != Components(GITDIR)[1];
    assert !PathStartsWith(GITDIR, HOOKS) && !PathStartsWith(GITDIR, BELOW) && !PathStartsWith(ADMIN, BELOW);
    assert !PathStartsWith(ADMIN, HOOKS) by { assert Components(HOOKS)[2] != Components(ADMIN)[2]; }
    assert HOOKS != GITDIR && BELOW != GITDIR && ADMIN != GITDIR && HOOKS != ADMIN && BELOW != ADMIN;
  }

  /** The probes vouch for a test exactly when it is a determined one. */
  lemma ProbesExact(test: Test, subject: Name, other: Name)
    ensures ProbesVouch((test, subject, other)) <==> Determined(test, subject, other)
  {
    hide Passes, TextVerdict, MustRefuse, Proper, Written, Determined, CondOf, OnlyTests;
    var extra := (test, subject, other);
    if Determined(test, subject, other) {
      forall text, env | Passes(text) && Asks(text, {extra}) && Proper(env)
        ensures TextVerdict(text, env) == Some(MustRefuse(env))
      {
        DropDetermined(CondOf(text).value, extra);
        FourProbesSuffice(text, env);
      }
    } else {
      EscapePasses(test, subject, other);
      var text := Written(Escape(test, subject, other));
      assert OnlyTests(Escape(test, subject, other), {extra}) by { EscapeTests(test, subject, other); }
      assert TextVerdict(text, Probe(GITDIR)) != Some(MustRefuse(Probe(GITDIR)));
    }
  }

  lemma EscapeTests(test: Test, subject: Name, other: Name)
    ensures OnlyTests(Escape(test, subject, other), {(test, subject, other)})
  {}

  lemma {:induction false} DropDetermined(c: Cond, extra: (Test, Name, Name))
    requires OnlyTests(c, {extra}) && Determined(extra.0, extra.1, extra.2)
    ensures OnlyTests(c, {})
  {
    match c
    case Const(_) =>
    case Atom(_, _, _) =>
    case Not(a) => DropDetermined(a, extra);
    case And(a, b) => DropDetermined(a, extra); DropDetermined(b, extra);
    case Or(a, b) => DropDetermined(a, extra); DropDetermined(b, extra);
  }
}
