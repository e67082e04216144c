/**
 Who carries out a command: `check_set_shape` and `check_closure` of
 `scripts/check_frontend_action_set.py`, and `check_effect_table` of
 `scripts/check_command_catalog_ownership.py`. A clean verdict of all three is a partition of
 the catalog's forms between the frontend's actions and the daemon.
 */
module CommandOwnership {
  import opened Text

  datatype Form = Form(name: string, kind: string)

  datatype Command = Command(id: string, forms: seq<Form>)

  datatype Declaration = Declaration(action: string, disposition: string, forms: seq<(string, string)>)

  const FRONTEND := "FrontendEffect"
  const DAEMON := "DaemonEffect"
  const ALLOWED := {"NonMutating", "ProcessLaunching"}

  /** A command and one of its forms. */
  type Target = (string, string)

  // ---------- the catalog ----------

  /** `{command.command_id: command ...}.get(id)`: the last command of that name. */
  function ById(commands: seq<Command>, id: string): Option<Command> {
    if commands == [] then None
    else if commands[|commands| - 1].id == id then Some(commands[|commands| - 1])
    else ById(commands[..|commands| - 1], id)
  }

  function FirstForm(forms: seq<Form>, name: string): Option<Form> {
    if forms == [] then None
    else if forms[0].name == name then Some(forms[0])
    else FirstForm(forms[1..], name)
  }

  /** The kind the checks find for a target. */
  function KindOf(commands: seq<Command>, t: Target): Option<string> {
    match ById(commands, t.0)
    case None => None
    case Some(c) =>
      match FirstForm(c.forms, t.1)
      case None => None
      case Some(f) => Some(f.kind)
  }

  /** The catalog holds the form, with that kind. */
  ghost predicate Catalogued(commands: seq<Command>, t: Target, kind: string) {
    exists i, j :: 0 <= i < |commands| && 0 <= j < |commands[i].forms|
                   && commands[i].id == t.0 && commands[i].forms[j] == Form(t.1, kind)
  }

  /** Ids are unique, and so are the form names of each command. */
  ghost predicate Unique(commands: seq<Command>) {
    && (forall i, j :: 0 <= i < j < |commands| ==> commands[i].id != commands[j].id)
    && (forall c :: c in commands ==> forall i, j :: 0 <= i < j < |c.forms| ==> c.forms[i].name != c.forms[j].name)
  }

  lemma {:induction false} ByIdIs(commands: seq<Command>, i: nat)
    requires Unique(commands) && i < |commands|
    ensures ById(commands, commands[i].id) == Some(commands[i])
  {
    var n := |commands| - 1;
    if i < n {
      assert commands[..n][i] == commands[i];
      ByIdIs(commands[..n], i);
    }
  }

  lemma {:induction false} ByIdFinds(commands: seq<Command>, id: string)
    ensures var r := ById(commands, id); r.Some? ==> r.value in commands && r.value.id == id
  {
    if commands != [] {
      ByIdFinds(commands[..|commands| - 1], id);
    }
  }

  lemma {:induction false} FirstFormIs(forms: seq<Form>, j: nat)
    requires j < |forms| && forall a, b :: 0 <= a < b < |forms| ==> forms[a].name != forms[b].name
    ensures FirstForm(forms, forms[j].name) == Some(forms[j])
  {
    if j > 0 {
      assert forms[1..][j - 1] == forms[j];
      FirstFormIs(forms[1..], j - 1);
    }
  }

  lemma {:induction false} FirstFormFinds(forms: seq<Form>, name: string)
    ensures var r := FirstForm(forms, name); r.Some? ==> r.value in forms && r.value.name == name
  {
    if forms != [] {
      FirstFormFinds(forms[1..], name);
    }
  }

  /** Of several commands of a name the last counts. */
  lemma {:induction false} ByIdLast(commands: seq<Command>, c: Command, id: string)
    ensures ById(commands + [c], id) == if c.id == id then Some(c) else ById(commands, id)
    ensures ById(commands, id) == None <==> forall d :: d in commands ==> d.id != id
    decreases |commands|
  {
    assert (commands + [c])[..|commands|] == commands;
    if commands != [] {
      var init, last := commands[..|commands| - 1], commands[|commands| - 1];
      ByIdLast(init, last, id);
      assert commands == init + [last];
    }
  }

  /** Of several forms of a name the first. */
  lemma {:induction false} FirstFormFirst(f: Form, forms: seq<Form>, name: string)
    ensures FirstForm([f] + forms, name) == if f.name == name then Some(f) else FirstForm(forms, name)
    ensures FirstForm(forms, name) == None <==> forall g :: g in forms ==> g.name != name
    decreases |forms|
  {
    assert ([f] + forms)[1..] == forms;
    if forms != [] {
      FirstFormFirst(forms[0], forms[1..], name);
      assert forms == [forms[0]] + forms[1..];
    }
  }

  /** In a catalog with unique names, the kind found is the kind catalogued. */
  lemma KindExact(commands: seq<Command>, t: Target, kind: string)
    requires Unique(commands)
    ensures KindOf(commands, t) == Some(kind) <==> Catalogued(commands, t, kind)
  {
    hide ById, FirstForm;
    if Catalogued(commands, t, kind) {
      var i, j :| 0 <= i < |commands| && 0 <= j < |commands[i].forms|
                  && commands[i].id == t.0 && commands[i].forms[j] == Form(t.1, kind);
      ByIdIs(commands, i);
      FirstFormIs(commands[i].forms, j);
    }
    if KindOf(commands, t) == Some(kind) {
      ByIdFinds(commands, t.0);
      var c := ById(commands, t.0).value;
      FirstFormFinds(c.forms, t.1);
      var i :| 0 <= i < |commands| && commands[i] == c;
      var j :| 0 <= j < |c.forms| && c.forms[j] == FirstForm(c.forms, t.1).value;
      assert commands[i].forms[j] == Form(t.1, kind);
    }
  }

  // ---------- what the declarations serve ----------

  /** The targets served, with the serving action, in the order the check visits them. */
  function Served(ds: seq<Declaration>): seq<(Target, string)> {
    if ds == [] then []
    else Served(ds[..|ds| - 1]) + ServedBy(ds[|ds| - 1].forms, ds[|ds| - 1].action)
  }

  function ServedBy(forms: seq<Target>, action: string): (r: seq<(Target, string)>)
    ensures |r| == |forms|
  {
    seq(|forms|, i requires 0 <= i < |forms| => (forms[i], action))
  }

  /** `covered.get(t, [])`. */
  function ActionsFor(served: seq<(Target, string)>, t: Target): seq<string> {
    if served == [] then []
    else ActionsFor(served[..|served| - 1], t)
         + (if served[|served| - 1].0 == t then [served[|served| - 1].1] else [])
  }

  /** Why a target is not what it is taken for. */
  datatype Problem = NoCommand | NoForm | OtherKind

  ghost function ProblemOf(commands: seq<Command>, t: Target, kind: string): Option<Problem> {
    match ById(commands, t.0)
    case None => Some(NoCommand)
    case Some(c) =>
      match FirstForm(c.forms, t.1)
      case None => Some(NoForm)
      case Some(f) => if f.kind != kind then Some(OtherKind) else None
  }

  /** In a catalog with unique names: the command is missing, its form is, or it is catalogued
      with another kind. */
  lemma ProblemExact(commands: seq<Command>, t: Target, kind: string)
    requires Unique(commands)
    ensures ProblemOf(commands, t, kind) ==
              if forall c :: c in commands ==> c.id != t.0 then Some(NoCommand)
              else if forall k :: !Catalogued(commands, t, k) then Some(NoForm)
              else if !Catalogued(commands, t, kind) then Some(OtherKind)
              else None
  {
    hide ById, FirstForm, Catalogued;
    ByIdFinds(commands, t.0);
    forall c | c in commands && c.id == t.0
      ensures ById(commands, t.0) == Some(c)
    {
      var i :| 0 <= i < |commands| && commands[i] == c;
      ByIdIs(commands, i);
    }
    forall k
      ensures KindOf(commands, t) == Some(k) <==> Catalogued(commands, t, k)
    {
      KindExact(commands, t, k);
    }
    if KindOf(commands, t).Some? {
      assert Catalogued(commands, t, KindOf(commands, t).value);
    }
  }

  datatype Finding =
    | NoActions | NoDeclarations
    | NoSuchAction(action: string) | BadDisposition(action: string, disposition: string) | NoForms(action: string)
    | Undeclared(action: string)
    | Misserved(action: string, target: Target, problem: Problem)
    | Unserved(target: Target) | ServedTwice(target: Target)
    | BadKey(target: Target, problem: Problem)

  // ---------- the shape of the set ----------

  /** What `check_set_shape` demands of one declaration. */
  predicate ShapeOk(d: Declaration, variants: seq<string>) {
    d.action in variants && d.disposition in ALLOWED && d.forms != []
  }

  ghost predicate Declared(ds: seq<Declaration>, variant: string) {
    exists d :: d in ds && d.action == variant
  }

  ghost predicate WellShaped(variants: seq<string>, ds: seq<Declaration>) {
    && variants != [] && ds != []
    && (forall d :: d in ds ==> ShapeOk(d, variants))
    && (forall v :: v in variants ==> Declared(ds, v))
  }

  /** What a finding says of one declaration. */
  ghost predicate Misshapen(variants: seq<string>, d: Declaration, f: Finding) {
    match f
    case NoSuchAction(a) => a == d.action && a !in variants
    case BadDisposition(a, disposition) => a == d.action && disposition == d.disposition && disposition !in ALLOWED
    case NoForms(a) => a == d.action && d.forms == []
    case _ => false
  }

  /** What a finding of `check_set_shape` says. */
  ghost predicate ShapeReports(variants: seq<string>, ds: seq<Declaration>, f: Finding) {
    if variants == [] then f == NoActions
    else if ds == [] then f == NoDeclarations
    else
      || (exists d :: d in ds && Misshapen(variants, d, f))
      || (f.Undeclared? && f.action in variants && !Declared(ds, f.action))
  }

  method CheckSetShape(variants: seq<string>, ds: seq<Declaration>) returns (findings: seq<Finding>)
    ensures forall f :: f in findings <==> ShapeReports(variants, ds, f)
    ensures findings == [] <==> WellShaped(variants, ds)
  {
    hide WellShaped, Declared;
    findings := [];
    if variants == [] {
      findings := [NoActions];
    } else if ds == [] {
      findings := [NoDeclarations];
    } else {
      for i := 0 to |ds|
        invariant forall f :: f in findings <==> exists a :: 0 <= a < i && Misshapen(variants, ds[a], f)
      {
        var d := ds[i];
        ghost var before := findings;
        if d.action !in variants { findings := findings + [NoSuchAction(d.action)]; }
        if d.disposition !in ALLOWED { findings := findings + [BadDisposition(d.action, d.disposition)]; }
        if d.forms == [] { findings := findings + [NoForms(d.action)]; }
        assert forall f :: f in findings <==> f in before || Misshapen(variants, d, f);
      }
      ghost var shaped := findings;
      for k := 0 to |variants|
        invariant forall f :: f in findings <==>
                    f in shaped || (f.Undeclared? && f.action in variants[..k] && !Declared(ds, f.action))
      {
        assert variants[..k + 1] == variants[..k] + [variants[k]];
        DeclaredMeans(ds, variants[k]);
        if !exists d :: d in ds && d.action == variants[k] {
          findings := findings + [Undeclared(variants[k])];
        }
      }
      assert variants[..|variants|] == variants;
    }
    ShapeClean(variants, ds, findings);
  }

  lemma DeclaredMeans(ds: seq<Declaration>, variant: string)
    ensures Declared(ds, variant) <==> exists d :: d in ds && d.action == variant
  {}

  lemma ShapeClean(variants: seq<string>, ds: seq<Declaration>, findings: seq<Finding>)
    requires forall f :: f in findings <==> ShapeReports(variants, ds, f)
    ensures findings == [] <==> WellShaped(variants, ds)
  {
    hide Declared;
    if findings == [] {
      assert !ShapeReports(variants, ds, NoActions) && !ShapeReports(variants, ds, NoDeclarations);
      forall d | d in ds
        ensures ShapeOk(d, variants)
      {
        assert !ShapeReports(variants, ds, NoSuchAction(d.action)) && !ShapeReports(variants, ds, NoForms(d.action));
        assert !ShapeReports(variants, ds, BadDisposition(d.action, d.disposition));
        assert !Misshapen(variants, d, NoSuchAction(d.action)) && !Misshapen(variants, d, NoForms(d.action));
        assert !Misshapen(variants, d, BadDisposition(d.action, d.disposition));
      }
      forall v | v in variants
        ensures Declared(ds, v)
      {
        assert !ShapeReports(variants, ds, Undeclared(v));
      }
    } else {
      assert findings[0] in findings && ShapeReports(variants, ds, findings[0]);
    }
  }

  // ---------- closure ----------

  /** What `check_closure` finds right: everything served is a frontend form, and every frontend
      form is served once. */
  ghost predicate Closed(commands: seq<Command>, ds: seq<Declaration>) {
    && (forall k :: 0 <= k < |Served(ds)| ==> KindOf(commands, Served(ds)[k].0) == Some(FRONTEND))
    && (forall i, j :: 0 <= i < |commands| && 0 <= j < |commands[i].forms| && commands[i].forms[j].kind == FRONTEND ==>
          |ActionsFor(Served(ds), (commands[i].id, commands[i].forms[j].name))| == 1)
  }

  /** What a finding of `check_closure` says. */
  ghost predicate ClosureReports(commands: seq<Command>, ds: seq<Declaration>, f: Finding) {
    match f
    case Misserved(action, t, problem) => Dispatches(ds, t, action) && ProblemOf(commands, t, FRONTEND) == Some(problem)
    case Unserved(t) => Catalogued(commands, t, FRONTEND) && forall action :: !Dispatches(ds, t, action)
    case ServedTwice(t) => Catalogued(commands, t, FRONTEND) && |ActionsFor(Served(ds), t)| > 1
    case _ => false
  }

  /** What a finding says of one target served. */
  ghost predicate IsMisserved(commands: seq<Command>, served: seq<(Target, string)>, f: Finding) {
    f.Misserved? && (f.target, f.action) in served && ProblemOf(commands, f.target, FRONTEND) == Some(f.problem)
  }

  /** What a finding says of one form of the catalog. */
  ghost predicate FormReports(commands: seq<Command>, ds: seq<Declaration>, i: nat, j: nat, f: Finding)
    requires i < |commands| && j < |commands[i].forms|
  {
    var t := (commands[i].id, commands[i].forms[j].name);
    commands[i].forms[j].kind == FRONTEND
    && (|| (f == Unserved(t) && ActionsFor(Served(ds), t) == [])
        || (f == ServedTwice(t) && |ActionsFor(Served(ds), t)| > 1))
  }

  method CheckClosure(commands: seq<Command>, ds: seq<Declaration>) returns (findings: seq<Finding>)
    ensures forall f :: f in findings <==> ClosureReports(commands, ds, f)
    ensures findings == [] <==> Closed(commands, ds)
  {
    hide Served, ActionsFor, Closed, ClosureReports, ProblemOf;
    var covered: map<Target, seq<string>>;
    covered, findings := VisitDeclarations(commands, ds);
    ghost var visited := findings;
    for i := 0 to |commands|
      invariant forall f :: f in findings <==>
                  || f in visited
                  || (exists a, b :: 0 <= a < i && 0 <= b < |commands[a].forms| && FormReports(commands, ds, a, b, f))
    {
      var forms := commands[i].forms;
      ghost var before := findings;
      for j := 0 to |forms|
        invariant forall f :: f in findings <==>
                    || f in before
                    || (exists b :: 0 <= b < j && FormReports(commands, ds, i, b, f))
      {
        ghost var soFar := findings;
        if forms[j].kind == FRONTEND {
          var target := (commands[i].id, forms[j].name);
          var actions := if target in covered then covered[target] else [];
          assert actions == ActionsFor(Served(ds), target);
          if actions == [] {
            findings := findings + [Unserved(target)];
          } else if |actions| > 1 {
            findings := findings + [ServedTwice(target)];
          }
        }
        assert forall f :: f in findings <==> f in soFar || FormReports(commands, ds, i, j, f);
      }
    }
    forall f
      ensures f in findings <==> ClosureReports(commands, ds, f)
    {
      ClosureReportsExact(commands, ds, f);
    }
    ClosureClean(commands, ds, findings);
  }

  /** What the check reports by declarations and by forms is what its findings say. */
  lemma ClosureReportsExact(commands: seq<Command>, ds: seq<Declaration>, f: Finding)
    ensures ClosureReports(commands, ds, f) <==>
            || IsMisserved(commands, Served(ds), f)
            || (exists a, b :: 0 <= a < |commands| && 0 <= b < |commands[a].forms|
                               && FormReports(commands, ds, a, b, f))
  {
    hide Served, ActionsFor, ProblemOf, Dispatches;
    if f.Misserved? {
      ServedMeans(ds, f.target, f.action);
    }
    if f.Unserved? {
      NobodyServes(ds, f.target);
    }
    if (f.Unserved? || f.ServedTwice?) && ClosureReports(commands, ds, f) {
      var a, b :| 0 <= a < |commands| && 0 <= b < |commands[a].forms|
                  && commands[a].id == f.target.0 && commands[a].forms[b] == Form(f.target.1, FRONTEND);
      assert f.target == (commands[a].id, commands[a].forms[b].name);
      assert FormReports(commands, ds, a, b, f);
    }
  }

  lemma NobodyServes(ds: seq<Declaration>, t: Target)
    ensures ActionsFor(Served(ds), t) == [] <==> forall action :: !Dispatches(ds, t, action)
  {
    hide Served, ActionsFor, Dispatches;
    forall action
      ensures action in ActionsFor(Served(ds), t) <==> Dispatches(ds, t, action)
    {
      ServedMeans(ds, t, action);
      ActionsForMeans(Served(ds), t, action);
    }
    if ActionsFor(Served(ds), t) != [] {
      assert ActionsFor(Served(ds), t)[0] in ActionsFor(Served(ds), t);
    }
  }

  lemma ClosureClean(commands: seq<Command>, ds: seq<Declaration>, findings: seq<Finding>)
    requires forall f :: f in findings <==> ClosureReports(commands, ds, f)
    ensures findings == [] <==> Closed(commands, ds)
  {
    hide Served, ActionsFor, ClosureReports;
    forall f
      ensures f in findings <==>
              || IsMisserved(commands, Served(ds), f)
              || (exists a, b :: 0 <= a < |commands| && 0 <= b < |commands[a].forms|
                                 && FormReports(commands, ds, a, b, f))
    {
      ClosureReportsExact(commands, ds, f);
    }
    if findings == [] {
      forall k | 0 <= k < |Served(ds)|
        ensures KindOf(commands, Served(ds)[k].0) == Some(FRONTEND)
      {
        var (t, action) := Served(ds)[k];
        assert (t, action) in Served(ds);
        assert Misserved(action, t, NoCommand) !in findings;
        assert Misserved(action, t, NoForm) !in findings;
        assert Misserved(action, t, OtherKind) !in findings;
      }
      forall i, j | 0 <= i < |commands| && 0 <= j < |commands[i].forms| && commands[i].forms[j].kind == FRONTEND
        ensures |ActionsFor(Served(ds), (commands[i].id, commands[i].forms[j].name))| == 1
      {
        var t := (commands[i].id, commands[i].forms[j].name);
        assert !FormReports(commands, ds, i, j, Unserved(t)) by { assert Unserved(t) !in findings; }
        assert !FormReports(commands, ds, i, j, ServedTwice(t)) by { assert ServedTwice(t) !in findings; }
      }
    } else {
      assert findings[0] in findings;
    }
  }

  /** `covered` holds the actions of the targets served so far. */
  ghost predicate Covers(covered: map<Target, seq<string>>, served: seq<(Target, string)>) {
    forall t :: (if t in covered then covered[t] else []) == ActionsFor(served, t)
  }

  lemma CoversStep(covered: map<Target, seq<string>>, served: seq<(Target, string)>, t: Target, action: string)
    requires Covers(covered, served)
    ensures Covers(covered[t := (if t in covered then covered[t] else []) + [action]], served + [(t, action)])
  {
    assert (served + [(t, action)])[..|served|] == served;
    var next := covered[t := (if t in covered then covered[t] else []) + [action]];
    forall u
      ensures (if u in next then next[u] else []) == ActionsFor(served + [(t, action)], u)
    {
      assert (if u in covered then covered[u] else []) == ActionsFor(served, u);
      assert ActionsFor(served, u) + [] == ActionsFor(served, u);
    }
  }

  /** What both guards do with a target they meet. */
  method LookUp(commands: seq<Command>, t: Target, kind: string) returns (problem: Option<Problem>)
    ensures problem == ProblemOf(commands, t, kind)
    ensures problem.None? <==> KindOf(commands, t) == Some(kind)
  {
    var command := ById(commands, t.0);
    if command.None? {
      return Some(NoCommand);
    }
    var form := FirstForm(command.value.forms, t.1);
    if form.None? {
      return Some(NoForm);
    }
    problem := if form.value.kind != kind then Some(OtherKind) else None;
  }

  /** The first loop of `check_closure`. */
  method VisitDeclarations(commands: seq<Command>, ds: seq<Declaration>)
    returns (covered: map<Target, seq<string>>, findings: seq<Finding>)
    ensures Covers(covered, Served(ds))
    ensures forall f :: f in findings <==> IsMisserved(commands, Served(ds), f)
  {
    hide Covers, ProblemOf, KindOf;
    covered, findings := map[], [];
    ghost var served: seq<(Target, string)> := [];
    NothingCovered();
    for i := 0 to |ds|
      invariant served == Served(ds[..i]) && Covers(covered, served)
      invariant forall f :: f in findings <==> IsMisserved(commands, served, f)
    {
      var d := ds[i];
      assert ds[..i + 1][..i] == ds[..i];
      ghost var before := served;
      for j := 0 to |d.forms|
        invariant served == before + ServedBy(d.forms, d.action)[..j] && Covers(covered, served)
        invariant forall f :: f in findings <==> IsMisserved(commands, served, f)
      {
        var t := d.forms[j];
        CoversStep(covered, served, t, d.action);
        assert ServedBy(d.forms, d.action)[..j + 1] == ServedBy(d.forms, d.action)[..j] + [(t, d.action)];
        covered := covered[t := (if t in covered then covered[t] else []) + [d.action]];
        served := served + [(t, d.action)];
        var problem := LookUp(commands, t, FRONTEND);
        if problem.Some? {
          findings := findings + [Misserved(d.action, t, problem.value)];
        }
      }
      assert ServedBy(d.forms, d.action)[..|d.forms|] == ServedBy(d.forms, d.action);
    }
    assert ds[..|ds|] == ds;
  }

  lemma NothingCovered()
    ensures Covers(map[], [])
  {}

  // ---------- the effect table ----------

  method CheckEffectTable(commands: seq<Command>, keys: seq<Target>) returns (findings: seq<Finding>)
    ensures forall f :: f in findings <==>
              f.BadKey? && f.target in keys && ProblemOf(commands, f.target, DAEMON) == Some(f.problem)
    ensures findings == [] <==> forall k :: 0 <= k < |keys| ==> KindOf(commands, keys[k]) == Some(DAEMON)
  {
    hide ProblemOf, KindOf;
    findings := [];
    for k := 0 to |keys|
      invariant forall f :: f in findings <==>
                  f.BadKey? && f.target in keys[..k] && ProblemOf(commands, f.target, DAEMON) == Some(f.problem)
      invariant findings == [] <==> forall j :: 0 <= j < k ==> KindOf(commands, keys[j]) == Some(DAEMON)
    {
      assert keys[..k + 1] == keys[..k] + [keys[k]];
      var problem := LookUp(commands, keys[k], DAEMON);
      if problem.Some? {
        findings := findings + [BadKey(keys[k], problem.value)];
      }
    }
    assert keys[..|keys|] == keys;
  }

  // ---------- what a clean verdict means ----------

  /** The declarations dispatch the target to the action. */
  ghost predicate Dispatches(ds: seq<Declaration>, t: Target, action: string) {
    exists d :: d in ds && d.action == action && t in d.forms
  }

  lemma {:induction false} ServedMeans(ds: seq<Declaration>, t: Target, action: string)
    ensures (t, action) in Served(ds) <==> Dispatches(ds, t, action)
  {
    if ds != [] {
      var n := |ds| - 1;
      var d := ds[n];
      ServedMeans(ds[..n], t, action);
      assert ds == ds[..n] + [d];
      assert (t, action) in ServedBy(d.forms, d.action) <==> d.action == action && t in d.forms by {
        if d.action == action && t in d.forms {
          var i :| 0 <= i < |d.forms| && d.forms[i] == t;
          assert ServedBy(d.forms, d.action)[i] == (t, action);
        }
      }
    }
  }

  lemma {:induction false} ActionsForMeans(served: seq<(Target, string)>, t: Target, action: string)
    ensures action in ActionsFor(served, t) <==> (t, action) in served
  {
    if served != [] {
      var n := |served| - 1;
      ActionsForMeans(served[..n], t, action);
      assert served == served[..n] + [served[n]];
    }
  }

  /** The frontend's dispatch is a total function from the catalogued frontend forms onto the
      actions: every such form has exactly one action, nothing else is dispatched, every action
      is an enum variant, and every variant is reached. */
  ghost predicate TotalOnto(commands: seq<Command>, ds: seq<Declaration>, variants: seq<string>) {
    && (forall t :: Catalogued(commands, t, FRONTEND) ==> exists action :: Dispatches(ds, t, action))
    && (forall t, a, b :: Dispatches(ds, t, a) && Dispatches(ds, t, b) ==> a == b)
    && (forall t, action :: Dispatches(ds, t, action) ==> Catalogued(commands, t, FRONTEND) && action in variants)
    && (forall v :: v in variants ==> exists t :: Dispatches(ds, t, v))
  }

  lemma CleanIsTotalOnto(commands: seq<Command>, ds: seq<Declaration>, variants: seq<string>)
    requires Unique(commands) && Closed(commands, ds) && WellShaped(variants, ds)
    ensures TotalOnto(commands, ds, variants)
  {
    hide Served, ActionsFor, KindOf, Unique;
    forall t, action | Dispatches(ds, t, action)
      ensures Catalogued(commands, t, FRONTEND) && action in variants
      ensures ActionsFor(Served(ds), t) == [action]
    {
      ServedMeans(ds, t, action);
      DispatchedKind(commands, ds, t, action);
      KindExact(commands, t, FRONTEND);
      ActionsForMeans(Served(ds), t, action);
      OneAction(commands, ds, t);
    }
    forall t | Catalogued(commands, t, FRONTEND)
      ensures exists action :: Dispatches(ds, t, action)
    {
      OneAction(commands, ds, t);
      var action := ActionsFor(Served(ds), t)[0];
      ActionsForMeans(Served(ds), t, action);
      ServedMeans(ds, t, action);
      assert Dispatches(ds, t, action);
    }
    forall v | v in variants
      ensures exists t :: Dispatches(ds, t, v)
    {
      var d :| d in ds && d.action == v;
      assert ShapeOk(d, variants);
      assert Dispatches(ds, d.forms[0], v);
    }
  }

  /** How often the declarations list the target. */
  function TimesServed(ds: seq<Declaration>, t: Target): nat {
    if ds == [] then 0 else TimesServed(ds[..|ds| - 1], t) + multiset(ds[|ds| - 1].forms)[t]
  }

  /** A target is served twice when two declarations list it, or one lists it twice. */
  lemma {:induction false} ServedCount(ds: seq<Declaration>, t: Target)
    ensures |ActionsFor(Served(ds), t)| == TimesServed(ds, t)
  {
    hide ActionsFor;
    if ds == [] {
      NoneServed(t);
    } else {
      var d := ds[|ds| - 1];
      ServedCount(ds[..|ds| - 1], t);
      ActionsForJoin(Served(ds[..|ds| - 1]), ServedBy(d.forms, d.action), t);
      ServedByCount(d.forms, d.action, t);
    }
  }

  lemma NoneServed(t: Target)
    ensures ActionsFor([], t) == []
  {}

  lemma {:induction false} ActionsForJoin(a: seq<(Target, string)>, b: seq<(Target, string)>, t: Target)
    ensures ActionsFor(a + b, t) == ActionsFor(a, t) + ActionsFor(b, t)
  {
    if b == [] {
      assert a + b == a;
    } else {
      var init := b[..|b| - 1];
      assert (a + b)[..|a + b| - 1] == a + init;
      ActionsForJoin(a, init, t);
    }
  }

  lemma {:induction false} ServedByCount(forms: seq<Target>, action: string, t: Target)
    ensures |ActionsFor(ServedBy(forms, action), t)| == multiset(forms)[t]
  {
    if forms != [] {
      var init := forms[..|forms| - 1];
      ServedByCount(init, action, t);
      assert ServedBy(forms, action)[..|forms| - 1] == ServedBy(init, action);
      assert forms == init + [forms[|forms| - 1]];
    }
  }

  lemma OneAction(commands: seq<Command>, ds: seq<Declaration>, t: Target)
    requires Closed(commands, ds) && Catalogued(commands, t, FRONTEND)
    ensures |ActionsFor(Served(ds), t)| == 1
  {
    var i, j :| 0 <= i < |commands| && 0 <= j < |commands[i].forms|
                && commands[i].id == t.0 && commands[i].forms[j] == Form(t.1, FRONTEND);
    assert commands[i].forms[j].kind == FRONTEND && t == (commands[i].id, commands[i].forms[j].name);
  }

  /** With the effect table clean as well, nothing is both executed by the daemon and dispatched
      by the frontend. */
  lemma CleanIsDisjoint(commands: seq<Command>, ds: seq<Declaration>, keys: seq<Target>, t: Target, action: string)
    requires Closed(commands, ds)
    requires forall k :: 0 <= k < |keys| ==> KindOf(commands, keys[k]) == Some(DAEMON)
    ensures !(t in keys && Dispatches(ds, t, action))
  {
    hide KindOf, Closed;
    if Dispatches(ds, t, action) {
      DispatchedKind(commands, ds, t, action);
    }
  }

  lemma DispatchedKind(commands: seq<Command>, ds: seq<Declaration>, t: Target, action: string)
    requires Closed(commands, ds) && Dispatches(ds, t, action)
    ensures KindOf(commands, t) == Some(FRONTEND)
  {
    hide KindOf, Served;
    ServedMeans(ds, t, action);
    var k :| 0 <= k < |Served(ds)| && Served(ds)[k] == (t, action);
    assert KindOf(commands, Served(ds)[k].0) == Some(FRONTEND);
  }
}
