/**
 Profile alignment of `scripts/check_cargo_profile_alignment.py`: which differences between the
 `dev` and `test` profiles are reported, and what silence says about every package.
 */
module CargoProfiles {
  import opened Text

  /** A TOML value, as Python compares it: a Boolean equals the integer it counts as. */
  datatype Toml = Integer(n: int) | Boolean(b: bool) | Str(s: string)

  function Plain(v: Toml): Toml {
    if v.Boolean? then Integer(if v.b then 1 else 0) else v
  }

  predicate Same(a: Toml, b: Toml) {
    Plain(a) == Plain(b)
  }

  /** Values are equal within their kind, and a Boolean is equal to one or to zero. */
  lemma SameExact(m: int, n: int, a: bool, b: bool, s: string, t: string)
    ensures Same(Integer(m), Integer(n)) <==> m == n
    ensures Same(Boolean(a), Boolean(b)) <==> a == b
    ensures Same(Str(s), Str(t)) <==> s == t
    ensures Same(Integer(m), Boolean(b)) <==> m == if b then 1 else 0
    ensures Same(Boolean(a), Integer(n)) <==> n == if a then 1 else 0
    ensures !Same(Str(s), Integer(n)) && !Same(Str(s), Boolean(b))
    ensures !Same(Integer(m), Str(t)) && !Same(Boolean(a), Str(t))
  {}

  type Table = map<string, Toml>

  /** `a == b` on dictionaries. */
  predicate SameTable(a: Table, b: Table) {
    a.Keys == b.Keys && forall k :: k in a.Keys ==> Same(a[k], b[k])
  }

  predicate SameValue(a: Option<Toml>, b: Option<Toml>) {
    a.Some? == b.Some? && (a.Some? ==> Same(a.value, b.value))
  }

  function Get(t: Table, key: string): Option<Toml> {
    if key in t then Some(t[key]) else None
  }

  /** A profile's table: its own settings, and its per-package overrides. */
  datatype Profile = Profile(settings: Table, packages: map<string, Table>)

  /** The two profiles the guard compares; an absent table is an empty one. */
  datatype Cargo = Cargo(dev: Profile, test: Profile)

  const DEFAULTS: Table := map[
    "opt-level" := Integer(0), "debug" := Integer(2), "strip" := Str("none"),
    "debug-assertions" := Boolean(true), "overflow-checks" := Boolean(true), "codegen-units" := Integer(256),
    "incremental" := Boolean(true), "panic" := Str("unwind"), "rpath" := Boolean(false), "lto" := Boolean(false)]

  const HASHED := ["opt-level", "debug", "strip", "debug-assertions", "overflow-checks", "codegen-units",
                   "incremental", "panic", "rpath", "lto", "split-debuginfo"]

  const SKIPPED := {"package", "inherits"}

  // ---------- profiles ----------

  /** A profile's settings over what it inherits, without the keys that are not settings. */
  function Apply(base: Table, settings: Table): Table {
    base + (settings - SKIPPED)
  }

  function ResolveDev(c: Cargo): Table {
    Apply(DEFAULTS, c.dev.settings)
  }

  /** `test` starts from its own defaults, which are `dev`'s, and inherits all of `dev`. */
  function ResolveTest(c: Cargo): Table {
    Apply(DEFAULTS + ResolveDev(c), c.test.settings)
  }

  /** What `dev` sets a field to, or its default. */
  function DevValue(c: Cargo, field: string): Option<Toml> {
    if field in c.dev.settings then Some(c.dev.settings[field]) else Get(DEFAULTS, field)
  }

  /** `test` sets the field, to a value other than the one `dev` sets, or other than the default
      where `dev` sets none. */
  predicate FieldDiffers(c: Cargo, field: string) {
    field in c.test.settings && !SameValue(Some(c.test.settings[field]), DevValue(c, field))
  }

  /** A field is resolved to the nearest table that sets it; two keys are not settings. */
  lemma ResolvedExact(c: Cargo, field: string)
    ensures field !in SKIPPED ==> Get(ResolveDev(c), field) == DevValue(c, field)
    ensures field !in SKIPPED ==>
              Get(ResolveTest(c), field) ==
                if field in c.test.settings then Some(c.test.settings[field]) else DevValue(c, field)
    ensures field in SKIPPED ==> Get(ResolveDev(c), field) == None == Get(ResolveTest(c), field)
  {
    DefaultsAreSettings();
    hide DEFAULTS;
  }

  lemma DefaultsAreSettings()
    ensures "package" !in DEFAULTS && "inherits" !in DEFAULTS
    ensures "package" !in HASHED && "inherits" !in HASHED
  {}

  lemma ReportedExact(c: Cargo, field: string)
    requires field in HASHED
    ensures !SameValue(Get(ResolveDev(c), field), Get(ResolveTest(c), field)) <==> FieldDiffers(c, field)
    ensures field in c.dev.settings && field in c.test.settings
            && Same(c.dev.settings[field], c.test.settings[field]) ==>
              SameValue(Get(ResolveDev(c), field), Get(ResolveTest(c), field))
  {
    hide ResolveDev, ResolveTest, DEFAULTS, HASHED;
    assert field !in SKIPPED by { DefaultsAreSettings(); }
    ResolvedExact(c, field);
  }

  /** The first loop of `_compare_profiles`. */
  method CompareFields(c: Cargo) returns (reported: seq<string>)
    ensures forall field :: field in reported <==> field in HASHED && FieldDiffers(c, field)
  {
    hide ResolveDev, ResolveTest, FieldDiffers, SameValue;
    reported := [];
    var dev, test := ResolveDev(c), ResolveTest(c);
    for i := 0 to |HASHED|
      invariant forall field :: field in reported <==> field in HASHED[..i] && FieldDiffers(c, field)
    {
      assert HASHED[..i + 1] == HASHED[..i] + [HASHED[i]];
      ReportedExact(c, HASHED[i]);
      if !SameValue(Get(dev, HASHED[i]), Get(test, HASHED[i])) {
        reported := reported + [HASHED[i]];
      }
    }
    assert HASHED[..|HASHED|] == HASHED;
  }

  // ---------- per-package overrides ----------

  function Wildcard(packages: map<string, Table>): Table {
    if "*" in packages then packages["*"] else map[]
  }

  /** What Cargo applies to a package: its own table when that holds anything, else `*`. */
  function Effective(packages: map<string, Table>, name: string): Table {
    if name in packages && packages[name] != map[] then packages[name] else Wildcard(packages)
  }

  lemma EffectiveExact(packages: map<string, Table>, name: string)
    ensures name in packages && packages[name] != map[] ==> Effective(packages, name) == packages[name]
    ensures name !in packages || packages[name] == map[] ==>
              Effective(packages, name) == if "*" in packages then packages["*"] else map[]
  {}

  /** `resolve_package_overrides`. */
  method ResolveOverrides(packages: map<string, Table>) returns (resolved: map<string, Table>)
    ensures resolved.Keys == packages.Keys + {"*"}
    ensures forall name :: name in resolved ==> resolved[name] == Effective(packages, name)
  {
    var wildcard := if "*" in packages then packages["*"] else map[];
    resolved := map[];
    var keys := packages.Keys;
    while keys != {}
      invariant keys <= packages.Keys
      invariant resolved.Keys == packages.Keys - keys - {"*"}
      invariant forall name :: name in resolved ==> resolved[name] == Effective(packages, name)
      decreases keys
    {
      var key :| key in keys;
      keys := keys - {key};
      if key == "*" { continue; }
      resolved := resolved[key := if packages[key] != map[] then packages[key] else wildcard];
    }
    resolved := resolved["*" := wildcard];
  }

  /** The override the guard compares for a name: nothing when the profile does not list it. */
  function Compared(packages: map<string, Table>, name: string): Table {
    if name in packages || name == "*" then Effective(packages, name) else map[]
  }

  /** The second loop of `_compare_profiles`. */
  method ComparePackages(c: Cargo) returns (reported: set<string>)
    ensures forall name :: name in reported <==>
              name in c.dev.packages.Keys + c.test.packages.Keys + {"*"}
              && !SameTable(Compared(c.dev.packages, name), Compared(c.test.packages, name))
  {
    hide SameTable;
    var dev := ResolveOverrides(c.dev.packages);
    var test := ResolveOverrides(c.test.packages);
    reported := {};
    var names := dev.Keys + test.Keys;
    while names != {}
      invariant names <= dev.Keys + test.Keys
      invariant forall name :: name in reported <==>
                  name in dev.Keys + test.Keys - names
                  && !SameTable(Compared(c.dev.packages, name), Compared(c.test.packages, name))
      decreases names
    {
      var name :| name in names;
      names := names - {name};
      var a := if name in dev then dev[name] else map[];
      var b := if name in test then test[name] else map[];
      assert a == Compared(c.dev.packages, name) && b == Compared(c.test.packages, name);
      if !SameTable(a, b) {
        reported := reported + {name};
      }
    }
  }

  /** No override differs: what an empty report says. */
  ghost predicate Silent(c: Cargo) {
    forall name :: name in c.dev.packages.Keys + c.test.packages.Keys + {"*"} ==>
      SameTable(Compared(c.dev.packages, name), Compared(c.test.packages, name))
  }

  /** Nothing is reported if and only if every package name there could be has the same effective
      override under both profiles, and a name listed under one profile only has none. */
  lemma SilentExact(c: Cargo)
    ensures Silent(c) <==>
            && (forall name :: SameTable(Effective(c.dev.packages, name), Effective(c.test.packages, name)))
            && (forall name :: name != "*" && (name in c.dev.packages) != (name in c.test.packages) ==>
                  Effective(c.dev.packages, name) == map[] == Effective(c.test.packages, name))
  {
    hide SameTable;
    var dev, test := c.dev.packages, c.test.packages;
    if Silent(c) {
      assert "*" in dev.Keys + test.Keys + {"*"};
      assert SameTable(Compared(dev, "*"), Compared(test, "*"));
      forall name
        ensures SameTable(Effective(dev, name), Effective(test, name))
        ensures name != "*" && (name in dev) != (name in test) ==>
                  Effective(dev, name) == map[] == Effective(test, name)
      {
        if name in dev || name in test {
          assert SameTable(Compared(dev, name), Compared(test, name));
          EmptySame(Compared(dev, name), Compared(test, name));
        }
        EmptySame(Wildcard(dev), Wildcard(test));
        assert Effective(dev, "*") == Wildcard(dev) && Effective(test, "*") == Wildcard(test);
      }
    } else {
      var name :| name in dev.Keys + test.Keys + {"*"} && !SameTable(Compared(dev, name), Compared(test, name));
      EmptySame(map[], map[]);
      assert name == "*" || (name in dev && name in test) ==> !SameTable(Effective(dev, name), Effective(test, name));
    }
  }

  lemma EmptySame(a: Table, b: Table)
    ensures SameTable(a, b) ==> (a == map[] <==> b == map[])
    ensures SameTable(map[], map[])
  {
    assert a == map[] <==> a.Keys == {};
    assert b == map[] <==> b.Keys == {};
  }

  /** The guard is stricter than Cargo: a package that spells out the wildcard's own table under
      one profile is reported although both profiles treat it alike. */
  lemma SpelledWildcardReported()
    ensures exists c: Cargo ::
              && (forall name :: SameTable(Effective(c.dev.packages, name), Effective(c.test.packages, name)))
              && !Silent(c)
  {
    var t: Table := map["debug" := Integer(1)];
    var none: Table := map[];
    var c := Cargo(Profile(none, map["*" := t, "serde" := t]), Profile(none, map["*" := t]));
    assert "debug" in t;
    assert t != map[] by { assert "debug" in t.Keys; }
    assert "serde" in c.dev.packages.Keys;
    assert !SameTable(Compared(c.dev.packages, "serde"), Compared(c.test.packages, "serde")) by {
      assert Compared(c.dev.packages, "serde") == t && Compared(c.test.packages, "serde") == map[];
    }
    assert forall name :: Effective(c.dev.packages, name) == t == Effective(c.test.packages, name);
  }

  // ---------- what is compiled ----------

  /** The value a package is compiled with: its effective override's, or else the profile's. */
  function UnitValue(resolved: Table, packages: map<string, Table>, name: string, field: string): Option<Toml> {
    if field in Effective(packages, name) then Some(Effective(packages, name)[field]) else Get(resolved, field)
  }

  /** Every package is compiled with the same hashed settings under both profiles. */
  ghost predicate SameUnits(c: Cargo) {
    forall name, field :: field in HASHED ==>
      SameValue(UnitValue(ResolveDev(c), c.dev.packages, name, field),
                UnitValue(ResolveTest(c), c.test.packages, name, field))
  }

  /** Nothing reported means that no package, listed or not, is compiled twice; without overrides
      the reported fields are exactly those that would make it so. */
  lemma CleanIsSameUnits(c: Cargo)
    ensures var fieldsAgree := forall field :: field in HASHED ==> !FieldDiffers(c, field);
            && (fieldsAgree && Silent(c) ==> SameUnits(c))
            && (c.dev.packages == map[] == c.test.packages ==> (SameUnits(c) <==> fieldsAgree))
  {
    hide ResolveDev, ResolveTest, FieldDiffers, HASHED;
    forall field | field in HASHED
      ensures !SameValue(Get(ResolveDev(c), field), Get(ResolveTest(c), field)) <==> FieldDiffers(c, field)
    {
      ReportedExact(c, field);
    }
    if Silent(c) {
      SilentExact(c);
      forall name
        ensures SameTable(Effective(c.dev.packages, name), Effective(c.test.packages, name))
      {}
    }
    if c.dev.packages == map[] == c.test.packages {
      assert Effective(c.dev.packages, "a") == map[] == Effective(c.test.packages, "a");
      forall field | field in HASHED && SameUnits(c)
        ensures !FieldDiffers(c, field)
      {
        assert SameValue(UnitValue(ResolveDev(c), c.dev.packages, "a", field),
                         UnitValue(ResolveTest(c), c.test.packages, "a", field));
      }
    }
  }
}
