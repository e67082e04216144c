/**
 Merge coverage of `scripts/check_config_merge_coverage.py`: which structs the configuration
 reaches through its field types, and which of their fields no merge arm mentions.
 */
module MergeCoverage {
  import opened Text

  /** A field: its name, and the capitalised names its type mentions. */
  datatype Field = Field(name: string, mentions: seq<string>)

  type Definitions = map<string, seq<Field>>

  const ROOT := "Config"

  /** Some field of `a` mentions the defined struct `b`. */
  predicate Mentions(defs: Definitions, a: string, b: string) {
    a in defs && b in defs && exists f :: f in defs[a] && b in f.mentions
  }

  /** A walk of mentions from the root. */
  ghost predicate Walk(defs: Definitions, path: seq<string>) {
    && path != [] && path[0] == ROOT && ROOT in defs
    && forall i :: 0 <= i < |path| - 1 ==> Mentions(defs, path[i], path[i + 1])
  }

  ghost predicate Reaches(defs: Definitions, name: string) {
    exists path :: Walk(defs, path) && path[|path| - 1] == name
  }

  lemma ReachesOn(defs: Definitions, a: string, b: string)
    requires Reaches(defs, a) && Mentions(defs, a, b)
    ensures b in defs && Reaches(defs, b)
  {
    var path :| Walk(defs, path) && path[|path| - 1] == a;
    assert Walk(defs, path + [b]);
  }

  lemma {:induction false} ClosedHoldsWalks(defs: Definitions, closed: set<string>, path: seq<string>)
    requires ROOT in closed && forall a, b :: a in closed && Mentions(defs, a, b) ==> b in closed
    requires Walk(defs, path)
    ensures path[|path| - 1] in closed
    decreases |path|
  {
    hide Mentions;
    if |path| > 1 {
      var init := path[..|path| - 1];
      assert Walk(defs, init);
      ClosedHoldsWalks(defs, closed, init);
      assert Mentions(defs, path[|path| - 2], path[|path| - 2 + 1]);
    }
  }

  /** `reachable_structs`: a worklist that may hold a name more than once. `None` is the raised
      `ValueError`. */
  method ReachableStructs(defs: Definitions) returns (r: Option<set<string>>)
    ensures r.None? <==> ROOT !in defs
    ensures r.Some? ==> forall name :: name in r.value <==> Reaches(defs, name)
  {
    hide Mentions, Walk, Reaches;
    if ROOT !in defs {
      return None;
    }
    var reachable: set<string> := {};
    var frontier := [ROOT];
    RootReaches(defs);
    while frontier != []
      invariant forall name :: name in frontier ==> name in defs && Reaches(defs, name)
      invariant forall name :: name in reachable ==> name in defs && Reaches(defs, name)
      invariant ROOT in reachable || ROOT in frontier
      invariant forall a, b :: a in reachable && Mentions(defs, a, b) ==> b in reachable || b in frontier
      decreases defs.Keys - reachable, |frontier|
    {
      var current := frontier[|frontier| - 1];
      assert forall x :: x in frontier ==> x in frontier[..|frontier| - 1] || x == current;
      frontier := frontier[..|frontier| - 1];
      if current in reachable { continue; }
      reachable := reachable + {current};
      ghost var before := frontier;
      var added := UnseenMentions(defs, current, reachable);
      frontier := frontier + added;
      forall b | Mentions(defs, current, b)
        ensures b in reachable || b in frontier
      {}
      forall b | b in added
        ensures b in defs && Reaches(defs, b)
      {
        ReachesOn(defs, current, b);
      }
    }
    forall name | Reaches(defs, name)
      ensures name in reachable
    {
      var path := WalkTo(defs, name);
      ClosedHoldsWalks(defs, reachable, path);
    }
    return Some(reachable);
  }

  lemma RootReaches(defs: Definitions)
    requires ROOT in defs
    ensures Reaches(defs, ROOT)
  {
    assert Walk(defs, [ROOT]);
  }

  lemma WalkTo(defs: Definitions, name: string) returns (path: seq<string>)
    requires Reaches(defs, name)
    ensures path != [] && Walk(defs, path) && path[|path| - 1] == name
  {
    path :| Walk(defs, path) && path[|path| - 1] == name;
  }

  /** The inner loops: every defined and unseen name the fields of `current` mention, as often
      as it is mentioned. */
  method UnseenMentions(defs: Definitions, current: string, reachable: set<string>) returns (added: seq<string>)
    requires current in defs
    ensures forall b :: b in added <==> Mentions(defs, current, b) && b !in reachable
  {
    added := [];
    var fields := defs[current];
    for i := 0 to |fields|
      invariant forall b :: b in added <==>
                  b in defs && b !in reachable && exists f :: f in fields[..i] && b in f.mentions
    {
      var names := fields[i].mentions;
      ghost var before := added;
      for j := 0 to |names|
        invariant forall b :: b in added <==>
                    b in before || (b in defs && b !in reachable && b in names[..j])
      {
        assert names[..j + 1] == names[..j] + [names[j]];
        if names[j] in defs && names[j] !in reachable {
          added := added + [names[j]];
        }
      }
      assert names[..|names|] == names;
      assert fields[..i + 1] == fields[..i] + [fields[i]];
    }
    assert fields[..|fields|] == fields;
  }

  // ---------- unmerged fields ----------

  /** A struct with a `merge` method, and the fields its arms mention. */
  datatype Owner = Owner(name: string, covered: set<string>)

  /** Some owner of that name reaches, declares the field, and has no arm for it. */
  ghost predicate Uncovered(defs: Definitions, owners: seq<Owner>, name: string, field: string) {
    exists o, f :: o in owners && o.name == name && Reaches(defs, name)
                   && name in defs && f in defs[name] && f.name == field && field !in o.covered
  }

  /** The fields without an arm, in the order of their declaration and as often as declared. */
  function WithoutArm(o: Owner, fields: seq<Field>): seq<(string, string)> {
    if fields == [] then []
    else
      WithoutArm(o, fields[..|fields| - 1])
      + if fields[|fields| - 1].name in o.covered then [] else [(o.name, fields[|fields| - 1].name)]
  }

  /** Those of the reachable owners, owner by owner. */
  ghost function Unmerged(defs: Definitions, owners: seq<Owner>): seq<(string, string)> {
    if owners == [] then []
    else
      var o := owners[|owners| - 1];
      Unmerged(defs, owners[..|owners| - 1])
      + if Reaches(defs, o.name) && o.name in defs then WithoutArm(o, defs[o.name]) else []
  }

  /** Field by field, in order. */
  lemma {:induction false} WithoutArmJoin(o: Owner, a: seq<Field>, b: seq<Field>)
    ensures WithoutArm(o, a + b) == WithoutArm(o, a) + WithoutArm(o, b)
  {
    if b == [] {
      assert a + b == a && WithoutArm(o, a) + [] == WithoutArm(o, a);
    } else {
      var init, f := b[..|b| - 1], b[|b| - 1];
      var own := if f.name in o.covered then [] else [(o.name, f.name)];
      assert (a + b)[..|a + b| - 1] == a + init;
      WithoutArmJoin(o, a, init);
      AppendAssociates(WithoutArm(o, a), WithoutArm(o, init), own);
    }
  }

  lemma WithoutArmOne(o: Owner, f: Field)
    ensures WithoutArm(o, [f]) == if f.name in o.covered then [] else [(o.name, f.name)]
  {
    assert [f][..0] == [];
  }

  /** Owner by owner, in order. */
  lemma {:induction false} UnmergedJoin(defs: Definitions, a: seq<Owner>, b: seq<Owner>)
    ensures Unmerged(defs, a + b) == Unmerged(defs, a) + Unmerged(defs, b)
  {
    hide Reaches, WithoutArm;
    if b == [] {
      assert a + b == a && Unmerged(defs, a) + [] == Unmerged(defs, a);
    } else {
      var init, o := b[..|b| - 1], b[|b| - 1];
      var own := if Reaches(defs, o.name) && o.name in defs then WithoutArm(o, defs[o.name]) else [];
      assert (a + b)[..|a + b| - 1] == a + init;
      UnmergedJoin(defs, a, init);
      AppendAssociates(Unmerged(defs, a), Unmerged(defs, init), own);
    }
  }

  lemma UnmergedOne(defs: Definitions, o: Owner)
    ensures Unmerged(defs, [o]) == if Reaches(defs, o.name) && o.name in defs then WithoutArm(o, defs[o.name]) else []
  {
    hide Reaches, WithoutArm;
    assert [o][..0] == [];
  }

  lemma {:induction false} WithoutArmExact(o: Owner, fields: seq<Field>)
    ensures forall name, field :: (name, field) in WithoutArm(o, fields) <==>
              name == o.name && field !in o.covered && exists f :: f in fields && f.name == field
  {
    if fields != [] {
      var init := fields[..|fields| - 1];
      WithoutArmExact(o, init);
      assert fields == init + [fields[|fields| - 1]];
    }
  }

  /** Listed are exactly the uncovered fields. */
  lemma {:induction false} UnmergedExact(defs: Definitions, owners: seq<Owner>)
    ensures forall name, field :: (name, field) in Unmerged(defs, owners) <==> Uncovered(defs, owners, name, field)
  {
    hide Reaches, WithoutArm;
    if owners != [] {
      var init, o := owners[..|owners| - 1], owners[|owners| - 1];
      UnmergedExact(defs, init);
      assert owners == init + [o];
      if o.name in defs {
        WithoutArmExact(o, defs[o.name]);
      }
    }
  }

  /** `unmerged_nested_fields`, over the owners in the order of their names. */
  method UnmergedFields(defs: Definitions, owners: seq<Owner>) returns (r: Option<seq<(string, string)>>)
    ensures r.None? <==> ROOT !in defs
    ensures r.Some? ==> r.value == Unmerged(defs, owners)
    ensures r.Some? ==> forall name, field :: (name, field) in r.value <==> Uncovered(defs, owners, name, field)
  {
    hide Reaches, Uncovered;
    var reachable := ReachableStructs(defs);
    if reachable.None? {
      return None;
    }
    var unmerged: seq<(string, string)> := [];
    for i := 0 to |owners|
      invariant unmerged == Unmerged(defs, owners[..i])
    {
      var o := owners[i];
      ghost var before := unmerged;
      assert owners[..i + 1][..i] == owners[..i];
      if o.name !in reachable.value { continue; }
      if o.name in defs {
        var fields := defs[o.name];
        for j := 0 to |fields|
          invariant unmerged == before + WithoutArm(o, fields[..j])
        {
          assert fields[..j + 1][..j] == fields[..j];
          if fields[j].name !in o.covered {
            unmerged := unmerged + [(o.name, fields[j].name)];
          }
        }
        assert fields[..|fields|] == fields;
      }
    }
    assert owners[..|owners|] == owners;
    UnmergedExact(defs, owners);
    return Some(unmerged);
  }
}
