/**
 Names across the desktop boundary: `to_camel` and `check_contract` of
 `scripts/check_desktop_editor_authority.py`, and `snake_case` of
 `scripts/check_command_catalog_ownership.py`.
 */
module NameMapping {
  predicate IsLower(c: char) { 'a' <= c <= 'z' }

  predicate IsUpper(c: char) { 'A' <= c <= 'Z' }

  function Upper(c: char): char
    requires IsLower(c)
  {
    (c as int - 32) as char
  }

  /** The lower case of an ASCII character; any other is left alone. */
  function Lower(c: char): char {
    if IsUpper(c) then (c as int + 32) as char else c
  }

  function LowerAll(s: string): (r: string)
    ensures |r| == |s|
    ensures forall i :: 0 <= i < |s| ==> r[i] == Lower(s[i])
  {
    seq(|s|, i requires 0 <= i < |s| => Lower(s[i]))
  }

  /** What is used of `str.lower` on text of any kind: ASCII case does not matter to it, it leaves
      no ASCII capital, and an ASCII start stays where it is. */
  ghost predicate LowerCasing(lower: string -> string) {
    && (forall a, b :: LowerAll(a) == LowerAll(b) ==> lower(a) == lower(b))
    && (forall s :: NoUpper(lower(s)))
    && (forall s :: s != [] && s[0] < 128 as char ==> lower(s) != [] && lower(s)[0] == Lower(s[0]))
  }

  /** An underscore in front of a lower-case letter. */
  predicate StartsHump(s: string) {
    |s| >= 2 && s[0] == '_' && IsLower(s[1])
  }

  function ToCamel(s: string): string {
    if s == [] then []
    else if StartsHump(s) then [Upper(s[1])] + ToCamel(s[2..])
    else [s[0]] + ToCamel(s[1..])
  }

  const SMALL := "abcdefghijklmnopqrstuvwxyz"
  const CAPITAL := "ABCDEFGHIJKLMNOPQRSTUVWXYZ"

  /** Letter by letter, the two alphabets correspond; no other character has a lower case here. */
  lemma LettersPair(c: char)
    ensures forall i :: 0 <= i < 26 ==>
              IsLower(SMALL[i]) && Upper(SMALL[i]) == CAPITAL[i] && Lower(CAPITAL[i]) == SMALL[i]
    ensures (c !in CAPITAL ==> Lower(c) == c) && (c !in SMALL ==> !IsLower(c))
  {}

  /** A hump anywhere becomes its capital, and the rest is mapped as if it stood alone. */
  lemma {:induction false} CamelHump(a: string, c: char, b: string)
    requires IsLower(c)
    ensures ToCamel(a + (['_', c] + b)) == ToCamel(a) + ([Upper(c)] + ToCamel(b))
    decreases |a|
  {
    hide Upper, IsLower;
    var hump := ['_', c] + b;
    var s := a + hump;
    if a == [] {
      assert s == hump && hump[2..] == b;
    } else {
      assert IsLower('_') == false by { UnderscoreIsNoLetter(); }
      assert StartsHump(s) == StartsHump(a);
      var n := if StartsHump(a) then 2 else 1;
      assert s[n..] == a[n..] + hump && s[0] == a[0] && (n == 2 ==> s[1] == a[1]);
      CamelHump(a[n..], c, b);
    }
  }

  lemma UnderscoreIsNoLetter()
    ensures !IsLower('_')
  {}

  /** A name without humps is left as it is. */
  lemma {:induction false} CamelPlain(s: string)
    requires forall i :: 0 <= i < |s| - 1 && s[i] == '_' ==> !IsLower(s[i + 1])
    ensures ToCamel(s) == s
  {
    hide IsLower;
    if s != [] {
      CamelPlain(s[1..]);
    }
  }

  /** Every capital gets an underscore. */
  function Underscored(s: string): string {
    if s == [] then []
    else (if IsUpper(s[0]) then ['_', s[0]] else [s[0]]) + Underscored(s[1..])
  }

  lemma {:induction false} UnderscoredJoin(a: string, c: char, b: string)
    ensures Underscored(a + ([c] + b)) == Underscored(a) + ((if c in CAPITAL then ['_', c] else [c]) + Underscored(b))
  {
    hide IsUpper, CAPITAL;
    assert IsUpper(c) <==> c in CAPITAL by { CapitalsListed(c); }
    var s := a + ([c] + b);
    if a == [] {
      assert s == [c] + b && s[1..] == b;
    } else {
      assert s[1..] == a[1..] + ([c] + b) && s[0] == a[0];
      UnderscoredJoin(a[1..], c, b);
    }
  }

  lemma CapitalsListed(c: char)
    ensures IsUpper(c) <==> c in CAPITAL
  {}

  /** `snake_case`: every capital but a first one gets an underscore, and all is lowered. */
  function SnakeCase(lower: string -> string, s: string): string {
    lower(if s == [] then [] else [s[0]] + Underscored(s[1..]))
  }

  ghost predicate NoUpper(s: string) {
    forall i :: 0 <= i < |s| ==> !IsUpper(s[i])
  }

  lemma AsciiLowerCases()
    ensures LowerCasing(LowerAll)
  {
    forall s
      ensures NoUpper(LowerAll(s))
    {
      LowerSettles(s);
    }
  }

  lemma LowerSettles(s: string)
    ensures NoUpper(LowerAll(s)) && (NoUpper(s) ==> LowerAll(s) == s)
  {}

  lemma LowerAppend(a: string, b: string)
    ensures LowerAll(a + b) == LowerAll(a) + LowerAll(b)
  {}

  /** Up to case, underscoring the humps gives back the name they were made from. */
  lemma {:induction false} HumpsUndone(s: string)
    requires NoUpper(s)
    ensures LowerAll(Underscored(ToCamel(s))) == s
  {
    hide Upper, Lower, IsUpper, LowerAll;
    if s == [] {
      LowerSettles([]);
    } else if StartsHump(s) {
      var rest := s[2..];
      HumpsUndone(rest);
      UpperLower(s[1]);
      assert ToCamel(s)[1..] == ToCamel(rest);
      LowerAppend(['_', Upper(s[1])], Underscored(ToCamel(rest)));
      assert LowerAll(['_', Upper(s[1])]) == ['_', s[1]] by { LowerPair(s[1]); }
      assert s == ['_', s[1]] + rest;
    } else {
      var rest := s[1..];
      HumpsUndone(rest);
      assert ToCamel(s)[1..] == ToCamel(rest);
      LowerAppend([s[0]], Underscored(ToCamel(rest)));
      LowerSettles([s[0]]);
      assert s == [s[0]] + rest;
    }
  }

  lemma UpperLower(c: char)
    requires IsLower(c)
    ensures IsUpper(Upper(c)) && Lower(Upper(c)) == c
  {}

  lemma LowerPair(c: char)
    requires IsLower(c)
    ensures LowerAll(['_', Upper(c)]) == ['_', c] && LowerAll([Upper(c)]) == [c]
  {
    UpperLower(c);
  }

  /** Camel case is injective on names without capitals, in any script. */
  lemma CamelInjective(a: string, b: string)
    requires NoUpper(a) && NoUpper(b) && ToCamel(a) == ToCamel(b)
    ensures a == b
  {
    HumpsUndone(a);
    HumpsUndone(b);
  }

  /** The names the mapping can undo: their own lower case, and no hump at the start. */
  ghost predicate Undoable(lower: string -> string, s: string) {
    lower(s) == s && !StartsHump(s)
  }

  /** What `snake_case` lowers, up to ASCII case: the name, or the name without the underscore it
      starts with. */
  lemma SnakeStem(s: string)
    requires s != [] && NoUpper(s)
    ensures var t := ToCamel(s);
            t != [] && LowerAll([t[0]] + Underscored(t[1..])) == if StartsHump(s) then s[1..] else s
  {
    hide Underscored, Upper, Lower, IsUpper, LowerAll;
    var t := ToCamel(s);
    if StartsHump(s) {
      assert t[1..] == ToCamel(s[2..]) && s[1..] == [s[1]] + s[2..];
      HumpsUndone(s[2..]);
      LowerPair(s[1]);
      LowerAppend([t[0]], Underscored(t[1..]));
    } else {
      assert t[1..] == ToCamel(s[1..]) && s == [s[0]] + s[1..];
      HumpsUndone(s[1..]);
      LowerSettles([s[0]]);
      LowerAppend([t[0]], Underscored(t[1..]));
    }
  }

  /** Mapping a name to camel case and back gives the name if and only if it is its own lower case
      and does not start with an underscore before a letter. */
  lemma CamelUndone(lower: string -> string, s: string)
    requires LowerCasing(lower)
    ensures SnakeCase(lower, ToCamel(s)) == s <==> Undoable(lower, s)
  {
    hide Underscored, Upper, Lower, IsUpper, LowerAll, ToCamel, LowerCasing, NoUpper;
    CamelEmpty();
    LowerLeaves(lower, s);
    LowerLeaves(lower, if s == [] then [] else [ToCamel(s)[0]] + Underscored(ToCamel(s)[1..])) by { CamelKeeps(s); }
    if NoUpper(s) && s != [] {
      SnakeStem(s);
      var t := ToCamel(s);
      var stem := [t[0]] + Underscored(t[1..]);
      LowerSettles(s);
      if StartsHump(s) {
        SettledTail(s);
        SameLower(lower, stem, s[1..]);
        LowerStart(lower, s[1..]);
      } else {
        SameLower(lower, stem, s);
      }
    }
  }

  lemma SameLower(lower: string -> string, a: string, b: string)
    requires LowerCasing(lower) && LowerAll(a) == LowerAll(b)
    ensures lower(a) == lower(b)
  {}

  lemma LowerLeaves(lower: string -> string, s: string)
    requires LowerCasing(lower)
    ensures NoUpper(lower(s))
  {}

  lemma LowerStart(lower: string -> string, s: string)
    requires LowerCasing(lower) && s != [] && IsLower(s[0])
    ensures lower(s) != [] && lower(s)[0] == s[0]
  {}

  lemma SettledTail(s: string)
    requires s != [] && NoUpper(s)
    ensures LowerAll(s[1..]) == s[1..]
  {}

  lemma CamelKeeps(s: string)
    ensures s != [] ==> ToCamel(s) != []
  {}

  lemma CamelEmpty()
    ensures ToCamel([]) == []
  {}

  // ---------- the contract check ----------

  /** A host view: its name and its Rust field names. */
  datatype View = View(name: string, fields: seq<string>)

  predicate IsView(v: View) {
    |v.name| >= 4 && v.name[|v.name| - 4..] == "View"
  }

  lemma ViewSuffix(prefix: string, v: View)
    ensures IsView(View(prefix + "View", v.fields))
    ensures IsView(v) ==> v.name == v.name[..|v.name| - 4] + "View"
  {
    assert (prefix + "View")[|prefix|..] == "View";
  }

  datatype Finding =
    | NoContract(view: string)
    | Missing(view: string, field: string)
    | Unserved(view: string, field: string)

  function CamelAll(fields: seq<string>): (r: seq<string>)
    ensures |r| == |fields|
    ensures forall i :: 0 <= i < |fields| ==> r[i] == ToCamel(fields[i])
  {
    seq(|fields|, i requires 0 <= i < |fields| => ToCamel(fields[i]))
  }

  /** The contract fields are exactly the camel-case names of the host's. */
  ghost predicate Agrees(fields: seq<string>, contract: seq<string>) {
    && (forall f :: f in fields ==> ToCamel(f) in contract)
    && (forall t :: t in contract ==> t in CamelAll(fields))
  }

  ghost predicate ViewOk(v: View, contract: map<string, seq<string>>) {
    IsView(v) ==> v.name in contract && Agrees(v.fields, contract[v.name])
  }

  /** What a finding says of one view. */
  ghost predicate ViewReports(v: View, contract: map<string, seq<string>>, f: Finding) {
    IsView(v) && f.view == v.name &&
    match f
    case NoContract(_) => v.name !in contract
    case Missing(_, field) => v.name in contract && field in v.fields && ToCamel(field) !in contract[v.name]
    case Unserved(_, field) => v.name in contract && field in contract[v.name] && field !in CamelAll(v.fields)
  }

  method CheckContract(host: seq<View>, contract: map<string, seq<string>>) returns (findings: seq<Finding>)
    ensures forall f :: f in findings <==> exists k :: 0 <= k < |host| && ViewReports(host[k], contract, f)
    ensures findings == [] <==> forall k :: 0 <= k < |host| ==> ViewOk(host[k], contract)
  {
    hide ViewOk, Agrees;
    findings := [];
    for k := 0 to |host|
      invariant forall f :: f in findings <==> exists j :: 0 <= j < k && ViewReports(host[j], contract, f)
      invariant findings == [] <==> forall j :: 0 <= j < k ==> ViewOk(host[j], contract)
    {
      var found := CheckView(host[k], contract);
      findings := findings + found;
    }
  }

  /** One turn of the loop over the host's views. */
  method CheckView(v: View, contract: map<string, seq<string>>) returns (findings: seq<Finding>)
    ensures forall f :: f in findings <==> ViewReports(v, contract, f)
    ensures findings == [] <==> ViewOk(v, contract)
  {
    hide ToCamel;
    findings := [];
    if !IsView(v) {
      return;
    }
    if v.name !in contract {
      return [NoContract(v.name)];
    }
    var names := contract[v.name];
    for i := 0 to |v.fields|
      invariant forall f :: f in findings <==>
                  f.Missing? && f.view == v.name && f.field in v.fields[..i] && ToCamel(f.field) !in names
      invariant findings == [] <==> forall a :: 0 <= a < i ==> ToCamel(v.fields[a]) in names
    {
      assert v.fields[..i + 1] == v.fields[..i] + [v.fields[i]];
      if ToCamel(v.fields[i]) !in names {
        findings := findings + [Missing(v.name, v.fields[i])];
      }
    }
    assert v.fields[..|v.fields|] == v.fields;
    ghost var missing := findings;
    for j := 0 to |names|
      invariant forall f :: f in findings <==>
                  || f in missing
                  || (f.Unserved? && f.view == v.name && f.field in names[..j] && f.field !in CamelAll(v.fields))
      invariant findings == [] <==> missing == [] && forall b :: 0 <= b < j ==> names[b] in CamelAll(v.fields)
    {
      assert names[..j + 1] == names[..j] + [names[j]];
      if names[j] !in CamelAll(v.fields) {
        findings := findings + [Unserved(v.name, names[j])];
      }
    }
    assert names[..|names|] == names;
  }

  /** A clean contract is a bijection on names without capitals: every contract field is the name
      of exactly one host field; `snake_case` is its inverse where it undoes the names. */
  lemma AgreesIsBijection(lower: string -> string, fields: seq<string>, contract: seq<string>)
    requires LowerCasing(lower) && Agrees(fields, contract) && forall f :: f in fields ==> NoUpper(f)
    ensures forall f :: f in fields ==> ToCamel(f) in contract
    ensures forall t :: t in contract ==> exists f :: f in fields && ToCamel(f) == t
    ensures forall f, g :: f in fields && g in fields && ToCamel(f) == ToCamel(g) ==> f == g
    ensures forall f :: f in fields ==> (SnakeCase(lower, ToCamel(f)) == f <==> Undoable(lower, f))
  {
    hide ToCamel, SnakeCase, Undoable, NoUpper, LowerCasing;
    forall t | t in contract
      ensures exists f :: f in fields && ToCamel(f) == t
    {
      var i :| 0 <= i < |fields| && CamelAll(fields)[i] == t;
      assert ToCamel(fields[i]) == t;
    }
    forall f, g | f in fields && g in fields && ToCamel(f) == ToCamel(g)
      ensures f == g
    {
      CamelInjective(f, g);
    }
    forall f | f in fields
      ensures SnakeCase(lower, ToCamel(f)) == f <==> Undoable(lower, f)
    {
      CamelUndone(lower, f);
    }
  }
}
