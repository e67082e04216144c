/**
 The comment budget of `scripts/check_comment_budget.py`: rule R4 of `check_tree`, `bank`,
 and the ratchet the two make together. Ratios are floating-point numbers.
 */
module BudgetRatchet {
  import opened Text
  import opened RatioGrid

  /** A measured file. */
  datatype Facts = Facts(rel: string, lines: nat, words: nat, code: nat) {
    function Ratio(): (x: real)
      ensures x >= 0.0
    {
      Measured(lines, code)
    }
  }

  /** A recorded ceiling; a key the manifest does not carry is not checked. */
  datatype FileBudget = FileBudget(lines: Option<int>, ratio: Option<real>)

  datatype Manifest = Manifest(
    floor: int, lines: Option<int>, words: Option<int>, ratio: Option<real>, files: map<string, FileBudget>)

  datatype Violation =
    | TotalLines | TotalWords | TotalRatio
    | Unlisted(rel: string) | FileLines(rel: string) | FileRatio(rel: string)

  type Tree = seq<Facts>

  function SumLines(t: Tree): nat {
    if t == [] then 0 else SumLines(t[..|t| - 1]) + t[|t| - 1].lines
  }

  function SumWords(t: Tree): nat {
    if t == [] then 0 else SumWords(t[..|t| - 1]) + t[|t| - 1].words
  }

  function SumCode(t: Tree): nat {
    if t == [] then 0 else SumCode(t[..|t| - 1]) + t[|t| - 1].code
  }

  /** The totals are summed over the files. */
  lemma {:induction false} SumsJoin(a: Tree, b: Tree)
    ensures SumLines(a + b) == SumLines(a) + SumLines(b)
    ensures SumWords(a + b) == SumWords(a) + SumWords(b)
    ensures SumCode(a + b) == SumCode(a) + SumCode(b)
  {
    if b == [] {
      assert a + b == a;
    } else {
      var init := b[..|b| - 1];
      assert (a + b)[..|a + b| - 1] == a + init;
      SumsJoin(a, init);
    }
  }

  lemma SumsOfOne(f: Facts)
    ensures SumLines([]) == 0 && SumWords([]) == 0 && SumCode([]) == 0
    ensures SumLines([f]) == f.lines && SumWords([f]) == f.words && SumCode([f]) == f.code
  {
    assert [f][..0] == [];
  }

  /** Paths are distinct. */
  ghost predicate Distinct(t: Tree) {
    forall i, j :: 0 <= i < j < |t| ==> t[i].rel != t[j].rel
  }

  // ---------- rule R4 ----------

  method CheckBudget(t: Tree, m: Manifest) returns (violations: seq<Violation>)
    ensures forall v :: v in violations <==> Breaks(t, m, v)
    ensures violations == [] <==> Passes(t, m)
  {
    hide SumLines, SumWords, SumCode, Measured, Facts.Ratio;
    violations := [];
    var lines, words, code := SumLines(t), SumWords(t), SumCode(t);
    if m.lines.Some? && lines > m.lines.value {
      violations := violations + [TotalLines];
    }
    if m.words.Some? && words > m.words.value {
      violations := violations + [TotalWords];
    }
    if m.ratio.Some? && code != 0 {
      var ratio := Measured(lines, code);
      if ratio > m.ratio.value {
        violations := violations + [TotalRatio];
      }
    }
    for i := 0 to |t|
      invariant forall v :: v in violations <==> TreeBreaks(t, m, v) || exists j :: 0 <= j < i && FileBreaks(t[j], m, v)
    {
      var f := t[i];
      ghost var before := violations;
      if f.rel !in m.files {
        if f.lines >= m.floor {
          violations := violations + [Unlisted(f.rel)];
        }
      } else {
        var b := m.files[f.rel];
        if b.lines.Some? && f.lines > b.lines.value {
          violations := violations + [FileLines(f.rel)];
        }
        if b.ratio.Some? && f.Ratio() > b.ratio.value {
          violations := violations + [FileRatio(f.rel)];
        }
      }
      assert forall v :: v in violations <==> v in before || FileBreaks(f, m, v);
    }
    NothingBroken(t, m, violations);
  }

  ghost predicate Breaks(t: Tree, m: Manifest, v: Violation) {
    TreeBreaks(t, m, v) || exists j :: 0 <= j < |t| && FileBreaks(t[j], m, v)
  }

  lemma NothingBroken(t: Tree, m: Manifest, violations: seq<Violation>)
    requires forall v :: v in violations <==> Breaks(t, m, v)
    ensures violations == [] <==> Passes(t, m)
  {
    hide TreeBreaks, FileBreaks, Passes;
    PassesExact(t, m);
    if violations == [] {
      forall v
        ensures !TreeBreaks(t, m, v)
      {
        assert !Breaks(t, m, v);
      }
      forall j, v | 0 <= j < |t|
        ensures !FileBreaks(t[j], m, v)
      {
        assert !Breaks(t, m, v);
      }
    } else {
      assert violations[0] in violations && Breaks(t, m, violations[0]);
    }
  }

  /** What a violation says of the whole tree, or of one file. */
  ghost predicate TreeBreaks(t: Tree, m: Manifest, v: Violation) {
    match v
    case TotalLines => m.lines.Some? && SumLines(t) > m.lines.value
    case TotalWords => m.words.Some? && SumWords(t) > m.words.value
    case TotalRatio => m.ratio.Some? && SumCode(t) != 0 && Measured(SumLines(t), SumCode(t)) > m.ratio.value
    case _ => false
  }

  ghost predicate FileBreaks(f: Facts, m: Manifest, v: Violation) {
    match v
    case Unlisted(rel) => rel == f.rel && rel !in m.files && f.lines >= m.floor
    case FileLines(rel) =>
      rel == f.rel && rel in m.files && m.files[rel].lines.Some? && f.lines > m.files[rel].lines.value
    case FileRatio(rel) =>
      rel == f.rel && rel in m.files && m.files[rel].ratio.Some? && f.Ratio() > m.files[rel].ratio.value
    case _ => false
  }

  lemma PassesExact(t: Tree, m: Manifest)
    ensures Passes(t, m) <==>
            && (forall v :: !TreeBreaks(t, m, v))
            && (forall j :: 0 <= j < |t| ==> forall v :: !FileBreaks(t[j], m, v))
  {
    hide SumLines, SumWords, SumCode, Measured, Facts.Ratio;
    forall j | 0 <= j < |t|
      ensures FilePasses(t[j], m) <==> forall v :: !FileBreaks(t[j], m, v)
    {
      FilePassesExact(t[j], m);
    }
    assert (forall v :: !TreeBreaks(t, m, v)) <==>
      !TreeBreaks(t, m, TotalLines) && !TreeBreaks(t, m, TotalWords) && !TreeBreaks(t, m, TotalRatio);
  }

  lemma FilePassesExact(f: Facts, m: Manifest)
    ensures FilePasses(f, m) <==> forall v :: !FileBreaks(f, m, v)
  {
    assert FilePasses(f, m) <==>
      !FileBreaks(f, m, Unlisted(f.rel)) && !FileBreaks(f, m, FileLines(f.rel)) && !FileBreaks(f, m, FileRatio(f.rel));
  }

  /** What R4 demands of a file, and of the tree. */
  predicate FilePasses(f: Facts, m: Manifest) {
    if f.rel !in m.files then f.lines < m.floor
    else
      && (m.files[f.rel].lines.Some? ==> f.lines <= m.files[f.rel].lines.value)
      && (m.files[f.rel].ratio.Some? ==> f.Ratio() <= m.files[f.rel].ratio.value)
  }

  predicate Passes(t: Tree, m: Manifest) {
    && (m.lines.Some? ==> SumLines(t) <= m.lines.value)
    && (m.words.Some? ==> SumWords(t) <= m.words.value)
    && (m.ratio.Some? && SumCode(t) != 0 ==> Measured(SumLines(t), SumCode(t)) <= m.ratio.value)
    && (forall j :: 0 <= j < |t| ==> FilePasses(t[j], m))
  }

  // ---------- bank ----------

  function TotalRatioOf(t: Tree): real {
    if SumCode(t) != 0 then CeilRatio(Measured(SumLines(t), SumCode(t))) else 0.0
  }

  function BudgetOf(f: Facts): FileBudget {
    FileBudget(Some(f.lines), Some(CeilRatio(f.Ratio())))
  }

  /** The manifest `bank` writes for a tree, under the floor it keeps. */
  function Banked(t: Tree, floor: int): Manifest {
    Manifest(floor, Some(SumLines(t)), Some(SumWords(t)), Some(TotalRatioOf(t)), BankedFiles(t, floor))
  }

  function BankedFiles(t: Tree, floor: int): map<string, FileBudget> {
    if t == [] then map[]
    else
      var f := t[|t| - 1];
      var rest := BankedFiles(t[..|t| - 1], floor);
      if f.lines < floor then rest else rest[f.rel := BudgetOf(f)]
  }

  method Bank(t: Tree, m: Manifest) returns (r: Manifest)
    ensures r == Banked(t, m.floor)
  {
    var files: map<string, FileBudget> := map[];
    for i := 0 to |t|
      invariant files == BankedFiles(t[..i], m.floor)
    {
      assert t[..i + 1][..i] == t[..i];
      if t[i].lines < m.floor { continue; }
      files := files[t[i].rel := FileBudget(Some(t[i].lines), Some(CeilRatio(t[i].Ratio())))];
    }
    assert t[..|t|] == t;
    var ratio := if SumCode(t) != 0 then CeilRatio(Measured(SumLines(t), SumCode(t))) else 0.0;
    return Manifest(m.floor, Some(SumLines(t)), Some(SumWords(t)), Some(ratio), files);
  }

  /** Exactly the files at or over the floor are listed, each with its own measurements. */
  lemma {:induction false} BankedLists(t: Tree, floor: int)
    requires Distinct(t)
    ensures forall i :: 0 <= i < |t| ==>
              (t[i].rel in BankedFiles(t, floor) <==> t[i].lines >= floor)
    ensures forall i :: 0 <= i < |t| && t[i].lines >= floor ==> BankedFiles(t, floor)[t[i].rel] == BudgetOf(t[i])
    ensures forall rel :: rel in BankedFiles(t, floor) ==>
              exists i :: 0 <= i < |t| && t[i].rel == rel && t[i].lines >= floor
  {
    hide BudgetOf;
    if t != [] {
      var n := |t| - 1;
      var init := t[..n];
      assert forall i :: 0 <= i < n ==> init[i] == t[i];
      BankedLists(init, floor);
      forall rel | rel in BankedFiles(t, floor)
        ensures exists i :: 0 <= i < |t| && t[i].rel == rel && t[i].lines >= floor
      {
        if rel in BankedFiles(init, floor) {
          var i :| 0 <= i < n && init[i].rel == rel && init[i].lines >= floor;
          assert t[i].rel == rel;
        } else {
          assert t[n].rel == rel;
        }
      }
    }
  }

  // ---------- bank, then check ----------

  /** Few enough lines for the ratios to be told apart. */
  ghost predicate Sane(t: Tree) {
    Distinct(t) && SumLines(t) <= MANY
  }

  lemma {:induction false} FileWithinTotal(t: Tree, j: nat)
    requires j < |t|
    ensures t[j].lines <= SumLines(t)
  {
    if j < |t| - 1 {
      FileWithinTotal(t[..|t| - 1], j);
    }
  }

  /** The manifest banked from a tree lets that same tree pass. */
  lemma BankThenCheck(t: Tree, floor: int)
    requires Sane(t)
    ensures Passes(t, Banked(t, floor))
  {
    hide CeilRatio, BankedFiles, SumLines, SumWords, SumCode, Measured, RoundsUp;
    BankedLists(t, floor);
    CeilRatioExact(SumLines(t), SumCode(t), 0);
    forall j | 0 <= j < |t|
      ensures FilePasses(t[j], Banked(t, floor))
    {
      FileWithinTotal(t, j);
      CeilRatioExact(t[j].lines, t[j].code, 0);
    }
  }

  /** And no manifest with lower ceilings does: a count the tree respects is at least the one banked,
      and a recorded ratio it respects is at most one step below. */
  lemma BankedIsLeast(t: Tree, floor: int, m: Manifest, k: nat)
    requires Sane(t) && Passes(t, m) && k <= 10001 * MANY
    ensures m.lines.Some? ==> Banked(t, floor).lines.value <= m.lines.value
    ensures m.words.Some? ==> Banked(t, floor).words.value <= m.words.value
    ensures m.ratio == Some(Grid(k)) && SumCode(t) != 0 ==> Banked(t, floor).ratio.value <= Grid(k + 1)
  {
    hide CeilRatio, BankedFiles, SumLines, SumWords, SumCode, Measured, RoundsUp, Grid;
    CeilRatioExact(SumLines(t), SumCode(t), k);
    GridGrows(k);
  }

  lemma FileBankedIsLeast(t: Tree, floor: int, m: Manifest, k: nat, j: nat)
    requires Sane(t) && Passes(t, m) && k <= 10001 * MANY
    requires j < |t| && t[j].lines >= floor && t[j].rel in m.files
    ensures t[j].rel in Banked(t, floor).files
    ensures var was, now := m.files[t[j].rel], Banked(t, floor).files[t[j].rel];
            && now.lines == Some(t[j].lines) && now.ratio.Some?
            && (was.lines.Some? ==> now.lines.value <= was.lines.value)
            && (was.ratio == Some(Grid(k)) ==> now.ratio.value <= Grid(k + 1))
  {
    hide CeilRatio, BankedFiles, SumLines, SumWords, SumCode, Measured, RoundsUp, Grid;
    BankedLists(t, floor);
    FileWithinTotal(t, j);
    CeilRatioExact(t[j].lines, t[j].code, k);
    GridGrows(k);
    assert FilePasses(t[j], m);
  }

  // ---------- the ratchet ----------

  /** The most comment lines a file may hold under a banked manifest. */
  function LineCeiling(m: Manifest, rel: string): int {
    if rel in m.files && m.files[rel].lines.Some? then m.files[rel].lines.value else m.floor - 1
  }

  /** No line or word ceiling of `next` is above that of `m`, and no file becomes listed. */
  ghost predicate CountsTighten(m: Manifest, next: Manifest) {
    && m.lines.Some? && m.words.Some? && next.lines.Some? && next.words.Some?
    && next.floor == m.floor
    && next.lines.value <= m.lines.value
    && next.words.value <= m.words.value
    && next.files.Keys <= m.files.Keys
    && (forall rel :: LineCeiling(next, rel) <= LineCeiling(m, rel))
  }

  /** No ratio ceiling is. */
  ghost predicate RatiosTighten(m: Manifest, next: Manifest) {
    && m.ratio.Some? && next.ratio.Some?
    && next.ratio.value <= m.ratio.value
    && (forall rel :: rel in next.files && rel in m.files ==>
          && next.files[rel].ratio.Some? && m.files[rel].ratio.Some?
          && next.files[rel].ratio.value <= m.files[rel].ratio.value)
  }

  /** A file leaves the listing without passing its recorded ratio. */
  ghost predicate LeavesWithinRatio(t: Tree, m: Manifest) {
    forall j :: 0 <= j < |t| && t[j].lines < m.floor && t[j].rel in m.files && m.files[t[j].rel].ratio.Some? ==>
      t[j].Ratio() <= m.files[t[j].rel].ratio.value
  }

  /** The ratio meets a recorded ceiling exactly, and rounding that ceiling up again raises it. */
  ghost predicate Lifts(x: real, ceiling: Option<real>)
    requires x >= 0.0
  {
    ceiling == Some(x) && CeilRatio(x) > x
  }

  ghost predicate FileLifts(f: Facts, m: Manifest) {
    f.lines >= m.floor && f.rel in m.files && Lifts(f.Ratio(), m.files[f.rel].ratio)
  }

  ghost predicate MeetsLifted(t: Tree, m: Manifest) {
    || (SumCode(t) != 0 && Lifts(Measured(SumLines(t), SumCode(t)), m.ratio))
    || (exists j :: 0 <= j < |t| && FileLifts(t[j], m))
  }

  /** Against a banked ceiling: the ratio passes without lifting it exactly when its own ceiling
      is no higher. */
  lemma RatioExact(was: Facts, x: Facts)
    requires was.lines <= MANY && x.lines <= MANY
    ensures var ceiling := CeilRatio(was.Ratio());
            (x.Ratio() <= ceiling && !Lifts(x.Ratio(), Some(ceiling)) <==> CeilRatio(x.Ratio()) <= ceiling)
  {
    hide Measured, Grid, RoundsUp;
    CeilIndexBound(was.lines, was.code);
    CeilRatioExact(x.lines, x.code, CeilIndex(was.Ratio()));
  }

  /** Against a banked manifest: banking raises no ceiling and no file slips below the floor with
      its ratio over the one recorded, exactly when R4 passes and no ratio meets a ceiling that
      rounding lifts. */
  lemma CheckExact(earlier: Tree, t: Tree, floor: int)
    requires Sane(earlier) && Sane(t)
    ensures var m, next := Banked(earlier, floor), Banked(t, floor);
            && (Passes(t, m) ==> CountsTighten(m, next))
            && (CountsTighten(m, next) && RatiosTighten(m, next) && LeavesWithinRatio(t, m) <==>
                Passes(t, m) && !MeetsLifted(t, m))
  {
    hide CeilRatio, BankedFiles, SumLines, SumWords, SumCode, Facts.Ratio, Lifts;
    var m, next := Banked(earlier, floor), Banked(t, floor);
    BankedLists(earlier, floor);
    BankedLists(t, floor);
    TotalExact(earlier, t);
    forall j | 0 <= j < |t|
      ensures FilePasses(t[j], m) ==> FileCountsTighten(t[j], m, next)
      ensures FilePasses(t[j], m) && !FileLifts(t[j], m) <==>
              FileCountsTighten(t[j], m, next) && FileRatioTightens(t[j], m, next)
    {
      FileExact(earlier, t, floor, j);
    }
    if Passes(t, m) {
      forall rel
        ensures LineCeiling(next, rel) <= LineCeiling(m, rel)
        ensures rel in next.files ==> rel in m.files
        ensures rel in next.files && !MeetsLifted(t, m) ==> next.files[rel].ratio.value <= m.files[rel].ratio.value
      {
        if rel in next.files {
          var j :| 0 <= j < |t| && t[j].rel == rel && t[j].lines >= floor;
          assert FilePasses(t[j], m);
        }
      }
    }
  }

  /** The ceilings of one measured file do not rise, and it does not slip out over its ratio. */
  ghost predicate FileCountsTighten(f: Facts, m: Manifest, next: Manifest) {
    LineCeiling(next, f.rel) <= LineCeiling(m, f.rel) && (f.rel in next.files ==> f.rel in m.files)
  }

  ghost predicate FileRatioTightens(f: Facts, m: Manifest, next: Manifest) {
    && (f.rel in next.files && f.rel in m.files ==>
          && next.files[f.rel].ratio.Some? && m.files[f.rel].ratio.Some?
          && next.files[f.rel].ratio.value <= m.files[f.rel].ratio.value)
    && (f.lines < m.floor && f.rel in m.files && m.files[f.rel].ratio.Some? ==>
          f.Ratio() <= m.files[f.rel].ratio.value)
  }

  lemma FileExact(earlier: Tree, t: Tree, floor: int, j: nat)
    requires Sane(earlier) && Sane(t) && j < |t|
    ensures var m, next, f := Banked(earlier, floor), Banked(t, floor), t[j];
            && (FilePasses(f, m) ==> FileCountsTighten(f, m, next))
            && (FilePasses(f, m) && !FileLifts(f, m) <==>
                FileCountsTighten(f, m, next) && FileRatioTightens(f, m, next))
  {
    hide CeilRatio, BankedFiles, Facts.Ratio, SumLines, SumWords, SumCode, Lifts;
    var m, f := Banked(earlier, floor), t[j];
    BankedLists(earlier, floor);
    BankedLists(t, floor);
    if f.rel in m.files {
      var i :| 0 <= i < |earlier| && earlier[i].rel == f.rel && earlier[i].lines >= floor;
      FileWithinTotal(earlier, i);
      FileWithinTotal(t, j);
      RatioExact(earlier[i], f);
    }
  }

  /** The total ratio, likewise. */
  lemma TotalExact(earlier: Tree, t: Tree)
    requires Sane(earlier) && Sane(t)
    ensures var x, ceiling := Measured(SumLines(t), SumCode(t)), TotalRatioOf(earlier);
            (SumCode(t) != 0 ==> x <= ceiling && !Lifts(x, Some(ceiling))) <==> TotalRatioOf(t) <= ceiling
  {
    hide SumLines, SumCode, Measured, CeilRatio;
    var was, now := Facts([], SumLines(earlier), 0, SumCode(earlier)), Facts([], SumLines(t), 0, SumCode(t));
    if SumCode(earlier) != 0 {
      RatioExact(was, now);
    } else {
      ZeroRatio();
      RatioExact(Facts([], 0, 0, 1), now);
    }
  }

  lemma ZeroRatio()
    ensures CeilRatio(Measured(0, 1)) == 0.0
  {}

  /** A run: every tree after the first passes R4 under the manifest banked from the one before. */
  ghost predicate Ratcheted(trees: seq<Tree>, floor: int) {
    && (forall i :: 0 <= i < |trees| ==> Sane(trees[i]))
    && (forall i :: 0 < i < |trees| ==> Passes(trees[i], Banked(trees[i - 1], floor)))
  }

  lemma CountsTransitive(a: Manifest, b: Manifest, c: Manifest)
    requires CountsTighten(a, b) && CountsTighten(b, c)
    ensures CountsTighten(a, c)
  {
    forall rel
      ensures LineCeiling(c, rel) <= LineCeiling(a, rel)
    {
      assert LineCeiling(c, rel) <= LineCeiling(b, rel) <= LineCeiling(a, rel);
    }
  }

  lemma RatiosTransitive(a: Manifest, b: Manifest, c: Manifest)
    requires CountsTighten(a, b) && CountsTighten(b, c) && RatiosTighten(a, b) && RatiosTighten(b, c)
    ensures RatiosTighten(a, c)
  {}

  /** Over a whole run no line or word ceiling ever rises, and no file is ever listed anew. */
  lemma {:induction false} RatchetNeverRises(trees: seq<Tree>, floor: int, i: nat, j: nat)
    requires Ratcheted(trees, floor) && i < j < |trees|
    ensures CountsTighten(Banked(trees[i], floor), Banked(trees[j], floor))
    decreases j
  {
    hide Banked, Passes, CountsTighten, RatiosTighten, Sane;
    CheckExact(trees[j - 1], trees[j], floor);
    if i < j - 1 {
      RatchetNeverRises(trees, floor, i, j - 1);
      CountsTransitive(Banked(trees[i], floor), Banked(trees[j - 1], floor), Banked(trees[j], floor));
    }
  }

  /** No tree of the run meets a ratio ceiling that rounding lifts. */
  ghost predicate NeverLifted(trees: seq<Tree>, floor: int) {
    forall i :: 0 < i < |trees| ==> !MeetsLifted(trees[i], Banked(trees[i - 1], floor))
  }

  lemma {:induction false} RatiosNeverRise(trees: seq<Tree>, floor: int, i: nat, j: nat)
    requires Ratcheted(trees, floor) && NeverLifted(trees, floor) && i < j < |trees|
    ensures RatiosTighten(Banked(trees[i], floor), Banked(trees[j], floor))
    decreases j
  {
    hide Banked, Passes, CountsTighten, RatiosTighten, Sane, MeetsLifted;
    CheckExact(trees[j - 1], trees[j], floor);
    if i < j - 1 {
      RatchetNeverRises(trees, floor, i, j - 1);
      RatiosNeverRise(trees, floor, i, j - 1);
      RatiosTransitive(Banked(trees[i], floor), Banked(trees[j - 1], floor), Banked(trees[j], floor));
    }
  }

  /** Nor does any ratio ceiling rise over a run, exactly when no tree of it meets one that
      rounding lifts. */
  lemma RatchetExact(trees: seq<Tree>, floor: int)
    requires Ratcheted(trees, floor)
    ensures NeverLifted(trees, floor) <==>
            forall i, j :: 0 <= i < j < |trees| ==> RatiosTighten(Banked(trees[i], floor), Banked(trees[j], floor))
  {
    hide Banked, Passes, CountsTighten, RatiosTighten, Sane, MeetsLifted;
    if NeverLifted(trees, floor) {
      forall i, j | 0 <= i < j < |trees|
        ensures RatiosTighten(Banked(trees[i], floor), Banked(trees[j], floor))
      {
        RatiosNeverRise(trees, floor, i, j);
      }
    }
    forall i | 0 < i < |trees| && RatiosTighten(Banked(trees[i - 1], floor), Banked(trees[i], floor))
      ensures !MeetsLifted(trees[i], Banked(trees[i - 1], floor))
    {
      CheckExact(trees[i - 1], trees[i], floor);
      PassesLeaves(trees[i], Banked(trees[i - 1], floor));
    }
  }

  lemma PassesLeaves(t: Tree, m: Manifest)
    requires Passes(t, m)
    ensures LeavesWithinRatio(t, m)
  {
    hide Facts.Ratio;
    forall j | 0 <= j < |t| && t[j].rel in m.files && m.files[t[j].rel].ratio.Some?
      ensures t[j].Ratio() <= m.files[t[j].rel].ratio.value
    {
      assert FilePasses(t[j], m);
    }
  }

  // ---------- trees that show the conditions are needed ----------

  /** One file named `a`. */
  function Single(lines: nat, words: nat, code: nat): (t: Tree)
    ensures SumLines(t) == lines && SumWords(t) == words && SumCode(t) == code && Distinct(t)
  {
    assert [Facts("a", lines, words, code)][..0] == [];
    [Facts("a", lines, words, code)]
  }

  /** Banking a tree that R4 does not pass raises a ceiling. */
  lemma UncheckedBankRaises()
    ensures var m, next := Banked(Single(30, 90, 100), 20), Banked(Single(31, 90, 100), 20);
            !Passes(Single(31, 90, 100), m) && next.lines.value > m.lines.value
  {}

  /** Banking would raise nothing, and yet R4 fails: `a` falls from the listing with ten comment
      lines on one line of code. */
  lemma LeavingOverRatio()
    ensures var was, t := Single(20, 60, 10), [Facts("a", 10, 30, 1), Facts("b", 0, 0, 100)];
            var m, next := Banked(was, 20), Banked(t, 20);
            CountsTighten(m, next) && RatiosTighten(m, next) && !LeavesWithinRatio(t, m) && !Passes(t, m)
  {
    hide Measured, Grid, CeilRatio;
    var was, t := Single(20, 60, 10), [Facts("a", 10, 30, 1), Facts("b", 0, 0, 100)];
    var m, next := Banked(was, 20), Banked(t, 20);
    assert t[..1] == [t[0]] && t[..1][..0] == [] && was[..0] == [];
    assert SumLines(t) == 10 && SumWords(t) == 30 && SumCode(t) == 101;
    assert BankedFiles(t, 20) == map[] && BankedFiles(was, 20) == map["a" := BudgetOf(was[0])];
    RatioCompared(20, 10, 10, 1, 20001);
    RatioCompared(10, 101, 20, 10, 1000);
    assert t[0].Ratio() > m.files["a"].ratio.value;
    assert !FilePasses(t[0], m);
  }

  /** A ratio below `k` ten-thousandths has a lower ceiling than one above. */
  lemma RatioCompared(lines: nat, code: nat, lines2: nat, code2: nat, k: nat)
    requires lines <= MANY && lines2 <= MANY && k <= 10001 * MANY
    requires 10000 * lines < k * Per(code) && 10000 * lines2 > k * Per(code2)
    ensures CeilRatio(Measured(lines, code)) < Measured(lines2, code2) <= CeilRatio(Measured(lines2, code2))
  {
    hide Measured, Grid;
    WithinExact(lines2, code2, k);
    CeilRatioExact(lines2, code2, k);
    ScaledSide(lines, code, k);
    WithinExact(lines, code, k);
    CeilRatioExact(lines, code, k);
  }

  /** A run of two trees, the second passing R4 at exactly the recorded ratio of 0.0051: banking it
      records 0.0052. */
  lemma LiftedRatio()
    ensures var trees := [Single(203, 900, 40000), Single(51, 300, 10000)];
            && Ratcheted(trees, 20)
            && Banked(trees[0], 20).ratio == Some(Grid(51)) && Banked(trees[1], 20).ratio == Some(Grid(52))
            && Grid(51) < Grid(52)
  {
    hide Measured, Grid, CeilRatio, RoundsUp;
    var was, t := Single(203, 900, 40000), Single(51, 300, 10000);
    FiftyOneRoundsUp();
    assert was[..0] == [] && t[..0] == [];
    RecordedAs51();
    CeilRatioExact(51, 10000, 51);
    WithinExact(51, 10000, 51);
    assert BankedFiles(was, 20) == map["a" := BudgetOf(was[0])];
    assert Passes(t, Banked(was, 20));
  }
}
