/**
 The refusal condition of `scripts/check_contained_worktree_grant.py`: its tokens, its
 evaluator, and the Boolean expression a token list stands for.
 */
module RefusalCondition {
  import opened Text

  // ---------- paths ----------

  predicate IsSeparator(c: char) {
    c == '/' || c == '\\'
  }

  function FirstSeparator(path: string): (n: nat)
    ensures n <= |path|
    ensures n < |path| ==> IsSeparator(path[n])
    ensures forall i :: 0 <= i < n ==> !IsSeparator(path[i])
  {
    if path == [] || IsSeparator(path[0]) then 0 else 1 + FirstSeparator(path[1..])
  }

  function Component(part: string): seq<string> {
    if part == [] || part == "." then [] else [part]
  }

  /** `_path_components`: split at separators, dropping empty parts and `.`. */
  function Components(path: string): seq<string> {
    var n := FirstSeparator(path);
    if n == |path| then Component(path) else Component(path[..n]) + Components(path[n + 1..])
  }

  /** `_path_starts_with`: a prefix of components, not of characters. */
  predicate PathStartsWith(path: string, prefix: string) {
    Components(prefix) <= Components(path)
  }

  // ---------- conditions ----------

  datatype Name = Write | Gitdir | AdministrationRoot

  datatype Env = Env(write: string, gitdir: string, administrationRoot: string) {
    function Lookup(name: Name): string {
      match name
      case Write => write
      case Gitdir => gitdir
      case AdministrationRoot => administrationRoot
    }
  }

  datatype Test = StartsWith | Equals | Differs

  datatype Cond =
    | Const(value: bool)
    | Atom(test: Test, subject: Name, other: Name)
    | Not(inner: Cond)
    | And(left: Cond, right: Cond)
    | Or(left: Cond, right: Cond)

  predicate TestHolds(test: Test, left: string, right: string) {
    match test
    case StartsWith => PathStartsWith(left, right)
    case Equals => left == right
    case Differs => left != right
  }

  /** The Boolean meaning of a condition. */
  predicate Holds(c: Cond, env: Env) {
    match c
    case Const(b) => b
    case Atom(test, subject, other) => TestHolds(test, env.Lookup(subject), env.Lookup(other))
    case Not(a) => !Holds(a, env)
    case And(a, b) => Holds(a, env) && Holds(b, env)
    case Or(a, b) => Holds(a, env) || Holds(b, env)
  }

  // ---------- grammar ----------

  function NameOf(token: string): Option<Name> {
    if token == "write" then Some(Write)
    else if token == "gitdir" then Some(Gitdir)
    else if token == "administration_root" then Some(AdministrationRoot)
    else None
  }

  predicate Sees(ts: seq<string>, p: nat, token: string) {
    p < |ts| && ts[p] == token
  }

  /** A condition read from the tokens, and the position after it; `None` where the evaluator raises. */
  type Reading = Option<(Cond, nat)>

  ghost predicate Ends(ts: seq<string>, p: nat, r: Reading) {
    r.Some? ==> p < r.value.1 <= |ts|
  }

  function ReadOr(ts: seq<string>, p: nat): (r: Reading)
    requires p <= |ts|
    ensures Ends(ts, p, r)
    decreases |ts| - p, 4
  {
    var left := ReadAnd(ts, p);
    if left.None? then None else ReadOrTail(ts, left.value.1, left.value.0)
  }

  function ReadOrTail(ts: seq<string>, p: nat, left: Cond): (r: Reading)
    requires p <= |ts|
    ensures r.Some? ==> p <= r.value.1 <= |ts|
    decreases |ts| - p, 5
  {
    if !Sees(ts, p, "||") then Some((left, p))
    else
      var right := ReadAnd(ts, p + 1);
      if right.None? then None else ReadOrTail(ts, right.value.1, Or(left, right.value.0))
  }

  function ReadAnd(ts: seq<string>, p: nat): (r: Reading)
    requires p <= |ts|
    ensures Ends(ts, p, r)
    decreases |ts| - p, 2
  {
    var left := ReadUnary(ts, p);
    if left.None? then None else ReadAndTail(ts, left.value.1, left.value.0)
  }

  function ReadAndTail(ts: seq<string>, p: nat, left: Cond): (r: Reading)
    requires p <= |ts|
    ensures r.Some? ==> p <= r.value.1 <= |ts|
    decreases |ts| - p, 3
  {
    if !Sees(ts, p, "&&") then Some((left, p))
    else
      var right := ReadUnary(ts, p + 1);
      if right.None? then None else ReadAndTail(ts, right.value.1, And(left, right.value.0))
  }

  function ReadUnary(ts: seq<string>, p: nat): (r: Reading)
    requires p <= |ts|
    ensures Ends(ts, p, r)
    decreases |ts| - p, 1
  {
    if Sees(ts, p, "!") then
      var a := ReadUnary(ts, p + 1);
      if a.None? then None else Some((Not(a.value.0), a.value.1))
    else ReadPrimary(ts, p)
  }

  function ReadPrimary(ts: seq<string>, p: nat): (r: Reading)
    requires p <= |ts|
    ensures Ends(ts, p, r)
    decreases |ts| - p, 0
  {
    if Sees(ts, p, "(") then
      var a := ReadOr(ts, p + 1);
      if a.None? || !Sees(ts, a.value.1, ")") then None else Some((a.value.0, a.value.1 + 1))
    else if p == |ts| then None
    else if ts[p] == "true" then Some((Const(true), p + 1))
    else if ts[p] == "false" then Some((Const(false), p + 1))
    else if NameOf(ts[p]).None? then None
    else ReadAtom(ts, p + 1, NameOf(ts[p]).value)
  }

  function ReadAtom(ts: seq<string>, p: nat, subject: Name): (r: Reading)
    requires p <= |ts|
    ensures Ends(ts, p, r)
  {
    if Sees(ts, p, ".") then
      if Sees(ts, p + 1, "starts_with") && Sees(ts, p + 2, "(") && p + 3 < |ts| && NameOf(ts[p + 3]).Some?
         && Sees(ts, p + 4, ")")
      then Some((Atom(StartsWith, subject, NameOf(ts[p + 3]).value), p + 5))
      else None
    else if (Sees(ts, p, "==") || Sees(ts, p, "!=")) && p + 1 < |ts| && NameOf(ts[p + 1]).Some? then
      Some((Atom(if ts[p] == "==" then Equals else Differs, subject, NameOf(ts[p + 1]).value), p + 2))
    else None
  }

  /** The condition a whole token list stands for. */
  function Reads(ts: seq<string>): Option<Cond> {
    var r := ReadOr(ts, 0);
    if r.None? || r.value.1 != |ts| then None else Some(r.value.0)
  }

  /** The evaluator's verdict: the meaning of what the tokens stand for, or an error when they
      stand for nothing. Whether it is an error does not depend on the environment. */
  function Verdict(ts: seq<string>, env: Env): Option<bool> {
    match Reads(ts)
    case None => None
    case Some(c) => Some(Holds(c, env))
  }

  // ---------- the evaluator ----------

  /** `_ConditionEvaluator`. A result of `None` is the raised `RefusalEvaluationError`. */
  class Evaluator {
    const tokens: seq<string>
    const environment: Env
    var position: nat

    ghost predicate Valid()
      reads this
    {
      position <= |tokens|
    }

    /** `value` and the cursor agree with what the grammar reads from position `p`. */
    ghost predicate Agrees(value: Option<bool>, r: Reading)
      reads this
    {
      && value.Some? == r.Some?
      && (r.Some? ==> value.value == Holds(r.value.0, environment) && position == r.value.1)
    }

    constructor (tokens: seq<string>, environment: Env)
      ensures this.tokens == tokens && this.environment == environment && position == 0
    {
      this.tokens, this.environment, position := tokens, environment, 0;
    }

    method Evaluate() returns (value: Option<bool>)
      requires Valid() && position == 0
      modifies this`position
      ensures value == Verdict(tokens, environment)
    {
      value := ParseOr();
      if value.Some? && position < |tokens| {
        return None;
      }
    }

    method Take() returns (token: Option<string>)
      requires Valid()
      modifies this`position
      ensures Valid()
      ensures if old(position) < |tokens| then token == Some(tokens[old(position)]) && position == old(position) + 1
              else token == None && position == old(position)
    {
      if position == |tokens| {
        return None;
      }
      position := position + 1;
      return Some(tokens[position - 1]);
    }

    method Accept(token: string) returns (found: bool)
      requires Valid()
      modifies this`position
      ensures Valid() && found == Sees(tokens, old(position), token)
      ensures position == if found then old(position) + 1 else old(position)
    {
      found := position < |tokens| && tokens[position] == token;
      if found {
        position := position + 1;
      }
    }

    method ParseOr() returns (value: Option<bool>)
      requires Valid()
      modifies this`position
      ensures Valid() && Agrees(value, ReadOr(tokens, old(position)))
      decreases |tokens| - position, 4
    {
      value := ParseAnd();
      if value.None? { return; }
      ghost var c := ReadAnd(tokens, old(position)).value.0;
      while true
        invariant Valid() && position > old(position)
        invariant value == Some(Holds(c, environment))
        invariant ReadOr(tokens, old(position)) == ReadOrTail(tokens, position, c)
        decreases |tokens| - position
      {
        ghost var p := position;
        var more := Accept("||");
        if !more { break; }
        // The right side is read before the two are combined, whatever the left side says.
        var right := ParseAnd();
        if right.None? { return None; }
        c := Or(c, ReadAnd(tokens, p + 1).value.0);
        value := Some(value.value || right.value);
      }
    }

    method ParseAnd() returns (value: Option<bool>)
      requires Valid()
      modifies this`position
      ensures Valid() && Agrees(value, ReadAnd(tokens, old(position)))
      decreases |tokens| - position, 2
    {
      value := ParseUnary();
      if value.None? { return; }
      ghost var c := ReadUnary(tokens, old(position)).value.0;
      while true
        invariant Valid() && position > old(position)
        invariant value == Some(Holds(c, environment))
        invariant ReadAnd(tokens, old(position)) == ReadAndTail(tokens, position, c)
        decreases |tokens| - position
      {
        ghost var p := position;
        var more := Accept("&&");
        if !more { break; }
        var right := ParseUnary();
        if right.None? { return None; }
        c := And(c, ReadUnary(tokens, p + 1).value.0);
        value := Some(value.value && right.value);
      }
    }

    method ParseUnary() returns (value: Option<bool>)
      requires Valid()
      modifies this`position
      ensures Valid() && Agrees(value, ReadUnary(tokens, old(position)))
      decreases |tokens| - position, 1
    {
      var negated := Accept("!");
      if !negated {
        value := ParsePrimary();
      } else {
        value := ParseUnary();
        if value.Some? {
          value := Some(!value.value);
        }
      }
    }

    method ParsePrimary() returns (value: Option<bool>)
      requires Valid()
      modifies this`position
      ensures Valid() && Agrees(value, ReadPrimary(tokens, old(position)))
      decreases |tokens| - position, 0
    {
      var open := Accept("(");
      if open {
        value := ParseOr();
        if value.None? { return; }
        var closed := Accept(")");
        return if closed then value else None;
      }
      var token := Take();
      if token.None? { return None; }
      if token.value == "true" { return Some(true); }
      if token.value == "false" { return Some(false); }
      var subject := NameOf(token.value);
      if subject.None? { return None; }
      var dot := Accept(".");
      if dot {
        value := ParseStartsWith(subject.value);
        return;
      }
      var equal := Accept("==");
      if equal {
        value := ParseCompare(subject.value, false);
        return;
      }
      var differs := Accept("!=");
      if differs {
        value := ParseCompare(subject.value, true);
        return;
      }
      return None;
    }

    method ParseStartsWith(subject: Name) returns (value: Option<bool>)
      requires Valid() && position > 0 && tokens[position - 1] == "."
      modifies this`position
      ensures Valid() && Agrees(value, ReadAtom(tokens, old(position) - 1, subject))
    {
      var member := Take();
      if member != Some("starts_with") { return None; }
      var open := Accept("(");
      if !open { return None; }
      var argument := Take();
      if argument.None? { return None; }
      var closed := Accept(")");
      if !closed { return None; }
      var other := NameOf(argument.value);
      if other.None? { return None; }
      return Some(PathStartsWith(environment.Lookup(subject), environment.Lookup(other.value)));
    }

    method ParseCompare(subject: Name, negated: bool) returns (value: Option<bool>)
      requires Valid() && position > 0 && tokens[position - 1] == if negated then "!=" else "=="
      modifies this`position
      ensures Valid() && Agrees(value, ReadAtom(tokens, old(position) - 1, subject))
    {
      var token := Take();
      if token.None? { return None; }
      var other := NameOf(token.value);
      if other.None? { return None; }
      var equal := environment.Lookup(subject) == environment.Lookup(other.value);
      return Some(if negated then !equal else equal);
    }
  }

  // ---------- expressions ----------

  /** A condition as written: its tests, operators and parentheses. */
  datatype Expr =
    | Leaf(cond: Cond)
    | Paren(inner: Expr)
    | Neg(inner: Expr)
    | Conj(left: Expr, right: Expr)
    | Disj(left: Expr, right: Expr)

  /** How weakly the outermost operator binds. */
  function Rank(e: Expr): nat {
    match e
    case Conj(_, _) => 1
    case Disj(_, _) => 2
    case _ => 0
  }

  /** Operands bind at least as strongly as their operator; both operators group to the left. */
  predicate WellFormed(e: Expr) {
    match e
    case Leaf(c) => c.Const? || c.Atom?
    case Paren(a) => WellFormed(a)
    case Neg(a) => WellFormed(a) && Rank(a) == 0
    case Conj(a, b) => WellFormed(a) && WellFormed(b) && Rank(a) <= 1 && Rank(b) == 0
    case Disj(a, b) => WellFormed(a) && WellFormed(b) && Rank(b) <= 1
  }

  /** The condition written: parentheses are gone. */
  function Erased(e: Expr): Cond {
    match e
    case Leaf(c) => c
    case Paren(a) => Erased(a)
    case Neg(a) => Not(Erased(a))
    case Conj(a, b) => And(Erased(a), Erased(b))
    case Disj(a, b) => Or(Erased(a), Erased(b))
  }

  function NameToken(name: Name): string {
    match name
    case Write => "write"
    case Gitdir => "gitdir"
    case AdministrationRoot => "administration_root"
  }

  function LeafTokens(c: Cond): (ts: seq<string>)
    ensures |ts| > 0
  {
    match c
    case Const(b) => [if b then "true" else "false"]
    case Atom(StartsWith, subject, other) => [NameToken(subject), ".", "starts_with", "(", NameToken(other), ")"]
    case Atom(Equals, subject, other) => [NameToken(subject), "==", NameToken(other)]
    case Atom(Differs, subject, other) => [NameToken(subject), "!=", NameToken(other)]
    case _ => ["?"]
  }

  function Show(e: Expr): (ts: seq<string>)
    ensures |ts| > 0
  {
    match e
    case Leaf(c) => LeafTokens(c)
    case Paren(a) => ["("] + (Show(a) + [")"])
    case Neg(a) => ["!"] + Show(a)
    case Conj(a, b) => Show(a) + (["&&"] + Show(b))
    case Disj(a, b) => Show(a) + (["||"] + Show(b))
  }

  // ---------- every expression is read ----------

  lemma SeesFirst(ts: seq<string>, p: nat, token: string, rest: seq<string>)
    requires OccursAt(ts, p, [token] + rest)
    ensures Sees(ts, p, token) && OccursAt(ts, p + 1, rest)
  {
    OccursSplit(ts, p, [token], rest);
    OccursFirst(ts, p, [token]);
  }

  /** A chunk around an operator: where the operator stands, and the right operand. */
  lemma Around(ts: seq<string>, p: nat, a: seq<string>, op: string, b: seq<string>)
    requires OccursAt(ts, p, a + ([op] + b))
    ensures OccursAt(ts, p, a) && Sees(ts, p + |a|, op) && OccursAt(ts, p + |a| + 1, b)
  {
    OccursSplit(ts, p, a, [op] + b);
    SeesFirst(ts, p + |a|, op, b);
  }

  lemma DisjShown(e: Expr)
    requires e.Disj?
    ensures Show(e) == Show(e.left) + (["||"] + Show(e.right)) && |Show(e)| == |Show(e.left)| + 1 + |Show(e.right)|
    ensures Erased(e) == Or(Erased(e.left), Erased(e.right))
    ensures WellFormed(e) <==> WellFormed(e.left) && WellFormed(e.right) && Rank(e.right) <= 1
  {
    hide Rank;
  }

  lemma ConjShown(e: Expr)
    requires e.Conj?
    ensures Show(e) == Show(e.left) + (["&&"] + Show(e.right)) && |Show(e)| == |Show(e.left)| + 1 + |Show(e.right)|
    ensures Erased(e) == And(Erased(e.left), Erased(e.right))
    ensures WellFormed(e) <==>
            WellFormed(e.left) && WellFormed(e.right) && Rank(e.left) <= 1 && Rank(e.right) == 0
  {
    hide Rank;
  }

  /** An expression is read up to its end, where the loop over `||` goes on. */
  lemma {:induction false} OrReads(ts: seq<string>, p: nat, e: Expr)
    requires WellFormed(e) && OccursAt(ts, p, Show(e)) && !Sees(ts, p + |Show(e)|, "&&")
    ensures ReadOr(ts, p) == ReadOrTail(ts, p + |Show(e)|, Erased(e))
    decreases e, 3
  {
    hide OccursAt, ReadOr, ReadOrTail, ReadAnd, ReadAndTail, ReadUnary, ReadPrimary, Sees, Show, Erased, WellFormed;
    if e.Disj? {
      DisjShown(e);
      var q := p + |Show(e.left)|;
      Around(ts, p, Show(e.left), "||", Show(e.right));
      SeesOne(ts, q, "||", "&&");
      OrReads(ts, p, e.left);
      AndReads(ts, q + 1, e.right);
      AndStops(ts, p + |Show(e)|, Erased(e.right));
      OrTurn(ts, q, Erased(e.left), p + |Show(e)|, Erased(e.right));
    } else {
      OccursWithin(ts, p, Show(e));
      AndReads(ts, p, e);
      AndStops(ts, p + |Show(e)|, Erased(e));
      OrStarts(ts, p, p + |Show(e)|, Erased(e));
    }
  }

  lemma SeesOne(ts: seq<string>, p: nat, token: string, other: string)
    requires Sees(ts, p, token) && token != other
    ensures !Sees(ts, p, other)
  {}

  lemma OrStarts(ts: seq<string>, p: nat, q: nat, c: Cond)
    requires p <= |ts| && ReadAnd(ts, p) == Some((c, q))
    ensures ReadOr(ts, p) == ReadOrTail(ts, q, c)
  {
    hide ReadAnd, ReadOrTail;
  }

  /** One turn of the loop over `||`. */
  lemma OrTurn(ts: seq<string>, q: nat, left: Cond, r: nat, right: Cond)
    requires Sees(ts, q, "||") && ReadAnd(ts, q + 1) == Some((right, r))
    ensures ReadOrTail(ts, q, left) == ReadOrTail(ts, r, Or(left, right))
  {
    hide ReadAnd;
  }

  lemma AndStops(ts: seq<string>, p: nat, c: Cond)
    requires p <= |ts| && !Sees(ts, p, "&&")
    ensures ReadAndTail(ts, p, c) == Some((c, p))
  {}

  lemma {:induction false} AndReads(ts: seq<string>, p: nat, e: Expr)
    requires WellFormed(e) && Rank(e) <= 1 && OccursAt(ts, p, Show(e))
    ensures ReadAnd(ts, p) == ReadAndTail(ts, p + |Show(e)|, Erased(e))
    decreases e, 2
  {
    hide OccursAt, ReadOr, ReadOrTail, ReadAnd, ReadAndTail, ReadPrimary, ReadUnary, Sees, Show, Erased, WellFormed;
    if e.Conj? {
      ConjShown(e);
      var q := p + |Show(e.left)|;
      Around(ts, p, Show(e.left), "&&", Show(e.right));
      AndReads(ts, p, e.left);
      UnaryReads(ts, q + 1, e.right);
      AndTurn(ts, q, Erased(e.left), p + |Show(e)|, Erased(e.right));
    } else {
      OccursWithin(ts, p, Show(e));
      UnaryReads(ts, p, e);
      AndStarts(ts, p, p + |Show(e)|, Erased(e));
    }
  }

  lemma AndStarts(ts: seq<string>, p: nat, q: nat, c: Cond)
    requires p <= |ts| && ReadUnary(ts, p) == Some((c, q))
    ensures ReadAnd(ts, p) == ReadAndTail(ts, q, c)
  {
    hide ReadUnary, ReadAndTail;
  }

  /** One turn of the loop over `&&`. */
  lemma AndTurn(ts: seq<string>, q: nat, left: Cond, r: nat, right: Cond)
    requires Sees(ts, q, "&&") && ReadUnary(ts, q + 1) == Some((right, r))
    ensures ReadAndTail(ts, q, left) == ReadAndTail(ts, r, And(left, right))
  {
    hide ReadUnary;
  }

  lemma {:induction false} UnaryReads(ts: seq<string>, p: nat, e: Expr)
    requires WellFormed(e) && Rank(e) == 0 && OccursAt(ts, p, Show(e))
    ensures ReadUnary(ts, p) == Some((Erased(e), p + |Show(e)|))
    decreases e, 1
  {
    hide OccursAt, ReadOr, ReadOrTail, ReadAnd, ReadAndTail, ReadAtom, NameOf, LeafTokens;
    match e
    case Leaf(c) => LeafReads(ts, p, c);
    case Neg(a) =>
      SeesFirst(ts, p, "!", Show(a));
      UnaryReads(ts, p + 1, a);
    case Paren(a) =>
      SeesFirst(ts, p, "(", Show(a) + [")"]);
      Around(ts, p + 1, Show(a), ")", []) by { assert [")"] + [] == [")"]; }
      OrReads(ts, p + 1, a);
      OrStops(ts, p + 1 + |Show(a)|, Erased(a));
  }

  lemma OrStops(ts: seq<string>, p: nat, c: Cond)
    requires Sees(ts, p, ")")
    ensures ReadOrTail(ts, p, c) == Some((c, p))
  {}

  lemma LeafReads(ts: seq<string>, p: nat, c: Cond)
    requires (c.Const? || c.Atom?) && OccursAt(ts, p, LeafTokens(c))
    ensures ReadUnary(ts, p) == Some((c, p + |LeafTokens(c)|))
  {
    hide ReadOr;
    var chunk := LeafTokens(c);
    assert forall i :: 0 <= i < |chunk| ==> ts[p + i] == ts[p..p + |chunk|][i] == chunk[i];
    assert ts[p] == chunk[0];
    if c.Atom? {
      AtomReads(ts, p, c.test, c.subject, c.other);
    }
  }

  lemma AtomReads(ts: seq<string>, p: nat, test: Test, subject: Name, other: Name)
    requires OccursAt(ts, p, LeafTokens(Atom(test, subject, other)))
    ensures ReadUnary(ts, p) == Some((Atom(test, subject, other), p + |LeafTokens(Atom(test, subject, other))|))
  {
    hide ReadOr;
    var chunk := LeafTokens(Atom(test, subject, other));
    assert forall i :: 0 <= i < |chunk| ==> ts[p + i] == ts[p..p + |chunk|][i] == chunk[i];
    assert NameOf(NameToken(subject)) == Some(subject) && NameOf(NameToken(other)) == Some(other);
    assert ts[p] == chunk[0] == NameToken(subject);
    assert NameToken(subject) !in {"!", "(", "true", "false"};
    assert ReadUnary(ts, p) == ReadAtom(ts, p + 1, subject);
    assert ts[p + 1] == chunk[1];
    match test
    case StartsWith =>
      assert ts[p + 2] == chunk[2] && ts[p + 3] == chunk[3] && ts[p + 4] == chunk[4] && ts[p + 5] == chunk[5];
    case Equals => assert ts[p + 2] == chunk[2] && "==" != ".";
    case Differs => assert ts[p + 2] == chunk[2] && "!=" != "." && "!=" != "==";
  }

  // ---------- nothing else is read ----------

  lemma SliceAround(ts: seq<string>, p: nat, q: nat, r: nat)
    requires p <= q < r <= |ts|
    ensures ts[p..r] == ts[p..q] + ([ts[q]] + ts[q + 1..r])
    ensures p == q ==> ts[p..r] == [ts[q]] + ts[q + 1..r]
    ensures r == q + 1 ==> ts[p..r] == ts[p..q] + [ts[q]]
  {}

  /** Whatever is read was written as an expression. */
  lemma {:induction false} OrWritten(ts: seq<string>, p: nat) returns (e: Expr)
    requires p <= |ts| && ReadOr(ts, p).Some?
    ensures var (c, q) := ReadOr(ts, p).value; WellFormed(e) && Erased(e) == c && ts[p..q] == Show(e)
    decreases |ts| - p, 4
  {
    hide ReadAnd, ReadUnary, ReadPrimary;
    var left := AndWritten(ts, p);
    e := OrTailWritten(ts, p, ReadAnd(ts, p).value.1, left);
  }

  lemma {:induction false} OrTailWritten(ts: seq<string>, p: nat, q: nat, left: Expr) returns (e: Expr)
    requires p < q <= |ts| && WellFormed(left) && ts[p..q] == Show(left) && ReadOrTail(ts, q, Erased(left)).Some?
    ensures var (c, r) := ReadOrTail(ts, q, Erased(left)).value; WellFormed(e) && Erased(e) == c && ts[p..r] == Show(e)
    decreases |ts| - q, 5
  {
    hide ReadAnd, ReadUnary, ReadPrimary, Show, Erased, WellFormed;
    if !Sees(ts, q, "||") {
      e := left;
    } else {
      var right := AndWritten(ts, q + 1);
      var r := ReadAnd(ts, q + 1).value.1;
      SliceAround(ts, p, q, r);
      DisjShown(Disj(left, right));
      e := OrTailWritten(ts, p, r, Disj(left, right));
    }
  }

  lemma {:induction false} AndWritten(ts: seq<string>, p: nat) returns (e: Expr)
    requires p <= |ts| && ReadAnd(ts, p).Some?
    ensures var (c, q) := ReadAnd(ts, p).value;
            WellFormed(e) && Rank(e) <= 1 && Erased(e) == c && ts[p..q] == Show(e)
    decreases |ts| - p, 2
  {
    hide ReadOr, ReadUnary, ReadPrimary;
    var left := UnaryWritten(ts, p);
    e := AndTailWritten(ts, p, ReadUnary(ts, p).value.1, left);
  }

  lemma {:induction false} AndTailWritten(ts: seq<string>, p: nat, q: nat, left: Expr) returns (e: Expr)
    requires p < q <= |ts| && WellFormed(left) && Rank(left) <= 1
    requires ts[p..q] == Show(left) && ReadAndTail(ts, q, Erased(left)).Some?
    ensures var (c, r) := ReadAndTail(ts, q, Erased(left)).value;
            WellFormed(e) && Rank(e) <= 1 && Erased(e) == c && ts[p..r] == Show(e)
    decreases |ts| - q, 3
  {
    hide ReadOr, ReadUnary, ReadPrimary, Show, Erased, WellFormed;
    if !Sees(ts, q, "&&") {
      e := left;
    } else {
      var right := UnaryWritten(ts, q + 1);
      var r := ReadUnary(ts, q + 1).value.1;
      SliceAround(ts, p, q, r);
      ConjShown(Conj(left, right));
      e := AndTailWritten(ts, p, r, Conj(left, right));
    }
  }

  lemma {:induction false} UnaryWritten(ts: seq<string>, p: nat) returns (e: Expr)
    requires p <= |ts| && ReadUnary(ts, p).Some?
    ensures var (c, q) := ReadUnary(ts, p).value;
            WellFormed(e) && Rank(e) == 0 && Erased(e) == c && ts[p..q] == Show(e)
    decreases |ts| - p, 1
  {
    hide ReadOr, ReadAtom, NameOf, Show, Erased, WellFormed, LeafTokens;
    if Sees(ts, p, "!") {
      var a := UnaryWritten(ts, p + 1);
      SliceAround(ts, p, p, ReadUnary(ts, p).value.1);
      PrefixShown(a);
      e := Neg(a);
    } else if Sees(ts, p, "(") {
      var a := OrWritten(ts, p + 1);
      var q := ReadOr(ts, p + 1).value.1;
      SliceAround(ts, p, p, q + 1);
      SliceAround(ts, p + 1, q, q + 1);
      PrefixShown(a);
      e := Paren(a);
    } else {
      e := Leaf(ReadPrimary(ts, p).value.0);
      LeafWritten(ts, p);
      PrefixShown(e);
    }
  }

  lemma PrefixShown(a: Expr)
    ensures Show(Neg(a)) == ["!"] + Show(a) && Erased(Neg(a)) == Not(Erased(a))
    ensures WellFormed(Neg(a)) <==> WellFormed(a) && Rank(a) == 0
    ensures Show(Paren(a)) == ["("] + (Show(a) + [")"]) && Erased(Paren(a)) == Erased(a)
    ensures WellFormed(Paren(a)) <==> WellFormed(a)
    ensures a.Leaf? ==> Show(a) == LeafTokens(a.cond) && Erased(a) == a.cond
    ensures a.Leaf? ==> (WellFormed(a) <==> a.cond.Const? || a.cond.Atom?)
  {
    hide LeafTokens;
  }

  lemma LeafWritten(ts: seq<string>, p: nat)
    requires p <= |ts| && !Sees(ts, p, "(") && ReadPrimary(ts, p).Some?
    ensures var (c, q) := ReadPrimary(ts, p).value; (c.Const? || c.Atom?) && ts[p..q] == LeafTokens(c)
  {
    hide ReadOr;
    var (c, q) := ReadPrimary(ts, p).value;
    if c.Atom? {
      assert NameToken(c.subject) == ts[p] && NameOf(ts[p]) == Some(c.subject);
      match c.test
      case StartsWith => assert ts[p..q] == [ts[p], ts[p + 1], ts[p + 2], ts[p + 3], ts[p + 4], ts[p + 5]];
      case _ => assert ts[p..q] == [ts[p], ts[p + 1], ts[p + 2]];
    } else {
      assert ts[p..q] == [ts[p]];
    }
  }

  /** Tokens stand for a condition exactly when they are an expression written out, with whatever
      parentheses, and then for that one. */
  lemma ReadsExact(ts: seq<string>, c: Cond)
    ensures Reads(ts) == Some(c) <==> exists e :: WellFormed(e) && Show(e) == ts && Erased(e) == c
  {
    hide ReadOr, Show, Erased, WellFormed;
    if Reads(ts) == Some(c) {
      var e := OrWritten(ts, 0);
      assert ts[0..|ts|] == ts;
    }
    forall e | WellFormed(e) && Show(e) == ts && Erased(e) == c
      ensures Reads(ts) == Some(c)
    {
      WrittenReads(e);
    }
  }

  lemma WrittenReads(e: Expr)
    requires WellFormed(e)
    ensures Reads(Show(e)) == Some(Erased(e))
  {
    hide Show;
    OrReads(Show(e), 0, e);
  }

  // ---------- printing ----------

  /** A condition written with only the parentheses it needs under an operator of that rank. */
  function Least(c: Cond, rank: nat): (e: Expr)
    ensures WellFormed(e) && Rank(e) <= rank && Erased(e) == c
  {
    var e := match c
      case Not(a) => Neg(Least(a, 0))
      case And(a, b) => Conj(Least(a, 1), Least(b, 0))
      case Or(a, b) => Disj(Least(a, 2), Least(b, 1))
      case _ => Leaf(c);
    if Rank(e) > rank then Paren(e) else e
  }

  function Printed(c: Cond): seq<string> {
    Show(Least(c, 2))
  }

  /** Printing any condition and evaluating it in any environment gives its Boolean meaning. */
  lemma PrintedEvaluates(c: Cond, env: Env)
    ensures Reads(Printed(c)) == Some(c)
    ensures Verdict(Printed(c), env) == Some(Holds(c, env))
  {
    WrittenReads(Least(c, 2));
  }
}
