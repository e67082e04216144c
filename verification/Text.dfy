/**
 Strings as the guard scripts see them: Python's whitespace, stripping and indentation.
 */
module Text {

  datatype Option<+T> = None | Some(value: T)

  /** The characters Python's `str.isspace` accepts, which `str.strip` removes. */
  predicate IsSpace(c: char) {
    var n := c as int;
    || 0x09 <= n <= 0x0D || 0x1C <= n <= 0x20 || n == 0x85 || n == 0xA0 || n == 0x1680
    || 0x2000 <= n <= 0x200A || n == 0x2028 || n == 0x2029 || n == 0x202F || n == 0x205F || n == 0x3000
  }

  const SPACES := {
    '\t', '\n', '\U{000B}', '\U{000C}', '\r', '\U{001C}', '\U{001D}', '\U{001E}', '\U{001F}', ' ', '\U{0085}',
    '\U{00A0}', '\U{1680}', '\U{2000}', '\U{2001}', '\U{2002}', '\U{2003}', '\U{2004}', '\U{2005}', '\U{2006}',
    '\U{2007}', '\U{2008}', '\U{2009}', '\U{200A}', '\U{2028}', '\U{2029}', '\U{202F}', '\U{205F}', '\U{3000}'}

  lemma SpacesListed(c: char)
    ensures IsSpace(c) <==> c in SPACES
  {}

  lemma SpaceIsSpace()
    ensures IsSpace(' ') && IsSpace('\t')
  {}

  /** How many characters of whitespace `s` starts with. */
  function Leading(s: string): (n: nat)
    ensures n <= |s|
    ensures forall i :: 0 <= i < n ==> IsSpace(s[i])
    ensures n < |s| ==> !IsSpace(s[n])
  {
    if s != [] && IsSpace(s[0]) then 1 + Leading(s[1..]) else 0
  }

  /** Where the whitespace at the end of `s` starts. */
  function Kept(s: string): (n: nat)
    ensures n <= |s|
    ensures forall i :: n <= i < |s| ==> IsSpace(s[i])
    ensures n > 0 ==> !IsSpace(s[n - 1])
  {
    if s != [] && IsSpace(s[|s| - 1]) then Kept(s[..|s| - 1]) else |s|
  }

  function TrimLeft(s: string): string {
    s[Leading(s)..]
  }

  function TrimRight(s: string): string {
    s[..Kept(s)]
  }

  /** `s.strip()`. */
  function Strip(s: string): string {
    TrimRight(TrimLeft(s))
  }

  function Spaces(n: nat): (s: string)
    ensures |s| == n
    ensures forall i :: 0 <= i < n ==> s[i] == ' '
  {
    seq(n, _ => ' ')
  }

  /** The number of leading spaces: `len(line) - len(line.lstrip(" "))`. */
  function Indent(line: string): (n: nat)
    ensures n <= |line|
    ensures forall i :: 0 <= i < n ==> line[i] == ' '
    ensures n < |line| ==> line[n] != ' '
  {
    if line != [] && line[0] == ' ' then 1 + Indent(line[1..]) else 0
  }

  /** The first index at or after `i` where `c` stands, or `|s|`. */
  function Seek(s: string, c: char, i: nat): (n: nat)
    requires i <= |s|
    ensures i <= n <= |s|
    ensures n < |s| ==> s[n] == c
    ensures forall j :: i <= j < n ==> s[j] != c
    decreases |s| - i
  {
    if i == |s| || s[i] == c then i else Seek(s, c, i + 1)
  }

  /** `t` stands at index `i` of `s`. */
  predicate OccursAt<T(==)>(s: seq<T>, i: nat, t: seq<T>) {
    i + |t| <= |s| && s[i..i + |t|] == t
  }

  /** `s.find(t, start)`: the first occurrence at or after `start`. */
  function FindFrom<T(==)>(s: seq<T>, start: nat, t: seq<T>): (r: Option<nat>)
    ensures r.Some? ==> start <= r.value <= r.value + |t| <= |s| && OccursAt(s, r.value, t)
    ensures r.Some? ==> forall i: nat :: start <= i < r.value ==> !OccursAt(s, i, t)
    ensures r.None? ==> forall i: nat :: start <= i ==> !OccursAt(s, i, t)
    decreases |s| - start
  {
    if start > |s| then None
    else if OccursAt(s, start, t) then Some(start)
    else FindFrom(s, start + 1, t)
  }

  lemma AppendAssociates<T>(a: seq<T>, b: seq<T>, c: seq<T>)
    ensures (a + b) + c == a + (b + c)
  {}

  lemma OccursWithin<T>(s: seq<T>, i: nat, t: seq<T>)
    requires OccursAt(s, i, t)
    ensures i + |t| <= |s|
  {}

  lemma OccursSplit<T>(s: seq<T>, i: nat, a: seq<T>, b: seq<T>)
    requires OccursAt(s, i, a + b)
    ensures OccursAt(s, i, a) && OccursAt(s, i + |a|, b)
    ensures b != [] ==> i + |a| < |s| && s[i + |a|] == b[0]
  {
    var whole := s[i..i + |a + b|];
    assert s[i..i + |a|] == whole[..|a|] == a;
    assert s[i + |a|..i + |a| + |b|] == whole[|a|..] == b;
  }

  lemma OccursFirst<T>(s: seq<T>, i: nat, t: seq<T>)
    requires OccursAt(s, i, t) && t != []
    ensures i < |s| && s[i] == t[0] && OccursAt(s, i + 1, t[1..])
  {
    assert t == [t[0]] + t[1..];
    OccursSplit(s, i, [t[0]], t[1..]);
    assert s[i] == s[i..i + |t|][0];
  }

  /** No whitespace at either end, and at least one character. */
  predicate Trimmed(s: string) {
    s != [] && !IsSpace(s[0]) && !IsSpace(s[|s| - 1])
  }

  ghost predicate AllSpace(s: string) {
    forall i :: 0 <= i < |s| ==> IsSpace(s[i])
  }

  /** Stripping removes whitespace at both ends, and leaves none there. */
  lemma StripShape(s: string)
    ensures exists a, b :: 0 <= a <= b <= |s| && Strip(s) == s[a..b] && AllSpace(s[..a]) && AllSpace(s[b..])
    ensures Strip(s) != [] ==> Trimmed(Strip(s))
  {
    hide IsSpace, Leading, Kept;
    var a := Leading(s);
    var t := s[a..];
    var b := a + Kept(t);
    assert t[..Kept(t)] == s[a..b];
    assert forall i :: b <= i < |s| ==> s[i] == t[i - a];
  }

  lemma StripShortens(s: string)
    ensures |Strip(s)| <= |s|
  {}

  lemma TrimLeftPadded(pad: string, s: string)
    requires AllSpace(pad) && s != [] && !IsSpace(s[0])
    ensures TrimLeft(pad + s) == s
  {
    hide IsSpace, Leading;
    var t := pad + s;
    assert t[|pad|] == s[0] && forall i :: 0 <= i < |pad| ==> t[i] == pad[i];
    assert Leading(t) == |pad|;
  }

  lemma TrimRightPadded(s: string, pad: string)
    requires AllSpace(pad) && s != [] && !IsSpace(s[|s| - 1])
    ensures TrimRight(s + pad) == s
  {
    hide IsSpace, Kept;
    var t := s + pad;
    assert t[|s| - 1] == s[|s| - 1] && forall i :: |s| <= i < |t| ==> t[i] == pad[i - |s|];
    assert Kept(t) == |s|;
  }

  /** Whitespace around a trimmed text is all that `strip` removes. */
  lemma StripPadded(pad: string, s: string, post: string)
    requires AllSpace(pad) && AllSpace(post) && Trimmed(s)
    ensures Strip(pad + s + post) == s
  {
    hide IsSpace, TrimLeft, TrimRight;
    assert pad + s + post == pad + (s + post);
    TrimLeftPadded(pad, s + post);
    TrimRightPadded(s, post);
  }

  /** What follows a non-blank start never reaches back over it. */
  lemma TrimRightKeeps(s: string)
    requires s != [] && !IsSpace(s[0])
    ensures TrimRight(s) != [] && TrimRight(s)[0] == s[0]
  {
    hide IsSpace, Kept;
    assert Kept(s) > 0;
  }

  lemma StripBlank(s: string)
    requires AllSpace(s)
    ensures Strip(s) == []
  {
    hide IsSpace, Leading;
    assert Leading(s) == |s|;
  }

  lemma PaddedStrip(pad: string, s: string)
    requires AllSpace(pad)
    ensures Strip(pad + s) == Strip(s)
  {
    hide IsSpace, Leading, Kept;
    var t, n := pad + s, |pad| + Leading(s);
    assert forall i :: 0 <= i < n ==> t[i] == if i < |pad| then pad[i] else s[i - |pad|];
    assert n < |t| ==> t[n] == s[n - |pad|];
    assert Leading(t) == n;
    assert t[n..] == s[Leading(s)..];
  }

  /** Nothing is left exactly of whitespace. */
  lemma StripEmpty(s: string)
    ensures Strip(s) == [] <==> AllSpace(s)
  {
    hide IsSpace, Leading, Kept;
    var t := s[Leading(s)..];
    assert t != [] ==> t[0] == s[Leading(s)] && Kept(t) > 0;
    if AllSpace(s) {
      StripBlank(s);
    }
  }

  lemma {:induction false} IndentPadded(n: nat, s: string)
    requires s == [] || s[0] != ' '
    ensures Indent(Spaces(n) + s) == n
  {
    var line := Spaces(n) + s;
    assert n < |line| ==> line[n] != ' ';
  }
}
