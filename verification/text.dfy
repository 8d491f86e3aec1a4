/** The PHP string primitives the router is built from: `explode`,
    `implode`, `trim`, `str_replace`, `strtoupper`, `substr`, decimal
    rendering of integers and the ASCII character classes PCRE uses. */
module Text {
  import opened Wrappers

  /*-------------------------------------------------------------------
    Occurrences of a separator
   -------------------------------------------------------------------*/

  /** `sep` occurs in `s` starting at index `i`. */
  predicate OccursAt(s: string, sep: string, i: int)
  {
    0 <= i && i + |sep| <= |s| && s[i..i + |sep|] == sep
  }

  predicate Contains(s: string, sep: string)
  {
    exists i :: 0 <= i <= |s| && OccursAt(s, sep, i)
  }

  predicate StartsWith(s: string, prefix: string)
  {
    |prefix| <= |s| && s[..|prefix|] == prefix
  }

  /** The first occurrence of `sep` at or after `from` (PHP `strpos`). */
  function IndexFrom(s: string, sep: string, from: nat): (r: Option<nat>)
    requires |sep| > 0
    requires from <= |s|
    ensures r.Some? ==> from <= r.value && OccursAt(s, sep, r.value)
    ensures r.Some? ==> forall j :: from <= j < r.value ==> !OccursAt(s, sep, j)
    ensures r.None? ==> forall j :: from <= j ==> !OccursAt(s, sep, j)
    decreases |s| - from
  {
    if from + |sep| > |s| then None
    else if s[from..from + |sep|] == sep then Some(from)
    else IndexFrom(s, sep, from + 1)
  }

  function IndexOf(s: string, sep: string): Option<nat>
    requires |sep| > 0
  {
    IndexFrom(s, sep, 0)
  }

  /** How many (possibly overlapping) positions at or after `from` start
      an occurrence of `sep`. */
  function CountFrom(s: string, sep: string, from: nat): nat
    requires |sep| > 0
    decreases |s| - from
  {
    if from + |sep| > |s| then 0
    else (if OccursAt(s, sep, from) then 1 else 0) + CountFrom(s, sep, from + 1)
  }

  function Occurrences(s: string, sep: string): nat
    requires |sep| > 0
  {
    CountFrom(s, sep, 0)
  }

  /** `sep` occurs exactly once in `s` up to overlap, at `i`: there is no
      occurrence before `i` and none starting after the one at `i`. This
      is the shape `explode` turns into exactly two pieces. */
  predicate SplitsOnceAt(s: string, sep: string, i: int)
  {
    && OccursAt(s, sep, i)
    && (forall j :: 0 <= j < i ==> !OccursAt(s, sep, j))
    && (forall j :: i + |sep| <= j <= |s| ==> !OccursAt(s, sep, j))
  }

  /*-------------------------------------------------------------------
    explode / implode
   -------------------------------------------------------------------*/

  /** PHP `implode(sep, parts)`. */
  function Join(parts: seq<string>, sep: string): string
  {
    if |parts| == 0 then ""
    else if |parts| == 1 then parts[0]
    else parts[0] + sep + Join(parts[1..], sep)
  }

  /** The pieces of `s[from..]` between consecutive non-overlapping
      occurrences of `sep`, scanning left to right. */
  function SplitFrom(s: string, sep: string, from: nat): (parts: seq<string>)
    requires |sep| > 0
    requires from <= |s|
    ensures |parts| >= 1
    decreases |s| - from
  {
    match IndexFrom(s, sep, from)
    case None => [s[from..]]
    case Some(i) => [s[from..i]] + SplitFrom(s, sep, i + |sep|)
  }

  /** PHP `explode(sep, s)` (and `preg_split` on a literal delimiter):
      the pieces between occurrences of `sep`; gluing them back with
      `sep` gives `s`, and no piece contains `sep`. */
  function Explode(s: string, sep: string): (parts: seq<string>)
    requires |sep| > 0
    ensures |parts| >= 1
    ensures Join(parts, sep) == s
    ensures forall k :: 0 <= k < |parts| ==> !Contains(parts[k], sep)
  {
    SplitFromJoins(s, sep, 0);
    SplitFromPiecesFree(s, sep, 0);
    SplitFrom(s, sep, 0)
  }

  /** PHP `explode(sep, s, 2)`: `None` when `sep` does not occur (a
      one-element array), otherwise the text before the first occurrence
      and everything after it. */
  function SplitFirst(s: string, sep: string): (r: Option<(string, string)>)
    requires |sep| > 0
    ensures r.None? <==> !Contains(s, sep)
    ensures r.Some? ==> s == r.value.0 + sep + r.value.1 && !Contains(r.value.0, sep)
  {
    match IndexOf(s, sep)
    case None => None
    case Some(i) =>
      NoOccurrenceInSlice(s, sep, 0, i);
      assert s == s[..i] + sep + s[i + |sep|..];
      Some((s[..i], s[i + |sep|..]))
  }

  /** PHP `str_replace(pat, rep, s)` for one search string: every
      non-overlapping occurrence of `pat`, left to right, is replaced. */
  function StrReplace(s: string, pat: string, rep: string): string
    requires |pat| > 0
  {
    Join(Explode(s, pat), rep)
  }

  /** PHP `substr(s, k)` for `k >= 0`: the suffix from `k`, or nothing
      when `k` is past the end (PHP 7 returns `false`, which every caller
      here then treats like the empty string). */
  function Drop(s: string, k: nat): (r: string)
    ensures k <= |s| ==> s == s[..k] + r
    ensures k > |s| ==> r == ""
  {
    if k <= |s| then s[k..] else ""
  }

  /*-------------------------------------------------------------------
    trim
   -------------------------------------------------------------------*/

  /** The characters PHP's `trim` strips by default. */
  const Whitespace: set<char> := {' ', '\t', '\n', '\r', '\0', '\U{000B}'}

  function TrimLeft(s: string, cs: set<char>): (r: string)
    ensures |r| <= |s| && r == s[|s| - |r|..]
    ensures forall k :: 0 <= k < |s| - |r| ==> s[k] in cs
    ensures r == [] || r[0] !in cs
  {
    if |s| > 0 && s[0] in cs then TrimLeft(s[1..], cs) else s
  }

  function TrimRight(s: string, cs: set<char>): (r: string)
    ensures |r| <= |s| && r == s[..|r|]
    ensures forall k :: |r| <= k < |s| ==> s[k] in cs
    ensures r == [] || r[|r| - 1] !in cs
  {
    if |s| > 0 && s[|s| - 1] in cs then TrimRight(s[..|s| - 1], cs) else s
  }

  /** PHP `trim(s, cs)`: `s` without its leading and trailing characters
      from `cs`; what is left is a slice of `s` that neither starts nor
      ends with such a character, and everything cut off belongs to `cs`. */
  function Trim(s: string, cs: set<char>): (r: string)
    ensures r == [] || (r[0] !in cs && r[|r| - 1] !in cs)
    ensures exists a :: PaddedAt(s, r, a, cs)
  {
    var l := TrimLeft(s, cs);
    var r := TrimRight(l, cs);
    TrimmedPadded(s, cs, l, r, |s| - |l|);
    r
  }

  /** Trimming the left, then the right, leaves a slice surrounded by
      characters of `cs`. */
  lemma TrimmedPadded(s: string, cs: set<char>, l: string, r: string, a: int)
    requires l == TrimLeft(s, cs) && r == TrimRight(l, cs) && a == |s| - |l|
    ensures PaddedAt(s, r, a, cs)
  {
    SliceOfSuffix(s, l, r, a);
    TrailingOfSuffix(s, l, |r|, a, cs);
  }

  lemma SliceOfSuffix(s: string, l: string, r: string, a: int)
    requires 0 <= a <= |s| && l == s[a..] && |r| <= |l| && r == l[..|r|]
    ensures r == s[a..a + |r|]
  {
  }

  lemma TrailingOfSuffix(s: string, l: string, n: int, a: int, cs: set<char>)
    requires 0 <= a <= |s| && 0 <= n && l == s[a..]
    requires forall k :: n <= k < |l| ==> l[k] in cs
    ensures forall k :: a + n <= k < |s| ==> s[k] in cs
  {
    forall k | a + n <= k < |s|
      ensures s[k] in cs
    {
      assert s[k] == l[k - a];
    }
  }

  /** `s` is `r` placed at index `a`, surrounded by characters of `cs`. */
  predicate PaddedAt(s: string, r: string, a: int, cs: set<char>)
  {
    && 0 <= a <= |s| - |r| && r == s[a..a + |r|]
    && (forall k :: 0 <= k < a ==> s[k] in cs)
    && (forall k :: a + |r| <= k < |s| ==> s[k] in cs)
  }

  /** PHP `trim(s)`. */
  function TrimSpace(s: string): string
  {
    Trim(s, Whitespace)
  }

  /** PHP `trim(s, '/')`. */
  function TrimSlashes(s: string): string
  {
    Trim(s, {'/'})
  }

  /*-------------------------------------------------------------------
    Character classes and case
   -------------------------------------------------------------------*/

  predicate IsDigit(c: char)
  {
    '0' <= c <= '9'
  }

  /** PCRE's `\w` outside UTF mode: ASCII letters, digits and `_`. */
  predicate IsWordChar(c: char)
  {
    'a' <= c <= 'z' || 'A' <= c <= 'Z' || IsDigit(c) || c == '_'
  }

  /** A non-empty run of `\w` characters. */
  predicate IsWord(s: string)
  {
    |s| > 0 && forall k :: 0 <= k < |s| ==> IsWordChar(s[k])
  }

  function UpperChar(c: char): char
  {
    if 'a' <= c <= 'z' then (c as int - 32) as char else c
  }

  function LowerChar(c: char): char
  {
    if 'A' <= c <= 'Z' then (c as int + 32) as char else c
  }

  /** PHP `strtoupper`: ASCII letters only. */
  function Upper(s: string): (r: string)
    ensures |r| == |s|
    ensures forall k :: 0 <= k < |s| ==> r[k] == UpperChar(s[k])
  {
    seq(|s|, k requires 0 <= k < |s| => UpperChar(s[k]))
  }

  /** Equality under PCRE's `/i` flag, which folds ASCII letters only. */
  predicate EqualsIgnoreCase(a: string, b: string)
  {
    |a| == |b| && forall k :: 0 <= k < |a| ==> LowerChar(a[k]) == LowerChar(b[k])
  }

  /*-------------------------------------------------------------------
    Decimal integers
   -------------------------------------------------------------------*/

  function DigitChar(d: nat): (c: char)
    requires d < 10
    ensures IsDigit(c) && c as int - '0' as int == d
  {
    ('0' as int + d) as char
  }

  /** The value of a string of decimal digits. */
  function ParseDecimal(s: string): nat
  {
    if s == [] then 0
    else 10 * ParseDecimal(s[..|s| - 1]) + (if IsDigit(s[|s| - 1]) then s[|s| - 1] as int - '0' as int else 0)
  }

  /** PHP's string conversion of a non-negative integer: decimal digits,
      no leading zero, and reading them back gives `n`. */
  function NatToString(n: nat): (r: string)
    ensures |r| >= 1
    ensures forall k :: 0 <= k < |r| ==> IsDigit(r[k])
    ensures r[0] == '0' ==> r == "0"
    ensures ParseDecimal(r) == n
  {
    if n < 10 then [DigitChar(n)]
    else
      var r := NatToString(n / 10) + [DigitChar(n % 10)];
      assert r[..|r| - 1] == NatToString(n / 10);
      r
  }

  /*-------------------------------------------------------------------
    Lemmas
   -------------------------------------------------------------------*/

  lemma SliceOfSlice(s: string, a: int, b: int, j: int, n: int)
    requires 0 <= a <= b <= |s| && 0 <= j && 0 <= n && j + n <= b - a
    ensures s[a..b][j..j + n] == s[a + j..a + j + n]
  {
    var x := s[a..b][j..j + n];
    var y := s[a + j..a + j + n];
    assert |x| == |y|;
    assert forall k :: 0 <= k < n ==> x[k] == s[a + j + k] == y[k];
  }

  lemma NoOccurrenceInSlice(s: string, sep: string, a: int, b: int)
    requires |sep| > 0
    requires 0 <= a <= b <= |s|
    requires forall j :: a <= j < b ==> !OccursAt(s, sep, j)
    ensures !Contains(s[a..b], sep)
  {
    forall j | 0 <= j && j + |sep| <= b - a
      ensures OccursAt(s[a..b], sep, j) == OccursAt(s, sep, a + j)
    {
      SliceOfSlice(s, a, b, j, |sep|);
    }
  }

  /** Gluing the pieces back with the separator gives the suffix. */
  lemma {:induction false} SplitFromJoins(s: string, sep: string, from: nat)
    requires |sep| > 0
    requires from <= |s|
    ensures Join(SplitFrom(s, sep, from), sep) == s[from..]
    decreases |s| - from
  {
    match IndexFrom(s, sep, from)
    case None =>
    case Some(i) =>
      var rest := SplitFrom(s, sep, i + |sep|);
      SplitFromJoins(s, sep, i + |sep|);
      assert s[from..] == s[from..i] + sep + s[i + |sep|..];
      assert ([s[from..i]] + rest)[1..] == rest;
  }

  lemma {:induction false} SplitFromPiecesFree(s: string, sep: string, from: nat)
    requires |sep| > 0
    requires from <= |s|
    ensures forall k :: 0 <= k < |SplitFrom(s, sep, from)| ==> !Contains(SplitFrom(s, sep, from)[k], sep)
    decreases |s| - from
  {
    match IndexFrom(s, sep, from)
    case None =>
      NoOccurrenceInSlice(s, sep, from, |s|);
      assert s[from..|s|] == s[from..];
    case Some(i) =>
      NoOccurrenceInSlice(s, sep, from, i);
      SplitFromPiecesFree(s, sep, i + |sep|);
  }

  /** The first occurrence at or after `from` is at `i` when `sep` occurs
      there and nowhere in between. */
  lemma IndexFromIs(s: string, sep: string, from: nat, i: nat)
    requires |sep| > 0 && from <= i <= |s|
    requires OccursAt(s, sep, i)
    requires forall j :: from <= j < i ==> !OccursAt(s, sep, j)
    ensures IndexFrom(s, sep, from) == Some(i)
  {
  }

  /** A piece free of the separator's first character, followed by the
      separator, ends exactly where the first occurrence begins. */
  lemma FirstOccurrenceAfterPiece(s: string, p: string, sep: string, from: nat)
    requires |sep| > 0
    requires from + |p| + |sep| <= |s|
    requires s[from..from + |p|] == p && s[from + |p|..from + |p| + |sep|] == sep
    requires sep[0] !in p
    ensures IndexFrom(s, sep, from) == Some(from + |p|)
  {
    forall j | from <= j < from + |p|
      ensures !OccursAt(s, sep, j)
    {
      assert s[j] == p[j - from];
      if j + |sep| <= |s| {
        assert s[j..j + |sep|][0] == s[j];
      }
    }
    IndexFromIs(s, sep, from, from + |p|);
  }

  /** A suffix free of the separator's first character holds no occurrence. */
  lemma NoOccurrenceInPiece(s: string, sep: string, from: nat)
    requires |sep| > 0 && from <= |s|
    requires sep[0] !in s[from..]
    ensures IndexFrom(s, sep, from).None?
  {
    forall j | from <= j && j + |sep| <= |s|
      ensures !OccursAt(s, sep, j)
    {
      assert s[j] == s[from..][j - from];
      assert s[j..j + |sep|][0] == s[j];
    }
  }

  /** Exploding a joined list gives the list back when the separator's
      first character occurs in none of the pieces. */
  lemma {:induction false} SplitFromJoin(s: string, ps: seq<string>, sep: string, from: nat)
    requires |sep| > 0 && |ps| >= 1
    requires from <= |s| && s[from..] == Join(ps, sep)
    requires forall k :: 0 <= k < |ps| ==> sep[0] !in ps[k]
    ensures SplitFrom(s, sep, from) == ps
    decreases |ps|, 1
  {
    if |ps| == 1 {
      SplitFromJoinOne(s, ps, sep, from);
    } else {
      SplitFromJoinMore(s, ps, sep, from);
    }
  }

  lemma {:induction false} SplitFromJoinMore(s: string, ps: seq<string>, sep: string, from: nat)
    requires |sep| > 0 && |ps| >= 2
    requires from <= |s| && s[from..] == Join(ps, sep)
    requires forall k :: 0 <= k < |ps| ==> sep[0] !in ps[k]
    ensures SplitFrom(s, sep, from) == ps
    decreases |ps|, 0
  {
    var next := from + |ps[0]| + |sep|;
    SplitFromJoinStep(s, ps, sep, from, next);
    SplitFromJoin(s, ps[1..], sep, next);
    ConsOfTail(SplitFrom(s, sep, from), SplitFrom(s, sep, next), ps);
  }

  /** A list built from the head of `xs` and a list equal to its tail is
      `xs`. */
  lemma ConsOfTail<T>(ys: seq<T>, rest: seq<T>, xs: seq<T>)
    requires |xs| >= 1 && ys == [xs[0]] + rest && rest == xs[1..]
    ensures ys == xs
  {
  }

  lemma SplitFromJoinOne(s: string, ps: seq<string>, sep: string, from: nat)
    requires |sep| > 0 && |ps| == 1
    requires from <= |s| && s[from..] == Join(ps, sep)
    requires sep[0] !in ps[0]
    ensures SplitFrom(s, sep, from) == ps
  {
    assert s[from..] == ps[0];
    SplitFromWhole(s, sep, from);
    assert ps == [ps[0]];
  }

  /** The first piece of a joined list is cut off at the first separator,
      and the rest of the list is joined after it, from `next` on. */
  lemma SplitFromJoinStep(s: string, ps: seq<string>, sep: string, from: nat, next: nat)
    requires |sep| > 0 && |ps| >= 2
    requires from <= |s| && s[from..] == Join(ps, sep)
    requires forall k :: 0 <= k < |ps| ==> sep[0] !in ps[k]
    requires next == from + |ps[0]| + |sep|
    ensures next <= |s|
    ensures s[next..] == Join(ps[1..], sep)
    ensures forall k :: 0 <= k < |ps[1..]| ==> sep[0] !in ps[1..][k]
    ensures SplitFrom(s, sep, from) == [ps[0]] + SplitFrom(s, sep, next)
  {
    var p := ps[0];
    var tail := Join(ps[1..], sep);
    assert Join(ps, sep) == p + sep + tail;
    SliceOfJoined(s, from, p, sep, tail, next);
    SplitFromPiece(s, p, sep, from, next);
    FreeTail(ps, sep[0]);
  }

  lemma FreeTail(ps: seq<string>, c: char)
    requires |ps| >= 1 && forall k :: 0 <= k < |ps| ==> c !in ps[k]
    ensures forall k :: 0 <= k < |ps[1..]| ==> c !in ps[1..][k]
  {
    forall k | 0 <= k < |ps[1..]|
      ensures c !in ps[1..][k]
    {
      assert ps[1..][k] == ps[k + 1];
    }
  }

  /** A suffix free of the separator's first character is one piece. */
  lemma SplitFromWhole(s: string, sep: string, from: nat)
    requires |sep| > 0 && from <= |s|
    requires sep[0] !in s[from..]
    ensures SplitFrom(s, sep, from) == [s[from..]]
  {
    NoOccurrenceInPiece(s, sep, from);
  }

  /** A piece free of the separator's first character, followed by the
      separator, is the first piece; the rest starts at `next`. */
  lemma SplitFromPiece(s: string, p: string, sep: string, from: nat, next: nat)
    requires |sep| > 0
    requires next == from + |p| + |sep| && next <= |s|
    requires s[from..from + |p|] == p && s[from + |p|..next] == sep
    requires sep[0] !in p
    ensures SplitFrom(s, sep, from) == [p] + SplitFrom(s, sep, next)
  {
    FirstOccurrenceAfterPiece(s, p, sep, from);
    SplitFromFirst(s, sep, from, from + |p|, next);
  }

  /** The first piece ends at the first occurrence `i`; the rest starts at
      `next`, just after it. */
  lemma SplitFromFirst(s: string, sep: string, from: nat, i: nat, next: nat)
    requires |sep| > 0 && from <= |s|
    requires IndexFrom(s, sep, from) == Some(i) && next == i + |sep|
    ensures next <= |s|
    ensures SplitFrom(s, sep, from) == [s[from..i]] + SplitFrom(s, sep, next)
  {
  }

  lemma SliceOfJoined(s: string, from: nat, p: string, sep: string, tail: string, next: nat)
    requires from <= |s| && s[from..] == p + sep + tail
    requires next == from + |p| + |sep|
    ensures next <= |s|
    ensures s[from..from + |p|] == p
    ensures s[from + |p|..next] == sep
    ensures s[next..] == tail
  {
    var x := s[from..];
    assert s[from..from + |p|] == x[..|p|];
    assert s[from + |p|..next] == x[|p|..|p| + |sep|];
    assert s[next..] == x[|p| + |sep|..];
  }

  lemma ExplodeJoin(ps: seq<string>, sep: string)
    requires |sep| > 0 && |ps| >= 1
    requires forall k :: 0 <= k < |ps| ==> sep[0] !in ps[k]
    ensures Explode(Join(ps, sep), sep) == ps
  {
    var s := Join(ps, sep);
    assert s[0..] == s;
    SplitFromJoin(s, ps, sep, 0);
  }

  /** A string without the separator explodes to itself alone. */
  lemma ExplodeAbsent(s: string, sep: string)
    requires |sep| > 0
    requires !Contains(s, sep)
    ensures Explode(s, sep) == [s]
  {
    assert IndexFrom(s, sep, 0).None?;
    assert s[0..] == s;
  }

  /** Replacing a pattern that does not occur changes nothing. */
  lemma StrReplaceAbsent(s: string, pat: string, rep: string)
    requires |pat| > 0
    requires !Contains(s, pat)
    ensures StrReplace(s, pat, rep) == s
  {
    ExplodeAbsent(s, pat);
  }

  lemma {:induction false} CountSkip(s: string, sep: string, a: nat, b: nat)
    requires |sep| > 0
    requires a <= b
    requires forall j :: a <= j < b ==> !OccursAt(s, sep, j)
    ensures CountFrom(s, sep, a) == CountFrom(s, sep, b)
    decreases b - a
  {
    if a < b && a + |sep| <= |s| {
      CountSkip(s, sep, a + 1, b);
    } else if a < b {
      CountTail(s, sep, b);
    }
  }

  lemma CountTail(s: string, sep: string, b: nat)
    requires |sep| > 0
    requires b + |sep| > |s|
    ensures CountFrom(s, sep, b) == 0
  {
  }

  lemma {:induction false} CountNone(s: string, sep: string, from: nat)
    requires |sep| > 0
    requires forall j :: from <= j ==> !OccursAt(s, sep, j)
    ensures CountFrom(s, sep, from) == 0
    decreases |s| - from
  {
    if from + |sep| <= |s| {
      CountNone(s, sep, from + 1);
    }
  }

  /** For a two-character separator that cannot overlap itself, the
      number of pieces is one more than the number of occurrences. */
  lemma {:induction false} SplitFromCount(s: string, sep: string, from: nat)
    requires |sep| == 2 && sep[0] != sep[1]
    requires from <= |s|
    ensures |SplitFrom(s, sep, from)| == CountFrom(s, sep, from) + 1
    decreases |s| - from
  {
    if from + 2 > |s| {
      SplitFromLast(s, sep, from);
    } else if OccursAt(s, sep, from) {
      SplitFromAt(s, sep, from);
      CountAtOccurrence(s, sep, from);
      SplitFromCount(s, sep, from + 2);
    } else {
      SplitFromShift(s, sep, from);
      SplitFromCount(s, sep, from + 1);
    }
  }

  /** Without room for an occurrence the whole suffix is the only piece. */
  lemma SplitFromLast(s: string, sep: string, from: nat)
    requires |sep| > 0 && from <= |s| && from + |sep| > |s|
    ensures |SplitFrom(s, sep, from)| == 1 && CountFrom(s, sep, from) == 0
  {
  }

  /** An occurrence right at the start cuts off an empty piece. */
  lemma SplitFromAt(s: string, sep: string, from: nat)
    requires |sep| > 0 && from <= |s| && OccursAt(s, sep, from)
    ensures |SplitFrom(s, sep, from)| == 1 + |SplitFrom(s, sep, from + |sep|)|
  {
    assert IndexFrom(s, sep, from) == Some(from);
  }

  /** A start that is no occurrence belongs to the first piece. */
  lemma SplitFromShift(s: string, sep: string, from: nat)
    requires |sep| > 0 && from < |s| && !OccursAt(s, sep, from)
    ensures |SplitFrom(s, sep, from)| == |SplitFrom(s, sep, from + 1)|
    ensures CountFrom(s, sep, from) == CountFrom(s, sep, from + 1)
  {
    assert IndexFrom(s, sep, from) == IndexFrom(s, sep, from + 1);
  }

  /** An occurrence of a non-overlapping two-character separator counts
      once, and the next one cannot start inside it. */
  lemma CountAtOccurrence(s: string, sep: string, i: nat)
    requires |sep| == 2 && sep[0] != sep[1]
    requires OccursAt(s, sep, i)
    ensures CountFrom(s, sep, i) == 1 + CountFrom(s, sep, i + 2)
  {
    assert s[i + 1] == s[i..i + 2][1] == sep[1];
    assert !OccursAt(s, sep, i + 1) by {
      if i + 3 <= |s| {
        assert s[i + 1..i + 3][0] == s[i + 1];
      }
    }
    assert CountFrom(s, sep, i + 1) == CountFrom(s, sep, i + 2);
  }

  lemma ExplodeCount(s: string, sep: string)
    requires |sep| == 2 && sep[0] != sep[1]
    ensures |Explode(s, sep)| == Occurrences(s, sep) + 1
  {
    SplitFromCount(s, sep, 0);
  }

  lemma ExplodeSplitsOnce(s: string, sep: string, i: int)
    requires |sep| > 0
    requires SplitsOnceAt(s, sep, i)
    ensures Explode(s, sep) == [s[..i], s[i + |sep|..]]
  {
    IndexFromIs(s, sep, 0, i);
    var rest := i + |sep|;
    assert IndexFrom(s, sep, rest).None?;
    assert SplitFrom(s, sep, rest) == [s[rest..]];
    assert SplitFrom(s, sep, 0) == [s[0..i]] + [s[rest..]];
    assert s[0..i] == s[..i];
  }

  lemma ExplodeTwoSplitsOnce(s: string, sep: string)
    requires |sep| > 0
    requires |Explode(s, sep)| == 2
    ensures SplitsOnceAt(s, sep, IndexOf(s, sep).value)
  {
    var r := IndexFrom(s, sep, 0);
    assert r.Some?;
    var i := r.value;
    var tail := SplitFrom(s, sep, i + |sep|);
    assert SplitFrom(s, sep, 0) == [s[0..i]] + tail;
    assert |tail| == 1;
    assert IndexFrom(s, sep, i + |sep|).None?;
  }

  /** `explode` yields exactly two pieces precisely when the separator
      splits the string once, and the pieces are the two sides. */
  lemma ExplodeTwo(s: string, sep: string)
    requires |sep| > 0
    ensures |Explode(s, sep)| == 2 <==> exists i :: SplitsOnceAt(s, sep, i)
    ensures forall i :: SplitsOnceAt(s, sep, i) ==> Explode(s, sep) == [s[..i], s[i + |sep|..]]
  {
    forall i | SplitsOnceAt(s, sep, i)
      ensures Explode(s, sep) == [s[..i], s[i + |sep|..]]
    {
      ExplodeSplitsOnce(s, sep, i);
    }
    if |Explode(s, sep)| == 2 {
      ExplodeTwoSplitsOnce(s, sep);
    }
  }

  /** A separator whose first character appears in neither side occurs
      in the glued string only where it was put. */
  lemma SplitsOnceAtFirstFree(a: string, sep: string, b: string)
    requires |sep| > 0
    requires sep[0] !in a && sep[0] !in b
    ensures SplitsOnceAt(a + sep + b, sep, |a|)
  {
    var s := a + sep + b;
    assert s[|a|..|a| + |sep|] == sep;
    forall j | 0 <= j < |a|
      ensures !OccursAt(s, sep, j)
    {
      assert s[j] == a[j];
    }
    forall j | |a| + |sep| <= j <= |s|
      ensures !OccursAt(s, sep, j)
    {
      if j < |s| {
        assert s[j] == b[j - |a| - |sep|];
      }
    }
  }

  /** The same for a two-character separator with distinct characters
      whose second character appears in neither side. */
  lemma SplitsOnceAtLastFree(a: string, sep: string, b: string)
    requires |sep| == 2 && sep[0] != sep[1]
    requires sep[1] !in a && sep[1] !in b
    ensures SplitsOnceAt(a + sep + b, sep, |a|)
  {
    var s := a + sep + b;
    assert s[|a|..|a| + 2] == sep;
    forall j | 0 <= j < |a|
      ensures !OccursAt(s, sep, j)
    {
      if j + 1 < |a| {
        assert s[j + 1] == a[j + 1];
      } else {
        assert s[j + 1] == sep[0];
      }
    }
    forall j | |a| + 2 <= j <= |s|
      ensures !OccursAt(s, sep, j)
    {
      if j + 1 < |s| {
        assert s[j + 1] == b[j + 1 - |a| - 2];
      }
    }
  }

  /** An occurrence wholly inside the left part of a concatenation. */
  lemma OccursInLeft(a: string, b: string, sep: string, j: int)
    requires OccursAt(a + b, sep, j) && j + |sep| <= |a|
    ensures OccursAt(a, sep, j)
  {
    assert (a + b)[j..j + |sep|] == a[j..j + |sep|];
  }

  /** An occurrence starting inside the right part of a concatenation. */
  lemma OccursInRight(a: string, b: string, sep: string, j: int)
    requires OccursAt(a + b, sep, j) && |a| <= j
    ensures OccursAt(b, sep, j - |a|)
  {
    assert (a + b)[j..j + |sep|] == b[j - |a|..j - |a| + |sep|];
  }

  /** A string without `p` has no `p + q` either. */
  lemma AbsentLonger(s: string, p: string, q: string)
    requires !Contains(s, p)
    ensures !Contains(s, p + q)
  {
    forall i | 0 <= i <= |s|
      ensures !OccursAt(s, p + q, i)
    {
      if i + |p + q| <= |s| {
        assert s[i..i + |p + q|][..|p|] == s[i..i + |p|];
        assert !OccursAt(s, p, i);
      }
    }
  }

  /** A separator whose first character does not recur in it occurs in
      `a + sep + b` only where it was put, when neither side contains it. */
  lemma SplitsOnceAtUnique(a: string, sep: string, b: string)
    requires |sep| > 0
    requires forall k :: 1 <= k < |sep| ==> sep[k] != sep[0]
    requires !Contains(a, sep) && !Contains(b, sep)
    ensures SplitsOnceAt(a + sep + b, sep, |a|)
  {
    var s := a + sep + b;
    assert s == a + (sep + b);
    assert s[|a|..|a| + |sep|] == sep;
    forall j | 0 <= j < |a|
      ensures !OccursAt(s, sep, j)
    {
      if j + |sep| <= |a| {
        if OccursAt(s, sep, j) {
          OccursInLeft(a, sep + b, sep, j);
        }
      } else if j + |sep| <= |s| {
        assert s[j..j + |sep|][|a| - j] == s[|a|] == sep[0];
      }
    }
    forall j | |a| + |sep| <= j <= |s|
      ensures !OccursAt(s, sep, j)
    {
      assert s == (a + sep) + b;
      if OccursAt(s, sep, j) {
        OccursInRight(a + sep, b, sep, j);
      }
    }
  }

  /** Gluing non-empty pieces starts with the first piece's first
      character and ends with the last piece's last character. */
  lemma {:induction false} JoinEnds(ps: seq<string>, sep: string)
    requires |ps| >= 1 && forall k :: 0 <= k < |ps| ==> ps[k] != []
    ensures |Join(ps, sep)| > 0
    ensures Join(ps, sep)[0] == ps[0][0]
    ensures Join(ps, sep)[|Join(ps, sep)| - 1] == ps[|ps| - 1][|ps[|ps| - 1]| - 1]
  {
    if |ps| > 1 {
      var t := Join(ps[1..], sep);
      JoinEnds(ps[1..], sep);
      var j := ps[0] + sep + t;
      assert Join(ps, sep) == j;
      assert j[0] == ps[0][0];
      assert j[|j| - 1] == t[|t| - 1];
      assert ps[1..][|ps| - 2] == ps[|ps| - 1];
    }
  }

  /** A one-character separator occurs wherever its character does. */
  lemma CharContains(s: string, c: char, i: int)
    requires 0 <= i < |s| && s[i] == c
    ensures Contains(s, [c])
  {
    assert OccursAt(s, [c], i);
  }

  /** `explode` yields at least two pieces once the separator occurs. */
  lemma ExplodeSeveral(s: string, sep: string)
    requires |sep| > 0 && Contains(s, sep)
    ensures |Explode(s, sep)| >= 2
  {
    var i :| 0 <= i <= |s| && OccursAt(s, sep, i);
    FoundFrom(s, sep, i);
    var k := IndexFrom(s, sep, 0).value;
    assert |SplitFrom(s, sep, k + |sep|)| >= 1;
  }

  lemma FoundFrom(s: string, sep: string, i: int)
    requires |sep| > 0 && 0 <= i && OccursAt(s, sep, i)
    ensures IndexFrom(s, sep, 0).Some?
  {
  }

  /** A string lacking some character of `sep` does not contain `sep`. */
  lemma AbsentChar(s: string, sep: string, k: int)
    requires 0 <= k < |sep| && sep[k] !in s
    ensures !Contains(s, sep)
  {
    forall i | 0 <= i <= |s|
      ensures !OccursAt(s, sep, i)
    {
      if i + |sep| <= |s| {
        assert s[i..i + |sep|][k] == s[i + k] != sep[k];
      }
    }
  }

  lemma {:induction false} TrimLeftPadded(a: string, x: string, cs: set<char>)
    requires forall k :: 0 <= k < |a| ==> a[k] in cs
    requires x == [] || x[0] !in cs
    ensures TrimLeft(a + x, cs) == x
  {
    if |a| > 0 {
      var s := a + x;
      assert s[0] == a[0] && s[0] in cs;
      assert s[1..] == a[1..] + x;
      TrimLeftPadded(a[1..], x, cs);
    } else {
      assert a + x == x;
    }
  }

  lemma {:induction false} TrimRightPadded(x: string, b: string, cs: set<char>)
    requires forall k :: 0 <= k < |b| ==> b[k] in cs
    requires x == [] || x[|x| - 1] !in cs
    ensures TrimRight(x + b, cs) == x
  {
    if |b| > 0 {
      var s := x + b;
      assert s[|s| - 1] == b[|b| - 1] && s[|s| - 1] in cs;
      assert s[..|s| - 1] == x + b[..|b| - 1];
      TrimRightPadded(x, b[..|b| - 1], cs);
    } else {
      assert x + b == x;
    }
  }

  /** Trimming removes exactly the padding around a core that neither
      starts nor ends with a trimmed character. */
  lemma TrimPadded(a: string, x: string, b: string, cs: set<char>)
    requires forall k :: 0 <= k < |a| ==> a[k] in cs
    requires forall k :: 0 <= k < |b| ==> b[k] in cs
    requires x == [] || (x[0] !in cs && x[|x| - 1] !in cs)
    ensures Trim(a + x + b, cs) == x
  {
    if x == [] {
      assert a + x + b == a + b;
      TrimLeftPadded(a + b, [], cs);
      assert a + b + [] == a + b;
    } else {
      assert a + x + b == a + (x + b);
      TrimLeftPadded(a, x + b, cs);
      TrimRightPadded(x, b, cs);
    }
  }

  /** Trimming leaves a string alone when neither end is a trimmed
      character. */
  lemma TrimUntouched(x: string, cs: set<char>)
    requires x == [] || (x[0] !in cs && x[|x| - 1] !in cs)
    ensures Trim(x, cs) == x
  {
    assert [] + x + [] == x;
    TrimPadded([], x, [], cs);
  }

  /** Trimming strips one leading character of the set from a core that
      neither starts nor ends with one. */
  lemma TrimLeading(c: char, x: string, cs: set<char>)
    requires c in cs
    requires x == [] || (x[0] !in cs && x[|x| - 1] !in cs)
    ensures Trim([c] + x, cs) == x
  {
    assert [c] + x + [] == [c] + x;
    TrimPadded([c], x, [], cs);
  }

  /** Case-blind equality of two pairs of pieces carries over to the
      joined strings. */
  lemma EqualsIgnoreCaseConcat(a: string, b: string, x: string, y: string)
    requires EqualsIgnoreCase(a, x) && EqualsIgnoreCase(b, y)
    ensures EqualsIgnoreCase(a + b, x + y)
  {
    forall k | 0 <= k < |a + b|
      ensures LowerChar((a + b)[k]) == LowerChar((x + y)[k])
    {
      if k < |a| {
        assert (a + b)[k] == a[k] && (x + y)[k] == x[k];
      } else {
        assert (a + b)[k] == b[k - |a|] && (x + y)[k] == y[k - |a|];
      }
    }
  }

  lemma UpperOfUpper(s: string)
    requires forall k :: 0 <= k < |s| ==> !('a' <= s[k] <= 'z')
    ensures Upper(s) == s
  {
  }
}
