/**
 * The string primitives the page script relies on: decimal rendering of
 * integers (template literals), `String.prototype.trim`, `toLowerCase`,
 * `includes` and `split`.
 */
module Text {

  // ---------------------------------------------------------------------
  // Decimal digits
  // ---------------------------------------------------------------------

  predicate IsDigit(c: char) {
    '0' <= c <= '9'
  }

  /** Every character is a decimal digit (stated from the back, as `Value` reads). */
  predicate AllDigits(s: string)
    decreases |s|
  {
    s == [] || (IsDigit(s[|s| - 1]) && AllDigits(s[..|s| - 1]))
  }

  lemma {:induction false} AllDigitsAt(s: string, i: int)
    requires AllDigits(s) && 0 <= i < |s|
    ensures IsDigit(s[i])
    decreases |s|
  {
    if i < |s| - 1 {
      AllDigitsAt(s[..|s| - 1], i);
    }
  }

  /** A character that is not a digit does not occur in a digit string. */
  lemma {:induction false} DigitsExclude(s: string, c: char)
    requires AllDigits(s) && !IsDigit(c)
    ensures c !in s
  {
    forall i | 0 <= i < |s| ensures s[i] != c {
      AllDigitsAt(s, i);
    }
  }

  function DigitValue(c: char): (d: nat)
    requires IsDigit(c)
    ensures d < 10
  {
    c as int - '0' as int
  }

  function DigitChar(d: nat): (c: char)
    requires d < 10
    ensures IsDigit(c) && DigitValue(c) == d
  {
    ('0' as int + d) as char
  }

  /** The number a string of decimal digits denotes (the empty string denotes 0). */
  function Value(s: string): nat
    requires AllDigits(s)
    decreases |s|
  {
    if s == [] then 0 else 10 * Value(s[..|s| - 1]) + DigitValue(s[|s| - 1])
  }

  /** The decimal rendering of a natural number, as `${n}` produces it. */
  function Show(n: nat): (s: string)
    ensures |s| > 0 && AllDigits(s)
    ensures |s| > 1 ==> s[0] != '0'
    decreases n
  {
    if n < 10 then [DigitChar(n)] else Show(n / 10) + [DigitChar(n % 10)]
  }

  /** Reading back a rendered number gives the number. */
  lemma {:induction false} ValueOfShow(n: nat)
    ensures Value(Show(n)) == n
  {
    if n >= 10 {
      var s := Show(n);
      assert s[..|s| - 1] == Show(n / 10);
      ValueOfShow(n / 10);
    }
  }

  // ---------------------------------------------------------------------
  // Whitespace and trimming
  // ---------------------------------------------------------------------

  /** ECMAScript WhiteSpace and LineTerminator code points, which `trim` removes. */
  predicate IsSpace(c: char) {
    || c == '\t' || c == '\n' || c == '\U{000B}' || c == '\U{000C}' || c == '\r'
    || c == ' ' || c == '\U{00A0}' || c == '\U{1680}'
    || ('\U{2000}' <= c <= '\U{200A}')
    || c == '\U{2028}' || c == '\U{2029}' || c == '\U{202F}' || c == '\U{205F}'
    || c == '\U{3000}' || c == '\U{FEFF}'
  }

  predicate AllSpace(s: string) {
    forall i :: 0 <= i < |s| ==> IsSpace(s[i])
  }

  /** The first position at or after `i` that does not hold whitespace, or `|s|`. */
  function SkipSpaces(s: string, i: nat): (k: nat)
    requires i <= |s|
    ensures i <= k <= |s|
    ensures k < |s| ==> !IsSpace(s[k])
    decreases |s| - i
  {
    if i < |s| && IsSpace(s[i]) then SkipSpaces(s, i + 1) else i
  }

  /** Everything `SkipSpaces` passes over is whitespace. */
  lemma {:induction false} SkipSpacesPassesSpace(s: string, i: nat, j: nat)
    requires i <= |s| && i <= j < SkipSpaces(s, i)
    ensures IsSpace(s[j])
    decreases |s| - i
  {
    if i < j {
      SkipSpacesPassesSpace(s, i + 1, j);
    }
  }

  /**
   * Moving back from `j` over whitespace, but not below `lo`: the end of the
   * text once its trailing whitespace is dropped.
   */
  function BackSpaces(s: string, lo: nat, j: nat): (e: nat)
    requires lo <= j <= |s|
    ensures lo <= e <= j
    ensures e > lo ==> !IsSpace(s[e - 1])
    decreases j
  {
    if j > lo && IsSpace(s[j - 1]) then BackSpaces(s, lo, j - 1) else j
  }

  /** Everything `BackSpaces` passes over is whitespace. */
  lemma {:induction false} BackSpacesPassesSpace(s: string, lo: nat, j: nat, x: nat)
    requires lo <= j <= |s| && BackSpaces(s, lo, j) <= x < j
    ensures IsSpace(s[x])
    decreases j
  {
    if x < j - 1 {
      BackSpacesPassesSpace(s, lo, j - 1, x);
    }
  }

  /** `String.prototype.trim`: the text between the leading and the trailing whitespace. */
  function Trim(s: string): string {
    var k := SkipSpaces(s, 0);
    s[k..BackSpaces(s, k, |s|)]
  }

  /**
   * `trim` keeps one contiguous piece of the text, drops only whitespace on
   * either side of it, and the piece neither starts nor ends with whitespace.
   */
  lemma {:induction false} TrimSpec(s: string)
    ensures exists k, e ::
      (0 <= k <= e <= |s| && Trim(s) == s[k..e] && AllSpace(s[..k]) && AllSpace(s[e..]))
    ensures Trim(s) == [] || (!IsSpace(Trim(s)[0]) && !IsSpace(Trim(s)[|Trim(s)| - 1]))
  {
    var k := SkipSpaces(s, 0);
    var e := BackSpaces(s, k, |s|);
    assert AllSpace(s[..k]) by {
      forall i | 0 <= i < k ensures IsSpace(s[..k][i]) {
        SkipSpacesPassesSpace(s, 0, i);
      }
    }
    assert AllSpace(s[e..]) by {
      forall i | 0 <= i < |s| - e ensures IsSpace(s[e..][i]) {
        BackSpacesPassesSpace(s, k, |s|, e + i);
      }
    }
    if k < e {
      assert Trim(s)[0] == s[k];
      assert Trim(s)[|Trim(s)| - 1] == s[e - 1];
    }
  }

  /** A string that neither starts nor ends with whitespace is its own trim. */
  lemma {:induction false} TrimNoop(s: string)
    requires s == [] || (!IsSpace(s[0]) && !IsSpace(s[|s| - 1]))
    ensures Trim(s) == s
  {
    assert SkipSpaces(s, 0) == 0;
    assert BackSpaces(s, 0, |s|) == |s|;
    assert s[0..|s|] == s;
  }

  // ---------------------------------------------------------------------
  // Case folding and substring search
  // ---------------------------------------------------------------------

  /** Lower-casing of one character; only ASCII capitals are mapped. */
  function LowerChar(c: char): (l: char)
    ensures !('A' <= l <= 'Z')
    ensures !('A' <= c <= 'Z') ==> l == c
  {
    if 'A' <= c <= 'Z' then (c as int - 'A' as int + 'a' as int) as char else c
  }

  function ToLower(s: string): (r: string)
    ensures |r| == |s|
    ensures forall i :: 0 <= i < |s| ==> r[i] == LowerChar(s[i])
  {
    seq(|s|, i requires 0 <= i < |s| => LowerChar(s[i]))
  }

  lemma {:induction false} ToLowerIdempotent(s: string)
    ensures ToLower(ToLower(s)) == ToLower(s)
  {
  }

  /** `t` occurs in `s` starting at position `i`. */
  predicate OccursAt(s: string, t: string, i: int) {
    0 <= i && i + |t| <= |s| && s[i..i + |t|] == t
  }

  /** A scan for `t` that tries every starting position from `i` on in turn. */
  predicate ContainsFrom(s: string, t: string, i: nat)
    decreases |s| - i
  {
    i + |t| <= |s| && (s[i..i + |t|] == t || ContainsFrom(s, t, i + 1))
  }

  /** `s.includes(t)`. */
  predicate Contains(s: string, t: string) {
    ContainsFrom(s, t, 0)
  }

  lemma {:induction false} ContainsFromIff(s: string, t: string, i: nat)
    ensures ContainsFrom(s, t, i) <==> exists j :: i <= j && OccursAt(s, t, j)
    decreases |s| - i
  {
    if i + |t| <= |s| {
      ContainsFromIff(s, t, i + 1);
      if !ContainsFrom(s, t, i) {
        forall j | i <= j && OccursAt(s, t, j) ensures false {
        }
      } else if s[i..i + |t|] == t {
        assert OccursAt(s, t, i);
      }
    } else {
      forall j | i <= j && OccursAt(s, t, j) ensures false {
      }
    }
  }

  lemma {:induction false} ContainsIff(s: string, t: string)
    ensures Contains(s, t) <==> exists i :: OccursAt(s, t, i)
  {
    ContainsFromIff(s, t, 0);
  }

  // ---------------------------------------------------------------------
  // Splitting at a separator
  // ---------------------------------------------------------------------

  /**
   * `s.indexOf(c, from)`: the first position at or after `from` that holds
   * `c`, or `|s|` (standing for -1) when there is none.
   */
  function Find(s: string, c: char, from: nat): (i: nat)
    requires from <= |s|
    ensures from <= i <= |s|
    ensures i < |s| ==> s[i] == c
    decreases |s| - from
  {
    if from == |s| then |s| else if s[from] == c then from else Find(s, c, from + 1)
  }

  /** Every position `Find` passes over holds another character. */
  lemma {:induction false} FindPasses(s: string, c: char, from: nat, j: nat)
    requires from <= |s| && from <= j < Find(s, c, from)
    ensures s[j] != c
    decreases |s| - from
  {
    if from < j {
      FindPasses(s, c, from + 1, j);
    }
  }

  /** No piece `Find` passes over holds `c`. */
  lemma {:induction false} FindPassesAll(s: string, c: char, from: nat)
    requires from <= |s|
    ensures c !in s[from..Find(s, c, from)]
  {
    var i := Find(s, c, from);
    forall j | 0 <= j < i - from ensures s[from..i][j] != c {
      FindPasses(s, c, from, from + j);
    }
  }

  /** `Find` reports "none" exactly when the character is absent. */
  lemma {:induction false} FindMissing(s: string, c: char)
    ensures Find(s, c, 0) == |s| <==> c !in s
  {
    FindPassesAll(s, c, 0);
    assert s[0..Find(s, c, 0)] == s[..Find(s, c, 0)];
  }

  /** The first `c` after a `c`-free prefix is the one that ends the prefix. */
  lemma {:induction false} FindAfterPrefix(a: string, c: char, b: string)
    requires c !in a
    ensures Find(a + [c] + b, c, 0) == |a|
  {
    var s := a + [c] + b;
    assert s[|a|] == c;
    if Find(s, c, 0) > |a| {
      FindPasses(s, c, 0, |a|);
    }
  }

  /** Searching in `p + s` from beyond `p` is searching in `s`. */
  lemma {:induction false} FindShift(p: string, s: string, c: char, from: nat)
    requires from <= |s|
    ensures Find(p + s, c, |p| + from) == |p| + Find(s, c, from)
    decreases |s| - from
  {
    if from < |s| {
      assert (p + s)[|p| + from] == s[from];
      FindShift(p, s, c, from + 1);
    }
  }

  /** The pieces of `s` between successive separators, from position `from` on. */
  function SplitFrom(s: string, sep: char, from: nat): (parts: seq<string>)
    requires from <= |s|
    ensures |parts| >= 1
    decreases |s| - from
  {
    var i := Find(s, sep, from);
    if i == |s| then [s[from..]] else [s[from..i]] + SplitFrom(s, sep, i + 1)
  }

  /** `s.split(sep)`. */
  function Split(s: string, sep: char): (parts: seq<string>)
    ensures |parts| >= 1
  {
    SplitFrom(s, sep, 0)
  }

  /** No piece contains the separator. */
  lemma {:induction false} SplitFromSeparatorFree(s: string, sep: char, from: nat)
    requires from <= |s|
    ensures forall k :: 0 <= k < |SplitFrom(s, sep, from)| ==> sep !in SplitFrom(s, sep, from)[k]
    decreases |s| - from
  {
    var i := Find(s, sep, from);
    FindPassesAll(s, sep, from);
    if i < |s| {
      SplitFromSeparatorFree(s, sep, i + 1);
    }
  }

  lemma {:induction false} SplitPiecesSeparatorFree(s: string, sep: char)
    ensures forall k :: 0 <= k < |Split(s, sep)| ==> sep !in Split(s, sep)[k]
  {
    SplitFromSeparatorFree(s, sep, 0);
  }

  /** `parts.join(sep)`. */
  function Join(parts: seq<string>, sep: char): string
    requires |parts| >= 1
    decreases |parts|
  {
    if |parts| == 1 then parts[0] else parts[0] + [sep] + Join(parts[1..], sep)
  }

  /** Cutting a string around position `i`. */
  lemma {:induction false} SliceAround(s: string, from: nat, i: nat)
    requires from <= i < |s|
    ensures s[from..] == s[from..i] + [s[i]] + s[i + 1..]
  {
  }

  /** Slices of `p + s` beyond `p` are slices of `s`. */
  lemma {:induction false} SliceBeyond(p: string, s: string, a: nat, b: nat)
    requires a <= b <= |s|
    ensures (p + s)[|p| + a..|p| + b] == s[a..b]
    ensures (p + s)[|p| + a..] == s[a..]
  {
  }

  lemma {:induction false} JoinSplitFrom(s: string, sep: char, from: nat)
    requires from <= |s|
    ensures Join(SplitFrom(s, sep, from), sep) == s[from..]
    decreases |s| - from
  {
    var i := Find(s, sep, from);
    if i < |s| {
      JoinSplitFrom(s, sep, i + 1);
      SliceAround(s, from, i);
    }
  }

  /** Splitting loses nothing: joining the pieces restores the string. */
  lemma {:induction false} JoinSplit(s: string, sep: char)
    ensures Join(Split(s, sep), sep) == s
  {
    JoinSplitFrom(s, sep, 0);
    assert s[0..] == s;
  }

  /** Splitting `p + s` from beyond `p` is splitting `s`. */
  lemma {:induction false} SplitFromShift(p: string, s: string, sep: char, from: nat)
    requires from <= |s|
    ensures SplitFrom(p + s, sep, |p| + from) == SplitFrom(s, sep, from)
    decreases |s| - from
  {
    var i := Find(s, sep, from);
    FindShift(p, s, sep, from);
    SliceBeyond(p, s, from, i);
    if i < |s| {
      SplitFromShift(p, s, sep, i + 1);
    }
  }

  lemma {:induction false} SplitAtFirst(a: string, sep: char, b: string)
    requires sep !in a
    ensures Split(a + [sep] + b, sep) == [a] + Split(b, sep)
  {
    var s := a + [sep] + b;
    FindAfterPrefix(a, sep, b);
    assert s[0..|a|] == a;
    assert s == (a + [sep]) + b;
    SplitFromShift(a + [sep], b, sep, 0);
  }

  /** Splitting is the inverse of joining separator-free pieces. */
  lemma {:induction false} SplitJoin(parts: seq<string>, sep: char)
    requires |parts| >= 1
    requires forall k :: 0 <= k < |parts| ==> sep !in parts[k]
    ensures Split(Join(parts, sep), sep) == parts
    decreases |parts|
  {
    if |parts| > 1 {
      SplitJoin(parts[1..], sep);
      SplitAtFirst(parts[0], sep, Join(parts[1..], sep));
    } else {
      FindMissing(parts[0], sep);
      assert parts[0][0..] == parts[0];
    }
  }

  /** `s.split("\n")[0]`. */
  function FirstLine(s: string): (r: string)
    ensures '\n' !in r
    ensures |r| <= |s| && r == s[..|r|]
    ensures |r| < |s| ==> s[|r|] == '\n'
  {
    FindPassesAll(s, '\n', 0);
    Split(s, '\n')[0]
  }

  /** The first line is the one prefix without a newline that ends at a newline or at the end. */
  lemma {:induction false} FirstLineUnique(s: string, r: string)
    requires '\n' !in r && |r| <= |s| && r == s[..|r|]
    requires |r| == |s| || s[|r|] == '\n'
    ensures FirstLine(s) == r
  {
  }

  /** Text appended after a newline does not change the first line. */
  lemma {:induction false} FirstLineAppend(a: string, b: string)
    requires '\n' in a
    ensures FirstLine(a + b) == FirstLine(a)
  {
    var f := FirstLine(a);
    assert (a + b)[..|f|] == a[..|f|];
    FirstLineUnique(a + b, f);
  }
}
