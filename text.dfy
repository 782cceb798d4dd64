/** The JavaScript string operations the two commands rely on:
    `String.prototype.trim`, `indexOf`, `replace` with a string pattern,
    `split` on one separator character, and decimal numerals. */
module Text {
  import opened Wrappers

  // ---------------------------------------------------------------------
  // trim()
  // ---------------------------------------------------------------------

  /** The characters `trim()` strips: ECMAScript's WhiteSpace and
      LineTerminator code points. */
  predicate IsWhitespace(c: char) {
    || c == ' ' || c == '\t' || c == '\n' || c == '\r'
    || c == '\U{000B}' || c == '\U{000C}' || c == '\U{00A0}' || c == '\U{FEFF}'
    || c == '\U{1680}' || ('\U{2000}' <= c <= '\U{200A}')
    || c == '\U{2028}' || c == '\U{2029}' || c == '\U{202F}' || c == '\U{205F}'
    || c == '\U{3000}'
  }

  /** Every character of `s` is whitespace (so `s.trim()` is empty). */
  predicate Blank(s: string) {
    forall i :: 0 <= i < |s| ==> IsWhitespace(s[i])
  }

  /** The index of the first non-whitespace character of `s` at or after
      `i`, or `|s|` when there is none. */
  function SkipLeading(s: string, i: nat): (k: nat)
    requires i <= |s|
    ensures i <= k <= |s|
    ensures forall j :: i <= j < k ==> IsWhitespace(s[j])
    ensures k < |s| ==> !IsWhitespace(s[k])
    decreases |s| - i
  {
    if i < |s| && IsWhitespace(s[i]) then SkipLeading(s, i + 1) else i
  }

  /** The end of `s[lo..hi]` once its trailing whitespace is dropped. */
  function SkipTrailing(s: string, lo: nat, hi: nat): (k: nat)
    requires lo <= hi <= |s|
    ensures lo <= k <= hi
    ensures forall j :: k <= j < hi ==> IsWhitespace(s[j])
    ensures lo < k ==> !IsWhitespace(s[k - 1])
    decreases hi - lo
  {
    if lo < hi && IsWhitespace(s[hi - 1]) then SkipTrailing(s, lo, hi - 1) else hi
  }

  /** `s.trim()`: `s` without its leading and trailing whitespace. */
  function Trim(s: string): string {
    var start := SkipLeading(s, 0);
    s[start..SkipTrailing(s, start, |s|)]
  }

  /** `s.trim()` is empty exactly when `s` is all whitespace. */
  lemma TrimEmptyIffBlank(s: string)
    ensures Trim(s) == [] <==> Blank(s)
  {
    var start := SkipLeading(s, 0);
    if start < |s| {
      assert SkipTrailing(s, start, |s|) > start;
    }
  }

  /** A non-empty `s.trim()` is the part of `s` from its first to its last
      non-whitespace character: it starts and ends with non-whitespace and
      only whitespace is cut off on either side. */
  lemma TrimIsInfix(s: string)
    requires Trim(s) != []
    ensures var k := SkipLeading(s, 0);
            var t := Trim(s);
            && k + |t| <= |s| && t == s[k..k + |t|]
            && !IsWhitespace(t[0]) && !IsWhitespace(t[|t| - 1])
            && (forall i :: 0 <= i < k ==> IsWhitespace(s[i]))
            && (forall i :: k + |t| <= i < |s| ==> IsWhitespace(s[i]))
  {
    var k := SkipLeading(s, 0);
    var e := SkipTrailing(s, k, |s|);
    assert Trim(s)[0] == s[k];
    assert Trim(s)[|Trim(s)| - 1] == s[e - 1];
  }

  // ---------------------------------------------------------------------
  // indexOf() and replace() with a string pattern
  // ---------------------------------------------------------------------

  /** `p` occurs in `s` starting at index `i`. */
  predicate OccursAt(s: string, p: string, i: nat) {
    i + |p| <= |s| && s[i..i + |p|] == p
  }

  /** The search behind `s.indexOf(p)`, starting at `from`: the first
      position at or after `from` where `p` occurs, `None` for -1. */
  function IndexOfFrom(s: string, p: string, from: nat): (r: Option<nat>)
    ensures r.Some? ==> from <= r.value && OccursAt(s, p, r.value)
    ensures r.Some? ==> forall j :: from <= j < r.value ==> !OccursAt(s, p, j)
    ensures r.None? ==> forall j :: from <= j ==> !OccursAt(s, p, j)
    decreases |s| - from
  {
    if from + |p| > |s| then None
    else if s[from..from + |p|] == p then Some(from)
    else IndexOfFrom(s, p, from + 1)
  }

  /** `s.indexOf(p)`. */
  function IndexOf(s: string, p: string): Option<nat> {
    IndexOfFrom(s, p, 0)
  }

  /** The replacement text of `replace` (ECMAScript GetSubstitution) when the
      pattern is a string, so there are no capture groups: `$$`, `$&`,
      `` $` `` and `$'` are expanded and every other `$` stays literal. */
  function Substitution(rep: string, matched: string, before: string, after: string): string
  {
    if rep == [] then []
    else if rep[0] == '$' && |rep| >= 2 && rep[1] == '$' then "$" + Substitution(rep[2..], matched, before, after)
    else if rep[0] == '$' && |rep| >= 2 && rep[1] == '&' then matched + Substitution(rep[2..], matched, before, after)
    else if rep[0] == '$' && |rep| >= 2 && rep[1] == '`' then before + Substitution(rep[2..], matched, before, after)
    else if rep[0] == '$' && |rep| >= 2 && rep[1] == '\'' then after + Substitution(rep[2..], matched, before, after)
    else [rep[0]] + Substitution(rep[1..], matched, before, after)
  }

  /** A replacement text without `$` is inserted verbatim. */
  lemma {:induction false} SubstitutionPlain(rep: string, matched: string, before: string, after: string)
    requires '$' !in rep
    ensures Substitution(rep, matched, before, after) == rep
  {
    if rep != [] {
      assert '$' !in rep[1..];
      SubstitutionPlain(rep[1..], matched, before, after);
    }
  }

  /** `s.replace(p, rep)` with a string pattern: only the first occurrence of
      `p` is replaced. */
  function ReplaceFirst(s: string, p: string, rep: string): string {
    match IndexOf(s, p)
    case None => s
    case Some(i) => s[..i] + Substitution(rep, p, s[..i], s[i + |p|..]) + s[i + |p|..]
  }

  /** With a replacement text free of `$`: if `p` first occurs at `i`, exactly
      that occurrence becomes `rep` and the rest of `s` is kept; if `p` does
      not occur, `s` is returned unchanged. */
  lemma ReplaceFirstCharacterized(s: string, p: string, rep: string)
    requires '$' !in rep
    ensures forall i: nat :: OccursAt(s, p, i) && (forall j: nat :: j < i ==> !OccursAt(s, p, j)) ==>
              ReplaceFirst(s, p, rep) == s[..i] + rep + s[i + |p|..]
    ensures (forall j: nat :: !OccursAt(s, p, j)) ==> ReplaceFirst(s, p, rep) == s
  {
    match IndexOf(s, p)
    case None =>
    case Some(k) =>
      SubstitutionPlain(rep, p, s[..k], s[k + |p|..]);
      forall i: nat | OccursAt(s, p, i) && (forall j: nat :: j < i ==> !OccursAt(s, p, j))
        ensures i == k
      {
      }
  }

  /** When `p` first occurs right after `a`, replacing it in `a + p + b`
      gives `a + rep + b`. */
  lemma ReplaceFirstSplice(a: string, p: string, b: string, rep: string)
    requires '$' !in rep
    requires forall j: nat :: j < |a| ==> !OccursAt(a + p + b, p, j)
    ensures ReplaceFirst(a + p + b, p, rep) == a + rep + b
  {
    var s := a + p + b;
    ReplaceFirstCharacterized(s, p, rep);
    assert OccursAt(s, p, |a|) by { assert s[|a|..|a| + |p|] == p; }
    assert s[..|a|] == a && s[|a| + |p|..] == b;
  }

  /** No `x` in `s` is directly followed by `y`. */
  predicate NoPair(s: string, x: char, y: char) {
    forall j :: 0 <= j < |s| - 1 ==> s[j] != x || s[j + 1] != y
  }

  /** A string missing either character has no such pair. */
  lemma NoPairOf(s: string, x: char, y: char)
    requires x !in s || y !in s
    ensures NoPair(s, x, y)
  {
    forall j | 0 <= j < |s| - 1 ensures s[j] != x || s[j + 1] != y {
      assert s[j] in s && s[j + 1] in s;
    }
  }

  /** Two strings without the pair, not forming it where they meet, give a
      string without it. */
  lemma NoPairJoin(u: string, v: string, x: char, y: char)
    requires NoPair(u, x, y) && NoPair(v, x, y) && |u| >= 1 && |v| >= 1
    requires u[|u| - 1] != x || v[0] != y
    ensures NoPair(u + v, x, y)
  {
    var s := u + v;
    forall j | 0 <= j < |s| - 1 ensures s[j] != x || s[j + 1] != y {
      if j + 1 < |u| {
        assert s[j] == u[j] && s[j + 1] == u[j + 1];
      } else if j >= |u| {
        assert s[j] == v[j - |u|] && s[j + 1] == v[j + 1 - |u|];
      }
    }
  }

  /** If the first two characters of `p` never meet in `a` followed by the
      first character of `p`, then `p` does not occur in `a + p + b` before
      the copy right after `a`. */
  lemma NoEarlierOccurrence(a: string, p: string, b: string)
    requires |p| >= 2 && NoPair(a + [p[0]], p[0], p[1])
    ensures forall j: nat :: j < |a| ==> !OccursAt(a + p + b, p, j)
  {
    var s := a + p + b;
    var t := a + [p[0]];
    forall j: nat | j < |a| ensures !OccursAt(s, p, j) {
      assert s[j] == t[j] && s[j + 1] == t[j + 1];
    }
  }

  // ---------------------------------------------------------------------
  // split() on one character, and its inverse join()
  // ---------------------------------------------------------------------

  /** `s.split(d)` for a one-character separator `d`. */
  function Split(s: string, d: char): (parts: seq<string>)
    ensures |parts| >= 1
    ensures forall k :: 0 <= k < |parts| ==> d !in parts[k]
  {
    if s == [] then [[]]
    else
      var rest := Split(s[1..], d);
      if s[0] == d then [[]] + rest
      else [[s[0]] + rest[0]] + rest[1..]
  }

  /** `parts.join(d)`. */
  function Join(parts: seq<string>, d: char): string {
    if parts == [] then []
    else if |parts| == 1 then parts[0]
    else parts[0] + [d] + Join(parts[1..], d)
  }

  /** Joining the pieces of a split gives back the original string. */
  lemma {:induction false} JoinSplit(s: string, d: char)
    ensures Join(Split(s, d), d) == s
  {
    if s != [] {
      var rest := Split(s[1..], d);
      JoinSplit(s[1..], d);
      if s[0] == d {
        assert Split(s, d) == [[]] + rest;
        assert Join(Split(s, d), d) == [] + [d] + Join(rest, d);
      } else {
        var parts := Split(s, d);
        assert parts == [[s[0]] + rest[0]] + rest[1..];
        if |rest| == 1 {
          assert Join(parts, d) == [s[0]] + rest[0];
        } else {
          assert parts[1..] == rest[1..];
          assert Join(parts, d) == [s[0]] + (rest[0] + [d] + Join(rest[1..], d));
        }
      }
    }
  }

  /** Without the separator, a string splits into itself alone. */
  lemma {:induction false} SplitWithoutSeparator(s: string, d: char)
    requires d !in s
    ensures Split(s, d) == [s]
  {
    if s != [] {
      assert d !in s[1..];
      SplitWithoutSeparator(s[1..], d);
      assert s == [s[0]] + s[1..];
    }
  }

  /** Splitting `x + d + y` splits `x` and `y` separately. */
  lemma {:induction false} SplitAround(x: string, d: char, y: string)
    ensures Split(x + [d] + y, d) == Split(x, d) + Split(y, d)
  {
    var z := x + [d] + y;
    if x == [] {
      assert z == [d] + y && z[1..] == y;
    } else {
      assert z[0] == x[0] && z[1..] == x[1..] + [d] + y;
      SplitAround(x[1..], d, y);
      var a, b := Split(x[1..], d), Split(y, d);
      assert Split(z[1..], d) == a + b;
      if x[0] != d {
        assert (a + b)[0] == a[0] && (a + b)[1..] == a[1..] + b;
      }
    }
  }

  /** The last element of a non-empty sequence. */
  function Last<T>(xs: seq<T>): T
    requires xs != []
  {
    xs[|xs| - 1]
  }

  /** The piece after the last separator: it holds no separator and, if the
      string has one, it is exactly the suffix that follows the last one. */
  lemma {:induction false} LastPieceIsSuffix(s: string, d: char)
    ensures d !in Last(Split(s, d))
    ensures var r := Last(Split(s, d));
            && |r| <= |s| && s[|s| - |r|..] == r
            && (d in s ==> |r| < |s| && s[|s| - |r| - 1] == d)
  {
    var parts := Split(s, d);
    var r := Last(parts);
    JoinSplit(s, d);
    if |parts| == 1 {
      assert s == r;
    } else {
      JoinLast(parts, d);
      assert s == Join(parts[..|parts| - 1], d) + [d] + r;
    }
  }

  /** Peeling the last piece off a join. */
  lemma {:induction false} JoinLast(parts: seq<string>, d: char)
    requires |parts| >= 2
    ensures Join(parts, d) == Join(parts[..|parts| - 1], d) + [d] + Last(parts)
  {
    if |parts| > 2 {
      JoinLast(parts[1..], d);
      assert parts[1..][..|parts| - 2] == parts[..|parts| - 1][1..];
    }
  }

  // ---------------------------------------------------------------------
  // Decimal numerals
  // ---------------------------------------------------------------------

  predicate IsDigit(c: char) {
    '0' <= c <= '9'
  }

  predicate AllDigits(s: string) {
    forall i :: 0 <= i < |s| ==> IsDigit(s[i])
  }

  /** A numeral as Semantic Versioning 2.0.0 writes numbers: digits, and no
      leading zero except in "0" itself. */
  predicate IsCanonicalNumeral(s: string) {
    |s| >= 1 && AllDigits(s) && (s[0] == '0' ==> |s| == 1)
  }

  function DigitChar(n: nat): (c: char)
    requires n < 10
    ensures IsDigit(c)
  {
    (n + '0' as int) as char
  }

  /** The decimal numeral of `n`, as JavaScript prints a number. */
  function NatToString(n: nat): (r: string)
    ensures IsCanonicalNumeral(r)
  {
    if n < 10 then [DigitChar(n)] else NatToString(n / 10) + [DigitChar(n % 10)]
  }

  /** The value of a string of digits. */
  function DigitsValue(s: string): nat
    requires AllDigits(s)
  {
    if s == [] then 0 else 10 * DigitsValue(s[..|s| - 1]) + (s[|s| - 1] as int - '0' as int)
  }

  /** Reading back a printed number gives the number. */
  lemma {:induction false} DigitsValueOfNatToString(n: nat)
    ensures DigitsValue(NatToString(n)) == n
  {
    if n >= 10 {
      DigitsValueOfNatToString(n / 10);
      assert NatToString(n)[..|NatToString(n)| - 1] == NatToString(n / 10);
    }
  }

  /** A numeral whose first digit is not 0 has a positive value. */
  lemma {:induction false} LeadingDigitPositive(s: string)
    requires AllDigits(s) && |s| >= 1 && s[0] != '0'
    ensures DigitsValue(s) >= 1
  {
    if |s| > 1 {
      LeadingDigitPositive(s[..|s| - 1]);
    }
  }

  /** Printing the value of a canonical numeral gives the numeral back. */
  lemma {:induction false} NatToStringOfDigitsValue(s: string)
    requires IsCanonicalNumeral(s)
    ensures NatToString(DigitsValue(s)) == s
  {
    if |s| > 1 {
      var init := s[..|s| - 1];
      var v := s[|s| - 1] as int - '0' as int;
      LeadingDigitPositive(init);
      NatToStringOfDigitsValue(init);
      var n := DigitsValue(s);
      assert n == 10 * DigitsValue(init) + v;
      assert n / 10 == DigitsValue(init) && n % 10 == v;
      assert s == init + [s[|s| - 1]];
    }
  }
}
