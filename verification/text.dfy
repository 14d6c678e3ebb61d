/**
 * Character classes and string helpers shared by the whole model: the JavaScript
 * whitespace set behind `\s` and `String.prototype.trim`, ASCII digit and letter
 * classes, substring search, ASCII case mapping, code-unit lexicographic order and
 * decimal rendering of numbers.
 */
module Text {

  /** The characters JavaScript's `\s` matches and `trim()` strips
      (WhiteSpace plus LineTerminator of ECMA-262). */
  predicate IsSpace(c: char) {
    var n := c as int;
    n == 0x09 || n == 0x0A || n == 0x0B || n == 0x0C || n == 0x0D || n == 0x20
    || n == 0xA0 || n == 0x1680 || (0x2000 <= n <= 0x200A)
    || n == 0x2028 || n == 0x2029 || n == 0x202F || n == 0x205F
    || n == 0x3000 || n == 0xFEFF
  }

  /** The C0 and C1 control ranges U+0000-U+001F and U+007F-U+009F. */
  predicate IsControl(c: char) {
    c as int <= 0x1F || (0x7F <= c as int <= 0x9F)
  }

  predicate IsDigit(c: char) { '0' <= c <= '9' }
  predicate IsUpper(c: char) { 'A' <= c <= 'Z' }
  predicate IsLower(c: char) { 'a' <= c <= 'z' }
  predicate IsLetter(c: char) { IsUpper(c) || IsLower(c) }

  /** JavaScript's `\w`: `[A-Za-z0-9_]`. */
  predicate IsWordChar(c: char) { IsLetter(c) || IsDigit(c) || c == '_' }

  predicate AllDigits(s: string) {
    forall i :: 0 <= i < |s| ==> IsDigit(s[i])
  }

  predicate NoSpace(s: string) {
    forall i :: 0 <= i < |s| ==> !IsSpace(s[i])
  }

  /** The string has a character that is not whitespace: it does not trim to empty. */
  predicate NonBlank(s: string) {
    exists i :: 0 <= i < |s| && !IsSpace(s[i])
  }

  // ---------------------------------------------------------------- trimming

  function TrimStart(s: string): (r: string)
    ensures |r| <= |s| && r == s[|s| - |r|..]
    ensures r == [] || !IsSpace(r[0])
    ensures forall i :: 0 <= i < |s| - |r| ==> IsSpace(s[i])
  {
    if s != [] && IsSpace(s[0]) then TrimStart(s[1..]) else s
  }

  function TrimEnd(s: string): (r: string)
    ensures |r| <= |s| && r == s[..|r|]
    ensures r == [] || !IsSpace(r[|r| - 1])
    ensures forall i :: |r| <= i < |s| ==> IsSpace(s[i])
  {
    if s != [] && IsSpace(s[|s| - 1]) then TrimEnd(s[..|s| - 1]) else s
  }

  /** `r` is what remains of `s` once its first `a` characters and everything after
      `a + |r|` are removed, and all removed characters are whitespace. */
  predicate TrimmedAt(s: string, r: string, a: int) {
    0 <= a && a + |r| <= |s| && r == s[a..a + |r|]
    && (forall i :: 0 <= i < a ==> IsSpace(s[i]))
    && (forall i :: a + |r| <= i < |s| ==> IsSpace(s[i]))
  }

  /** `String.prototype.trim`: the result is the slice of `s` left after removing
      every leading and every trailing whitespace character, and nothing else. */
  function Trim(s: string): (r: string)
    ensures r == [] || (!IsSpace(r[0]) && !IsSpace(r[|r| - 1]))
    ensures exists a :: TrimmedAt(s, r, a)
  {
    var t := TrimStart(s);
    var r := TrimEnd(t);
    assert TrimmedAt(s, r, |s| - |t|);
    r
  }

  /** The result of `Trim` is empty exactly when the input is all whitespace. */
  lemma TrimEmptyIff(s: string)
    ensures Trim(s) == [] <==> !NonBlank(s)
  {
    var r := Trim(s);
    var a :| TrimmedAt(s, r, a);
    if r != [] {
      assert s[a] == r[0];
    }
  }

  /** A string that neither starts nor ends with whitespace is its own trim. */
  lemma {:induction false} TrimOfTrimmed(s: string)
    requires s == [] || (!IsSpace(s[0]) && !IsSpace(s[|s| - 1]))
    ensures Trim(s) == s
  {
    assert TrimStart(s) == s;
    assert TrimEnd(s) == s;
  }

  lemma TrimIdempotent(s: string)
    ensures Trim(Trim(s)) == Trim(s)
  {
    TrimOfTrimmed(Trim(s));
  }

  /** Leading whitespace stops at the first non-whitespace character, so text after a
      string that ends in one is kept whole. */
  lemma {:induction false} TrimStartAppend(x: string, y: string)
    requires x != [] && !IsSpace(x[|x| - 1])
    ensures TrimStart(x + y) == TrimStart(x) + y
  {
    assert (x + y)[0] == x[0];
    if IsSpace(x[0]) {
      assert (x + y)[1..] == x[1..] + y;
      TrimStartAppend(x[1..], y);
    }
  }

  /** Trailing whitespace stops at the last non-whitespace character, so text before a
      string that starts with one is kept whole. */
  lemma {:induction false} TrimEndPrepend(x: string, y: string)
    requires y != [] && !IsSpace(y[0])
    ensures TrimEnd(x + y) == x + TrimEnd(y)
    decreases |y|
  {
    var s := x + y;
    assert s[|s| - 1] == y[|y| - 1];
    if IsSpace(y[|y| - 1]) {
      assert s[..|s| - 1] == x + y[..|y| - 1];
      TrimEndPrepend(x, y[..|y| - 1]);
    }
  }

  /** A whitespace prefix is trimmed away entirely. */
  lemma {:induction false} TrimStartSpaces(w: string, b: string)
    requires forall i :: 0 <= i < |w| ==> IsSpace(w[i])
    requires b == [] || !IsSpace(b[0])
    ensures TrimStart(w + b) == b
  {
    if w == [] {
      assert w + b == b;
    } else {
      assert (w + b)[0] == w[0];
      assert (w + b)[1..] == w[1..] + b;
      TrimStartSpaces(w[1..], b);
    }
  }

  /** Trimming text of the form `a + w + b` with non-whitespace at the inner edges of `a`
      and `b` trims `a` and `b` separately and keeps `w` whole. */
  lemma TrimAround(a: string, w: string, b: string)
    requires a != [] && !IsSpace(a[|a| - 1])
    requires b != [] && !IsSpace(b[0])
    ensures Trim(a + w + b) == Trim(a) + w + Trim(b)
  {
    TrimStartKeepsLast(a);
    TrimAroundFront(a, w, b);
    TrimAroundBack(TrimStart(a), w, b);
    TrimIsBothEnds(a + w + b);
    TrimIsBothEnds(b);
  }

  lemma TrimAroundFront(a: string, w: string, b: string)
    requires a != [] && !IsSpace(a[|a| - 1])
    ensures TrimStart(a + w + b) == TrimStart(a) + w + b
  {
    assert a + w + b == a + (w + b);
    TrimStartAppend(a, w + b);
  }

  lemma TrimAroundBack(t: string, w: string, b: string)
    requires b != [] && !IsSpace(b[0])
    ensures TrimEnd(t + w + b) == t + w + TrimEnd(b)
    ensures TrimStart(b) == b
  {
    TrimEndPrepend(t + w, b);
  }

  lemma TrimIsBothEnds(s: string)
    ensures Trim(s) == TrimEnd(TrimStart(s))
  {
  }

  /** Trimming the front of a string that ends in non-whitespace keeps that end. */
  lemma TrimStartKeepsLast(a: string)
    requires a != [] && !IsSpace(a[|a| - 1])
    ensures var t := TrimStart(a); t != [] && t[|t| - 1] == a[|a| - 1] && TrimEnd(t) == t && Trim(a) == t
  {
    var t := TrimStart(a);
    assert t[|t| - 1] == a[|a| - |t| + |t| - 1];
  }

  // ------------------------------------------------------------------ prefixes

  predicate StartsWith(s: string, p: string) {
    |p| <= |s| && s[..|p|] == p
  }

  /** `t` occurs in `s` starting at index `i`. */
  predicate OccursAt(s: string, t: string, i: int) {
    0 <= i && i + |t| <= |s| && s[i..i + |t|] == t
  }

  /** `String.prototype.includes`, defined by a left-to-right scan. */
  function Contains(s: string, t: string): (r: bool)
    ensures r <==> exists i :: OccursAt(s, t, i)
  {
    if StartsWith(s, t) then
      assert OccursAt(s, t, 0);
      true
    else if s == [] then
      false
    else
      var r := Contains(s[1..], t);
      if r then
        var i :| OccursAt(s[1..], t, i);
        assert s[i + 1..i + 1 + |t|] == s[1..][i..i + |t|];
        assert OccursAt(s, t, i + 1);
        true
      else
        assert forall i :: OccursAt(s, t, i) ==> i == 0 || OccursAt(s[1..], t, i - 1) by {
          forall i | OccursAt(s, t, i) && i != 0
            ensures OccursAt(s[1..], t, i - 1)
          {
            assert forall k :: 0 <= k < |t| ==> t[k] == s[i + k];
            assert s[1..][i - 1..i - 1 + |t|] == t;
          }
        }
        false
  }

  // ------------------------------------------------------------- case mapping

  function LowerChar(c: char): char {
    if IsUpper(c) then (c as int + 32) as char else c
  }

  function UpperChar(c: char): char {
    if IsLower(c) then (c as int - 32) as char else c
  }

  /** ASCII `toLowerCase`: maps A-Z to a-z and keeps every other character. */
  function ToLower(s: string): (r: string)
    ensures |r| == |s|
    ensures forall i :: 0 <= i < |s| ==> r[i] == LowerChar(s[i])
  {
    seq(|s|, i requires 0 <= i < |s| => LowerChar(s[i]))
  }

  /** ASCII `toUpperCase`: maps a-z to A-Z and keeps every other character. */
  function ToUpper(s: string): (r: string)
    ensures |r| == |s|
    ensures forall i :: 0 <= i < |s| ==> r[i] == UpperChar(s[i])
  {
    seq(|s|, i requires 0 <= i < |s| => UpperChar(s[i]))
  }

  /** Lower-casing forgets the case an ASCII string was written in. */
  lemma LowerOfUpper(s: string)
    ensures ToLower(ToUpper(s)) == ToLower(s)
  {
  }

  // ------------------------------------------------------- lexicographic order

  /** The first UTF-16 code unit of a character: the character itself up to U+FFFF,
      otherwise its high surrogate. */
  function LeadUnit(c: char): int {
    if c as int <= 0xFFFF then c as int else 0xD800 + (c as int - 0x10000) / 0x400
  }

  /** The order JavaScript gives two different characters when it compares their UTF-16
      code units: by the first unit, and for two characters above U+FFFF with the same
      high surrogate by the low surrogate, which follows the code point. */
  predicate UnitLess(x: char, y: char) {
    LeadUnit(x) < LeadUnit(y) || (LeadUnit(x) == LeadUnit(y) && x < y)
  }

  /** JavaScript's `<` on strings: lexicographic order on UTF-16 code units, a proper
      prefix being smaller. (Dafny's own `<` on sequences is the proper-prefix relation.) */
  predicate LexLess(a: string, b: string)
    decreases |a|
  {
    if a == [] then b != []
    else b != [] && (UnitLess(a[0], b[0]) || (a[0] == b[0] && LexLess(a[1..], b[1..])))
  }

  /** A character above U+FFFF sorts below U+FFFD, because its first code unit is a
      surrogate (U+1F600 starts with 0xD83D). */
  lemma AstralSortsBelowReplacement()
    ensures LexLess("\U{1F600}", "\U{FFFD}")
    ensures '\U{1F600}' > '\U{FFFD}'
  {
    assert LeadUnit('\U{1F600}') == 0xD83D;
  }

  lemma {:induction false} LexLessIrreflexive(a: string)
    ensures !LexLess(a, a)
    decreases |a|
  {
    if a != [] {
      LexLessIrreflexive(a[1..]);
    }
  }

  lemma {:induction false} LexLessTransitive(a: string, b: string, c: string)
    requires LexLess(a, b) && LexLess(b, c)
    ensures LexLess(a, c)
    decreases |a|
  {
    if a != [] && a[0] == b[0] && b[0] == c[0] {
      LexLessTransitive(a[1..], b[1..], c[1..]);
    }
  }

  /** Any two different strings are ordered one way or the other. */
  lemma {:induction false} LexLessTotal(a: string, b: string)
    requires a != b
    ensures LexLess(a, b) || LexLess(b, a)
    decreases |a|
  {
    if a != [] && b != [] && a[0] == b[0] {
      assert a == [a[0]] + a[1..] && b == [b[0]] + b[1..];
      LexLessTotal(a[1..], b[1..]);
    }
  }

  // ------------------------------------------------------------- string length

  /** The number of UTF-16 code units of a character: two above U+FFFF, one otherwise. */
  function Utf16Units(c: char): nat {
    if c as int > 0xFFFF then 2 else 1
  }

  /** JavaScript's `length`: the number of UTF-16 code units, between the number of
      characters and twice that. */
  function Utf16Length(s: string): (n: nat)
    ensures |s| <= n <= 2 * |s|
  {
    if s == [] then 0 else Utf16Units(s[0]) + Utf16Length(s[1..])
  }

  /** Up to U+FFFF every character is one code unit. */
  lemma {:induction false} Utf16LengthOfBmp(s: string)
    requires forall i :: 0 <= i < |s| ==> s[i] as int <= 0xFFFF
    ensures Utf16Length(s) == |s|
  {
    if s != [] {
      assert forall i :: 0 <= i < |s| - 1 ==> s[1..][i] == s[i + 1];
      Utf16LengthOfBmp(s[1..]);
    }
  }

  // ------------------------------------------------------------------- numbers

  function DigitValue(c: char): nat
    requires IsDigit(c)
  {
    c as int - '0' as int
  }

  /** The value of a string of decimal digits, most significant first. */
  function DecimalValue(s: string): nat
    requires AllDigits(s)
  {
    if s == [] then 0 else DecimalValue(s[..|s| - 1]) * 10 + DigitValue(s[|s| - 1])
  }

  function DigitChar(d: nat): (c: char)
    requires d < 10
    ensures IsDigit(c) && DigitValue(c) == d
  {
    ('0' as int + d) as char
  }

  /** Decimal rendering of a natural number, as template literals print it. */
  function NatToString(n: nat): (r: string)
    ensures r != [] && AllDigits(r)
    ensures DecimalValue(r) == n
    ensures |r| > 1 ==> r[0] != '0'
  {
    if n < 10 then [DigitChar(n)]
    else
      var p := NatToString(n / 10);
      var r := p + [DigitChar(n % 10)];
      assert r[..|r| - 1] == p;
      r
  }

  /** Decimal rendering of an integer, with a leading minus sign when negative. */
  function IntToString(n: int): (r: string)
    ensures r != []
    ensures n >= 0 ==> AllDigits(r) && DecimalValue(r) == n
    ensures n < 0 ==> r[0] == '-' && AllDigits(r[1..]) && DecimalValue(r[1..]) == -n
  {
    if n >= 0 then NatToString(n) else "-" + NatToString(-n)
  }
}
