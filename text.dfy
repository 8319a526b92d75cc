/** String helpers with the semantics of the JavaScript built-ins the bot
    uses: the whitespace class shared by `\s` and `String.prototype.trim`,
    `toLowerCase` (ASCII part), `split(" ")`, number interpolation and
    `parseInt` on a run of decimal digits. */
module JsText {

  /** ECMAScript WhiteSpace and LineTerminator code points: exactly the
      characters matched by `\s` and removed by `trim()`. */
  predicate IsSpace(c: char)
  {
    c == '\t' || c == '\n' || c == '\U{B}' || c == '\U{C}' || c == '\r' ||
    c == ' ' || c == '\U{A0}' || c == '\U{1680}' ||
    ('\U{2000}' <= c <= '\U{200A}') ||
    c == '\U{2028}' || c == '\U{2029}' || c == '\U{202F}' || c == '\U{205F}' ||
    c == '\U{3000}' || c == '\U{FEFF}'
  }

  /** `\d`: the ASCII decimal digits only. */
  predicate IsDigit(c: char)
  {
    '0' <= c <= '9'
  }

  predicate IsLower(c: char)
  {
    'a' <= c <= 'z'
  }

  predicate IsUpper(c: char)
  {
    'A' <= c <= 'Z'
  }

  predicate AllDigits(s: string)
  {
    forall i :: 0 <= i < |s| ==> IsDigit(s[i])
  }

  /** No ASCII upper-case letter occurs in `s`. */
  predicate LowerCased(s: string)
  {
    forall i :: 0 <= i < |s| ==> !IsUpper(s[i])
  }

  // ---------------------------------------------------------------------
  // toLowerCase (ASCII letters) and trim

  function LowerChar(c: char): char
  {
    if IsUpper(c) then (c as int + 32) as char else c
  }

  function ToLower(s: string): (r: string)
    ensures |r| == |s|
    ensures LowerCased(r)
    ensures forall i :: 0 <= i < |s| ==>
      if IsUpper(s[i]) then IsLower(r[i]) && r[i] as int - 'a' as int == s[i] as int - 'A' as int
      else r[i] == s[i]
  {
    seq(|s|, i requires 0 <= i < |s| => LowerChar(s[i]))
  }

  lemma LowerCasedConcat(a: string, b: string)
    requires LowerCased(a) && LowerCased(b)
    ensures LowerCased(a + b)
  {
    forall i | 0 <= i < |a + b| ensures !IsUpper((a + b)[i]) {
      if i >= |a| {
        assert (a + b)[i] == b[i - |a|];
      }
    }
  }

  /** A string with no upper-case letter is its own lower-case form. */
  lemma {:induction false} ToLowerIdentity(s: string)
    requires LowerCased(s)
    ensures ToLower(s) == s
  {
    assert forall i :: 0 <= i < |s| ==> ToLower(s)[i] == s[i];
  }

  /** The first index at or after `i` that does not hold whitespace. */
  function SkipSpaces(s: string, i: nat): (j: nat)
    requires i <= |s|
    ensures i <= j <= |s|
    ensures forall m :: i <= m < j ==> IsSpace(s[m])
    ensures j == |s| || !IsSpace(s[j])
    decreases |s| - i
  {
    if i < |s| && IsSpace(s[i]) then SkipSpaces(s, i + 1) else i
  }

  /** Any index that ends a whitespace run from `i` is the one SkipSpaces finds. */
  lemma SkipSpacesUnique(s: string, i: nat, j: nat)
    requires i <= j <= |s|
    requires forall m :: i <= m < j ==> IsSpace(s[m])
    requires j == |s| || !IsSpace(s[j])
    ensures SkipSpaces(s, i) == j
  {
  }

  /** The smallest index `k <= j` such that `s[k..j]` is all whitespace. */
  function TrailingSpacesStart(s: string, j: nat): (k: nat)
    requires j <= |s|
    ensures k <= j
    ensures forall m :: k <= m < j ==> IsSpace(s[m])
    ensures k == 0 || !IsSpace(s[k - 1])
    decreases j
  {
    if j > 0 && IsSpace(s[j - 1]) then TrailingSpacesStart(s, j - 1) else j
  }

  /** `r` is `s` with its leading and trailing whitespace removed. */
  ghost predicate IsTrimOf(r: string, s: string)
  {
    exists a, b :: 0 <= a <= b <= |s| && r == s[a..b] &&
      (forall m :: 0 <= m < a ==> IsSpace(s[m])) &&
      (forall m :: b <= m < |s| ==> IsSpace(s[m])) &&
      (r == [] || (!IsSpace(r[0]) && !IsSpace(r[|r| - 1])))
  }

  function Trim(s: string): (r: string)
    ensures IsTrimOf(r, s)
  {
    var a := SkipSpaces(s, 0);
    var t := s[a..];
    var b := TrailingSpacesStart(t, |t|);
    assert s[a..a + b] == t[..b];
    t[..b]
  }

  /** A string without whitespace at either end is left alone by trim. */
  lemma TrimIdentity(s: string)
    requires s == [] || (!IsSpace(s[0]) && !IsSpace(s[|s| - 1]))
    ensures Trim(s) == s
  {
    if s != [] {
      SkipSpacesUnique(s, 0, 0);
    }
  }

  // ---------------------------------------------------------------------
  // split(" ")

  /** The fields of `s` separated by `sep`, as `split` returns them:
      never empty, and adjacent separators give empty fields. */
  function Split(s: string, sep: char): (parts: seq<string>)
    ensures |parts| >= 1
    ensures forall p :: p in parts ==> sep !in p
    ensures Join(parts, sep) == s
    decreases |s|
  {
    if s == [] then [[]]
    else
      var rest := Split(s[1..], sep);
      if s[0] == sep then
        assert ([[]] + rest)[1..] == rest;
        [[]] + rest
      else
        var parts := [[s[0]] + rest[0]] + rest[1..];
        assert parts[1..] == rest[1..];
        assert s == [s[0]] + s[1..];
        parts
  }

  function Join(parts: seq<string>, sep: char): string
    requires |parts| >= 1
    decreases |parts|
  {
    if |parts| == 1 then parts[0] else parts[0] + [sep] + Join(parts[1..], sep)
  }

  lemma {:induction false} SplitNoSep(p: string, sep: char)
    requires sep !in p
    ensures Split(p, sep) == [p]
    decreases |p|
  {
    if p != [] {
      SplitNoSep(p[1..], sep);
      assert [p[0]] + p[1..] == p;
    }
  }

  lemma {:induction false} SplitField(p: string, sep: char, rest: string)
    requires sep !in p
    ensures Split(p + [sep] + rest, sep) == [p] + Split(rest, sep)
    decreases |p|
  {
    var s := p + [sep] + rest;
    if p == [] {
      assert s[1..] == rest;
    } else {
      assert s[1..] == p[1..] + [sep] + rest;
      SplitField(p[1..], sep, rest);
      assert [p[0]] + p[1..] == p;
    }
  }

  /** Splitting undoes joining fields that hold no separator. */
  lemma {:induction false} SplitJoin(parts: seq<string>, sep: char)
    requires |parts| >= 1
    requires forall p :: p in parts ==> sep !in p
    ensures Split(Join(parts, sep), sep) == parts
    decreases |parts|
  {
    if |parts| == 1 {
      SplitNoSep(parts[0], sep);
    } else {
      assert parts[0] in parts;
      SplitField(parts[0], sep, Join(parts[1..], sep));
      assert forall p :: p in parts[1..] ==> p in parts;
      SplitJoin(parts[1..], sep);
      assert [parts[0]] + parts[1..] == parts;
    }
  }

  // ---------------------------------------------------------------------
  // Decimal numbers: `${n}` and parseInt on a digit run

  function DigitChar(d: nat): (c: char)
    requires d < 10
    ensures IsDigit(c)
  {
    ('0' as int + d) as char
  }

  function DigitValue(c: char): (d: nat)
    requires IsDigit(c)
    ensures d < 10
  {
    c as int - '0' as int
  }

  /** The decimal rendering of a natural number, as template interpolation
      prints it: digits only, no leading zero unless the number is 0. */
  function NatToString(n: nat): (s: string)
    ensures |s| >= 1 && AllDigits(s)
    ensures s[0] == '0' <==> n == 0
    decreases n
  {
    if n < 10 then [DigitChar(n)]
    else
      var prefix := NatToString(n / 10);
      prefix + [DigitChar(n % 10)]
  }

  /** The base-10 value of a run of digits, read left to right as parseInt does. */
  function DigitsValue(s: string): nat
    requires AllDigits(s)
    decreases |s|
  {
    if s == [] then 0 else DigitsValue(s[..|s| - 1]) * 10 + DigitValue(s[|s| - 1])
  }

  /** Reading back a rendered number gives the number. */
  lemma {:induction false} DigitsRoundTrip(n: nat)
    ensures DigitsValue(NatToString(n)) == n
    decreases n
  {
    var s := NatToString(n);
    if n >= 10 {
      assert s[..|s| - 1] == NatToString(n / 10);
      DigitsRoundTrip(n / 10);
    }
  }
}
