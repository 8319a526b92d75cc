/** The free-text order parser: for each category, the first match of
    `/keyword\s*(\d+)/` in the lower-cased text, its digit run read with
    parseInt, or 0 when there is no match. */
module OrderParser {
  import opened Wrappers
  import opened JsText
  import opened Orders

  /** The end of the run of digits that starts at `j` (`\d+` is greedy). */
  function DigitRunEnd(s: string, j: nat): (k: nat)
    requires j <= |s|
    ensures j <= k <= |s|
    ensures forall m :: j <= m < k ==> IsDigit(s[m])
    ensures k == |s| || !IsDigit(s[k])
    decreases |s| - j
  {
    if j < |s| && IsDigit(s[j]) then DigitRunEnd(s, j + 1) else j
  }

  lemma DigitRunEndUnique(s: string, j: nat, k: nat)
    requires j <= k <= |s|
    requires forall m :: j <= m < k ==> IsDigit(s[m])
    requires k == |s| || !IsDigit(s[k])
    ensures DigitRunEnd(s, j) == k
  {
  }

  /** `kw` occurs in `s` at index `i`. */
  predicate OccursAt(s: string, kw: string, i: nat)
  {
    i + |kw| <= |s| && s[i..i + |kw|] == kw
  }

  /** The match of `/kw\s*(\d+)/` that starts at index `i`, if there is one,
      as the value of its captured digits. */
  function MatchAt(s: string, kw: string, i: nat): Option<nat>
    requires i <= |s|
  {
    if OccursAt(s, kw, i) then Capture(s, SkipSpaces(s, i + |kw|)) else None
  }

  /** `(\d+)` at index `j`: the value of the longest digit run there. */
  function Capture(s: string, j: nat): Option<nat>
    requires j <= |s|
  {
    if j < |s| && IsDigit(s[j]) then Some(RunValue(s, j, DigitRunEnd(s, j))) else None
  }

  /** parseInt of the digit run `s[j..k]`, read left to right. */
  function RunValue(s: string, j: nat, k: nat): nat
    requires j <= k <= |s|
    requires forall m :: j <= m < k ==> IsDigit(s[m])
    decreases k - j
  {
    if k == j then 0 else RunValue(s, j, k - 1) * 10 + DigitValue(s[k - 1])
  }

  /** The run's value is the decimal value of its digits. */
  lemma {:induction false} RunValueDigits(s: string, j: nat, k: nat)
    requires j <= k <= |s|
    requires forall m :: j <= m < k ==> IsDigit(s[m])
    ensures AllDigits(s[j..k]) && RunValue(s, j, k) == DigitsValue(s[j..k])
    decreases k - j
  {
    if k > j {
      RunValueDigits(s, j, k - 1);
      var x := s[j..k];
      assert x[..|x| - 1] == s[j..k - 1];
      assert x[|x| - 1] == s[k - 1];
    }
  }

  /** The leftmost match at or after `i`, as `String.prototype.match` finds it. */
  function FirstMatch(s: string, kw: string, i: nat): Option<nat>
    requires i <= |s|
    decreases |s| - i
  {
    var m := MatchAt(s, kw, i);
    if m.Some? || i == |s| then m else FirstMatch(s, kw, i + 1)
  }

  /** The captured number of the first match, 0 when there is none. */
  function Quantity(s: string, kw: string): nat
  {
    match FirstMatch(s, kw, 0)
    case Some(v) => v
    case None => 0
  }

  /** The order a free-text message stands for. */
  function ParseOrder(lower: string): Order
  {
    Order(Quantity(lower, Keyword(Half)), Quantity(lower, Keyword(Full)), Quantity(lower, Keyword(Chapati)))
  }

  // ---------------------------------------------------------------------
  // What the regular expression means

  /** `s[i..k]` matches `kw\s*\d+`, with the whitespace in `s[i+|kw|..j]`
      and the digits in `s[j..k]`. */
  ghost predicate RegexMatch(s: string, kw: string, i: int, j: int, k: int)
  {
    0 <= i && i + |kw| <= j < k <= |s| && OccursAt(s, kw, i) &&
    (forall m :: i + |kw| <= m < j ==> IsSpace(s[m])) &&
    (forall m :: j <= m < k ==> IsDigit(s[m]))
  }

  ghost predicate MatchesAt(s: string, kw: string, i: int)
  {
    exists j, k :: RegexMatch(s, kw, i, j, k)
  }

  /** A match found by MatchAt is a match of the expression, with the
      longest digit run. */
  lemma MatchAtFound(s: string, kw: string, i: nat)
    requires i <= |s| && MatchAt(s, kw, i).Some?
    ensures var j := SkipSpaces(s, i + |kw|);
      && RegexMatch(s, kw, i, j, DigitRunEnd(s, j))
      && AllDigits(s[j..DigitRunEnd(s, j)])
      && MatchAt(s, kw, i) == Some(DigitsValue(s[j..DigitRunEnd(s, j)]))
  {
    var j := SkipSpaces(s, i + |kw|);
    RunValueDigits(s, j, DigitRunEnd(s, j));
  }

  /** Any match of the expression at `i` is the one MatchAt finds: its
      whitespace and digits start where MatchAt looks. */
  lemma MatchAtOf(s: string, kw: string, i: nat, j: nat, k: nat)
    requires RegexMatch(s, kw, i, j, k)
    ensures j == SkipSpaces(s, i + |kw|) && MatchAt(s, kw, i).Some?
    ensures k == |s| || !IsDigit(s[k]) ==>
      k == DigitRunEnd(s, j) && AllDigits(s[j..k]) && MatchAt(s, kw, i) == Some(DigitsValue(s[j..k]))
  {
    assert !IsSpace(s[j]);
    SkipSpacesUnique(s, i + |kw|, j);
    if k == |s| || !IsDigit(s[k]) {
      DigitRunEndUnique(s, j, k);
      RunValueDigits(s, j, k);
    }
  }

  lemma MatchAtSpec(s: string, kw: string, i: nat)
    requires i <= |s|
    ensures MatchAt(s, kw, i).Some? <==> MatchesAt(s, kw, i)
    ensures forall j, k :: RegexMatch(s, kw, i, j, k) && (k == |s| || !IsDigit(s[k])) ==>
      AllDigits(s[j..k]) && MatchAt(s, kw, i) == Some(DigitsValue(s[j..k]))
  {
    if MatchAt(s, kw, i).Some? {
      MatchAtFound(s, kw, i);
    }
    forall j, k | RegexMatch(s, kw, i, j, k)
      ensures MatchAt(s, kw, i).Some?
      ensures (k == |s| || !IsDigit(s[k])) ==> AllDigits(s[j..k]) && MatchAt(s, kw, i) == Some(DigitsValue(s[j..k]))
    {
      MatchAtOf(s, kw, i, j, k);
    }
  }

  lemma NoMatchBeyondEnd(s: string, kw: string, i: int)
    requires MatchesAt(s, kw, i)
    ensures 0 <= i < |s|
  {
  }

  lemma {:induction false} FirstMatchNone(s: string, kw: string, from: nat)
    requires from <= |s|
    ensures FirstMatch(s, kw, from).None? <==> forall i :: from <= i ==> !MatchesAt(s, kw, i)
    decreases |s| - from
  {
    MatchAtSpec(s, kw, from);
    if from < |s| {
      FirstMatchNone(s, kw, from + 1);
    }
    forall i | from <= i && MatchesAt(s, kw, i) ensures i == from || (from < |s| && from + 1 <= i) {
      NoMatchBeyondEnd(s, kw, i);
    }
  }

  lemma {:induction false} FirstMatchSome(s: string, kw: string, from: nat, i: nat, j: nat, k: nat)
    requires from <= i
    requires RegexMatch(s, kw, i, j, k) && (k == |s| || !IsDigit(s[k]))
    requires forall i' :: from <= i' < i ==> !MatchesAt(s, kw, i')
    ensures AllDigits(s[j..k]) && FirstMatch(s, kw, from) == Some(DigitsValue(s[j..k]))
    decreases i - from
  {
    MatchAtSpec(s, kw, i);
    if from < i {
      MatchAtSpec(s, kw, from);
      FirstMatchSome(s, kw, from + 1, i, j, k);
    }
  }

  /** The declarative meaning of the parse, category by category: the
      quantity is 0 when the text holds no match of `keyword\s*\d+`, and
      otherwise the value of the whole digit run of the leftmost match. No
      other keyword and no other part of the text plays a role. */
  lemma ParseOrderSpec(s: string, c: Category)
    ensures (forall i :: !MatchesAt(s, Keyword(c), i)) ==> ParseOrder(s).Get(c) == 0
    ensures forall i, j, k ::
      RegexMatch(s, Keyword(c), i, j, k) && (k == |s| || !IsDigit(s[k])) &&
      (forall i' :: 0 <= i' < i ==> !MatchesAt(s, Keyword(c), i')) ==>
      AllDigits(s[j..k]) && ParseOrder(s).Get(c) == DigitsValue(s[j..k])
  {
    FirstMatchNone(s, Keyword(c), 0);
    forall i, j, k |
      RegexMatch(s, Keyword(c), i, j, k) && (k == |s| || !IsDigit(s[k])) &&
      (forall i' :: 0 <= i' < i ==> !MatchesAt(s, Keyword(c), i'))
      ensures AllDigits(s[j..k]) && ParseOrder(s).Get(c) == DigitsValue(s[j..k])
    {
      FirstMatchSome(s, Keyword(c), 0, i, j, k);
    }
  }

  // ---------------------------------------------------------------------
  // Order texts written the way the help message suggests parse back

  ghost predicate Occurs(s: string, kw: string)
  {
    exists i: nat :: OccursAt(s, kw, i)
  }

  lemma {:induction false} NoOccurrenceNoMatch(s: string, kw: string, from: nat)
    requires from <= |s| && !Occurs(s, kw)
    ensures FirstMatch(s, kw, from) == None
    decreases |s| - from
  {
    if from < |s| {
      NoOccurrenceNoMatch(s, kw, from + 1);
    }
  }

  /** `q` is the part of `s` from index `d` to its end. */
  ghost predicate SuffixAt(s: string, q: string, d: nat)
  {
    d + |q| == |s| && forall m :: 0 <= m < |q| ==> s[d + m] == q[m]
  }

  lemma SuffixAtConcat(p: string, q: string)
    ensures SuffixAt(p + q, q, |p|)
  {
  }

  lemma SkipSpacesShift(s: string, q: string, d: nat, j: nat)
    requires SuffixAt(s, q, d) && j <= |q|
    ensures SkipSpaces(s, d + j) == d + SkipSpaces(q, j)
  {
    var r := SkipSpaces(q, j);
    forall m | d + j <= m < d + r
      ensures IsSpace(s[m])
    {
      assert s[d + (m - d)] == q[m - d];
    }
    if d + r < |s| {
      assert s[d + r] == q[r];
    }
    SkipSpacesUnique(s, d + j, d + r);
  }

  lemma DigitRunEndShift(s: string, q: string, d: nat, j: nat)
    requires SuffixAt(s, q, d) && j <= |q|
    ensures DigitRunEnd(s, d + j) == d + DigitRunEnd(q, j)
  {
    var r := DigitRunEnd(q, j);
    forall m | d + j <= m < d + r
      ensures IsDigit(s[m])
    {
      assert s[d + (m - d)] == q[m - d];
    }
    if d + r < |s| {
      assert s[d + r] == q[r];
    }
    DigitRunEndUnique(s, d + j, d + r);
  }

  lemma SliceShift(s: string, q: string, d: nat, a: nat, b: nat)
    requires SuffixAt(s, q, d) && a <= b <= |q|
    ensures s[d + a..d + b] == q[a..b]
  {
    forall m | 0 <= m < b - a
      ensures s[d + a..d + b][m] == q[a..b][m]
    {
      assert s[d + (a + m)] == q[a + m];
    }
  }

  lemma OccursAtShift(s: string, q: string, d: nat, kw: string, i: nat)
    requires SuffixAt(s, q, d)
    ensures OccursAt(s, kw, d + i) == OccursAt(q, kw, i)
  {
    if i + |kw| <= |q| {
      SliceShift(s, q, d, i, i + |kw|);
    }
  }

  lemma CaptureShift(s: string, q: string, d: nat, j: nat)
    requires SuffixAt(s, q, d) && j <= |q|
    ensures Capture(s, d + j) == Capture(q, j)
  {
    if j < |q| {
      assert s[d + j] == q[j];
    }
    if j < |q| && IsDigit(q[j]) {
      var k := DigitRunEnd(q, j);
      DigitRunEndShift(s, q, d, j);
      SliceShift(s, q, d, j, k);
      RunValueDigits(s, d + j, d + k);
      RunValueDigits(q, j, k);
    }
  }

  /** The whitespace after a keyword at `i` in `q` ends at the corresponding
      place after the keyword at `d + i` in `s`. */
  lemma SkipSpacesAfterShift(s: string, q: string, d: nat, kw: string, i: nat)
    requires SuffixAt(s, q, d) && i + |kw| <= |q|
    ensures SkipSpaces(s, d + i + |kw|) == d + SkipSpaces(q, i + |kw|)
  {
    var e := i + |kw|;
    SkipSpacesShift(s, q, d, e);
    assert d + i + |kw| == d + e;
  }

  lemma MatchAtShift(s: string, q: string, d: nat, kw: string, i: nat)
    requires SuffixAt(s, q, d) && i <= |q|
    ensures MatchAt(s, kw, d + i) == MatchAt(q, kw, i)
  {
    OccursAtShift(s, q, d, kw, i);
    if OccursAt(q, kw, i) {
      SkipSpacesAfterShift(s, q, d, kw, i);
      CaptureShift(s, q, d, SkipSpaces(q, i + |kw|));
    }
  }

  lemma {:induction false} FirstMatchShift(s: string, q: string, d: nat, kw: string, i: nat)
    requires SuffixAt(s, q, d) && i <= |q|
    ensures FirstMatch(s, kw, d + i) == FirstMatch(q, kw, i)
    decreases |q| - i
  {
    MatchAtShift(s, q, d, kw, i);
    if i < |q| {
      FirstMatchShift(s, q, d, kw, i + 1);
    }
  }

  lemma MatchAtAbsent(s: string, kw: string, i: nat)
    requires i <= |s| && !OccursAt(s, kw, i)
    ensures MatchAt(s, kw, i) == None
  {
  }

  lemma FirstMatchFrom(s: string, q: string, d: nat, kw: string)
    requires SuffixAt(s, q, d)
    ensures FirstMatch(s, kw, d) == FirstMatch(q, kw, 0)
  {
    FirstMatchShift(s, q, d, kw, 0);
    assert d + 0 == d;
  }

  /** No occurrence of the keyword starts inside such a prefix. */
  lemma NoOccurrenceInPrefix(p: string, q: string, kw: string, i: nat)
    requires i < |p|
    requires !Occurs(p, kw)
    requires p[|p| - 1] !in kw
    ensures !OccursAt(p + q, kw, i)
  {
    var s := p + q;
    if i + |kw| <= |s| {
      if i + |kw| <= |p| {
        assert s[i..i + |kw|] == p[i..i + |kw|];
        assert !OccursAt(p, kw, i);
      } else {
        assert s[i..i + |kw|][|p| - 1 - i] == p[|p| - 1];
      }
    }
  }

  lemma {:induction false} PrefixNoMatch(p: string, q: string, kw: string, i: nat)
    requires i <= |p|
    requires !Occurs(p, kw)
    requires p != [] ==> p[|p| - 1] !in kw
    ensures FirstMatch(p + q, kw, i) == FirstMatch(p + q, kw, |p|)
    decreases |p| - i
  {
    if i < |p| {
      NoOccurrenceInPrefix(p, q, kw, i);
      MatchAtAbsent(p + q, kw, i);
      PrefixNoMatch(p, q, kw, i + 1);
    }
  }

  /** A prefix that holds no occurrence of the keyword and cannot start one
      that runs past its end does not change the match. */
  lemma FirstMatchSkipsPrefix(p: string, q: string, kw: string)
    requires !Occurs(p, kw)
    requires p != [] ==> p[|p| - 1] !in kw
    ensures FirstMatch(p + q, kw, 0) == FirstMatch(q, kw, 0)
  {
    PrefixNoMatch(p, q, kw, 0);
    SuffixAtConcat(p, q);
    FirstMatchFrom(p + q, q, |p|, kw);
  }

  lemma QuantityAtStart(kw: string, n: nat, rest: string)
    requires rest == [] || !IsDigit(rest[0])
    ensures Quantity(kw + " " + NatToString(n) + rest, kw) == n
  {
    var d := NatToString(n);
    var s := kw + " " + d + rest;
    var j := |kw| + 1;
    var k := j + |d|;
    assert s[0..|kw|] == kw;
    assert s[|kw|] == ' ';
    assert s[j] == d[0];
    SkipSpacesUnique(s, |kw|, j);
    assert s[j..k] == d;
    DigitRunEndUnique(s, j, k);
    RunValueDigits(s, j, k);
    DigitsRoundTrip(n);
  }

  /** `keyword N`, as in the bot's own hint `'half 2, chapati 3'`. */
  function Segment(o: Order, c: Category): string
  {
    Keyword(c) + " " + NatToString(o.Get(c))
  }

  /** The segments of the listed categories joined by `sep`. */
  function OrderText(o: Order, cs: seq<Category>, sep: string): string
    decreases |cs|
  {
    if cs == [] then ""
    else if |cs| == 1 then Segment(o, cs[0])
    else Segment(o, cs[0]) + sep + OrderText(o, cs[1..], sep)
  }

  /** The order with only the listed categories kept. */
  function Restrict(o: Order, cs: seq<Category>): Order
  {
    Order(if Half in cs then o.half else 0,
          if Full in cs then o.full else 0,
          if Chapati in cs then o.chapati else 0)
  }

  /** A separator that can neither extend a digit run nor spell a keyword. */
  predicate IsSeparator(sep: string)
  {
    forall ch :: ch in sep ==> !IsDigit(ch) && !IsLower(ch)
  }

  lemma KeywordIsLower(c: Category)
    ensures |Keyword(c)| > 0
    ensures forall m :: 0 <= m < |Keyword(c)| ==> IsLower(Keyword(c)[m])
  {
  }

  lemma KeywordNotInKeyword(c: Category, d: Category)
    requires c != d
    ensures !Occurs(Keyword(d), Keyword(c))
  {
    var w, kw := Keyword(d), Keyword(c);
    forall i: nat ensures !OccursAt(w, kw, i) {
      if i + |kw| <= |w| {
        assert w[i..i + |kw|][0] == w[i];
        if w[i] == kw[0] {
          assert c == Half && d == Chapati && i == 1;
          assert w[i..i + |kw|][2] == w[3] == 'p';
        }
      }
    }
  }

  /** A lower-case word absent from `w` cannot appear in `w` followed by
      text without lower-case letters. */
  lemma NoOccurrenceAcross(w: string, tail: string, kw: string, i: nat)
    requires |kw| > 0 && !Occurs(w, kw)
    requires forall m :: 0 <= m < |kw| ==> IsLower(kw[m])
    requires forall m :: 0 <= m < |tail| ==> !IsLower(tail[m])
    ensures !OccursAt(w + tail, kw, i)
  {
    var p := w + tail;
    if i + |kw| <= |p| {
      var win := p[i..i + |kw|];
      if i + |kw| <= |w| {
        forall j | 0 <= j < |kw| ensures win[j] == w[i..i + |kw|][j] {
          assert win[j] == p[i + j];
        }
        assert win == w[i..i + |kw|];
        assert !OccursAt(w, kw, i);
      } else if i < |w| {
        var k := |w| - i;
        assert win[k] == p[|w|];
        assert p[|w|] == tail[0];
        assert IsLower(kw[k]);
      } else {
        assert win[0] == p[i];
        assert p[i] == tail[i - |w|];
        assert IsLower(kw[0]);
      }
    }
  }

  lemma SegmentNoOccurrence(o: Order, d: Category, c: Category, sep: string)
    requires c != d && IsSeparator(sep)
    ensures !Occurs(Segment(o, d) + sep, Keyword(c))
  {
    var w, kw := Keyword(d), Keyword(c);
    var num := NatToString(o.Get(d));
    var tail := " " + num + sep;
    assert Segment(o, d) + sep == w + tail;
    forall m | 0 <= m < |tail| ensures !IsLower(tail[m]) {
      if m == 0 {
      } else if m <= |num| {
        assert tail[m] == num[m - 1];
      } else {
        assert tail[m] == sep[m - 1 - |num|];
      }
    }
    KeywordIsLower(c);
    KeywordNotInKeyword(c, d);
    forall i: nat ensures !OccursAt(w + tail, kw, i) {
      NoOccurrenceAcross(w, tail, kw, i);
    }
  }

  lemma OrderTextStart(o: Order, cs: seq<Category>, sep: string)
    requires cs != []
    ensures |OrderText(o, cs, sep)| > 0 && IsLower(OrderText(o, cs, sep)[0])
  {
    KeywordIsLower(cs[0]);
  }

  /** The first segment's keyword reads the first segment's number. */
  lemma QuantityOfHead(o: Order, cs: seq<Category>, sep: string, c: Category)
    requires cs != [] && cs[0] == c && IsSeparator(sep)
    ensures Quantity(OrderText(o, cs, sep), Keyword(c)) == o.Get(c)
  {
    var kw, num := Keyword(c), NatToString(o.Get(c));
    if |cs| == 1 {
      assert OrderText(o, cs, sep) == kw + " " + num + "";
      QuantityAtStart(kw, o.Get(c), "");
    } else {
      var tail := OrderText(o, cs[1..], sep);
      var rest := sep + tail;
      OrderTextStart(o, cs[1..], sep);
      assert rest[0] == if sep == [] then tail[0] else sep[0];
      assert OrderText(o, cs, sep) == kw + " " + num + rest;
      QuantityAtStart(kw, o.Get(c), rest);
    }
  }

  /** A first segment of another category is skipped over. */
  lemma QuantityPastHead(o: Order, cs: seq<Category>, sep: string, c: Category)
    requires |cs| > 1 && cs[0] != c && IsSeparator(sep)
    ensures Quantity(OrderText(o, cs, sep), Keyword(c)) == Quantity(OrderText(o, cs[1..], sep), Keyword(c))
  {
    var kw := Keyword(c);
    KeywordIsLower(c);
    var p := Segment(o, cs[0]) + sep;
    SegmentNoOccurrence(o, cs[0], c, sep);
    var rest := OrderText(o, cs[1..], sep);
    assert OrderText(o, cs, sep) == p + rest;
    var digits := NatToString(o.Get(cs[0]));
    assert p[|p| - 1] == if sep == [] then digits[|digits| - 1] else sep[|sep| - 1];
    assert p[|p| - 1] !in kw;
    FirstMatchSkipsPrefix(p, rest, kw);
  }

  lemma {:induction false} QuantityOfText(o: Order, cs: seq<Category>, sep: string, c: Category)
    requires forall i, j :: 0 <= i < j < |cs| ==> cs[i] != cs[j]
    requires IsSeparator(sep)
    ensures Quantity(OrderText(o, cs, sep), Keyword(c)) == if c in cs then o.Get(c) else 0
    decreases |cs|
  {
    if cs == [] {
      NoOccurrenceNoMatch("", Keyword(c), 0);
    } else if cs[0] == c {
      QuantityOfHead(o, cs, sep, c);
    } else if |cs| == 1 {
      SegmentNoOccurrence(o, cs[0], c, "");
      assert OrderText(o, cs, sep) == Segment(o, cs[0]) + "";
      NoOccurrenceNoMatch(OrderText(o, cs, sep), Keyword(c), 0);
    } else {
      QuantityPastHead(o, cs, sep, c);
      QuantityOfText(o, cs[1..], sep, c);
      assert c in cs <==> c in cs[1..];
    }
  }

  /** An order written as `keyword N` segments, each category at most once,
      in any order and with any separator free of letters and digits, parses
      back to the order with the unlisted categories at 0. */
  lemma ParseOrderText(o: Order, cs: seq<Category>, sep: string)
    requires forall i, j :: 0 <= i < j < |cs| ==> cs[i] != cs[j]
    requires IsSeparator(sep)
    ensures ParseOrder(OrderText(o, cs, sep)) == Restrict(o, cs)
  {
    QuantityOfText(o, cs, sep, Half);
    QuantityOfText(o, cs, sep, Full);
    QuantityOfText(o, cs, sep, Chapati);
  }

  /** A segment starts with a letter, ends with a digit and has no
      upper-case letter. */
  lemma SegmentShape(o: Order, c: Category)
    ensures var seg := Segment(o, c);
      |seg| > 0 && IsLower(seg[0]) && IsDigit(seg[|seg| - 1]) && LowerCased(seg)
  {
    var kw, num := Keyword(c), NatToString(o.Get(c));
    KeywordIsLower(c);
    assert LowerCased(kw);
    assert LowerCased(" ");
    assert LowerCased(num);
    LowerCasedConcat(kw, " ");
    LowerCasedConcat(kw + " ", num);
  }

  /** Order text with a separator free of upper-case letters starts with a
      letter, ends with a digit and has no upper-case letter, so the
      handler's lower-casing and trimming leave it unchanged. */
  lemma {:induction false} OrderTextShape(o: Order, cs: seq<Category>, sep: string)
    requires cs != [] && LowerCased(sep)
    ensures var t := OrderText(o, cs, sep);
      |t| > 0 && IsLower(t[0]) && IsDigit(t[|t| - 1]) && LowerCased(t)
    decreases |cs|
  {
    var seg := Segment(o, cs[0]);
    SegmentShape(o, cs[0]);
    if |cs| > 1 {
      var rest := OrderText(o, cs[1..], sep);
      OrderTextShape(o, cs[1..], sep);
      LowerCasedConcat(seg, sep);
      LowerCasedConcat(seg + sep, rest);
    }
  }

  /** `"full 2 chapati 3"` gives half 0, full 2, chapati 3. */
  lemma ParseExample()
    ensures ParseOrder("full 2 chapati 3") == Order(0, 2, 3)
  {
    var o := Order(0, 2, 3);
    assert OrderText(o, [Full, Chapati], " ") == "full 2 chapati 3";
    ParseOrderText(o, [Full, Chapati], " ");
  }

  /** The help text's own example, `half 2, chapati 3`, gives half 2,
      full 0, chapati 3. */
  lemma HelpExample()
    ensures ParseOrder("half 2, chapati 3") == Order(2, 0, 3)
  {
    var o := Order(2, 0, 3);
    assert OrderText(o, [Half, Chapati], ", ") == "half 2, chapati 3";
    ParseOrderText(o, [Half, Chapati], ", ");
  }
}
