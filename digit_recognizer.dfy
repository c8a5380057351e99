/**
 * The candidate-fusion rule of `DigitRecognizer.recognize`: once the text
 * recogniser has produced its `(text, confidence)` readings, one pass keeps
 * the best digit. A direct integer 1..9 scores its confidence, a single
 * character from the misread table scores 0.9 times it, and the running best
 * (starting at score 0) is replaced only on strict improvement.
 * Confidences are modelled as `real`.
 */
module DigitRecognizer {

  import opened Optional
  import opened Decimal

  // ---------------------------------------------------------------------
  // Trimming `.whitespacesAndNewlines`
  // ---------------------------------------------------------------------

  /**
   * Foundation's whitespace-and-newline set: tab, U+000A..U+000D, U+0085 and
   * the Unicode separators (space, no-break space, U+1680, U+2000..U+200A,
   * U+2028, U+2029, U+202F, U+205F, U+3000).
   */
  predicate IsWhitespace(ch: char) {
    || ch == '\t' || ('\n' <= ch <= '\r') || ch == ' ' || ch == '\U{85}' || ch == '\U{A0}'
    || ch == '\U{1680}' || ('\U{2000}' <= ch <= '\U{200A}') || ch == '\U{2028}' || ch == '\U{2029}'
    || ch == '\U{202F}' || ch == '\U{205F}' || ch == '\U{3000}'
  }

  predicate AllWhitespace(s: string) {
    forall k :: 0 <= k < |s| ==> IsWhitespace(s[k])
  }

  /** Drops the leading whitespace; what is left does not start with any. */
  function TrimLeft(s: string): (r: string)
    ensures |r| <= |s| && (r == [] || !IsWhitespace(r[0]))
  {
    if |s| > 0 && IsWhitespace(s[0]) then TrimLeft(s[1..]) else s
  }

  /** Drops the trailing whitespace; what is left does not end with any. */
  function TrimRight(s: string): (r: string)
    ensures |r| <= |s| && (r == [] || !IsWhitespace(r[|r| - 1]))
  {
    if |s| > 0 && IsWhitespace(s[|s| - 1]) then TrimRight(s[..|s| - 1]) else s
  }

  /**
   * Trimming whitespace and newlines at both ends: the result is no longer
   * than the text and neither begins nor ends with whitespace.
   */
  function Trim(s: string): (r: string)
    ensures |r| <= |s|
    ensures r == [] || (!IsWhitespace(r[0]) && !IsWhitespace(r[|r| - 1]))
  {
    TrimRightKeepsFirst(TrimLeft(s));
    TrimRight(TrimLeft(s))
  }

  /** TrimRight keeps the first character of whatever it does not empty. */
  lemma {:induction false} TrimRightKeepsFirst(s: string)
    ensures TrimRight(s) == [] || TrimRight(s)[0] == s[0]
  {
    if |s| > 0 && IsWhitespace(s[|s| - 1]) {
      TrimRightKeepsFirst(s[..|s| - 1]);
    }
  }

  /** TrimLeft drops a prefix of length `k`, and that prefix is all whitespace. */
  lemma {:induction false} TrimLeftSplits(s: string) returns (k: nat)
    ensures k <= |s| && TrimLeft(s) == s[k..]
    ensures forall j :: 0 <= j < k ==> IsWhitespace(s[j])
  {
    if |s| > 0 && IsWhitespace(s[0]) {
      var k' := TrimLeftSplits(s[1..]);
      k := k' + 1;
      assert s[1..][k'..] == s[k..];
      assert forall j :: 0 <= j < k' ==> s[1..][j] == s[j + 1];
    } else {
      k := 0;
    }
  }

  /** TrimRight keeps a prefix of length `n`, and what it drops is all whitespace. */
  lemma {:induction false} TrimRightSplits(s: string) returns (n: nat)
    ensures n <= |s| && TrimRight(s) == s[..n]
    ensures forall j :: n <= j < |s| ==> IsWhitespace(s[j])
  {
    if |s| > 0 && IsWhitespace(s[|s| - 1]) {
      n := TrimRightSplits(s[..|s| - 1]);
      assert s[..|s| - 1][..n] == s[..n];
      assert forall j :: n <= j < |s| - 1 ==> s[..|s| - 1][j] == s[j];
    } else {
      n := |s|;
    }
  }

  lemma WhitespaceConcat(x: string, y: string)
    requires AllWhitespace(x) && AllWhitespace(y)
    ensures AllWhitespace(x + y)
  {
    assert forall k :: 0 <= k < |x + y| ==> (x + y)[k] == if k < |x| then x[k] else y[k - |x|];
  }

  /**
   * Trimming keeps the middle part `s[i..i + n]` of the text, which begins
   * and ends with non-whitespace, and removes only whitespace around it.
   */
  lemma TrimSplits(s: string) returns (i: nat, n: nat)
    ensures i + n <= |s| && Trim(s) == s[i..i + n]
    ensures forall j :: 0 <= j < i ==> IsWhitespace(s[j])
    ensures forall j :: i + n <= j < |s| ==> IsWhitespace(s[j])
    ensures n > 0 ==> !IsWhitespace(s[i]) && !IsWhitespace(s[i + n - 1])
    ensures AllWhitespace(s[..i]) && AllWhitespace(s[i + n..])
  {
    i := TrimLeftSplits(s);
    var left := s[i..];
    n := TrimRightSplits(left);
    assert left[..n] == s[i..i + n];
    forall j | i + n <= j < |s| ensures IsWhitespace(s[j]) {
      assert s[j] == left[j - i];
    }
    if n > 0 {
      assert left[..n][0] == s[i] && left[..n][n - 1] == s[i + n - 1];
    }
    assert forall j :: 0 <= j < i ==> s[..i][j] == s[j];
    var tail := s[i + n..];
    forall j | 0 <= j < |tail| ensures IsWhitespace(tail[j]) {
      assert tail[j] == s[i + n + j];
    }
  }

  lemma {:induction false} TrimLeftSkips(a: string, x: string)
    requires AllWhitespace(a)
    ensures TrimLeft(a + x) == TrimLeft(x)
  {
    if a == [] {
      assert a + x == x;
    } else {
      assert (a + x)[0] == a[0] && (a + x)[1..] == a[1..] + x;
      assert AllWhitespace(a[1..]) by {
        assert forall k :: 0 <= k < |a| - 1 ==> a[1..][k] == a[k + 1];
      }
      TrimLeftSkips(a[1..], x);
    }
  }

  lemma {:induction false} TrimRightSkips(x: string, b: string)
    requires AllWhitespace(b)
    ensures TrimRight(x + b) == TrimRight(x)
  {
    if b == [] {
      assert x + b == x;
    } else {
      assert (x + b)[|x + b| - 1] == b[|b| - 1] && (x + b)[..|x + b| - 1] == x + b[..|b| - 1];
      assert AllWhitespace(b[..|b| - 1]) by {
        assert forall k :: 0 <= k < |b| - 1 ==> b[..|b| - 1][k] == b[k];
      }
      TrimRightSkips(x, b[..|b| - 1]);
    }
  }

  /** Whitespace around an already trimmed text is exactly what trimming removes. */
  lemma TrimCanonical(a: string, m: string, b: string)
    requires AllWhitespace(a) && AllWhitespace(b)
    requires m == [] || (!IsWhitespace(m[0]) && !IsWhitespace(m[|m| - 1]))
    ensures Trim(a + m + b) == m
  {
    assert a + m + b == a + (m + b);
    TrimLeftSkips(a, m + b);
    TrimRightSkips(m, b);
    if m == [] {
      assert m + b == b && b == b + [];
      TrimLeftSkips(b, []);
    }
  }

  /** A text is whitespace, then what it trims to, then whitespace. */
  lemma TrimDecompose(t: string) returns (pre: string, m: string, post: string)
    ensures t == pre + m + post && Trim(t) == m
    ensures AllWhitespace(pre) && AllWhitespace(post)
    ensures m == [] || (!IsWhitespace(m[0]) && !IsWhitespace(m[|m| - 1]))
  {
    var i, n := TrimSplits(t);
    pre, m, post := t[..i], t[i..i + n], t[i + n..];
    assert t == pre + m + post;
    if n > 0 {
      assert m[0] == t[i] && m[|m| - 1] == t[i + n - 1];
    }
  }

  /** Padding a text with whitespace does not change what it trims to (`" 7\n"` trims like `"7"`). */
  lemma TrimIgnoresPadding(w1: string, t: string, w2: string)
    requires AllWhitespace(w1) && AllWhitespace(w2)
    ensures Trim(w1 + t + w2) == Trim(t)
  {
    var pre, m, post := TrimDecompose(t);
    var a, b := w1 + pre, post + w2;
    assert w1 + t + w2 == a + m + b;
    WhitespaceConcat(w1, pre);
    WhitespaceConcat(post, w2);
    TrimCanonical(a, m, b);
  }

  // ---------------------------------------------------------------------
  // `Int(String)`
  // ---------------------------------------------------------------------

  const INT_MIN: int := -0x8000_0000_0000_0000
  const INT_MAX: int := 0x7FFF_FFFF_FFFF_FFFF

  /**
   * Swift's `Int(_: String)`: an optional `+` or `-` followed by at least one
   * ASCII digit, and nothing else; a value outside the 64-bit range is nil.
   */
  function ParseInt(s: string): (r: Option<int>)
    ensures r != None ==> INT_MIN <= r.value <= INT_MAX
  {
    var signed := |s| > 0 && (s[0] == '+' || s[0] == '-');
    var digits := if signed then s[1..] else s;
    if digits == [] || !AllDigits(digits) then None
    else
      var magnitude: int := DecimalValue(digits);
      var v := if signed && s[0] == '-' then -magnitude else magnitude;
      if INT_MIN <= v <= INT_MAX then Some(v) else None
  }

  /**
   * The decimal text of a number in range parses back to it: bare, after a
   * "+", after leading zeros, and after a "-" to its negation.
   */
  lemma ParseShowNat(n: nat, zeros: nat)
    requires n <= INT_MAX
    ensures ParseInt(ShowNat(n)) == Some(n)
    ensures ParseInt("+" + ShowNat(n)) == Some(n)
    ensures ParseInt("-" + ShowNat(n)) == Some(-(n as int))
    ensures ParseInt(Zeros(zeros) + ShowNat(n)) == Some(n)
  {
    var d := ShowNat(n);
    ParseDigits(d);
    LeadingZeros(zeros, d);
    var z := Zeros(zeros) + d;
    if zeros == 0 {
      assert z == d;
    } else {
      assert z[0] == '0';
      ParseDigits(z);
    }
  }

  /** A nonempty run of digits in range parses to its value, also after a sign. */
  lemma ParseDigits(d: string)
    requires |d| > 0 && AllDigits(d) && DecimalValue(d) <= INT_MAX
    ensures ParseInt(d) == Some(DecimalValue(d))
    ensures ParseInt("+" + d) == Some(DecimalValue(d))
    ensures ParseInt("-" + d) == Some(-(DecimalValue(d) as int))
  {
    ParseUnsigned(d);
    ParsePlus(d);
    ParseMinus(d);
  }

  /** A nonempty run of digits in range, with no sign, parses to its value. */
  lemma ParseUnsigned(d: string)
    requires |d| > 0 && AllDigits(d) && DecimalValue(d) <= INT_MAX
    ensures ParseInt(d) == Some(DecimalValue(d))
  {
    assert IsAsciiDigit(d[0]);
  }

  /** A "+" followed by a nonempty run of digits in range parses to its value. */
  lemma ParsePlus(d: string)
    requires |d| > 0 && AllDigits(d) && DecimalValue(d) <= INT_MAX
    ensures ParseInt("+" + d) == Some(DecimalValue(d))
  {
    var s := "+" + d;
    assert s[0] == '+' && s[1..] == d;
  }

  /** A "-" followed by a nonempty run of digits in range parses to its negation. */
  lemma ParseMinus(d: string)
    requires |d| > 0 && AllDigits(d) && DecimalValue(d) <= INT_MAX
    ensures ParseInt("-" + d) == Some(-(DecimalValue(d) as int))
  {
    var s := "-" + d;
    assert s[0] == '-' && s[1..] == d;
    var v: int := DecimalValue(d);
    assert INT_MIN <= -v;
  }

  /** A one-character text parses exactly when it is an ASCII digit, to that digit. */
  lemma ParseOneChar(ch: char)
    ensures ParseInt([ch]) == if IsAsciiDigit(ch) then Some(ch as int - '0' as int) else None
  {
    assert [ch][..0] == [] && [ch][0] == ch;
    assert AllDigits([ch]) <==> IsAsciiDigit(ch);
    if IsAsciiDigit(ch) {
      assert DecimalValue([ch]) == ch as int - '0' as int;
    }
  }

  /** Only an optional sign followed by a nonempty run of ASCII digits parses. */
  lemma ParseIntShape(s: string)
    ensures ParseInt(s) != None ==>
      exists d :: |d| > 0 && AllDigits(d) && (s == d || s == "+" + d || s == "-" + d)
  {
    if ParseInt(s) != None {
      if |s| > 0 && (s[0] == '+' || s[0] == '-') {
        var d := s[1..];
        assert s == [s[0]] + d;
        assert s == "+" + d || s == "-" + d;
      } else {
        assert s == s;
      }
    }
  }

  /** The texts read directly as a digit 1..9: an optional "+", any zeros, then that digit. */
  ghost predicate DirectText(t: string) {
    exists k: nat, ch: char :: '1' <= ch <= '9' && (t == Zeros(k) + [ch] || t == "+" + (Zeros(k) + [ch]))
  }

  /** A direct reading exists exactly for the texts of `DirectText`, and then it is the final digit. */
  lemma DirectTexts(t: string, confidence: real)
    ensures DirectMatch(t, confidence) != None <==> DirectText(t)
    ensures DirectMatch(t, confidence) != None ==> DirectMatch(t, confidence).value.digit == t[|t| - 1] as int - '0' as int
  {
    if DirectMatch(t, confidence) != None {
      DirectMatchIsDirectText(t, confidence);
    }
    if DirectText(t) {
      var k: nat, ch: char :| '1' <= ch <= '9' && (t == Zeros(k) + [ch] || t == "+" + (Zeros(k) + [ch]));
      DirectTextParses(k, ch);
    }
  }

  /** A text read directly is an optional "+", zeros and the digit read. */
  lemma DirectMatchIsDirectText(t: string, confidence: real)
    requires DirectMatch(t, confidence) != None
    ensures DirectText(t)
    ensures DirectMatch(t, confidence).value.digit == t[|t| - 1] as int - '0' as int
  {
    var v := ParseInt(t).value;
    var signed := |t| > 0 && (t[0] == '+' || t[0] == '-');
    var digits := if signed then t[1..] else t;
    assert digits != [] && AllDigits(digits) && DecimalValue(digits) == v && 1 <= v <= 9 && !(signed && t[0] == '-');
    DigitRunBelowTen(digits);
    var k, ch := |digits| - 1, digits[|digits| - 1];
    assert t == Zeros(k) + [ch] || t == "+" + (Zeros(k) + [ch]) by {
      if signed {
        assert t == "+" + digits;
      }
    }
    assert t[|t| - 1] == ch;
  }

  /** An optional "+", zeros and a digit 1..9 parse to that digit. */
  lemma DirectTextParses(k: nat, ch: char)
    requires '1' <= ch <= '9'
    ensures ParseInt(Zeros(k) + [ch]) == Some(ch as int - '0' as int)
    ensures ParseInt("+" + (Zeros(k) + [ch])) == Some(ch as int - '0' as int)
  {
    var d := Zeros(k) + [ch];
    LeadingZeros(k, [ch]);
    assert DecimalValue([ch]) == ch as int - '0' as int by {
      assert [ch][..0] == [];
    }
    ParseUnsigned(d);
    ParsePlus(d);
  }

  // ---------------------------------------------------------------------
  // The misread table
  // ---------------------------------------------------------------------

  /**
   * The misread table: glyphs a text recogniser commonly returns for a
   * handwritten digit, with each of "1".."9" mapping to itself.
   */
  const CharToDigit: map<string, int> := map[
    "1" := 1, "l" := 1, "I" := 1, "|" := 1, "i" := 1,
    "2" := 2, "Z" := 2, "z" := 2,
    "3" := 3,
    "4" := 4, "A" := 4,
    "5" := 5, "S" := 5, "s" := 5,
    "6" := 6, "G" := 6, "b" := 6,
    "7" := 7, "T" := 7,
    "8" := 8, "B" := 8,
    "9" := 9, "g" := 9, "q" := 9
  ]

  /** Every key of the table is one character, and every digit it gives is 1..9. */
  lemma TableIsDigits()
    ensures forall g :: g in CharToDigit ==> |g| == 1 && 1 <= CharToDigit[g] <= 9
  {
  }

  /** The table reading of a one-character text: present only for a single table glyph, and then a digit 1..9, never 0. */
  function LookupGlyph(cleaned: string): (r: Option<int>)
    ensures r != None ==> |cleaned| == 1 && 1 <= r.value <= 9
    ensures r != None <==> (|cleaned| == 1 && cleaned in CharToDigit)
    ensures r != None ==> r.value == CharToDigit[cleaned]
  {
    if |cleaned| == 1 && cleaned in CharToDigit then Some(CharToDigit[cleaned]) else None
  }

  // ---------------------------------------------------------------------
  // Scoring one candidate
  // ---------------------------------------------------------------------

  datatype Candidate = Candidate(text: string, confidence: real)

  datatype Scored = Scored(digit: int, score: real)

  /** The running `(bestDigit, bestConf)`. */
  datatype Best = Best(digit: Option<int>, score: real)

  const Start: Best := Best(None, 0.0)

  /** The direct reading: the text parses as an integer from 1 to 9, scored at the candidate's own confidence. */
  function DirectMatch(cleaned: string, confidence: real): (m: Option<Scored>)
    ensures m != None ==> 1 <= m.value.digit <= 9 && m.value.score == confidence
    ensures m != None <==> (ParseInt(cleaned) != None && 1 <= ParseInt(cleaned).value <= 9)
    ensures m != None ==> m.value.digit == ParseInt(cleaned).value
  {
    match ParseInt(cleaned)
    case Some(d) => if 1 <= d <= 9 then Some(Scored(d, confidence)) else None
    case None => None
  }

  /** A single table character, at 0.9 times its confidence. */
  function TableMatch(cleaned: string, confidence: real): (m: Option<Scored>)
    ensures m != None ==> 1 <= m.value.digit <= 9 && m.value.score == confidence * 0.9
    ensures m != None <==> (|cleaned| == 1 && cleaned in CharToDigit)
    ensures m != None ==> m.value.digit == CharToDigit[cleaned]
  {
    match LookupGlyph(cleaned)
    case Some(d) => Some(Scored(d, confidence * 0.9))
    case None => None
  }

  /** Replace `b` by `m` only on strict improvement. */
  function Improve(b: Best, m: Option<Scored>): (r: Best)
    ensures r == b || (m != None && r == Best(Some(m.value.digit), m.value.score) && m.value.score > b.score)
  {
    if m != None && m.value.score > b.score then Best(Some(m.value.digit), m.value.score) else b
  }

  /** One iteration of the loop: the direct match first, then the table match. */
  function Step(b: Best, c: Candidate): (r: Best)
    ensures r == b || (r.digit != None && 1 <= r.digit.value <= 9 && r.score > b.score)
  {
    var cleaned := Trim(c.text);
    Improve(Improve(b, DirectMatch(cleaned, c.confidence)), TableMatch(cleaned, c.confidence))
  }

  /**
   * The candidate's effective score: the better of its direct and its table
   * reading (the direct one on a tie), or none when it has neither.
   */
  function Effective(c: Candidate): Option<Scored> {
    var cleaned := Trim(c.text);
    var direct := DirectMatch(cleaned, c.confidence);
    var table := TableMatch(cleaned, c.confidence);
    if direct != None && (table == None || direct.value.score >= table.value.score) then direct else table
  }

  /** Beside a best that is not negative, one iteration is "take the effective reading if it is strictly better". */
  lemma StepIsImproveByEffective(b: Best, c: Candidate)
    requires b.score >= 0.0
    ensures Step(b, c) == Improve(b, Effective(c))
  {
    var cleaned := Trim(c.text);
    var direct := DirectMatch(cleaned, c.confidence);
    var table := TableMatch(cleaned, c.confidence);
    if direct != None && table != None {
      if c.confidence >= 0.0 {
        assert c.confidence * 0.9 <= c.confidence;
      } else {
        assert c.confidence * 0.9 < 0.0;
      }
    }
  }

  // ---------------------------------------------------------------------
  // Fusion over the whole list
  // ---------------------------------------------------------------------

  /** The state after the loop has seen `cands`, in list order. */
  function Fuse(cands: seq<Candidate>): (b: Best)
    ensures b.score >= 0.0
    ensures b.digit != None ==> 1 <= b.digit.value <= 9 && b.score > 0.0
    ensures b.digit == None ==> b.score == 0.0
  {
    if cands == [] then Start else Step(Fuse(cands[..|cands| - 1]), cands[|cands| - 1])
  }

  /** The effective reading of every candidate, in list order. */
  function Readings(cands: seq<Candidate>): (e: seq<Option<Scored>>)
    ensures |e| == |cands| && forall i :: 0 <= i < |cands| ==> e[i] == Effective(cands[i])
  {
    seq(|cands|, i requires 0 <= i < |cands| => Effective(cands[i]))
  }

  /**
   * `b` is the earliest reading that reaches the maximal score, when that
   * maximum is positive; otherwise `b` is no digit at score 0.
   */
  ghost predicate IsEarliestMax(e: seq<Option<Scored>>, b: Best) {
    && b.score >= 0.0
    && (forall i :: 0 <= i < |e| && e[i] != None ==> e[i].value.score <= b.score)
    && (b.digit == None ==> b.score == 0.0)
    && (b.digit != None ==>
          b.score > 0.0 &&
          exists i :: 0 <= i < |e| && e[i] == Some(Scored(b.digit.value, b.score)) &&
            forall j :: 0 <= j < i && e[j] != None ==> e[j].value.score < b.score)
  }

  /** The result the loop computes: the earliest candidate with the best positive effective score. */
  ghost predicate IsEarliestBest(cands: seq<Candidate>, b: Best) {
    IsEarliestMax(Readings(cands), b)
  }

  /** A reading that beats the best so far becomes the earliest maximum of the longer list. */
  lemma EarliestMaxAfterImprovement(e: seq<Option<Scored>>, m: Scored, b: Best)
    requires IsEarliestMax(e, b) && m.score > b.score
    ensures IsEarliestMax(e + [Some(m)], Best(Some(m.digit), m.score))
  {
    var e' := e + [Some(m)];
    assert forall i :: 0 <= i < |e| ==> e'[i] == e[i];
    assert e'[|e|] == Some(m);
  }

  /** A reading that does not beat the best so far leaves it the earliest maximum. */
  lemma EarliestMaxAfterNoImprovement(e: seq<Option<Scored>>, m: Option<Scored>, b: Best)
    requires IsEarliestMax(e, b) && !(m != None && m.value.score > b.score)
    ensures IsEarliestMax(e + [m], b)
  {
    var e' := e + [m];
    assert forall i :: 0 <= i < |e| ==> e'[i] == e[i];
    assert e'[|e|] == m;
    if b.digit != None {
      var i :| 0 <= i < |e| && e[i] == Some(Scored(b.digit.value, b.score)) &&
        forall j :: 0 <= j < i && e[j] != None ==> e[j].value.score < b.score;
      assert e'[i] == Some(Scored(b.digit.value, b.score));
    }
  }

  /** Improving by one more reading keeps the earliest maximum of the longer list. */
  lemma EarliestMaxAfterImprove(e: seq<Option<Scored>>, m: Option<Scored>, b: Best)
    requires IsEarliestMax(e, b)
    ensures IsEarliestMax(e + [m], Improve(b, m))
  {
    if m != None && m.value.score > b.score {
      EarliestMaxAfterImprovement(e, m.value, b);
    } else {
      EarliestMaxAfterNoImprovement(e, m, b);
    }
  }

  /** One more candidate is one more reading at the end. */
  lemma ReadingsSnoc(p: seq<Candidate>, c: Candidate)
    ensures Readings(p + [c]) == Readings(p) + [Effective(c)]
  {
    var r, q := Readings(p + [c]), Readings(p) + [Effective(c)];
    forall i | 0 <= i < |r| ensures r[i] == q[i] {
      if i < |p| {
        assert q[i] == Effective(p[i]) by {
          assert q[i] == Readings(p)[i];
        }
        assert (p + [c])[i] == p[i];
      } else {
        assert i == |p|;
      }
    }
    assert r == q;
  }

  lemma {:induction false} FuseIsEarliestBest(cands: seq<Candidate>)
    ensures IsEarliestBest(cands, Fuse(cands))
  {
    if cands != [] {
      var p := cands[..|cands| - 1];
      var c := cands[|cands| - 1];
      var e, b, m := Readings(p), Fuse(p), Effective(c);
      assert cands == p + [c];
      ReadingsSnoc(p, c);
      assert Fuse(cands) == Step(b, c);
      FuseIsEarliestBest(p);
      StepIsImproveByEffective(b, c);
      EarliestMaxAfterImprove(e, m, b);
    }
  }

  /** The score of one earliest maximum bounds that of any other. */
  lemma EarliestMaxScoreBelow(e: seq<Option<Scored>>, b1: Best, b2: Best)
    requires IsEarliestMax(e, b1) && IsEarliestMax(e, b2)
    ensures b1.score <= b2.score
  {
    if b1.digit != None {
      var i1 :| 0 <= i1 < |e| && e[i1] == Some(Scored(b1.digit.value, b1.score)) &&
        forall j :: 0 <= j < i1 && e[j] != None ==> e[j].value.score < b1.score;
    }
  }

  /** At most one state is the earliest maximum of a list of readings. */
  lemma EarliestMaxIsUnique(e: seq<Option<Scored>>, b1: Best, b2: Best)
    requires IsEarliestMax(e, b1) && IsEarliestMax(e, b2)
    ensures b1 == b2
  {
    EarliestMaxScoreBelow(e, b1, b2);
    EarliestMaxScoreBelow(e, b2, b1);
    if b1.digit != None && b2.digit != None {
      var i1 :| 0 <= i1 < |e| && e[i1] == Some(Scored(b1.digit.value, b1.score)) &&
        forall j :: 0 <= j < i1 && e[j] != None ==> e[j].value.score < b1.score;
      var i2 :| 0 <= i2 < |e| && e[i2] == Some(Scored(b2.digit.value, b2.score)) &&
        forall j :: 0 <= j < i2 && e[j] != None ==> e[j].value.score < b2.score;
      assert i1 == i2;
    }
  }

  /**
   * The fused result is exactly the earliest best: the maximal effective
   * score (0 when none is positive), taken from the first candidate that
   * reaches it.
   */
  lemma FuseIsExactlyEarliestBest(cands: seq<Candidate>, b: Best)
    ensures Fuse(cands) == b <==> IsEarliestBest(cands, b)
  {
    FuseIsEarliestBest(cands);
    if IsEarliestBest(cands, b) {
      EarliestMaxIsUnique(Readings(cands), b, Fuse(cands));
    }
  }

  /** A candidate that is neither an integer 1..9 nor one table character changes nothing. */
  lemma UnmatchedCandidateIsIgnored(cands: seq<Candidate>, c: Candidate)
    requires !(ParseInt(Trim(c.text)) != None && 1 <= ParseInt(Trim(c.text)).value <= 9)
    requires !(|Trim(c.text)| == 1 && Trim(c.text) in CharToDigit)
    ensures forall b :: Step(b, c) == b
    ensures Fuse(cands + [c]) == Fuse(cands)
  {
    assert (cands + [c])[..|cands|] == cands;
  }

  /** A table reading is discounted: 0.9 times the confidence, strictly less for a positive one. */
  lemma TableReadingIsDiscounted(c: Candidate)
    requires TableMatch(Trim(c.text), c.confidence) != None
    ensures TableMatch(Trim(c.text), c.confidence).value.score == c.confidence * 0.9
    ensures c.confidence > 0.0 ==> TableMatch(Trim(c.text), c.confidence).value.score < c.confidence
  {
  }

  /** Whitespace around a candidate's text does not change how it is scored. */
  lemma PaddedCandidateScoresAlike(b: Best, w1: string, text: string, w2: string, confidence: real)
    requires AllWhitespace(w1) && AllWhitespace(w2)
    ensures Effective(Candidate(w1 + text + w2, confidence)) == Effective(Candidate(text, confidence))
    ensures Step(b, Candidate(w1 + text + w2, confidence)) == Step(b, Candidate(text, confidence))
  {
    TrimIgnoresPadding(w1, text, w2);
  }

  /**
   * A digit 1..9 written alone, with any whitespace around it, reads as that
   * digit at the candidate's own confidence, when that is not negative.
   */
  lemma PaddedDigitReadsItself(w1: string, ch: char, w2: string, confidence: real)
    requires AllWhitespace(w1) && AllWhitespace(w2)
    requires '1' <= ch <= '9' && confidence >= 0.0
    ensures Effective(Candidate(w1 + [ch] + w2, confidence)) == Some(Scored(ch as int - '0' as int, confidence))
  {
    PaddedCandidateScoresAlike(Start, w1, [ch], w2, confidence);
    assert Trim([ch]) == [ch] by {
      TrimCanonical([], [ch], []);
      assert [] + [ch] + [] == [ch];
    }
    ParseOneChar(ch);
    assert confidence * 0.9 <= confidence;
  }

  /** "S" read at 0.80 gives 5 at score 0.72. */
  lemma MisreadSGivesFive()
    ensures Fuse([Candidate("S", 0.80)]) == Best(Some(5), 0.72)
  {
    assert [Candidate("S", 0.80)][..0] == [];
    assert Trim("S") == "S" by { TrimCanonical([], "S", []); assert [] + "S" + [] == "S"; }
    assert ParseInt("S") == None by { ParseOneChar('S'); }
  }

  /** "7" read at 0.95 gives 7 at score 0.95. */
  lemma DirectSevenWins()
    ensures Fuse([Candidate("7", 0.95)]) == Best(Some(7), 0.95)
  {
    assert [Candidate("7", 0.95)][..0] == [];
    assert Trim("7") == "7" by { TrimCanonical([], "7", []); assert [] + "7" + [] == "7"; }
    assert ParseInt("7") == Some(7) by { ParseOneChar('7'); }
  }

  // ---------------------------------------------------------------------
  // recognize
  // ---------------------------------------------------------------------

  /** `drawing.bounds`; `CGRect.isEmpty` holds for the null rectangle and for zero width or height. */
  datatype Bounds = Null | Rect(x: real, y: real, width: real, height: real)
  {
    /** A rectangle is empty exactly when it is null or encloses no area. */
    predicate IsEmpty()
      ensures IsEmpty() <==> (Null? || width * height == 0.0)
    {
      Null? || width == 0.0 || height == 0.0
    }
  }

  /**
   * `recognize` with the rendering and the text recogniser abstracted:
   * `rendered` says whether the rendered image produced a bitmap, and
   * `allCandidates` is what both recognition passes collected.
   * Empty bounds give nil before any candidate is looked at.
   */
  method Recognize(bounds: Bounds, rendered: bool, allCandidates: seq<Candidate>) returns (digit: Option<int>)
    ensures bounds.IsEmpty() || !rendered ==> digit == None
    ensures !bounds.IsEmpty() && rendered ==> digit == Fuse(allCandidates).digit
    ensures digit != None ==> 1 <= digit.value <= 9
  {
    if bounds.IsEmpty() {
      return None;
    }
    if !rendered {
      return None;
    }
    var bestDigit: Option<int> := None;
    var bestConf: real := 0.0;
    for i := 0 to |allCandidates|
      invariant Best(bestDigit, bestConf) == Fuse(allCandidates[..i])
    {
      ghost var before := Best(bestDigit, bestConf);
      var Candidate(text, conf) := allCandidates[i];
      var cleaned := Trim(text);
      var parsed := ParseInt(cleaned);
      if parsed != None && 1 <= parsed.value <= 9 && conf > bestConf {
        bestDigit := Some(parsed.value);
        bestConf := conf;
      }
      ghost var middle := Best(bestDigit, bestConf);
      assert middle == Improve(before, DirectMatch(cleaned, conf));
      if |cleaned| == 1 && cleaned in CharToDigit && conf * 0.9 > bestConf {
        bestDigit := Some(CharToDigit[cleaned]);
        bestConf := conf * 0.9;
      }
      assert Best(bestDigit, bestConf) == Improve(middle, TableMatch(cleaned, conf));
      assert Best(bestDigit, bestConf) == Step(before, allCandidates[i]);
      assert allCandidates[..i + 1][..i] == allCandidates[..i];
    }
    assert allCandidates[..|allCandidates|] == allCandidates;
    digit := bestDigit;
  }
}
