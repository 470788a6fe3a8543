/** Reading a score out of the Scorer agent's free text, and the completion statistics
    (average and performance band) of `AI-Interview.py`. */
module Scoring {
  import opened Wrappers
  import opened Text
  import Decimal

  /** Score recorded when no score line is found or its number cannot be read. */
  const DefaultScore: real := 7.0

  /** The marker a score line carries, compared against the upper-cased line. */
  const Marker: string := "SCORE:"

  predicate IsScoreLine(line: string) {
    Contains(Upper(line), Marker)
  }

  /** Index of the first line carrying the marker (the `[0]` of the list comprehension). */
  function FirstScoreLine(lines: seq<string>): (k: Option<nat>)
    ensures k.Some? ==> k.value < |lines| && IsScoreLine(lines[k.value])
    ensures k.Some? ==> forall j | 0 <= j < k.value :: !IsScoreLine(lines[j])
    ensures k.None? ==> forall j | 0 <= j < |lines| :: !IsScoreLine(lines[j])
  {
    if lines == [] then None
    else if IsScoreLine(lines[0]) then Some(0)
    else
      match FirstScoreLine(lines[1..])
      case None => None
      case Some(j) => Some(j + 1)
  }

  /** The text before the first '/', after the last ':' of that, stripped of whitespace. */
  function ScoreToken(line: string): string {
    var beforeSlash := Split(line, '/')[0];
    var pieces := Split(beforeSlash, ':');
    Strip(pieces[|pieces| - 1], Whitespace)
  }

  /** The score recorded for one Scorer reply; any failure along the way gives the default. */
  function ExtractScore(feedback: string): (score: real)
    ensures score != DefaultScore ==>
      exists k | 0 <= k < |Split(feedback, '\n')| ::
        IsScoreLine(Split(feedback, '\n')[k]) && Decimal.ParseDecimal(ScoreToken(Split(feedback, '\n')[k])) == Some(score)
  {
    var lines := Split(feedback, '\n');
    match FirstScoreLine(lines)
    case None => DefaultScore
    case Some(k) => Decimal.ParseDecimal(ScoreToken(lines[k])).GetOr(DefaultScore)
  }

  /** A marker found in one line of the text is a marker found in the text. */
  lemma MarkerInLineIsInText(s: string, k: nat)
    requires k < |Split(s, '\n')| && IsScoreLine(Split(s, '\n')[k])
    ensures Contains(Upper(s), Marker)
  {
    var parts := Split(s, '\n');
    var line := parts[k];
    PartIsInfix(parts, '\n', k);
    assert Contains(s, line);
    var lo :| 0 <= lo <= |s| - |line| && OccursAt(s, line, lo);
    MarkerInInfix(s, line, lo);
  }

  lemma MarkerInInfix(s: string, line: string, lo: nat)
    requires OccursAt(s, line, lo) && IsScoreLine(line)
    ensures Contains(Upper(s), Marker)
  {
    var hi := lo + |line|;
    UpperSlice(s, lo, hi);
    assert Upper(s)[lo..hi] == Upper(line);
    ContainsInInfix(Upper(s), lo, hi, Marker);
  }

  /** Feedback with no `SCORE:` anywhere (in any letter case) scores the default, silently. */
  lemma NoMarkerGivesDefault(feedback: string)
    requires !Contains(Upper(feedback), Marker)
    ensures ExtractScore(feedback) == DefaultScore
  {
    var lines := Split(feedback, '\n');
    match FirstScoreLine(lines)
    case None =>
    case Some(k) => MarkerInLineIsInText(feedback, k);
  }

  /** A line without the marker before the rest of the reply does not change the score. */
  lemma SkipUnmarkedLine(line: string, rest: string)
    requires '\n' !in line && !IsScoreLine(line)
    ensures ExtractScore(line + "\n" + rest) == ExtractScore(rest)
  {
    SplitConcat(line, rest, '\n');
    var lines := Split(line + "\n" + rest, '\n');
    assert lines == [line] + Split(rest, '\n');
    assert lines[1..] == Split(rest, '\n');
  }

  lemma UpperIsMarker(m: string)
    requires Upper(m) == Marker
    ensures |m| == 6 && m[5] == ':' && ':' !in m[..5] && '/' !in m && '\n' !in m
  {
    assert UpperChar(m[5]) == ':';
    forall i | 0 <= i < 6 ensures m[i] != '/' && m[i] != '\n' && (i < 5 ==> m[i] != ':') {
      assert UpperChar(m[i]) == Marker[i];
    }
  }

  /** The central case: the first line carries the marker (in any letter case) followed by
      a token and a '/'; the score is the token, stripped and read as a number, or the
      default when it does not read as one. */
  lemma ScoreFromLine(pre: string, marker: string, token: string, post: string, rest: string)
    requires Upper(marker) == Marker
    requires '\n' !in pre && '/' !in pre
    requires '\n' !in token && '/' !in token && ':' !in token
    requires '\n' !in post
    requires rest == [] || rest[0] == '\n'
    ensures ExtractScore(pre + marker + token + "/" + post + rest)
         == Decimal.ParseDecimal(Strip(token, Whitespace)).GetOr(DefaultScore)
  {
    MarkedLine(pre, marker, token + "/" + post);
    UpperIsMarker(marker);
    assert pre + marker + (token + "/" + post) == pre + marker + token + "/" + post;
    ScoreFromMarkedLine(pre, marker, token, post, rest);
  }

  lemma ScoreFromMarkedLine(pre: string, marker: string, token: string, post: string, rest: string)
    requires IsScoreLine(pre + marker + token + "/" + post)
    requires |marker| == 6 && marker[5] == ':' && ':' !in marker[..5] && '/' !in marker && '\n' !in marker
    requires '\n' !in pre && '/' !in pre
    requires '\n' !in token && '/' !in token && ':' !in token
    requires '\n' !in post
    requires rest == [] || rest[0] == '\n'
    ensures ExtractScore(pre + marker + token + "/" + post + rest)
         == Decimal.ParseDecimal(Strip(token, Whitespace)).GetOr(DefaultScore)
  {
    var line := pre + marker + token + "/" + post;
    assert '\n' !in line;
    FirstLine(line, rest);
    var lines := Split(line + rest, '\n');
    assert FirstScoreLine(lines) == Some(0);
    TokenOfLine(pre, marker, token, post);
  }

  /** A line without '\n', followed by nothing or by a line break, is the first line. */
  lemma FirstLine(line: string, rest: string)
    requires '\n' !in line
    requires rest == [] || rest[0] == '\n'
    ensures Split(line + rest, '\n')[0] == line
  {
    if rest == [] {
      assert line + rest == line;
    } else {
      var tail := rest[1..];
      assert rest == [rest[0]] + tail;
      ConcatAssoc(line, [rest[0]], tail);
      SplitConcat(line, tail, '\n');
    }
  }

  /** A line holding the marker in any letter case is a score line. */
  lemma MarkedLine(pre: string, marker: string, post: string)
    requires Upper(marker) == Marker
    ensures IsScoreLine(pre + marker + post)
  {
    var line := pre + marker + post;
    UpperIsMarker(marker);
    UpperSlice(line, |pre|, |pre| + 6);
    assert line[|pre|..|pre| + 6] == marker;
    assert OccursAt(Upper(line), Marker, |pre|);
  }

  /** The token of a score line is what lies between the marker and the first '/'. */
  lemma TokenOfLine(pre: string, marker: string, token: string, post: string)
    requires |marker| == 6 && marker[5] == ':' && ':' !in marker[..5] && '/' !in marker
    requires '/' !in pre && '/' !in token && ':' !in token
    ensures ScoreToken(pre + marker + token + "/" + post) == Strip(token, Whitespace)
  {
    var head := pre + marker + token;
    assert '/' !in head;
    SplitConcat(head, post, '/');
    assert pre + marker + token + "/" + post == head + ['/'] + post;
    assert Split(head, '/') == [head];
    var colonLeft := pre + marker[..5];
    assert head == colonLeft + [':'] + token;
    SplitConcat(colonLeft, token, ':');
    assert Split(token, ':') == [token];
  }

  /** Upper-casing commutes with slicing. */
  lemma UpperSlice(s: string, lo: nat, hi: nat)
    requires lo <= hi <= |s|
    ensures Upper(s)[lo..hi] == Upper(s[lo..hi])
  {
  }

  /** The Scorer's prescribed format "📊 SCORE: [X]/10" with a whole number in place of
      [X] yields exactly that number; the value is not clamped to 1..10. */
  lemma ScoreOfFormattedLine(pre: string, n: nat, rest: string)
    requires '\n' !in pre && '/' !in pre
    requires rest == [] || rest[0] == '\n'
    ensures ExtractScore(pre + "SCORE: " + Decimal.Digits(n) + "/10" + rest) == n as real
  {
    var d := Decimal.Digits(n);
    var token := " " + d;
    assert Upper("SCORE:") == Marker;
    assert forall i | 0 <= i < |token| :: token[i] == ' ' || Decimal.IsDigit(token[i]);
    ScoreFromLine(pre, "SCORE:", token, "10", rest);
    NumeralToken(n);
    FormattedLineShape(pre, d, rest);
  }

  lemma NumeralToken(n: nat)
    ensures Decimal.ParseDecimal(Strip(" " + Decimal.Digits(n), Whitespace)) == Some(n as real)
  {
    var d := Decimal.Digits(n);
    assert " " + d == [' '] + d + [];
    assert Decimal.IsDigit(d[0]) && Decimal.IsDigit(d[|d| - 1]);
    StripWrapped([' '], d, [], Whitespace);
    Decimal.ParseDigits(n);
  }

  lemma FormattedLineShape(pre: string, d: string, rest: string)
    ensures pre + "SCORE: " + d + "/10" + rest == pre + "SCORE:" + (" " + d) + "/" + "10" + rest
  {
    assert "SCORE: " == "SCORE:" + " " && "/10" == "/" + "10";
  }

  lemma ExampleSeven(feedback: string)
    requires feedback == "📊 SCORE: 7/10"
    ensures ExtractScore(feedback) == 7.0
  {
    assert Decimal.Digits(7) == "7";
    assert feedback == "📊 " + "SCORE: " + Decimal.Digits(7) + "/10" + "";
    ScoreOfFormattedLine("📊 ", 7, "");
  }

  /** A score with a fractional part in the prescribed format is read exactly: the digits
      around the point, taken as one number, over ten to the number of decimals. */
  lemma ScoreOfFractionLine(pre: string, w: string, f: string, rest: string)
    requires '\n' !in pre && '/' !in pre
    requires rest == [] || rest[0] == '\n'
    requires Decimal.AllDigits(w) && Decimal.AllDigits(f) && |w| + |f| > 0
    ensures ExtractScore(pre + "SCORE: " + w + "." + f + "/10" + rest)
         == Decimal.Value(w + f) as real / Decimal.Pow10(|f|) as real
  {
    var token := " " + (w + "." + f);
    FractionTokenShape(w, f);
    FractionLineShape(pre, w, f, rest);
    assert Upper("SCORE:") == Marker;
    ScoreFromLine(pre, "SCORE:", token, "10", rest);
    FractionToken(w, f);
  }

  lemma FractionTokenShape(w: string, f: string)
    requires Decimal.AllDigits(w) && Decimal.AllDigits(f)
    ensures var token := " " + (w + "." + f);
      '\n' !in token && '/' !in token && ':' !in token
  {
    var d := w + "." + f;
    assert forall i | 0 <= i < |d| :: d[i] == '.' || Decimal.IsDigit(d[i]);
  }

  lemma FractionToken(w: string, f: string)
    requires Decimal.AllDigits(w) && Decimal.AllDigits(f) && |w| + |f| > 0
    ensures Decimal.ParseDecimal(Strip(" " + (w + "." + f), Whitespace))
         == Some(Decimal.Value(w + f) as real / Decimal.Pow10(|f|) as real)
  {
    var d := w + "." + f;
    assert d[0] == '.' || Decimal.IsDigit(d[0]);
    assert d[|d| - 1] == '.' || Decimal.IsDigit(d[|d| - 1]);
    assert " " + d == [' '] + d + [];
    StripWrapped([' '], d, [], Whitespace);
    Decimal.ParsePointed(w, f);
  }

  lemma FractionLineShape(pre: string, w: string, f: string, rest: string)
    ensures pre + "SCORE: " + w + "." + f + "/10" + rest == pre + "SCORE:" + (" " + (w + "." + f)) + "/" + "10" + rest
  {
    assert "SCORE: " == "SCORE:" + " " && "/10" == "/" + "10";
  }

  lemma ExampleEightAndAHalf(feedback: string)
    requires feedback == "📊 SCORE: 8.5/10"
    ensures ExtractScore(feedback) == 8.5
  {
    assert feedback == "📊 " + "SCORE: " + "8" + "." + "5" + "/10" + "";
    ScoreOfFractionLine("📊 ", "8", "5", "");
    var v, p := Decimal.Value("8" + "5") as real, Decimal.Pow10(|"5"|) as real;
    assert v == 85.0 by {
      assert Decimal.Value("8") == 8;
      assert "8" + "5" == "85" && "85"[..1] == "8";
    }
    assert p == 10.0;
    calc {
      ExtractScore(feedback);
      v / p;
      85.0 / 10.0;
      8.5;
    }
  }

  /** The marker is matched in any letter case: "score:" reads the same as "SCORE:". */
  lemma MarkerCaseInsensitive(pre: string, token: string, post: string, rest: string)
    requires '\n' !in pre && '/' !in pre
    requires '\n' !in token && '/' !in token && ':' !in token
    requires '\n' !in post
    requires rest == [] || rest[0] == '\n'
    ensures ExtractScore(pre + "score:" + token + "/" + post + rest)
         == ExtractScore(pre + "SCORE:" + token + "/" + post + rest)
  {
    assert Upper("score:") == Marker && Upper("SCORE:") == Marker;
    ScoreFromLine(pre, "score:", token, post, rest);
    ScoreFromLine(pre, "SCORE:", token, post, rest);
  }

  /** The unfilled template "[X]" is not a number: the default is recorded, nothing raised. */
  lemma PlaceholderGivesDefault(pre: string, rest: string)
    requires '\n' !in pre && '/' !in pre
    requires rest == [] || rest[0] == '\n'
    ensures ExtractScore(pre + "SCORE: [X]/10" + rest) == DefaultScore
  {
    assert Upper("SCORE:") == Marker;
    ScoreFromLine(pre, "SCORE:", " [X]", "10", rest);
    PlaceholderToken();
    PlaceholderLineShape(pre, rest);
  }

  lemma PlaceholderToken()
    ensures Decimal.ParseDecimal(Strip(" [X]", Whitespace)) == None
  {
    assert " [X]" == [' '] + "[X]" + [];
    StripWrapped([' '], "[X]", [], Whitespace);
  }

  lemma PlaceholderLineShape(pre: string, rest: string)
    ensures pre + "SCORE: [X]/10" + rest == pre + "SCORE:" + " [X]" + "/" + "10" + rest
  {
  }

  // ---- completion statistics ----

  /** Python's `sum(scores)`. */
  function Sum(scores: seq<real>): real {
    if scores == [] then 0.0 else Sum(scores[..|scores| - 1]) + scores[|scores| - 1]
  }

  lemma SumAppend(scores: seq<real>, x: real)
    ensures Sum(scores + [x]) == Sum(scores) + x
  {
    assert (scores + [x])[..|scores|] == scores;
  }

  /** A sum of `n` scores, each at least `lo`, is at least `n lo`. */
  lemma {:induction false} SumAtLeast(scores: seq<real>, lo: real)
    requires forall i | 0 <= i < |scores| :: lo <= scores[i]
    ensures |scores| as real * lo <= Sum(scores)
  {
    if scores != [] {
      var n := |scores|;
      SumAtLeast(scores[..n - 1], lo);
      assert (n - 1) as real * lo + lo == n as real * lo;
    }
  }

  /** A sum of `n` scores, each at most `hi`, is at most `n hi`. */
  lemma {:induction false} SumAtMost(scores: seq<real>, hi: real)
    requires forall i | 0 <= i < |scores| :: scores[i] <= hi
    ensures Sum(scores) <= |scores| as real * hi
  {
    if scores != [] {
      var n := |scores|;
      SumAtMost(scores[..n - 1], hi);
      assert (n - 1) as real * hi + hi == n as real * hi;
    }
  }

  /** `total / count if count else 0`, as the completion screen computes it. */
  function Average(total: real, count: nat): real {
    if count > 0 then total / count as real else 0.0
  }

  /** The average of scores that are all at least `lo` is at least `lo`. */
  lemma AverageAtLeast(scores: seq<real>, lo: real)
    requires scores != []
    requires forall i | 0 <= i < |scores| :: lo <= scores[i]
    ensures lo <= Average(Sum(scores), |scores|)
  {
    SumAtLeast(scores, lo);
    assert Average(Sum(scores), |scores|) * |scores| as real == Sum(scores);
  }

  /** The average of scores that are all at most `hi` is at most `hi`. */
  lemma AverageAtMost(scores: seq<real>, hi: real)
    requires scores != []
    requires forall i | 0 <= i < |scores| :: scores[i] <= hi
    ensures Average(Sum(scores), |scores|) <= hi
  {
    SumAtMost(scores, hi);
    assert Average(Sum(scores), |scores|) * |scores| as real == Sum(scores);
  }

  /** The average of scores that all lie in [lo, hi] lies in [lo, hi]. */
  lemma AverageWithin(scores: seq<real>, lo: real, hi: real)
    requires scores != []
    requires forall i | 0 <= i < |scores| :: lo <= scores[i] <= hi
    ensures lo <= Average(Sum(scores), |scores|) <= hi
  {
    AverageAtLeast(scores, lo);
    AverageAtMost(scores, hi);
  }

  datatype Performance = Excellent | Good | NeedsImprovement

  /** The performance band shown on completion. */
  function Rate(average: real): Performance {
    if average >= 8.0 then Excellent else if average >= 6.0 then Good else NeedsImprovement
  }

  /** The text shown for a band. */
  function Label(p: Performance): string {
    match p
    case Excellent => "Excellent"
    case Good => "Good"
    case NeedsImprovement => "Needs Improvement"
  }

  /** The text shown for an average: "Excellent" from 8 on, "Good" from 6 below 8,
      "Needs Improvement" below 6. */
  lemma PerformanceLabel(average: real)
    ensures Label(Rate(average)) == "Excellent" <==> average >= 8.0
    ensures Label(Rate(average)) == "Good" <==> 6.0 <= average < 8.0
    ensures Label(Rate(average)) == "Needs Improvement" <==> average < 6.0
  {
  }

  /** Candidates who score at least 8 on every question are rated Excellent. */
  lemma AllHighIsExcellent(scores: seq<real>)
    requires scores != [] && forall i | 0 <= i < |scores| :: 8.0 <= scores[i]
    ensures Rate(Average(Sum(scores), |scores|)) == Excellent
  {
    AverageAtLeast(scores, 8.0);
  }

  /** Candidates whose every reply fell back to the default score are rated Good. */
  lemma AllDefaultIsGood(scores: seq<real>)
    requires scores != [] && forall i | 0 <= i < |scores| :: scores[i] == DefaultScore
    ensures Rate(Average(Sum(scores), |scores|)) == Good
  {
    AverageWithin(scores, DefaultScore, DefaultScore);
  }
}
