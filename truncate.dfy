/** The budget-constrained line truncator for tool output: when a text's
    estimated token count exceeds a fifth of the model's context window,
    keep the longest run of leading lines that fits and put a notice in
    front saying how many lines were kept. */
module Truncation {
  import opened Text

  /** Characters per token in the crude estimate. */
  const CharsPerToken: nat := 3

  /** The share of the context window one output may use, 0.2, written as
      the exact ratio 1/5: for an integer window `floor(0.2 * w)` is `w / 5`. */
  const SizeLimitNumerator: nat := 1
  const SizeLimitDenominator: nat := 5

  /** `Math.ceil(text.length / 3)`: the fewest tokens that cover the text at
      three UTF-16 code units per token. */
  function TokenEstimate(text: string): (tokens: nat)
    ensures CharsPerToken * tokens >= Utf16Length(text)
    ensures tokens == 0 || CharsPerToken * (tokens - 1) < Utf16Length(text)
  {
    (Utf16Length(text) + CharsPerToken - 1) / CharsPerToken
  }

  /** `Math.floor(0.2 * contextWindow)`, rounding towards minus infinity. */
  function MaxTokens(contextWindow: int): (budget: int)
    ensures SizeLimitDenominator * budget <= SizeLimitNumerator * contextWindow
    ensures SizeLimitNumerator * contextWindow < SizeLimitDenominator * (budget + 1)
  {
    SizeLimitNumerator * contextWindow / SizeLimitDenominator
  }

  /** The summed estimates of a run of lines, each line estimated apart. */
  function SumEstimates(lines: seq<string>): nat
  {
    if lines == [] then 0 else TokenEstimate(lines[0]) + SumEstimates(lines[1..])
  }

  /** The greedy count of leading lines that fit the budget: take lines in
      order while each one's estimate fits in what is left, and stop at the
      first that does not; a later line that would fit is never taken. */
  function LinesToKeep(lines: seq<string>, budget: int): (kept: nat)
    ensures kept <= |lines|
    ensures kept == 0 || SumEstimates(lines[..kept]) <= budget
    ensures kept < |lines| ==> SumEstimates(lines[..kept + 1]) > budget
  {
    if lines == [] || TokenEstimate(lines[0]) > budget then
      assert lines != [] ==> lines[..1][1..] == [];
      0
    else
      var rest := LinesToKeep(lines[1..], budget - TokenEstimate(lines[0]));
      assert lines[..rest + 1][1..] == lines[1..][..rest];
      assert rest < |lines| - 1 ==> lines[..rest + 2][1..] == lines[1..][..rest + 1];
      1 + rest
  }

  /** `computeLinesToKeep`: the source's loop, which adds line estimates to
      a running total until the next line would pass `maxTokens`. */
  method ComputeLinesToKeep(lines: seq<string>, maxTokens: int) returns (linesToKeep: nat)
    ensures linesToKeep == LinesToKeep(lines, maxTokens)
    ensures linesToKeep <= |lines|
    ensures linesToKeep == 0 || SumEstimates(lines[..linesToKeep]) <= maxTokens
    ensures forall k :: linesToKeep < k <= |lines| ==> SumEstimates(lines[..k]) > maxTokens
  {
    var currentEstimate := 0;
    linesToKeep := 0;
    while linesToKeep < |lines|
      invariant linesToKeep <= |lines|
      invariant currentEstimate == SumEstimates(lines[..linesToKeep])
      invariant LinesToKeep(lines, maxTokens)
                == linesToKeep + LinesToKeep(lines[linesToKeep..], maxTokens - currentEstimate)
    {
      var lineEstimate := TokenEstimate(lines[linesToKeep]);
      if currentEstimate + lineEstimate > maxTokens {
        break;
      }
      LinesToKeepFrom(lines, linesToKeep, maxTokens - currentEstimate, maxTokens - (currentEstimate + lineEstimate));
      SumSnoc(lines, linesToKeep);
      currentEstimate := currentEstimate + lineEstimate;
      linesToKeep := linesToKeep + 1;
    }
    LinesToKeepIsLongestFit(lines, maxTokens);
  }

  /** The notice in front of a truncated output, with the original and the
      kept line counts. */
  function Notice(totalLines: nat, keptLines: nat): (notice: string)
    ensures "**Important:** The output below was truncated from " <= notice
  {
    "**Important:** The output below was truncated from "
    + (NatToString(totalLines)
       + (" lines to "
          + (NatToString(keptLines)
             + (" lines" + " due to size limits and is therefore *incomplete*! You *must* notify the user of this!"))))
  }

  /** `truncateIfNeeded`: the text itself when its estimate fits the budget;
      otherwise the notice, a blank line, and the leading lines that fit. */
  function TruncateIfNeeded(text: string, contextWindow: int): (output: string)
    ensures TokenEstimate(text) <= MaxTokens(contextWindow) ==> output == text
  {
    var maxTokens := MaxTokens(contextWindow);
    if TokenEstimate(text) <= maxTokens then text
    else
      var lines := Split(text, '\n');
      var kept := LinesToKeep(lines, maxTokens);
      Notice(|lines|, kept) + "\n\n" + Join(lines[..kept], '\n')
  }

  // ---------------------------------------------------------------------
  // Properties of the estimate and of the greedy count

  /** A text never has a smaller estimate than its prefixes. */
  lemma TokenEstimateMonotone(a: string, b: string)
    requires a <= b
    ensures TokenEstimate(a) <= TokenEstimate(b)
  {
    assert b == a + b[|a|..];
    Utf16LengthAppend(a, b[|a|..]);
  }

  /** The greedy count from line `i` on, when line `i` fits: that line,
      then the count over what is left of the budget. */
  lemma LinesToKeepFrom(lines: seq<string>, i: nat, budget: int, left: int)
    requires i < |lines|
    requires TokenEstimate(lines[i]) <= budget
    requires left == budget - TokenEstimate(lines[i])
    ensures LinesToKeep(lines[i..], budget) == 1 + LinesToKeep(lines[i + 1..], left)
  {
    assert lines[i..][1..] == lines[i + 1..];
  }

  /** Adding one more line adds that line's estimate to the running total. */
  lemma {:induction false} SumSnoc(lines: seq<string>, k: nat)
    requires k < |lines|
    ensures SumEstimates(lines[..k + 1]) == SumEstimates(lines[..k]) + TokenEstimate(lines[k])
  {
    if k == 0 {
      assert lines[..1][1..] == [];
    } else {
      SumSnoc(lines[1..], k - 1);
      assert lines[..k + 1][1..] == lines[1..][..k];
      assert lines[..k][1..] == lines[1..][..k - 1];
    }
  }

  /** Running totals only grow as lines are added. */
  lemma {:induction false} SumMonotone(lines: seq<string>, i: nat, j: nat)
    requires i <= j <= |lines|
    ensures SumEstimates(lines[..i]) <= SumEstimates(lines[..j])
    decreases j - i
  {
    if i < j {
      SumSnoc(lines, i);
      SumMonotone(lines, i + 1, j);
    }
  }

  /** The greedy count is the longest prefix that fits: every longer prefix
      goes over the budget. */
  lemma LinesToKeepIsLongestFit(lines: seq<string>, budget: int)
    ensures forall k :: LinesToKeep(lines, budget) < k <= |lines| ==> SumEstimates(lines[..k]) > budget
  {
    var n := LinesToKeep(lines, budget);
    forall k | n < k <= |lines|
      ensures SumEstimates(lines[..k]) > budget
    {
      SumMonotone(lines, n + 1, k);
    }
  }

  /** The three conditions of the greedy count pin it down: a count that
      fits (or is zero) and whose next line does not fit is the greedy one. */
  lemma LinesToKeepUnique(lines: seq<string>, budget: int, m: nat)
    requires m <= |lines|
    requires m == 0 || SumEstimates(lines[..m]) <= budget
    requires m < |lines| ==> SumEstimates(lines[..m + 1]) > budget
    ensures m == LinesToKeep(lines, budget)
  {
    var n := LinesToKeep(lines, budget);
    if m < n {
      SumMonotone(lines, m + 1, n);
    } else if n < m {
      SumMonotone(lines, n + 1, m);
    }
  }

  /** When every line has the same positive estimate `e` and the budget
      holds exactly `k` of them, the greedy count is `k`, or all lines if
      there are fewer. */
  lemma LinesToKeepUniform(lines: seq<string>, e: nat, k: nat, budget: int)
    requires e > 0
    requires forall i :: 0 <= i < |lines| ==> TokenEstimate(lines[i]) == e
    requires k * e <= budget < k * e + e
    ensures LinesToKeep(lines, budget) == if |lines| <= k then |lines| else k
  {
    MultipleIsProduct(k, e);
    LinesToKeepOfMultiple(lines, e, k, budget);
  }

  /** `k * e` as `k` additions of `e`, so that the induction below stays
      linear. */
  function Multiple(k: nat, e: nat): nat
  {
    if k == 0 then 0 else Multiple(k - 1, e) + e
  }

  lemma {:induction false} MultipleIsProduct(k: nat, e: nat)
    ensures Multiple(k, e) == k * e
  {
    if k > 0 {
      MultipleIsProduct(k - 1, e);
      OneMoreRow(k, e);
    }
  }

  lemma {:induction false} LinesToKeepOfMultiple(lines: seq<string>, e: nat, k: nat, budget: int)
    requires e > 0
    requires forall i :: 0 <= i < |lines| ==> TokenEstimate(lines[i]) == e
    requires Multiple(k, e) <= budget < Multiple(k, e) + e
    ensures LinesToKeep(lines, budget) == if |lines| <= k then |lines| else k
  {
    if lines != [] && k > 0 {
      assert TokenEstimate(lines[0]) == e;
      LinesToKeepOfMultiple(lines[1..], e, k - 1, budget - e);
    }
  }

  // ---------------------------------------------------------------------
  // Properties of the truncated output

  /** The over-budget branch of `TruncateIfNeeded` unfolded, for use in
      the proofs below. */
  lemma OverBudgetOutput(text: string, contextWindow: int)
    requires TokenEstimate(text) > MaxTokens(contextWindow)
    ensures var lines := Split(text, '\n');
            TruncateIfNeeded(text, contextWindow)
            == Notice(|lines|, LinesToKeep(lines, MaxTokens(contextWindow))) + "\n\n"
               + Join(lines[..LinesToKeep(lines, MaxTokens(contextWindow))], '\n')
  {
  }

  /** The notice states its counts unambiguously: two notices are the same
      text only when they report the same original and kept line counts. */
  lemma NoticeDeterminesCounts(total: nat, kept: nat, total': nat, kept': nat)
    requires Notice(total, kept) == Notice(total', kept')
    ensures total == total' && kept == kept'
  {
    var middle := " lines to ";
    var tail := " lines" + " due to size limits and is therefore *incomplete*! You *must* notify the user of this!";
    assert middle[0] == ' ' && tail[0] == ' ';
    SamePrefix("**Important:** The output below was truncated from ",
               NatToString(total) + (middle + (NatToString(kept) + tail)),
               NatToString(total') + (middle + (NatToString(kept') + tail)));
    CountThenSpace(total, middle + (NatToString(kept) + tail), total', middle + (NatToString(kept') + tail));
    SamePrefix(middle, NatToString(kept) + tail, NatToString(kept') + tail);
    CountThenSpace(kept, tail, kept', tail);
  }

  lemma SamePrefix(prefix: string, x: string, y: string)
    requires prefix + x == prefix + y
    ensures x == y
  {
    assert x == (prefix + x)[|prefix|..];
    assert y == (prefix + y)[|prefix|..];
  }

  /** A printed count followed by a space is read back unambiguously. */
  lemma CountThenSpace(m: nat, rest: string, n: nat, rest': string)
    requires rest != [] && rest[0] == ' ' && rest' != [] && rest'[0] == ' '
    requires NatToString(m) + rest == NatToString(n) + rest'
    ensures m == n && rest == rest'
  {
    var digits, digits' := NatToString(m), NatToString(n);
    var s := digits + rest;
    assert s[|digits|] == ' ' && s[|digits'|] == ' ';
    if |digits| < |digits'| {
      assert false;
    } else if |digits'| < |digits| {
      assert false;
    }
    assert digits == s[..|digits|] == digits';
    assert rest == s[|digits|..] == rest';
    NatToStringInjective(m, n);
  }

  /** The kept body is a prefix of the text made of whole lines: it splits
      back into exactly the kept lines. */
  lemma KeptBodyIsWholeLinePrefix(text: string, kept: nat)
    requires kept <= |Split(text, '\n')|
    ensures Join(Split(text, '\n')[..kept], '\n') <= text
    ensures kept >= 1 ==> Split(Join(Split(text, '\n')[..kept], '\n'), '\n') == Split(text, '\n')[..kept]
  {
    var lines := Split(text, '\n');
    JoinPrefix(lines, kept, '\n');
    JoinSplit(text, '\n');
    if kept >= 1 {
      SplitJoin(lines[..kept], '\n');
    }
  }

  /** Over budget, the output is the notice with the line count (newlines
      plus one) and the greedy kept count, a blank line, and a body that is
      a prefix of the text made of exactly the kept lines. */
  lemma TruncatedOutput(text: string, contextWindow: int)
    requires TokenEstimate(text) > MaxTokens(contextWindow)
    ensures var n := multiset(text)['\n'] + 1;
            var k := LinesToKeep(Split(text, '\n'), MaxTokens(contextWindow));
            var out := TruncateIfNeeded(text, contextWindow);
            && k <= n
            && |Notice(n, k)| + 2 <= |out|
            && (var body := out[|Notice(n, k)| + 2..];
                && out == Notice(n, k) + "\n\n" + body
                && body <= text
                && (k == 0 ==> body == "")
                && (k >= 1 ==> Split(body, '\n') == Split(text, '\n')[..k]))
  {
    var lines := Split(text, '\n');
    var k := LinesToKeep(lines, MaxTokens(contextWindow));
    var body := Join(lines[..k], '\n');
    OverBudgetOutput(text, contextWindow);
    SliceAfterNotice(Notice(|lines|, k), body);
    KeptBodyIsWholeLinePrefix(text, k);
    if k == 0 {
      assert lines[..k] == [];
    }
  }

  lemma SliceAfterNotice(notice: string, body: string)
    ensures |notice| + 2 <= |notice + "\n\n" + body|
    ensures (notice + "\n\n" + body)[|notice| + 2..] == body
  {
  }

  /** A single line over budget keeps nothing: the output is the notice
      "from 1 lines to 0 lines" and ends in the blank line. */
  lemma SingleLineOverBudget(text: string, contextWindow: int)
    requires '\n' !in text
    requires TokenEstimate(text) > MaxTokens(contextWindow)
    ensures TruncateIfNeeded(text, contextWindow) == Notice(1, 0) + "\n\n"
  {
    SplitWithoutSeparator(text, '\n');
    assert [text][..0] == [];
  }

  /** Texts that fit are returned unchanged: up to 600 characters of the
      Basic Multilingual Plane (200 tokens) at window 1000, such as "Hello
      world"; up to 60 such characters (20 tokens) at window 100, such as
      the empty text, "a" and four newlines. */
  lemma ExamplesThatFit(text: string)
    requires AllInBmp(text) && |text| <= 600
    ensures TruncateIfNeeded(text, 1000) == text
    ensures |text| <= 60 ==> TruncateIfNeeded(text, 100) == text
  {
    Utf16LengthOfBmp(text);
    assert TokenEstimate(text) <= 200 == MaxTokens(1000);
    assert |text| <= 60 ==> TokenEstimate(text) <= 20 == MaxTokens(100);
  }

  /** A single line over budget keeps nothing. A window of 0 or 1 leaves no
      budget at all; 61 characters estimate to 21 tokens, one more than a
      window of 100 allows, because the estimate rounds up. */
  lemma ExamplesOnOneLine(text: string, contextWindow: int)
    requires '\n' !in text && AllInBmp(text)
    requires (|text|, contextWindow) in {(11, 0), (11, 1), (61, 100), (300, 100), (600, 100), (603, 1000)}
    ensures TruncateIfNeeded(text, contextWindow) == Notice(1, 0) + "\n\n"
  {
    Utf16LengthOfBmp(text);
    SingleLineOverBudget(text, contextWindow);
  }

  /** Characters outside the Basic Multilingual Plane count twice, as
      `text.length` counts their surrogate pairs: two such characters (an
      emoji pair, say) estimate to 2 tokens, over the budget of 1 at window
      5 and within the budget of 2 at window 10. */
  lemma ExampleSurrogatePairs(text: string)
    requires |text| == 2 && !InBmp(text[0]) && !InBmp(text[1])
    ensures TruncateIfNeeded(text, 5) == Notice(1, 0) + "\n\n"
    ensures TruncateIfNeeded(text, 10) == text
  {
    assert Utf16Length(text) == 4 by {
      assert text[1..][1..] == [];
    }
    assert '\n' !in text by {
      assert InBmp('\n');
    }
    SingleLineOverBudget(text, 5);
  }

  /** A join of equal-width lines is as long as the lines and the
      newlines between them. */
  lemma {:induction false} JoinLengthOfEqualLines(lines: seq<string>, width: nat)
    requires |lines| >= 1
    requires forall i :: 0 <= i < |lines| ==> Utf16Length(lines[i]) == width
    ensures Utf16Length(Join(lines, '\n')) == |lines| * (width + 1) - 1
  {
    var n := |lines|;
    if n == 1 {
      assert Join(lines, '\n') == lines[0];
      assert n * (width + 1) == width + 1;
    } else {
      var rest := Join(lines[1..], '\n');
      JoinLengthOfEqualLines(lines[1..], width);
      assert Join(lines, '\n') == lines[0] + (['\n'] + rest);
      Utf16LengthAppend(lines[0], ['\n'] + rest);
      Utf16LengthAppend(['\n'], rest);
      assert Utf16Length(['\n']) == 1 by {
        assert ['\n'][1..] == [];
      }
      OneMoreRow(n, width + 1);
    }
  }

  lemma OneMoreRow(n: nat, w: nat)
    requires n >= 1
    ensures n * w == (n - 1) * w + w
  {
  }

  /** Lines of equal estimate `e` over budget, when the budget holds
      exactly `kept` of them and there are more lines than that: the output
      keeps the first `kept` lines. */
  lemma EqualLinesOverBudget(lines: seq<string>, width: nat, contextWindow: int, kept: nat)
    requires kept < |lines| && width > 0
    requires forall i :: 0 <= i < |lines| ==> Utf16Length(lines[i]) == width && '\n' !in lines[i]
    requires kept * TokenEstimate(lines[0]) <= MaxTokens(contextWindow)
             < kept * TokenEstimate(lines[0]) + TokenEstimate(lines[0])
    requires TokenEstimate(Join(lines, '\n')) > MaxTokens(contextWindow)
    ensures TruncateIfNeeded(Join(lines, '\n'), contextWindow)
            == Notice(|lines|, kept) + "\n\n" + Join(lines[..kept], '\n')
  {
    EqualLinesSplitAndKeep(lines, width, MaxTokens(contextWindow), kept);
    OverBudgetOutput(Join(lines, '\n'), contextWindow);
  }

  lemma EqualLinesSplitAndKeep(lines: seq<string>, width: nat, budget: int, kept: nat)
    requires kept < |lines| && width > 0
    requires forall i :: 0 <= i < |lines| ==> Utf16Length(lines[i]) == width && '\n' !in lines[i]
    requires kept * TokenEstimate(lines[0]) <= budget < kept * TokenEstimate(lines[0]) + TokenEstimate(lines[0])
    ensures Split(Join(lines, '\n'), '\n') == lines
    ensures LinesToKeep(lines, budget) == kept
  {
    EqualWidthsEqualEstimates(lines, width);
    LinesToKeepUniform(lines, TokenEstimate(lines[0]), kept, budget);
    SplitJoin(lines, '\n');
  }

  lemma EqualWidthsEqualEstimates(lines: seq<string>, width: nat)
    requires |lines| >= 1 && width > 0
    requires forall i :: 0 <= i < |lines| ==> Utf16Length(lines[i]) == width
    ensures TokenEstimate(lines[0]) > 0
    ensures forall i :: 0 <= i < |lines| ==> TokenEstimate(lines[i]) == TokenEstimate(lines[0])
  {
  }

  /** Five 30-character lines at window 100 keep the first two. */
  lemma ExampleFiveLinesKeepTwo(lines: seq<string>)
    requires |lines| == 5
    requires forall i :: 0 <= i < |lines| ==> |lines[i]| == 30 && AllInBmp(lines[i]) && '\n' !in lines[i]
    ensures TruncateIfNeeded(Join(lines, '\n'), 100)
            == Notice(5, 2) + "\n\n" + Join(lines[..2], '\n')
    ensures Join(lines[..2], '\n') == lines[0] + "\n" + lines[1]
  {
    forall i | 0 <= i < |lines| ensures Utf16Length(lines[i]) == 30 {
      Utf16LengthOfBmp(lines[i]);
    }
    JoinLengthOfEqualLines(lines, 30);
    assert TokenEstimate(lines[0]) == 10;
    assert TokenEstimate(Join(lines, '\n')) == 52;
    EqualLinesOverBudget(lines, 30, 100, 2);
    JoinFirstTwo(lines, '\n');
  }

  /** Ten 60-character lines at window 500 keep the first five. */
  lemma ExampleTenLinesKeepFive(lines: seq<string>)
    requires |lines| == 10
    requires forall i :: 0 <= i < |lines| ==> |lines[i]| == 60 && AllInBmp(lines[i]) && '\n' !in lines[i]
    ensures TruncateIfNeeded(Join(lines, '\n'), 500)
            == Notice(10, 5) + "\n\n" + Join(lines[..5], '\n')
  {
    forall i | 0 <= i < |lines| ensures Utf16Length(lines[i]) == 60 {
      Utf16LengthOfBmp(lines[i]);
    }
    JoinLengthOfEqualLines(lines, 60);
    assert TokenEstimate(lines[0]) == 20;
    assert TokenEstimate(Join(lines, '\n')) == 203;
    EqualLinesOverBudget(lines, 60, 500, 5);
  }

  /** Two lines of three characters at window 10, such as "abc\ndef":
      the whole text estimates to 3 tokens, over the budget of 2, yet each
      line costs 1, so both lines are kept. */
  lemma ExampleShortLinesKeepAll(a: string, b: string)
    requires |a| == 3 && AllInBmp(a) && '\n' !in a
    requires |b| == 3 && AllInBmp(b) && '\n' !in b
    ensures TruncateIfNeeded(a + "\n" + b, 10) == Notice(2, 2) + "\n\n" + a + "\n" + b
  {
    ShortLinesSplitAndKeep(a, b);
    OverBudgetOutput(a + "\n" + b, 10);
  }

  lemma ShortLinesSplitAndKeep(a: string, b: string)
    requires |a| == 3 && AllInBmp(a) && '\n' !in a
    requires |b| == 3 && AllInBmp(b) && '\n' !in b
    ensures TokenEstimate(a + "\n" + b) == 3
    ensures Split(a + "\n" + b, '\n') == [a, b]
    ensures LinesToKeep([a, b], 2) == 2
    ensures [a, b][..2] == [a, b]
    ensures Join([a, b], '\n') == a + "\n" + b
  {
    var lines := [a, b];
    Utf16LengthOfBmp(a);
    Utf16LengthOfBmp(b);
    JoinLengthOfEqualLines(lines, 3);
    JoinFirstTwo(lines, '\n');
    assert lines[..2] == lines;
    SplitJoin(lines, '\n');
    assert TokenEstimate(a) == 1 && TokenEstimate(b) == 1;
    LinesToKeepUniform(lines, 1, 2, 2);
  }

  /** Newlines alone cost nothing per line, though each counts in the
      whole-text estimate: a text of newlines only that is over budget (four
      newlines at window 5: budget 1, estimate 2) is "truncated" to all of
      its lines, and the body is the whole text. */
  lemma NewlinesOnlyKeepEveryLine(text: string, contextWindow: int)
    requires forall i :: 0 <= i < |text| ==> text[i] == '\n'
    requires 0 <= MaxTokens(contextWindow) < TokenEstimate(text)
    ensures TruncateIfNeeded(text, contextWindow)
            == Notice(|text| + 1, |text| + 1) + "\n\n" + text
  {
    NewlinesOnlyLines(text, MaxTokens(contextWindow));
    OverBudgetOutput(text, contextWindow);
  }

  lemma NewlinesOnlyLines(text: string, budget: int)
    requires forall i :: 0 <= i < |text| ==> text[i] == '\n'
    requires 0 <= budget
    ensures |Split(text, '\n')| == |text| + 1
    ensures LinesToKeep(Split(text, '\n'), budget) == |text| + 1
    ensures Join(Split(text, '\n')[..|text| + 1], '\n') == text
  {
    var lines := Split(text, '\n');
    assert multiset(text)['\n'] == |text| by {
      assert text == seq(|text|, _ => '\n');
      MultisetOfNewlines(|text|);
    }
    PiecesOfNewlinesAreEmpty(text);
    EmptyLinesCostNothing(lines);
    assert lines[..|lines|] == lines;
    LinesToKeepUnique(lines, budget, |lines|);
    JoinSplit(text, '\n');
  }

  lemma {:induction false} MultisetOfNewlines(n: nat)
    ensures multiset(seq(n, _ => '\n'))['\n'] == n
  {
    if n > 0 {
      MultisetOfNewlines(n - 1);
      assert seq(n, _ => '\n') == seq(n - 1, _ => '\n') + ['\n'];
    }
  }

  lemma {:induction false} PiecesOfNewlinesAreEmpty(text: string)
    requires forall i :: 0 <= i < |text| ==> text[i] == '\n'
    ensures forall i :: 0 <= i < |Split(text, '\n')| ==> Split(text, '\n')[i] == ""
    decreases |text|
  {
    if text != [] {
      PiecesOfNewlinesAreEmpty(text[1..]);
    }
  }

  lemma {:induction false} EmptyLinesCostNothing(lines: seq<string>)
    requires forall i :: 0 <= i < |lines| ==> lines[i] == ""
    ensures SumEstimates(lines) == 0
  {
    if lines != [] {
      EmptyLinesCostNothing(lines[1..]);
    }
  }
}
