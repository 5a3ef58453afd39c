/** Answer cells and the extraction policy for enumerable questions: the value
    of an answer is the first maximal run of ASCII digits in the generated text
    (`Number(answer.match(/\d+/gi)?.[0])`), and `NaN` when there is none.
 */
module Answers {
  import Js

  /** One cell of a result row: text (the transcript name, a spacer, a
      free-text answer, a template cell), a decimal number, or `NaN`. */
  datatype Cell = Str(text: string) | Num(value: nat) | NaN

  /** `\d` in a JavaScript regular expression without the `u` flag. */
  predicate IsDigit(c: char) {
    '0' <= c <= '9'
  }

  predicate AllDigits(s: string) {
    forall k :: 0 <= k < |s| ==> IsDigit(s[k])
  }

  predicate NoDigits(s: string) {
    forall k :: 0 <= k < |s| ==> !IsDigit(s[k])
  }

  function DigitValue(c: char): nat
    requires IsDigit(c)
  {
    (c as int) - ('0' as int)
  }

  function DigitChar(d: nat): (c: char)
    requires d < 10
    ensures IsDigit(c) && DigitValue(c) == d
  {
    (('0' as int) + d) as char
  }

  /** The value of a string of decimal digits, most significant first; leading
      zeros contribute nothing. */
  function DecimalValue(ds: string): nat
    requires AllDigits(ds)
    decreases |ds|
  {
    if |ds| == 0 then 0
    else 10 * DecimalValue(ds[..|ds| - 1]) + DigitValue(ds[|ds| - 1])
  }

  /** The decimal text of a natural number (what `Array#join` prints for it). */
  function Decimal(n: nat): (r: string)
    ensures |r| >= 1 && AllDigits(r)
    ensures DecimalValue(r) == n
    // no leading zero: the text of 0 is exactly "0"
    ensures r[0] == '0' ==> n == 0 && r == "0"
    decreases n
  {
    if n < 10 then [DigitChar(n)]
    else
      var prefix := Decimal(n / 10);
      var r := prefix + [DigitChar(n % 10)];
      assert r[..|r| - 1] == prefix;
      r
  }

  /** The index of the first digit at or after `i`, or `|s|` if none. */
  function FirstDigitFrom(s: string, i: nat): (j: nat)
    requires i <= |s|
    ensures i <= j <= |s|
    ensures forall k :: i <= k < j ==> !IsDigit(s[k])
    ensures j < |s| ==> IsDigit(s[j])
    decreases |s| - i
  {
    if i == |s| || IsDigit(s[i]) then i else FirstDigitFrom(s, i + 1)
  }

  /** The end of the run of digits that starts at `i`. */
  function RunEndFrom(s: string, i: nat): (j: nat)
    requires i <= |s|
    ensures i <= j <= |s|
    ensures forall k :: i <= k < j ==> IsDigit(s[k])
    ensures j < |s| ==> !IsDigit(s[j])
    decreases |s| - i
  {
    if i == |s| || !IsDigit(s[i]) then i else RunEndFrom(s, i + 1)
  }

  /** `s[i..j]` is the first maximal run of digits in `s`. */
  ghost predicate FirstRun(s: string, i: int, j: int) {
    && 0 <= i < j <= |s|
    && NoDigits(s[..i])
    && AllDigits(s[i..j])
    && (j == |s| || !IsDigit(s[j]))
  }

  /** `Number(answer.match(/\d+/gi)?.[0])`: the value of the first maximal digit
      run, or `NaN` when the answer holds no digit at all. Never a text cell. */
  function Extract(answer: string): (r: Cell)
    ensures !r.Str?
    ensures r.NaN? <==> NoDigits(answer)
    ensures r.Num? ==> exists i, j :: FirstRun(answer, i, j) && r.value == DecimalValue(answer[i..j])
  {
    var i := FirstDigitFrom(answer, 0);
    if i == |answer| then
      NaN
    else
      var j := RunEndFrom(answer, i + 1);
      assert FirstRun(answer, i, j);
      Num(DecimalValue(answer[i..j]))
  }

  /** Conversely, whatever the first maximal run is, Extract reads exactly it. */
  lemma ExtractReadsFirstRun(s: string, i: int, j: int)
    requires FirstRun(s, i, j)
    ensures Extract(s) == Num(DecimalValue(s[i..j]))
  {
    assert IsDigit(s[i]);
    assert forall k :: 0 <= k < i ==> !IsDigit(s[..i][k]);
    assert FirstDigitFrom(s, 0) == i;
    forall k | i <= k < j
      ensures IsDigit(s[k])
    {
      assert s[k] == s[i..j][k - i];
    }
    assert RunEndFrom(s, i + 1) == j;
  }

  /** Zeros in front of a digit string do not change its value. */
  lemma {:induction false} LeadingZeros(zeros: string, ds: string)
    requires forall k :: 0 <= k < |zeros| ==> zeros[k] == '0'
    requires AllDigits(ds)
    ensures AllDigits(zeros + ds)
    ensures DecimalValue(zeros + ds) == DecimalValue(ds)
    decreases |ds|
  {
    var s := zeros + ds;
    if |ds| == 0 {
      assert s == zeros;
      AllZeros(zeros);
    } else {
      var init := ds[..|ds| - 1];
      LeadingZeros(zeros, init);
      assert s[..|s| - 1] == zeros + init;
    }
  }

  lemma {:induction false} AllZeros(zeros: string)
    requires forall k :: 0 <= k < |zeros| ==> zeros[k] == '0'
    ensures AllDigits(zeros)
    ensures DecimalValue(zeros) == 0
    decreases |zeros|
  {
    if |zeros| > 0 {
      AllZeros(zeros[..|zeros| - 1]);
    }
  }

  /** Extracting from a number's decimal text, surrounded by digit-free text
      and optionally padded with leading zeros, gives the number back. */
  lemma ExtractDecimal(pre: string, zeros: string, n: nat, post: string)
    requires NoDigits(pre)
    requires forall k :: 0 <= k < |zeros| ==> zeros[k] == '0'
    requires post == [] || !IsDigit(post[0])
    ensures Extract(pre + zeros + Decimal(n) + post) == Num(n)
  {
    var d := zeros + Decimal(n);
    LeadingZeros(zeros, Decimal(n));
    RunBetween(pre, d, post);
    ExtractReadsFirstRun(pre + d + post, |pre|, |pre| + |d|);
    Js.AppendAssoc(pre, zeros, Decimal(n));
  }

  /** A digit string between digit-free text and a non-digit is the first
      maximal run. */
  lemma RunBetween(pre: string, d: string, post: string)
    requires NoDigits(pre) && |d| >= 1 && AllDigits(d)
    requires post == [] || !IsDigit(post[0])
    ensures FirstRun(pre + d + post, |pre|, |pre| + |d|)
    ensures (pre + d + post)[|pre|..|pre| + |d|] == d
  {
    var s := pre + d + post;
    var i, j := |pre|, |pre| + |d|;
    assert s[..i] == pre;
    assert s[i..j] == d;
    assert j == |s| || s[j] == post[0];
  }
}
