/** The few JavaScript built-ins the experiment script relies on, with their
    exact ECMAScript behaviour: `slice` on arrays and strings (negative indices
    count from the end, out-of-range indices are clamped), `String#split` with a
    one-character separator and `Array#join`; together with the plain string
    and sequence facts the rest of the model builds on (suffixes, cutting and
    regrouping concatenations).
 */
module Js {

  /** The index normalisation shared by `Array#slice` and `String#slice`: a
      negative index counts back from the end, and the result is clamped to
      `[0, len]`. */
  function RelativeIndex(k: int, len: nat): (r: nat)
    ensures r <= len
  {
    if k < 0 then (if len + k < 0 then 0 else len + k)
    else if k > len then len
    else k
  }

  /** `s.slice(start, end)`. */
  function Slice<T>(s: seq<T>, start: int, end: int): (r: seq<T>)
    ensures |r| <= |s|
    // in-range bounds behave like an ordinary subsequence
    ensures 0 <= start <= end <= |s| ==> r == s[start..end]
    // an end past the length is clamped to the length
    ensures 0 <= start <= |s| <= end ==> r == s[start..]
    // a negative end counts back from the end
    ensures 0 <= start && end < 0 && start <= |s| + end ==> r == s[start..|s| + end]
    // a negative start counts back from the end, and one reaching past the front is clamped to 0
    ensures -|s| <= start < 0 && |s| + start <= end <= |s| ==> r == s[|s| + start..end]
    ensures start < -|s| && 0 <= end <= |s| ==> r == s[..end]
    // both bounds negative: both count from the end
    ensures -|s| <= start < 0 && end < 0 && start <= end ==> r == s[|s| + start..|s| + end]
    // an empty or inverted range, or a start past the end, yields nothing
    ensures 0 <= end <= start || |s| <= start || (end < 0 && |s| + end <= start) ==> r == []
    ensures 0 <= start && r != [] ==> start + |r| <= |s|
  {
    var from := RelativeIndex(start, |s|);
    var to := RelativeIndex(end, |s|);
    if from < to then s[from..to] else []
  }

  /** `parts.join(sep)` for a one-character separator. */
  function Join(parts: seq<string>, sep: char): string
  {
    if |parts| == 0 then ""
    else if |parts| == 1 then parts[0]
    else parts[0] + [sep] + Join(parts[1..], sep)
  }

  /** `s.split(sep)` for a one-character separator: at least one piece, and no
      piece contains the separator. */
  function Split(s: string, sep: char): (r: seq<string>)
    ensures |r| >= 1
    ensures forall i :: 0 <= i < |r| ==> sep !in r[i]
    decreases |s|
  {
    if |s| == 0 then [""]
    else
      var rest := Split(s[1..], sep);
      assert s == [s[0]] + s[1..];
      if s[0] == sep then [""] + rest
      else [[s[0]] + rest[0]] + rest[1..]
  }

  /** Joining the pieces of a split gives back the original string. */
  lemma {:induction false} JoinSplit(s: string, sep: char)
    ensures Join(Split(s, sep), sep) == s
    decreases |s|
  {
    if |s| > 0 {
      var rest := Split(s[1..], sep);
      assert Join(Split(s, sep), sep) == [s[0]] + Join(rest, sep) by {
        if s[0] == sep {
          assert ([""] + rest)[1..] == rest;
        } else {
          JoinPrepend(rest, [s[0]], sep);
        }
      }
      JoinSplit(s[1..], sep);
      assert s == [s[0]] + s[1..];
    }
  }

  /** Extending the first piece extends the joined string at the front. */
  lemma JoinPrepend(parts: seq<string>, pre: string, sep: char)
    requires |parts| >= 1
    ensures Join([pre + parts[0]] + parts[1..], sep) == pre + Join(parts, sep)
  {
    var ps := [pre + parts[0]] + parts[1..];
    assert ps[1..] == parts[1..];
    if |parts| > 1 {
      AppendAssoc(pre, parts[0] + [sep], Join(parts[1..], sep));
      AppendAssoc(pre, parts[0], [sep]);
      AppendAssoc(pre + parts[0], [sep], Join(parts[1..], sep));
      AppendAssoc(parts[0], [sep], Join(parts[1..], sep));
    }
  }

  /** Two joined pieces followed by a separator and more text. */
  lemma JoinTwoThenMore(a: string, b: string, rest: string, sep: char)
    ensures Join([a, b], sep) + [sep] + rest == a + [sep] + (b + [sep] + rest)
  {
    assert [a, b][1..] == [b];
    AppendAssoc(a + [sep], b, [sep]);
    AppendAssoc(a + [sep], b + [sep], rest);
  }

  /** There is one piece more than there are separators. */
  lemma {:induction false} SplitCount(s: string, sep: char)
    ensures |Split(s, sep)| == multiset(s)[sep] + 1
    decreases |s|
  {
    if |s| > 0 {
      SplitCount(s[1..], sep);
      assert s == [s[0]] + s[1..];
      assert multiset(s) == multiset{s[0]} + multiset(s[1..]);
    }
  }

  /** A separator-free string is a single piece. */
  lemma {:induction false} SplitWithoutSeparator(p: string, sep: char)
    requires sep !in p
    ensures Split(p, sep) == [p]
    decreases |p|
  {
    if |p| > 0 {
      assert sep !in p[1..];
      SplitWithoutSeparator(p[1..], sep);
      assert p == [p[0]] + p[1..];
    }
  }

  /** Splitting stops at the first separator. */
  lemma {:induction false} SplitAtFirstSeparator(p: string, t: string, sep: char)
    requires sep !in p
    ensures Split(p + [sep] + t, sep) == [p] + Split(t, sep)
    decreases |p|
  {
    var s := p + [sep] + t;
    if |p| == 0 {
      assert s[1..] == t;
    } else {
      assert s[1..] == p[1..] + [sep] + t;
      SplitAtFirstSeparator(p[1..], t, sep);
      assert [s[0]] + p[1..] == p;
    }
  }

  /** Split undoes Join whenever no piece contains the separator. */
  lemma {:induction false} SplitJoin(parts: seq<string>, sep: char)
    requires |parts| >= 1
    requires forall i :: 0 <= i < |parts| ==> sep !in parts[i]
    ensures Split(Join(parts, sep), sep) == parts
    decreases |parts|
  {
    if |parts| == 1 {
      SplitWithoutSeparator(parts[0], sep);
    } else {
      SplitJoin(parts[1..], sep);
      SplitAtFirstSeparator(parts[0], Join(parts[1..], sep), sep);
    }
  }

  /** A character that is neither the separator nor in any piece is not in the
      joined string. */
  lemma {:induction false} JoinAvoids(parts: seq<string>, sep: char, c: char)
    requires c != sep
    requires forall i :: 0 <= i < |parts| ==> c !in parts[i]
    ensures c !in Join(parts, sep)
    decreases |parts|
  {
    if |parts| > 1 {
      JoinAvoids(parts[1..], sep, c);
    }
  }

  /** Appending a piece appends a separator and the piece. */
  lemma {:induction false} JoinSnoc(parts: seq<string>, p: string, sep: char)
    requires |parts| >= 1
    ensures Join(parts + [p], sep) == Join(parts, sep) + [sep] + p
    decreases |parts|
  {
    if |parts| == 1 {
      assert (parts + [p])[1..] == [p];
    } else {
      JoinSnoc(parts[1..], p, sep);
      assert (parts + [p])[1..] == parts[1..] + [p];
    }
  }

  /** A character absent from the string is absent from every piece. */
  lemma {:induction false} SplitAvoids(s: string, sep: char, c: char)
    requires c !in s
    ensures forall i :: 0 <= i < |Split(s, sep)| ==> c !in Split(s, sep)[i]
    decreases |s|
  {
    if |s| > 0 {
      assert c !in s[1..];
      SplitAvoids(s[1..], sep, c);
    }
  }

  /** `s` ends with `suffix`. */
  predicate EndsWith(s: string, suffix: string) {
    |suffix| <= |s| && s[|s| - |suffix|..] == suffix
  }

  /** Cutting the right operand of an append at `n`. */
  lemma AppendSplit<T>(x: seq<T>, y: seq<T>, n: nat)
    requires n <= |y|
    ensures x + y == (x + y[..n]) + y[n..]
  {
    assert y == y[..n] + y[n..];
  }

  lemma AppendAssoc<T>(p: seq<T>, q: seq<T>, r: seq<T>)
    ensures (p + q) + r == p + (q + r)
  {
  }
}
