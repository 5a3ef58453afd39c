/** The questionnaire template: a tab-separated file whose cells are each
    wrapped in one delimiter character on either side. Row 0 holds the column
    roles (headers), row 1 the payloads (elements). Every header cell equal to
    "prompt" starts a question group; the element cells after it, up to the
    next group start, are the group's terms.
 */
module Template {
  import opened Js

  const PromptMarker: string := "prompt"

  datatype Template = Template(headers: seq<string>, elements: seq<string>)

  /** A file without a line break has no element row: `content.at(1)` is
      `undefined`. Nothing else is rejected. */
  datatype ParseResult = Parsed(template: Template) | NoElementRow

  /** `cell.slice(1, -1)`: drop the first and last character, whatever they
      are; a cell shorter than two characters becomes empty. */
  function Unwrap(cell: string): (r: string)
    ensures |cell| >= 2 ==> r == cell[1..|cell| - 1]
    ensures |cell| < 2 ==> r == ""
  {
    Slice(cell, 1, -1)
  }

  function UnwrapAll(cells: seq<string>): seq<string>
  {
    seq(|cells|, j requires 0 <= j < |cells| => Unwrap(cells[j]))
  }

  /** The whole file as rows of unwrapped cells: split on line breaks, each
      line on tabs. */
  function ParseRows(content: string): (rows: seq<seq<string>>)
    ensures |rows| == multiset(content)['\n'] + 1
    ensures forall i :: 0 <= i < |rows| ==> |rows[i]| >= 1
  {
    var lines := Split(content, '\n');
    SplitCount(content, '\n');
    seq(|lines|, i requires 0 <= i < |lines| => UnwrapAll(Split(lines[i], '\t')))
  }

  /** Row 0 becomes the headers and row 1 the elements; later rows are
      ignored. */
  function ParseQuestionnaire(content: string): (r: ParseResult)
    ensures r.Parsed? <==> '\n' in content
    ensures r.Parsed? ==> |r.template.headers| >= 1 && |r.template.elements| >= 1
  {
    var rows := ParseRows(content);
    if |rows| < 2 then NoElementRow else Parsed(Template(rows[0], rows[1]))
  }

  /** The cells of a parsed template never hold a tab or a line break: they
      were split on those. */
  lemma ParsedCellsClean(content: string)
    requires ParseQuestionnaire(content).Parsed?
    ensures CleanCells(ParseQuestionnaire(content).template.headers)
    ensures CleanCells(ParseQuestionnaire(content).template.elements)
  {
    var lines := Split(content, '\n');
    forall i | 0 <= i < |lines|
      ensures CleanCells(UnwrapAll(Split(lines[i], '\t')))
    {
      var cells := Split(lines[i], '\t');
      SplitAvoids(lines[i], '\t', '\n');
      forall j | 0 <= j < |cells|
        ensures '\t' !in Unwrap(cells[j]) && '\n' !in Unwrap(cells[j])
      {
        UnwrapWithin(cells[j]);
      }
    }
  }

  /** Unwrapping keeps only characters of the cell. */
  lemma UnwrapWithin(cell: string)
    ensures forall c :: c in Unwrap(cell) ==> c in cell
  {
    if |cell| >= 2 {
      forall c | c in Unwrap(cell)
        ensures c in cell
      {
        var k :| 0 <= k < |Unwrap(cell)| && Unwrap(cell)[k] == c;
        assert cell[k + 1] == c;
      }
    }
  }

  /** One cell written with arbitrary delimiter characters around it. */
  function Wrap(cell: string, open: char, close: char): string
  {
    [open] + cell + [close]
  }

  function WrapAll(cells: seq<string>, open: char, close: char): seq<string>
  {
    seq(|cells|, j requires 0 <= j < |cells| => Wrap(cells[j], open, close))
  }

  /** A template file with the given rows, whatever delimiters wrap the cells. */
  function Render(t: Template, open: char, close: char): string
  {
    Join([Join(WrapAll(t.headers, open, close), '\t'), Join(WrapAll(t.elements, open, close), '\t')], '\n')
  }

  predicate CleanCells(cells: seq<string>) {
    forall j :: 0 <= j < |cells| ==> '\t' !in cells[j] && '\n' !in cells[j]
  }

  lemma RowRoundTrip(cells: seq<string>, open: char, close: char)
    requires |cells| >= 1 && CleanCells(cells)
    requires open != '\t' && open != '\n' && close != '\t' && close != '\n'
    ensures '\n' !in Join(WrapAll(cells, open, close), '\t')
    ensures UnwrapAll(Split(Join(WrapAll(cells, open, close), '\t'), '\t')) == cells
  {
    var w := WrapAll(cells, open, close);
    forall j | 0 <= j < |w|
      ensures '\t' !in w[j] && '\n' !in w[j]
    {
      assert w[j] == [open] + cells[j] + [close];
    }
    JoinAvoids(w, '\t', '\n');
    SplitJoin(w, '\t');
    var u := UnwrapAll(w);
    forall j | 0 <= j < |cells|
      ensures u[j] == cells[j]
    {
      assert w[j][1..|w[j]| - 1] == cells[j];
    }
  }

  /** Parsing a rendered template gives the template back, whatever the
      delimiter characters were: they are dropped, never checked. */
  lemma ParseRender(t: Template, open: char, close: char)
    requires |t.headers| >= 1 && |t.elements| >= 1
    requires CleanCells(t.headers) && CleanCells(t.elements)
    requires open != '\t' && open != '\n' && close != '\t' && close != '\n'
    ensures ParseQuestionnaire(Render(t, open, close)) == Parsed(t)
  {
    RowRoundTrip(t.headers, open, close);
    RowRoundTrip(t.elements, open, close);
    var lines := [Join(WrapAll(t.headers, open, close), '\t'), Join(WrapAll(t.elements, open, close), '\t')];
    SplitJoin(lines, '\n');
    var rows := ParseRows(Render(t, open, close));
    assert rows[0] == t.headers;
    assert rows[1] == t.elements;
  }

  /** A file with a trailing line break or further lines after the element
      row parses to the same template: only lines 0 and 1 are read. */
  lemma ParseRenderWithMoreLines(t: Template, open: char, close: char, rest: string)
    requires |t.headers| >= 1 && |t.elements| >= 1
    requires CleanCells(t.headers) && CleanCells(t.elements)
    requires open != '\t' && open != '\n' && close != '\t' && close != '\n'
    ensures ParseQuestionnaire(Render(t, open, close) + "\n" + rest) == Parsed(t)
  {
    var h := Join(WrapAll(t.headers, open, close), '\t');
    var e := Join(WrapAll(t.elements, open, close), '\t');
    JoinTwoThenMore(h, e, rest, '\n');
    RowRoundTrip(t.headers, open, close);
    RowRoundTrip(t.elements, open, close);
    SplitAtFirstSeparator(h, e + ['\n'] + rest, '\n');
    SplitAtFirstSeparator(e, rest, '\n');
    var lines := Split(Render(t, open, close) + "\n" + rest, '\n');
    assert lines[0] == h && lines[1] == e;
  }

  predicate StrictlyAscending(s: seq<nat>) {
    forall a, b :: 0 <= a < b < |s| ==> s[a] < s[b]
  }

  /** The positions of the header cells equal to "prompt", in ascending
      order: one per question group. */
  function PromptStarts(headers: seq<string>): (r: seq<nat>)
    ensures StrictlyAscending(r)
    ensures forall k :: 0 <= k < |r| ==> r[k] < |headers| && headers[r[k]] == PromptMarker
    decreases |headers|
  {
    if |headers| == 0 then []
    else
      var n := |headers| - 1;
      var init := headers[..n];
      var prev := PromptStarts(init);
      assert headers == init + [headers[n]];
      assert forall k :: 0 <= k < |prev| ==> prev[k] < n && headers[prev[k]] == init[prev[k]];
      prev + (if headers[n] == PromptMarker then [n] else [])
  }

  /** Every header cell equal to "prompt" starts a group, and no other. */
  lemma {:induction false} PromptStartsExact(headers: seq<string>, i: nat)
    requires i < |headers|
    ensures i in PromptStarts(headers) <==> headers[i] == PromptMarker
    decreases |headers|
  {
    var n := |headers| - 1;
    var init := headers[..n];
    var prev := PromptStarts(init);
    assert PromptStarts(headers) == prev + (if headers[n] == PromptMarker then [n] else []);
    if i < n {
      PromptStartsExact(init, i);
      assert n !in prev;
    } else {
      assert n !in prev;
    }
  }

  /** There are as many groups as header cells equal to "prompt". */
  lemma {:induction false} PromptStartsCount(headers: seq<string>)
    ensures |PromptStarts(headers)| == multiset(headers)[PromptMarker]
    decreases |headers|
  {
    if |headers| > 0 {
      var n := |headers| - 1;
      var init := headers[..n];
      PromptStartsCount(init);
      PromptStartsSnoc(headers);
      MultisetSnoc(init, headers[n], PromptMarker);
      assert headers == init + [headers[n]];
    }
  }

  lemma PromptStartsSnoc(headers: seq<string>)
    requires |headers| > 0
    ensures |PromptStarts(headers)|
         == |PromptStarts(headers[..|headers| - 1])| + (if headers[|headers| - 1] == PromptMarker then 1 else 0)
  {
  }

  lemma MultisetSnoc<T>(s: seq<T>, x: T, y: T)
    ensures multiset(s + [x])[y] == multiset(s)[y] + (if x == y then 1 else 0)
  {
    assert multiset(s + [x]) == multiset(s) + multiset{x};
  }

  /** The scan over the header row, as the script writes it. */
  method FindPromptStarts(headers: seq<string>) returns (starts: seq<nat>)
    ensures starts == PromptStarts(headers)
  {
    starts := [];
    var i := 0;
    while i < |headers|
      invariant 0 <= i <= |headers|
      invariant starts == PromptStarts(headers[..i])
    {
      assert headers[..i + 1][..i] == headers[..i];
      if headers[i] == PromptMarker {
        starts := starts + [i];
      }
      i := i + 1;
    }
    assert headers[..|headers|] == headers;
  }

  /** `promptStarts[i + 1] ?? -1`: the next group's start, or -1 for the last
      group. */
  function EndBound(starts: seq<nat>, i: nat): int
    requires i < |starts|
  {
    if i + 1 < |starts| then starts[i + 1] else -1
  }

  /** `elements.slice(promptStarts[i] + 1, promptStarts[i + 1] ?? -1)`. */
  function GroupTerms(elements: seq<string>, starts: seq<nat>, i: nat): seq<string>
    requires i < |starts|
  {
    Slice(elements, starts[i] + 1, EndBound(starts, i))
  }

  /** A value handed to the chat session: a text, or JavaScript's `undefined`
      (what `elements.at(k)` gives when k lies past the end of the row). */
  datatype Prompt = Text(text: string) | Undefined

  /** `elements.at(k)` for a non-negative index. */
  function At(elements: seq<string>, k: nat): Prompt
  {
    if k < |elements| then Text(elements[k]) else Undefined
  }

  /** One question group: its prompt cell and its terms. A group with no
      terms is a free-text question; otherwise it is enumerable. */
  datatype Group = Group(prompt: Prompt, terms: seq<string>)

  /** The groups of a template, one per group start, in order. */
  function Groups(elements: seq<string>, starts: seq<nat>): (gs: seq<Group>)
    ensures |gs| == |starts|
    // an enumerable group always has a defined prompt cell
    ensures forall i :: 0 <= i < |gs| && gs[i].terms != [] ==> gs[i].prompt.Text?
  {
    seq(|starts|, i requires 0 <= i < |starts| => Group(At(elements, starts[i]), GroupTerms(elements, starts, i)))
  }

  /** Term k of group i is element cell `starts[i] + 1 + k`, the terms stop
      before the next group's start, and the last group's terms stop before
      the final element cell. */
  lemma GroupTermsAreCells(elements: seq<string>, starts: seq<nat>, i: nat)
    requires i < |starts|
    ensures var terms := GroupTerms(elements, starts, i);
      && (forall k :: 0 <= k < |terms| ==> starts[i] + 1 + k < |elements| && terms[k] == elements[starts[i] + 1 + k])
      && (i + 1 < |starts| ==> starts[i] + 1 + |terms| <= starts[i + 1] || terms == [])
      && (i + 1 == |starts| ==> starts[i] + 1 + |terms| <= |elements| - 1 || terms == [])
  {
  }

  /** A group that is not last takes every cell strictly between its start and
      the next start, both clamped to the element row: a row that ends before
      the next start gives the group every remaining cell. */
  lemma InnerGroupTerms(elements: seq<string>, starts: seq<nat>, i: nat)
    requires i + 1 < |starts|
    requires starts[i] < starts[i + 1]
    ensures GroupTerms(elements, starts, i) == elements[Clamp(starts[i] + 1, |elements|)..Clamp(starts[i + 1], |elements|)]
    ensures starts[i] + 1 <= |elements| <= starts[i + 1] ==> GroupTerms(elements, starts, i) == elements[starts[i] + 1..]
  {
  }

  /** The least of `k` and `len`. */
  function Clamp(k: nat, len: nat): (r: nat)
    ensures r <= len && r <= k && (r == k || r == len)
  {
    if k < len then k else len
  }

  /** The last group takes the cells after its start except the final one. */
  lemma LastGroupTerms(elements: seq<string>, starts: seq<nat>, i: nat)
    requires i + 1 == |starts|
    ensures starts[i] + 1 <= |elements| - 1 ==> GroupTerms(elements, starts, i) == elements[starts[i] + 1..|elements| - 1]
    ensures starts[i] + 1 >= |elements| - 1 ==> GroupTerms(elements, starts, i) == []
  {
  }

  /** In a template whose element row is as long as its header row, no group
      ever takes the final element cell as a term. */
  lemma FinalCellNeverTerm(t: Template, i: nat, k: nat)
    requires |t.elements| == |t.headers|
    requires i < |PromptStarts(t.headers)|
    requires k < |GroupTerms(t.elements, PromptStarts(t.headers), i)|
    ensures PromptStarts(t.headers)[i] + 1 + k < |t.elements| - 1
  {
    var starts := PromptStarts(t.headers);
    GroupTermsAreCells(t.elements, starts, i);
  }

  /** Groups starting at 2, 5 and 9 of a 12-cell element row: the last group
      takes cells 10 only, not 10 and 11. */
  lemma TwelveCellExample(elements: seq<string>)
    requires |elements| == 12
    ensures GroupTerms(elements, [2, 5, 9], 0) == elements[3..5]
    ensures GroupTerms(elements, [2, 5, 9], 1) == elements[6..9]
    ensures GroupTerms(elements, [2, 5, 9], 2) == elements[10..11]
  {
  }
}
