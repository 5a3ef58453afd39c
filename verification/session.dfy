/** One transcript's question battery: the prompts issued to the chat session,
    in group order and then term order, and the result row assembled from the
    answers. The language model is an oracle: given the session's context
    (model, sampling seed, transcript text in the system prompt) and every
    prompt issued in this session so far, it yields the text generated for the
    last prompt (the session's carried history is what lets an answer depend
    on earlier prompts).
 */
module Session {
  import opened Js
  import opened Answers
  import opened Template

  /** Joins the group's prompt text to its first term. */
  const Connective: string := "Der erste Begriff ist: "

  /** What a chat session is created from: the loaded model, the context's
      seed and the transcript text the system prompt carries. */
  datatype Context = Context(model: string, seed: nat, chatlog: string)

  type Oracle = (Context, seq<Prompt>) -> string

  /** String concatenation's view of a prompt cell: `undefined` reads as
      "undefined". */
  function JsText(p: Prompt): string
  {
    match p
    case Text(s) => s
    case Undefined => "undefined"
  }

  /** The prompts of one group: the bare prompt cell for a free-text group; for
      an enumerable group one prompt per term. */
  function GroupPrompts(g: Group): (r: seq<Prompt>)
    ensures |r| == if g.terms == [] then 1 else |g.terms|
  {
    if g.terms == [] then
      [g.prompt]
    else
      seq(|g.terms|, k requires 0 <= k < |g.terms| =>
        if g.terms[k] == g.terms[0] then Prompt.Text(JsText(g.prompt) + Connective + g.terms[k])
        else Prompt.Text(g.terms[k]))
  }

  /** A free-text group sends its prompt cell verbatim. In an enumerable group,
      the first term and every term equal to it are preceded by the prompt cell
      and the connective, any other term is sent alone, and every prompt ends
      with its term. */
  lemma GroupPromptsShape(g: Group)
    requires g.terms != [] ==> g.prompt.Text?
    ensures var r := GroupPrompts(g);
      && (g.terms == [] ==> r == [g.prompt])
      && (g.terms != [] ==> r[0] == Prompt.Text(g.prompt.text + Connective + g.terms[0]))
      && (forall k :: 0 <= k < |g.terms| ==> r[k].Text? && EndsWith(r[k].text, g.terms[k]))
      && (forall k :: 0 <= k < |g.terms| && g.terms[k] == g.terms[0] ==>
            r[k] == Prompt.Text(g.prompt.text + Connective + g.terms[k]))
      && (forall k :: 0 <= k < |g.terms| && g.terms[k] != g.terms[0] ==> r[k] == Prompt.Text(g.terms[k]))
  {
    var r := GroupPrompts(g);
    forall k | 0 <= k < |g.terms|
      ensures r[k].Text? && EndsWith(r[k].text, g.terms[k])
    {
      var t := r[k].text;
      if g.terms[k] == g.terms[0] {
        assert t == g.prompt.text + Connective + g.terms[k];
        assert t[|t| - |g.terms[k]|..] == g.terms[k];
      } else {
        assert t == g.terms[k];
        assert t[|t| - |g.terms[k]|..] == t;
      }
    }
  }

  /** Every prompt a session receives, group after group. */
  function Prompts(groups: seq<Group>): seq<Prompt>
    decreases |groups|
  {
    if |groups| == 0 then []
    else Prompts(groups[..|groups| - 1]) + GroupPrompts(groups[|groups| - 1])
  }

  /** The answers a session yields: answer k is generated after prompt k, with
      every earlier prompt in the session's context. */
  function Converse(oracle: Oracle, ctx: Context, prompts: seq<Prompt>): seq<string>
  {
    seq(|prompts|, k requires 0 <= k < |prompts| => oracle(ctx, prompts[..k + 1]))
  }

  /** The cell an answer becomes: verbatim for a free-text group, its
      extracted value otherwise. */
  function AnswerCell(g: Group, answer: string): Cell
  {
    if g.terms == [] then Str(answer) else Extract(answer)
  }

  /** The cells one group adds to the row: a spacer, then one cell per answer. */
  function GroupCells(g: Group, answers: seq<string>): seq<Cell>
  {
    [Str("")] + seq(|answers|, k requires 0 <= k < |answers| => AnswerCell(g, answers[k]))
  }

  /** The cells of all groups. */
  function Cells(groups: seq<Group>, answers: seq<string>): seq<Cell>
    requires |answers| == |Prompts(groups)|
    decreases |groups|
  {
    if |groups| == 0 then []
    else
      var n := |Prompts(groups[..|groups| - 1])|;
      Cells(groups[..|groups| - 1], answers[..n]) + GroupCells(groups[|groups| - 1], answers[n..])
  }

  /** A transcript's row: its name, then every group's cells. */
  function Row(name: string, groups: seq<Group>, answers: seq<string>): seq<Cell>
    requires |answers| == |Prompts(groups)|
  {
    [Str(name)] + Cells(groups, answers)
  }

  /** The row one transcript's session produces. */
  function TranscriptRow(ctx: Context, groups: seq<Group>, name: string, oracle: Oracle): seq<Cell>
  {
    Row(name, groups, Converse(oracle, ctx, Prompts(groups)))
  }

  lemma ConverseSnoc(oracle: Oracle, ctx: Context, prompts: seq<Prompt>, p: Prompt)
    ensures Converse(oracle, ctx, prompts + [p]) == Converse(oracle, ctx, prompts) + [oracle(ctx, prompts + [p])]
  {
    var ps := prompts + [p];
    var long := Converse(oracle, ctx, ps);
    var short := Converse(oracle, ctx, prompts);
    forall k | 0 <= k < |prompts|
      ensures long[k] == short[k]
    {
      assert ps[..k + 1] == prompts[..k + 1];
    }
    assert ps[..|ps|] == ps;
  }

  /** The questions of one group, asked in the session that has already
      received `before`: a spacer, then one prompt and one extracted answer
      per term, or a single prompt and a verbatim answer for a free-text
      group. */
  method AskGroup(oracle: Oracle, ctx: Context, prompt: Prompt, terms: seq<string>, before: seq<Prompt>)
    returns (cells: seq<Cell>, issued: seq<Prompt>)
    requires terms != [] ==> prompt.Text?
    ensures issued == before + GroupPrompts(Group(prompt, terms))
    ensures cells == GroupCells(Group(prompt, terms), Converse(oracle, ctx, issued)[|before|..])
  {
    ghost var g := Group(prompt, terms);
    ghost var gp := GroupPrompts(g);
    cells := [Str("")];
    issued := before;
    if |terms| > 0 {
      ghost var answers: seq<string> := [];
      var j := 0;
      while j < |terms|
        invariant 0 <= j <= |terms|
        invariant issued == before + gp[..j]
        invariant |answers| == j
        invariant Converse(oracle, ctx, issued)[|before|..] == answers
        invariant cells == GroupCells(g, answers)
      {
        var term := terms[j];
        var p := if term == terms[0] then Prompt.Text(prompt.text + Connective + term) else Prompt.Text(term);
        assert gp[..j + 1] == gp[..j] + [p];
        ConverseSnoc(oracle, ctx, issued, p);
        issued := issued + [p];
        var answer := oracle(ctx, issued);
        answers := answers + [answer];
        cells := cells + [Extract(answer)];
        j := j + 1;
      }
      assert gp[..j] == gp;
    } else {
      ConverseSnoc(oracle, ctx, issued, prompt);
      issued := issued + [prompt];
      var answer := oracle(ctx, issued);
      cells := cells + [Str(answer)];
      assert Converse(oracle, ctx, issued)[|before|..] == [answer];
    }
  }

  /** Answers given earlier in a session do not change as it goes on. */
  lemma ConversePrefix(oracle: Oracle, ctx: Context, a: seq<Prompt>, b: seq<Prompt>)
    ensures Converse(oracle, ctx, a + b)[..|a|] == Converse(oracle, ctx, a)
  {
    var ab := a + b;
    var long := Converse(oracle, ctx, ab);
    var short := Converse(oracle, ctx, a);
    forall k | 0 <= k < |a|
      ensures long[k] == short[k]
    {
      assert ab[..k + 1] == a[..k + 1];
    }
  }

  /** The session loop of one transcript, as the script runs it: one group
      after another, every group's questions in the same session. */
  method RunTranscript(ctx: Context, elements: seq<string>, starts: seq<nat>, name: string, oracle: Oracle)
    returns (row: seq<Cell>, issued: seq<Prompt>)
    ensures issued == Prompts(Groups(elements, starts))
    ensures row == TranscriptRow(ctx, Groups(elements, starts), name, oracle)
  {
    ghost var groups := Groups(elements, starts);
    row := [Str(name)];
    issued := [];
    var i := 0;
    while i < |starts|
      invariant 0 <= i <= |starts|
      invariant issued == Prompts(groups[..i])
      invariant row == Row(name, groups[..i], Converse(oracle, ctx, issued))
    {
      var prompt := At(elements, starts[i]);
      var terms := Slice(elements, starts[i] + 1, if i + 1 < |starts| then starts[i + 1] else -1);
      assert groups[i] == Group(prompt, terms);
      ghost var before := issued;
      var cells;
      cells, issued := AskGroup(oracle, ctx, prompt, terms, issued);
      row := row + cells;
      TranscriptStep(name, oracle, ctx, groups, i, before, issued);
      i := i + 1;
    }
    assert groups[..i] == groups;
  }

  /** One pass of the session loop, over the groups before i and then group
      i. */
  lemma TranscriptStep(name: string, oracle: Oracle, ctx: Context, groups: seq<Group>, i: nat,
                       before: seq<Prompt>, after: seq<Prompt>)
    requires i < |groups|
    requires before == Prompts(groups[..i])
    requires after == before + GroupPrompts(groups[i])
    ensures after == Prompts(groups[..i + 1])
    ensures Row(name, groups[..i + 1], Converse(oracle, ctx, after))
         == Row(name, groups[..i], Converse(oracle, ctx, before)) + GroupCells(groups[i], Converse(oracle, ctx, after)[|before|..])
  {
    var answers := Converse(oracle, ctx, after);
    ConversePrefix(oracle, ctx, before, GroupPrompts(groups[i]));
    assert groups[..i + 1] == groups[..i] + [groups[i]];
    assert answers == answers[..|before|] + answers[|before|..];
    GroupStep(name, groups[..i], groups[i], answers[..|before|], answers[|before|..]);
  }

  /** One step of the session loop: adding a group extends the prompts by the
      group's prompts and the row by the group's cells. */
  lemma GroupStep(name: string, pre: seq<Group>, g: Group, x: seq<string>, y: seq<string>)
    requires |x| == |Prompts(pre)| && |y| == |GroupPrompts(g)|
    ensures Prompts(pre + [g]) == Prompts(pre) + GroupPrompts(g)
    ensures |x + y| == |Prompts(pre + [g])|
    ensures Row(name, pre + [g], x + y) == Row(name, pre, x) + GroupCells(g, y)
  {
    CellsSnoc(pre, g, x, y);
    AppendAssoc([Str(name)], Cells(pre, x), GroupCells(g, y));
  }

  lemma {:induction false} PromptsAppend(a: seq<Group>, b: seq<Group>)
    ensures Prompts(a + b) == Prompts(a) + Prompts(b)
    decreases |b|
  {
    if |b| > 0 {
      var ab := a + b;
      var b' := b[..|b| - 1];
      var gp := GroupPrompts(b[|b| - 1]);
      assert ab[..|ab| - 1] == a + b';
      assert ab[|ab| - 1] == b[|b| - 1];
      assert Prompts(ab) == Prompts(a + b') + gp;
      assert Prompts(b) == Prompts(b') + gp;
      PromptsAppend(a, b');
    } else {
      assert a + b == a;
    }
  }

  lemma {:induction false} CellsAppend(a: seq<Group>, b: seq<Group>, x: seq<string>, y: seq<string>)
    requires |x| == |Prompts(a)| && |y| == |Prompts(b)|
    ensures |x + y| == |Prompts(a + b)|
    ensures Cells(a + b, x + y) == Cells(a, x) + Cells(b, y)
    decreases |b|
  {
    PromptsAppend(a, b);
    if |b| > 0 {
      var b' := b[..|b| - 1];
      var n := |Prompts(b')|;
      CellsStep(a, b, x, y);
      CellsAppend(a, b', x, y[..n]);
      Js.AppendAssoc(Cells(a, x), Cells(b', y[..n]), GroupCells(b[|b| - 1], y[n..]));
    } else {
      assert a + b == a;
      assert y == [];
      assert x + y == x;
    }
  }

  /** The inductive step of CellsAppend: peeling the last group off `b`. */
  lemma CellsStep(a: seq<Group>, b: seq<Group>, x: seq<string>, y: seq<string>)
    requires |b| > 0
    requires |x| == |Prompts(a)| && |y| == |Prompts(b)|
    ensures var b', n := b[..|b| - 1], |Prompts(b[..|b| - 1])|;
      && n <= |y|
      && |x + y| == |Prompts(a + b)|
      && |x + y[..n]| == |Prompts(a + b')|
      && Cells(b, y) == Cells(b', y[..n]) + GroupCells(b[|b| - 1], y[n..])
      && Cells(a + b, x + y) == Cells(a + b', x + y[..n]) + GroupCells(b[|b| - 1], y[n..])
  {
    var b' := b[..|b| - 1];
    var last := b[|b| - 1];
    var n := |Prompts(b')|;
    var y1, y2 := y[..n], y[n..];
    PromptsAppend(a, b);
    PromptsAppend(a, b');
    Js.AppendSplit(a, b, |b| - 1);
    Js.AppendSplit(x, y, n);
    Js.AppendSplit([], b, |b| - 1);
    Js.AppendSplit([], y, n);
    CellsSnoc(a + b', last, x + y1, y2);
  }

  /** Appending a group appends its cells, cut from the answers after those of
      the groups before it. */
  lemma CellsSnoc(pre: seq<Group>, g: Group, x: seq<string>, y: seq<string>)
    requires |x| == |Prompts(pre)| && |y| == |GroupPrompts(g)|
    ensures Prompts(pre + [g]) == Prompts(pre) + GroupPrompts(g)
    ensures Cells(pre + [g], x + y) == Cells(pre, x) + GroupCells(g, y)
  {
    var pg := pre + [g];
    var xy := x + y;
    assert pg[..|pre|] == pre;
    assert xy[..|x|] == x;
    assert xy[|x|..] == y;
  }

  lemma {:induction false} CellsLength(groups: seq<Group>, answers: seq<string>)
    requires |answers| == |Prompts(groups)|
    ensures |Cells(groups, answers)| == |groups| + |answers|
    decreases |groups|
  {
    if |groups| > 0 {
      var n := |Prompts(groups[..|groups| - 1])|;
      CellsLength(groups[..|groups| - 1], answers[..n]);
    }
  }

  /** A row holds its name, one spacer per group and one cell per prompt. */
  lemma RowLength(name: string, groups: seq<Group>, answers: seq<string>)
    requires |answers| == |Prompts(groups)|
    ensures |Row(name, groups, answers)| == 1 + |groups| + |Prompts(groups)|
  {
    CellsLength(groups, answers);
  }

  /** The prompts of a group between others: those of the groups before it,
      its own, then those of the groups after it. */
  lemma PromptsAround(pre: seq<Group>, g: Group, post: seq<Group>)
    ensures Prompts(pre + [g] + post) == Prompts(pre) + GroupPrompts(g) + Prompts(post)
  {
    PromptsAppend(pre + [g], post);
    PromptsAppend(pre, [g]);
    assert [g][..0] == [];
  }

  /** Likewise for the cells, with the answers cut at the same places. */
  lemma CellsAround(pre: seq<Group>, g: Group, post: seq<Group>, x: seq<string>, y: seq<string>, z: seq<string>)
    requires |x| == |Prompts(pre)| && |y| == |GroupPrompts(g)| && |z| == |Prompts(post)|
    ensures |x + y + z| == |Prompts(pre + [g] + post)|
    ensures |Cells(pre, x)| == |pre| + |x|
    ensures Cells(pre + [g] + post, x + y + z) == Cells(pre, x) + GroupCells(g, y) + Cells(post, z)
  {
    PromptsAround(pre, g, post);
    assert Prompts([g]) == GroupPrompts(g) by {
      assert [g][..0] == [];
    }
    CellsAppend(pre, [g], x, y);
    CellsAppend(pre + [g], post, x + y, z);
    assert Cells([g], y) == GroupCells(g, y) by {
      assert [g][..0] == [];
      assert y[..0] == [];
      assert y[0..] == y;
    }
    CellsLength(pre, x);
  }

  /** Prompt order is group order, then term order: for a group g that follows
      the groups `pre`, whose prompts got the answers x, prompt k of g is
      prompt `|x| + k` of the session and its answer is `y[k]`. */
  lemma PromptLayout(pre: seq<Group>, g: Group, post: seq<Group>,
                     x: seq<string>, y: seq<string>, z: seq<string>, k: nat)
    requires |x| == |Prompts(pre)| && |y| == |GroupPrompts(g)| && |z| == |Prompts(post)|
    requires k < |y|
    ensures |x + y + z| == |Prompts(pre + [g] + post)|
    ensures Prompts(pre + [g] + post)[|x| + k] == GroupPrompts(g)[k]
    ensures (x + y + z)[|x| + k] == y[k]
  {
    PromptsAround(pre, g, post);
  }

  /** Column order mirrors prompt order: that answer `y[k]` lands in row cell
      `2 + |pre| + |x| + k`, right after the group's spacer at
      `1 + |pre| + |x|`, verbatim for a free-text group and extracted
      otherwise. */
  lemma RowLayout(name: string, pre: seq<Group>, g: Group, post: seq<Group>,
                  x: seq<string>, y: seq<string>, z: seq<string>, k: nat)
    requires |x| == |Prompts(pre)| && |y| == |GroupPrompts(g)| && |z| == |Prompts(post)|
    requires k < |y|
    ensures |x + y + z| == |Prompts(pre + [g] + post)|
    ensures var row := Row(name, pre + [g] + post, x + y + z);
      && 2 + |pre| + |x| + k < |row|
      && row[1 + |pre| + |x|] == Str("")
      && row[2 + |pre| + |x| + k] == AnswerCell(g, y[k])
  {
    RowAround(name, pre, g, post, x, y, z);
    GroupColumns(Row(name, pre + [g] + post, x + y + z), Str(name), Cells(pre, x), g, y, Cells(post, z), k);
  }

  /** The row of a group between others: the name, the cells of the groups
      before it, its own cells, then those of the groups after it. */
  lemma RowAround(name: string, pre: seq<Group>, g: Group, post: seq<Group>, x: seq<string>, y: seq<string>, z: seq<string>)
    requires |x| == |Prompts(pre)| && |y| == |GroupPrompts(g)| && |z| == |Prompts(post)|
    ensures |x + y + z| == |Prompts(pre + [g] + post)|
    ensures |Cells(pre, x)| == |pre| + |x|
    ensures Row(name, pre + [g] + post, x + y + z) == [Str(name)] + (Cells(pre, x) + GroupCells(g, y) + Cells(post, z))
  {
    CellsAround(pre, g, post, x, y, z);
  }

  /** A group's cells: the spacer, then answer k's cell at 1 + k. */
  lemma GroupCellsAt(g: Group, answers: seq<string>, k: nat)
    requires k < |answers|
    ensures |GroupCells(g, answers)| == 1 + |answers|
    ensures GroupCells(g, answers)[0] == Str("")
    ensures GroupCells(g, answers)[1 + k] == AnswerCell(g, answers[k])
  {
  }

  /** In a row made of a first cell, the head, a group's cells and the tail,
      the group's spacer sits right after the head and answer k's cell
      `1 + k` places further. */
  lemma GroupColumns(row: seq<Cell>, first: Cell, head: seq<Cell>, g: Group, answers: seq<string>, tail: seq<Cell>, k: nat)
    requires row == [first] + (head + GroupCells(g, answers) + tail)
    requires k < |answers|
    ensures 2 + |head| + k < |row|
    ensures row[1 + |head|] == Str("")
    ensures row[2 + |head| + k] == AnswerCell(g, answers[k])
  {
    GroupCellsAt(g, answers, k);
    CellAt(row, first, head, GroupCells(g, answers), tail, k);
  }

  /** In a row that starts with the name cell, the middle part's first cell
      and its cell `1 + k` sit right after the head. */
  lemma CellAt(row: seq<Cell>, first: Cell, head: seq<Cell>, mid: seq<Cell>, tail: seq<Cell>, k: nat)
    requires row == [first] + (head + mid + tail)
    requires 1 + k < |mid|
    ensures 2 + |head| + k < |row|
    ensures row[1 + |head|] == mid[0]
    ensures row[2 + |head| + k] == mid[1 + k]
  {
  }

  /** A session of one group: its prompts, and its row's cells after the
      name. */
  lemma SingleGroup(name: string, g: Group, answers: seq<string>)
    ensures Prompts([g]) == GroupPrompts(g)
    ensures |answers| == |GroupPrompts(g)| ==> Row(name, [g], answers) == [Str(name)] + GroupCells(g, answers)
  {
    assert [g][..0] == [];
    assert Prompts([]) == [];
    assert [] + [g] == [g];
    if |answers| == |GroupPrompts(g)| {
      GroupStep(name, [], g, [], answers);
      assert [] + answers == answers;
    }
  }

  /** A term that repeats the first term gets the long prompt again, because
      "first" is decided by equality with the first term, not by position. */
  lemma RepeatedFirstTerm(prompt: string, term: string, other: string)
    requires other != term
    ensures GroupPrompts(Groups([prompt, term, other, term, ""], [0])[0])
         == [Prompt.Text(prompt + Connective + term), Prompt.Text(other), Prompt.Text(prompt + Connective + term)]
  {
    var elements := [prompt, term, other, term, ""];
    var terms := [term, other, term];
    assert GroupTerms(elements, [0], 0) == elements[1..4] == terms;
    var g := Group(Prompt.Text(prompt), terms);
    assert Groups(elements, [0])[0] == g;
    var r := GroupPrompts(g);
    assert r[0] == Prompt.Text(prompt + Connective + term);
    assert r[1] == Prompt.Text(other);
    assert r[2] == Prompt.Text(prompt + Connective + term);
  }

  /** A rating question with terms "Angst" and "Wut", answered "3" and "4\n":
      the row holds the values 3 and 4 after the spacer. */
  lemma RatingExample(name: string, chat: string, oracle: Oracle)
    requires oracle(Context("m", 0, chat), [Prompt.Text("Bewerte: " + Connective + "Angst")]) == "3"
    requires oracle(Context("m", 0, chat), [Prompt.Text("Bewerte: " + Connective + "Angst"), Prompt.Text("Wut")]) == "4\n"
    ensures Prompts(Groups(["Bewerte: ", "Angst", "Wut", ""], [0]))
         == [Prompt.Text("Bewerte: " + Connective + "Angst"), Prompt.Text("Wut")]
    ensures TranscriptRow(Context("m", 0, chat), Groups(["Bewerte: ", "Angst", "Wut", ""], [0]), name, oracle)
         == [Str(name), Str(""), Num(3), Num(4)]
  {
    var g := RatingGroup();
    var ps := [Prompt.Text("Bewerte: " + Connective + "Angst"), Prompt.Text("Wut")];
    RatingPrompts(g);
    var answers := Converse(oracle, Context("m", 0, chat), ps);
    assert ps[..1] == [ps[0]];
    RatingAnswers(oracle, Context("m", 0, chat), ps);
    SingleGroup(name, g, answers);
    RatingCells(g);
  }

  /** The rating question's single group. */
  lemma RatingGroup() returns (g: Group)
    ensures g == Group(Prompt.Text("Bewerte: "), ["Angst", "Wut"])
    ensures Groups(["Bewerte: ", "Angst", "Wut", ""], [0]) == [g]
  {
    g := Group(Prompt.Text("Bewerte: "), ["Angst", "Wut"]);
    assert GroupTerms(["Bewerte: ", "Angst", "Wut", ""], [0], 0) == ["Angst", "Wut"];
  }

  lemma RatingPrompts(g: Group)
    requires g == Group(Prompt.Text("Bewerte: "), ["Angst", "Wut"])
    ensures GroupPrompts(g) == [Prompt.Text("Bewerte: " + Connective + "Angst"), Prompt.Text("Wut")]
  {
    assert g.terms[1] != g.terms[0];
  }

  lemma RatingAnswers(oracle: Oracle, ctx: Context, ps: seq<Prompt>)
    requires |ps| == 2
    requires oracle(ctx, ps[..1]) == "3" && oracle(ctx, ps) == "4\n"
    ensures Converse(oracle, ctx, ps) == ["3", "4\n"]
  {
    assert ps[..2] == ps;
  }

  lemma RatingCells(g: Group)
    requires g.terms != []
    ensures GroupCells(g, ["3", "4\n"]) == [Str(""), Num(3), Num(4)]
  {
    ExtractReadsFirstRun("3", 0, 1);
    assert "3"[0..1] == "3";
    ExtractReadsFirstRun("4\n", 0, 1);
    assert "4\n"[0..1] == "4";
  }

  /** A free-text question: its single answer is stored as returned. */
  lemma FreeTextExample(name: string, chat: string, oracle: Oracle)
    requires oracle(Context("m", 0, chat), [Prompt.Text("Beschreibe deine Stimmung")]) == "Ich fühle mich neutral."
    ensures TranscriptRow(Context("m", 0, chat), Groups(["Beschreibe deine Stimmung"], [0]), name, oracle)
         == [Str(name), Str(""), Str("Ich fühle mich neutral.")]
  {
    var elements := ["Beschreibe deine Stimmung"];
    var groups := Groups(elements, [0]);
    var g := Group(Prompt.Text("Beschreibe deine Stimmung"), []);
    assert GroupTerms(elements, [0], 0) == [];
    assert groups == [g];
    assert groups[..0] == [];
    var ps := Prompts(groups);
    SingleGroup(name, g, Converse(oracle, Context("m", 0, chat), ps));
    assert ps == [Prompt.Text("Beschreibe deine Stimmung")];
    assert ps[..1] == ps;
    var answers := Converse(oracle, Context("m", 0, chat), ps);
    assert answers[..0] == [];
    assert answers[0..] == answers;
  }
}
