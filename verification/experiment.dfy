/** The experiment driver: for every model file whose result file does not
    exist yet, load the model and run every transcript of both folders
    (Alex001 first, then Alex002) through a fresh chat session, rewriting the
    model's result file after each transcript. A present result file means the
    model has already been run; it is skipped and its file left alone.
 */
module Experiment {
  import opened Js
  import opened Answers
  import opened Template
  import opened Session
  import opened ResultTable

  const ModelFiles: seq<string> := [
    "meta-llama--Meta-Llama-3-8B-Instruct.Q6_K.gguf",
    "Mistral-7B-Instruct-v0.3-Q6_K.gguf",
    "seedboxai--Llama-3-KafkaLM-8B-v0.1.Q6_K.gguf"
  ]

  const ModelExt: string := ".gguf"

  /** `basename(name, ext)` for a name without a directory part: the extension
      is removed when the name ends with it. */
  function StripExt(name: string, ext: string): (r: string)
    ensures EndsWith(name, ext) ==> r + ext == name
    ensures !EndsWith(name, ext) ==> r == name
  {
    if EndsWith(name, ext) then name[..|name| - |ext|] else name
  }

  /** The result file of a model, inside the output folder. */
  function OutName(model: string): (r: string)
    ensures EndsWith(r, ".tsv")
  {
    "output_" + StripExt(model, ModelExt) + ".tsv"
  }

  /** Two model files with the extension share a result file only if they are
      the same file. */
  lemma OutNameInjective(a: string, b: string)
    requires EndsWith(a, ModelExt) && EndsWith(b, ModelExt)
    requires OutName(a) == OutName(b)
    ensures a == b
  {
    var sa, sb := StripExt(a, ModelExt), StripExt(b, ModelExt);
    assert OutName(a)[7..|OutName(a)| - 4] == sa;
    assert OutName(b)[7..|OutName(b)| - 4] == sb;
  }

  /** Without the extension that no longer holds: "m" and "m.gguf" share a
      result file, so whichever comes second is skipped. */
  lemma OutNameCollision()
    ensures OutName("m") == OutName("m.gguf") == "output_m.tsv"
  {
    assert !EndsWith("m", ModelExt);
    assert EndsWith("m.gguf", ModelExt);
  }

  /** The result files of the models, in order. */
  function OutNames(models: seq<string>): (r: seq<string>)
    ensures |r| == |models|
  {
    seq(|models|, i requires 0 <= i < |models| => OutName(models[i]))
  }

  predicate Distinct(names: seq<string>) {
    forall a, b :: 0 <= a < b < |names| ==> names[a] != names[b]
  }

  /** The three configured models write three different files. */
  lemma ModelFilesDistinct()
    ensures Distinct(OutNames(ModelFiles))
  {
    // the three names have lengths 46, 34 and 44, too far apart for the
    // result names to meet whichever way the extension is treated
    var names := OutNames(ModelFiles);
    OutNameLength(ModelFiles[0]);
    OutNameLength(ModelFiles[1]);
    OutNameLength(ModelFiles[2]);
    assert |names[0]| in {52, 57} && |names[1]| in {40, 45} && |names[2]| in {50, 55};
    DistinctLengths(names);
  }

  /** Three names of pairwise different lengths are distinct. */
  lemma DistinctLengths(names: seq<string>)
    requires |names| == 3
    requires |names[0]| != |names[1]| && |names[0]| != |names[2]| && |names[1]| != |names[2]|
    ensures Distinct(names)
  {
  }

  /** The result name replaces the extension, when present, by "output_" and
      ".tsv". */
  lemma OutNameLength(model: string)
    ensures |OutName(model)| == |model| + 6 || |OutName(model)| == |model| + 11
  {
  }

  /** `Math.round(Math.random() * 1000000)` for a draw u in [0, 1): the
      nearest integer to `u * 1000000`, halves rounded up. */
  function Seed(u: real): (r: nat)
    requires 0.0 <= u < 1.0
    ensures r <= 1000000
    ensures r as real - 0.5 <= u * 1000000.0 < r as real + 0.5
  {
    (u * 1000000.0 + 0.5).Floor
  }

  /** The upper bound is reached: draws from 0.9999995 on give 1000000. */
  lemma SeedReachesMillion()
    ensures Seed(0.9999995) == 1000000
  {
  }

  predicate Draws(draws: seq<real>) {
    forall k :: 0 <= k < |draws| ==> 0.0 <= draws[k] < 1.0
  }

  /** One chat log: its file name and its text. */
  datatype Transcript = Transcript(name: string, content: string)

  /** The chat session of transcript k: the model, the seed drawn for it and
      the log's text. */
  function SessionContext(model: string, transcripts: seq<Transcript>, draws: seq<real>, k: nat): Context
    requires k < |transcripts| && |draws| == |transcripts| && Draws(draws)
  {
    Context(model, Seed(draws[k]), transcripts[k].content)
  }

  /** The template's two rows as table cells. */
  function StrCells(cells: seq<string>): seq<Cell>
  {
    seq(|cells|, j requires 0 <= j < |cells| => Str(cells[j]))
  }

  function InitialTable(t: Template): Table
  {
    [StrCells(t.headers), StrCells(t.elements)]
  }

  /** The row of every transcript, in order. */
  function ModelRows(model: string, t: Template, transcripts: seq<Transcript>, draws: seq<real>, oracle: Oracle): (rows: Table)
    requires |draws| == |transcripts| && Draws(draws)
    ensures |rows| == |transcripts|
  {
    var groups := Groups(t.elements, PromptStarts(t.headers));
    seq(|transcripts|, k requires 0 <= k < |transcripts| =>
      TranscriptRow(SessionContext(model, transcripts, draws, k), groups, transcripts[k].name, oracle))
  }

  /** The file content after k + 1 transcripts: the template rows, then one
      row per transcript run so far. */
  function Checkpoint(model: string, t: Template, transcripts: seq<Transcript>, draws: seq<real>, oracle: Oracle, k: nat): string
    requires |draws| == |transcripts| && Draws(draws) && k < |transcripts|
  {
    Serialize(InitialTable(t) + ModelRows(model, t, transcripts, draws, oracle)[..k + 1])
  }

  /** Each rewrite of the result file extends the previous one by a line
      break and the new transcript's row. */
  lemma CheckpointsExtend(model: string, t: Template, transcripts: seq<Transcript>, draws: seq<real>, oracle: Oracle, k: nat)
    requires |draws| == |transcripts| && Draws(draws) && k + 1 < |transcripts|
    ensures Checkpoint(model, t, transcripts, draws, oracle, k + 1)
         == Checkpoint(model, t, transcripts, draws, oracle, k) + "\n"
            + RowText(ModelRows(model, t, transcripts, draws, oracle)[k + 1])
  {
    PrefixExtend(InitialTable(t), ModelRows(model, t, transcripts, draws, oracle), k);
  }

  lemma PrefixExtend(init: Table, rows: Table, k: nat)
    requires |init| >= 1 && k + 1 < |rows|
    ensures Serialize(init + rows[..k + 2]) == Serialize(init + rows[..k + 1]) + "\n" + RowText(rows[k + 1])
  {
    var before := init + rows[..k + 1];
    assert init + rows[..k + 2] == before + [rows[k + 1]];
    SerializeSnoc(before, rows[k + 1]);
  }

  /** A checkpoint of a parsed template, when no transcript name or free-text
      answer holds a tab or line break, reads back as one line per row: the
      template's two rows and one row per transcript so far. */
  lemma CheckpointReadsBack(model: string, content: string, transcripts: seq<Transcript>, draws: seq<real>, oracle: Oracle, k: nat)
    requires ParseQuestionnaire(content).Parsed?
    requires |draws| == |transcripts| && Draws(draws) && k < |transcripts|
    requires Clean(ModelRows(model, ParseQuestionnaire(content).template, transcripts, draws, oracle)[..k + 1])
    ensures var t := ParseQuestionnaire(content).template;
      var table := InitialTable(t) + ModelRows(model, t, transcripts, draws, oracle)[..k + 1];
      ReadTable(Checkpoint(model, t, transcripts, draws, oracle, k))
        == seq(|table|, i requires 0 <= i < |table| => Texts(table[i]))
  {
    var t := ParseQuestionnaire(content).template;
    var rows := ModelRows(model, t, transcripts, draws, oracle)[..k + 1];
    ParsedCellsClean(content);
    InitialTableClean(t);
    CleanAppend(InitialTable(t), rows);
    ReadSerialize(InitialTable(t) + rows);
  }

  /** The template rows print as their cells, which hold no separator. */
  lemma InitialTableClean(t: Template)
    requires |t.headers| >= 1 && |t.elements| >= 1
    requires CleanCells(t.headers) && CleanCells(t.elements)
    ensures Clean(InitialTable(t))
  {
    assert forall j :: 0 <= j < |t.headers| ==> CellText(StrCells(t.headers)[j]) == t.headers[j];
    assert forall j :: 0 <= j < |t.elements| ==> CellText(StrCells(t.elements)[j]) == t.elements[j];
  }

  /** Row k is the row of transcript k's session. */
  lemma ModelRowAt(model: string, t: Template, transcripts: seq<Transcript>, draws: seq<real>, oracle: Oracle, k: nat)
    requires |draws| == |transcripts| && Draws(draws) && k < |transcripts|
    ensures ModelRows(model, t, transcripts, draws, oracle)[k]
         == TranscriptRow(Context(model, Seed(draws[k]), transcripts[k].content),
                          Groups(t.elements, PromptStarts(t.headers)), transcripts[k].name, oracle)
  {
  }

  /** Extending the rows taken by one appends that row to the table. */
  lemma TableSnoc(init: Table, rows: Table, k: nat)
    requires k < |rows|
    ensures init + rows[..k + 1] == (init + rows[..k]) + [rows[k]]
  {
    assert rows[..k + 1] == rows[..k] + [rows[k]];
  }

  /** One model's run over the transcripts, as the script runs it. Every
      transcript's row is appended to the table and the whole table is written
      again. Without an element row the script throws at the first transcript,
      before any prompt or write; with no transcript at all nothing is written
      and nothing throws. */
  method RunModel(model: string, parsed: ParseResult, transcripts: seq<Transcript>, draws: seq<real>, oracle: Oracle)
    returns (writes: seq<string>, aborted: bool)
    requires |draws| == |transcripts| && Draws(draws)
    ensures aborted <==> parsed.NoElementRow? && |transcripts| > 0
    ensures parsed.NoElementRow? ==> writes == []
    ensures parsed.Parsed? ==> |writes| == |transcripts|
    ensures parsed.Parsed? ==> forall k :: 0 <= k < |writes| ==>
      writes[k] == Checkpoint(model, parsed.template, transcripts, draws, oracle, k)
  {
    writes := [];
    if parsed.NoElementRow? {
      aborted := |transcripts| > 0;
      return;
    }
    aborted := false;
    var t := parsed.template;
    var starts := FindPromptStarts(t.headers);
    ghost var rows := ModelRows(model, t, transcripts, draws, oracle);
    var table := InitialTable(t);
    var k := 0;
    while k < |transcripts|
      invariant 0 <= k <= |transcripts|
      invariant table == InitialTable(t) + rows[..k]
      invariant |writes| == k
      invariant forall j :: 0 <= j < k ==> writes[j] == Checkpoint(model, t, transcripts, draws, oracle, j)
    {
      var ctx := Context(model, Seed(draws[k]), transcripts[k].content);
      var row, _ := RunTranscript(ctx, t.elements, starts, transcripts[k].name, oracle);
      ModelRowAt(model, t, transcripts, draws, oracle, k);
      TableSnoc(InitialTable(t), rows, k);
      table := table + [row];
      writes := writes + [Serialize(table)];
      k := k + 1;
    }
  }

  /** The final table of a model, as its result file holds it after the last
      transcript. */
  function FinalFile(model: string, t: Template, transcripts: seq<Transcript>, draws: seq<real>, oracle: Oracle): string
    requires |draws| == |transcripts| && Draws(draws) && |transcripts| > 0
  {
    Checkpoint(model, t, transcripts, draws, oracle, |transcripts| - 1)
  }

  /** How the run of a loaded model ends; it is the same for every model.
      It throws when the template has no element row and there is a
      transcript, writes the model's result file when the template parsed and
      there is a transcript, and does neither without a transcript. */
  datatype Outcome = Throws | Writes | Quiet

  function OutcomeOf(questionnaire: string, transcripts: seq<Transcript>): (r: Outcome)
    ensures r == Throws <==> '\n' !in questionnaire && |transcripts| > 0
    ensures r == Writes <==> '\n' in questionnaire && |transcripts| > 0
    ensures r == Quiet <==> |transcripts| == 0
  {
    if |transcripts| == 0 then Quiet
    else if ParseQuestionnaire(questionnaire).Parsed? then Writes
    else Throws
  }

  /** What a model's result file holds once the model has run, when it
      writes one. */
  function ModelFinal(model: string, questionnaire: string, transcripts: seq<Transcript>, draws: seq<real>, oracle: Oracle): string
    requires |draws| == |transcripts| && Draws(draws)
  {
    match ParseQuestionnaire(questionnaire)
    case Parsed(t) => if |transcripts| > 0 then FinalFile(model, t, transcripts, draws, oracle) else ""
    case NoElementRow => ""
  }

  /** Random draws for every model's sessions, one per transcript. */
  predicate DrawsFor(models: seq<string>, transcripts: seq<Transcript>, draws: seq<seq<real>>) {
    && |draws| == |models|
    && forall i :: 0 <= i < |models| ==> |draws[i]| == |transcripts| && Draws(draws[i])
  }

  function Finals(models: seq<string>, questionnaire: string, transcripts: seq<Transcript>, draws: seq<seq<real>>, oracle: Oracle): (r: seq<string>)
    requires DrawsFor(models, transcripts, draws)
    ensures |r| == |models|
  {
    seq(|models|, i requires 0 <= i < |models| => ModelFinal(models[i], questionnaire, transcripts, draws[i], oracle))
  }

  /** What one model's turn does to the result folder. */
  datatype Visit = Visit(out: map<string, string>, loaded: bool, failed: bool)

  /** One model's turn: skipped when its result file exists; otherwise loaded
      and run, leaving `final` in its result file when the run writes. */
  function VisitOf(name: string, files: map<string, string>, outcome: Outcome, final: string): (v: Visit)
    ensures v.loaded <==> name !in files
    ensures v.failed <==> v.loaded && outcome == Throws
    ensures v.loaded && outcome == Writes ==> v.out == files[name := final]
    ensures !(v.loaded && outcome == Writes) ==> v.out == files
  {
    if name in files then Visit(files, false, false)
    else
      match outcome
      case Throws => Visit(files, true, true)
      case Quiet => Visit(files, true, false)
      case Writes => Visit(files[name := final], true, false)
  }

  /** The turn as the script takes it, running the model over every
      transcript: the outcome and the final file are those above. */
  method VisitModel(model: string, files: map<string, string>, questionnaire: string,
                    transcripts: seq<Transcript>, draws: seq<real>, oracle: Oracle)
    returns (out: map<string, string>, loaded: bool, failed: bool)
    requires |draws| == |transcripts| && Draws(draws)
    ensures Visit(out, loaded, failed)
         == VisitOf(OutName(model), files, OutcomeOf(questionnaire, transcripts), ModelFinal(model, questionnaire, transcripts, draws, oracle))
  {
    var name := OutName(model);
    out := files;
    loaded := false;
    failed := false;
    if name !in files {
      loaded := true;
      var parsed := ParseQuestionnaire(questionnaire);
      var writes;
      writes, failed := RunModel(model, parsed, transcripts, draws, oracle);
      if !failed && |writes| > 0 {
        out := files[name := writes[|writes| - 1]];
      }
    }
  }

  /** The result folder, the indices of the models loaded so far and whether
      the script has thrown. */
  datatype RunState = RunState(out: map<string, string>, loaded: seq<nat>, aborted: bool)

  /** The state after the turns of the first n models; nothing happens after a
      throw. */
  function RunPrefix(names: seq<string>, files: map<string, string>, outcome: Outcome, finals: seq<string>, n: nat): RunState
    requires n <= |names| == |finals|
    decreases n
  {
    if n == 0 then RunState(files, [], false)
    else
      var st := RunPrefix(names, files, outcome, finals, n - 1);
      if st.aborted then st
      else
        var v := VisitOf(names[n - 1], st.out, outcome, finals[n - 1]);
        RunState(v.out, if v.loaded then st.loaded + [n - 1] else st.loaded, v.failed)
  }

  /** The whole experiment over the result folder `files` (file name to
      content): the models in order, every transcript of both folders per
      loaded model. `draws[i]` are the random numbers drawn for model i's
      sessions. */
  method RunAll(models: seq<string>, files: map<string, string>, questionnaire: string,
                alex001: seq<Transcript>, alex002: seq<Transcript>, draws: seq<seq<real>>, oracle: Oracle)
    returns (out: map<string, string>, loaded: seq<nat>, aborted: bool)
    requires DrawsFor(models, alex001 + alex002, draws)
    ensures RunState(out, loaded, aborted)
         == RunPrefix(OutNames(models), files, OutcomeOf(questionnaire, alex001 + alex002),
                      Finals(models, questionnaire, alex001 + alex002, draws, oracle), |models|)
  {
    var transcripts := alex001 + alex002;
    ghost var names := OutNames(models);
    ghost var outcome := OutcomeOf(questionnaire, transcripts);
    ghost var finals := Finals(models, questionnaire, transcripts, draws, oracle);
    out := files;
    loaded := [];
    aborted := false;
    var i: nat := 0;
    while i < |models| && !aborted
      invariant i <= |models|
      invariant RunState(out, loaded, aborted) == RunPrefix(names, files, outcome, finals, i)
    {
      ghost var before, loadedBefore := out, loaded;
      var visited, failed;
      out, visited, failed := VisitModel(models[i], out, questionnaire, transcripts, draws[i], oracle);
      TurnInputs(models, questionnaire, transcripts, draws, oracle, i);
      if visited {
        loaded := loaded + [i];
      }
      aborted := failed;
      RunStep(names, files, outcome, finals, i, before, loadedBefore, out, visited, failed);
      i := i + 1;
    }
    AbortIsFinal(names, files, outcome, finals, i, |models|);
  }

  /** Model i's result name and final file, as the fold sees them. */
  lemma TurnInputs(models: seq<string>, questionnaire: string, transcripts: seq<Transcript>,
                   draws: seq<seq<real>>, oracle: Oracle, i: nat)
    requires DrawsFor(models, transcripts, draws) && i < |models|
    ensures OutNames(models)[i] == OutName(models[i])
    ensures Finals(models, questionnaire, transcripts, draws, oracle)[i] == ModelFinal(models[i], questionnaire, transcripts, draws[i], oracle)
  {
  }

  /** One turn of the script's loop is one step of the fold. */
  lemma RunStep(names: seq<string>, files: map<string, string>, outcome: Outcome, finals: seq<string>, i: nat,
                out: map<string, string>, loaded: seq<nat>, out': map<string, string>, visited: bool, failed: bool)
    requires i < |names| == |finals|
    requires RunState(out, loaded, false) == RunPrefix(names, files, outcome, finals, i)
    requires Visit(out', visited, failed) == VisitOf(names[i], out, outcome, finals[i])
    ensures RunState(out', if visited then loaded + [i] else loaded, failed)
         == RunPrefix(names, files, outcome, finals, i + 1)
  {
  }

  /** After a throw no later model changes anything. */
  lemma {:induction false} AbortIsFinal(names: seq<string>, files: map<string, string>, outcome: Outcome, finals: seq<string>, m: nat, n: nat)
    requires m <= n <= |names| == |finals|
    requires m == n || RunPrefix(names, files, outcome, finals, m).aborted
    ensures RunPrefix(names, files, outcome, finals, n) == RunPrefix(names, files, outcome, finals, m)
    decreases n
  {
    if m < n {
      AbortIsFinal(names, files, outcome, finals, m, n - 1);
    }
  }

  /** A file present at the start is never rewritten. */
  lemma {:induction false} KeepsExistingFiles(names: seq<string>, files: map<string, string>, outcome: Outcome, finals: seq<string>, n: nat)
    requires n <= |names| == |finals|
    ensures var st := RunPrefix(names, files, outcome, finals, n);
      forall f :: f in files ==> f in st.out && st.out[f] == files[f]
    decreases n
  {
    if n > 0 {
      KeepsExistingFiles(names, files, outcome, finals, n - 1);
    }
  }

  /** Every new file is the result file of a loaded model. */
  lemma {:induction false} NewFilesAreResults(names: seq<string>, files: map<string, string>, outcome: Outcome, finals: seq<string>, n: nat)
    requires n <= |names| == |finals|
    ensures var st := RunPrefix(names, files, outcome, finals, n);
      forall f :: f in st.out && f !in files ==>
        exists k :: 0 <= k < |st.loaded| && st.loaded[k] < |names| && f == names[st.loaded[k]]
    decreases n
  {
    if n > 0 {
      NewFilesAreResults(names, files, outcome, finals, n - 1);
      var st := RunPrefix(names, files, outcome, finals, n - 1);
      var st' := RunPrefix(names, files, outcome, finals, n);
      if !st.aborted {
        forall f | f in st'.out && f !in files
          ensures exists k :: 0 <= k < |st'.loaded| && st'.loaded[k] < |names| && f == names[st'.loaded[k]]
        {
          if f in st.out {
            var k :| 0 <= k < |st.loaded| && st.loaded[k] < |names| && f == names[st.loaded[k]];
            assert st'.loaded[k] == st.loaded[k];
          } else {
            assert st'.loaded[|st.loaded|] == n - 1;
          }
        }
      }
    }
  }

  /** Models are loaded in order, and only when their result file was
      missing at the start. */
  lemma {:induction false} LoadedOnlyWhenMissing(names: seq<string>, files: map<string, string>, outcome: Outcome, finals: seq<string>, n: nat)
    requires n <= |names| == |finals|
    ensures var st := RunPrefix(names, files, outcome, finals, n);
      && StrictlyAscending(st.loaded)
      && forall k :: 0 <= k < |st.loaded| ==> st.loaded[k] < n && names[st.loaded[k]] !in files
    decreases n
  {
    if n > 0 {
      LoadedOnlyWhenMissing(names, files, outcome, finals, n - 1);
      KeepsExistingFiles(names, files, outcome, finals, n - 1);
    }
  }

  /** With distinct result files, model m's file is present before its turn
      only if it was present at the start. */
  lemma NotWrittenBefore(names: seq<string>, files: map<string, string>, outcome: Outcome, finals: seq<string>, m: nat)
    requires m < |names| == |finals|
    requires Distinct(names)
    ensures names[m] in RunPrefix(names, files, outcome, finals, m).out <==> names[m] in files
  {
    var st := RunPrefix(names, files, outcome, finals, m);
    KeepsExistingFiles(names, files, outcome, finals, m);
    NewFilesAreResults(names, files, outcome, finals, m);
    LoadedOnlyWhenMissing(names, files, outcome, finals, m);
  }

  /** When the models' result files are distinct and nothing threw, exactly
      the models whose file was missing are loaded. */
  lemma {:induction false} LoadedWhenMissing(names: seq<string>, files: map<string, string>, outcome: Outcome, finals: seq<string>, n: nat)
    requires n <= |names| == |finals|
    requires Distinct(names)
    ensures var st := RunPrefix(names, files, outcome, finals, n);
      !st.aborted ==> forall j :: 0 <= j < n ==> (j in st.loaded <==> names[j] !in files)
    decreases n
  {
    if n > 0 {
      LoadedWhenMissing(names, files, outcome, finals, n - 1);
      var st := RunPrefix(names, files, outcome, finals, n - 1);
      var st' := RunPrefix(names, files, outcome, finals, n);
      if !st'.aborted {
        assert !st.aborted;
        NotWrittenBefore(names, files, outcome, finals, n - 1);
        LoadedOnlyWhenMissing(names, files, outcome, finals, n - 1);
        forall j | 0 <= j < n
          ensures j in st'.loaded <==> names[j] !in files
        {
          assert j in st'.loaded <==> j in st.loaded || (j == n - 1 && names[n - 1] !in st.out);
        }
      }
    }
  }

  /** When the run throws, the first model whose result file is missing
      throws before writing anything; until then nothing is loaded and
      nothing written. */
  lemma {:induction false} ThrowsAtFirstLoad(names: seq<string>, files: map<string, string>, outcome: Outcome, finals: seq<string>, n: nat)
    requires n <= |names| == |finals|
    ensures var st := RunPrefix(names, files, outcome, finals, n);
      && (st.aborted <==> outcome == Throws && exists j :: 0 <= j < n && names[j] !in files)
      && (outcome == Throws && !st.aborted ==> st.loaded == [] && st.out == files)
      && (st.aborted ==>
            && st.out == files && |st.loaded| == 1 && st.loaded[0] < n
            && names[st.loaded[0]] !in files
            && forall j :: 0 <= j < st.loaded[0] ==> names[j] in files)
    decreases n
  {
    if n > 0 {
      ThrowsAtFirstLoad(names, files, outcome, finals, n - 1);
      var st := RunPrefix(names, files, outcome, finals, n - 1);
      if st.aborted {
        var j :| 0 <= j < n - 1 && names[j] !in files;
        assert 0 <= j < n;
      }
    }
  }

  /** A run that never writes leaves the folder as it was. */
  lemma {:induction false} QuietRunWritesNothing(names: seq<string>, files: map<string, string>, outcome: Outcome, finals: seq<string>, n: nat)
    requires n <= |names| == |finals|
    requires outcome != Writes
    ensures RunPrefix(names, files, outcome, finals, n).out == files
    ensures outcome == Quiet ==> !RunPrefix(names, files, outcome, finals, n).aborted
    decreases n
  {
    if n > 0 {
      QuietRunWritesNothing(names, files, outcome, finals, n - 1);
    }
  }

  /** When runs write, every visited model ends up with a result file, and a
      loaded model's file holds its final table. */
  lemma {:induction false} ResultsWritten(names: seq<string>, files: map<string, string>, outcome: Outcome, finals: seq<string>, n: nat)
    requires n <= |names| == |finals|
    requires outcome == Writes
    ensures var st := RunPrefix(names, files, outcome, finals, n);
      && !st.aborted
      && (forall j :: 0 <= j < n ==> names[j] in st.out)
      && (forall k :: 0 <= k < |st.loaded| ==>
            (st.loaded[k] < |names| && names[st.loaded[k]] in st.out
             && st.out[names[st.loaded[k]]] == finals[st.loaded[k]]))
    decreases n
  {
    if n > 0 {
      ResultsWritten(names, files, outcome, finals, n - 1);
      LoadedOnlyWhenMissing(names, files, outcome, finals, n - 1);
    }
  }

  /** When every model's result file exists, no model is loaded. */
  lemma {:induction false} QuietOnceDone(names: seq<string>, files: map<string, string>, outcome: Outcome, finals: seq<string>, n: nat)
    requires n <= |names| == |finals|
    requires forall j :: 0 <= j < |names| ==> names[j] in files
    ensures RunPrefix(names, files, outcome, finals, n) == RunState(files, [], false)
    decreases n
  {
    if n > 0 {
      QuietOnceDone(names, files, outcome, finals, n - 1);
    }
  }

  /** Resuming a completed experiment does nothing: every result file exists,
      so no model is loaded again and the folder stays as it is. */
  lemma RerunIsNoOp(names: seq<string>, files: map<string, string>, outcome: Outcome, finals: seq<string>)
    requires |names| == |finals|
    requires outcome == Writes
    ensures var done := RunPrefix(names, files, outcome, finals, |names|).out;
      var again := RunPrefix(names, done, outcome, finals, |names|);
      again.loaded == [] && again.out == done
  {
    var done := RunPrefix(names, files, outcome, finals, |names|).out;
    ResultsWritten(names, files, outcome, finals, |names|);
    LoadedOnlyWhenMissing(names, done, outcome, finals, |names|);
    QuietOnceDone(names, done, outcome, finals, |names|);
  }

  /** The final table a loaded model leaves is its last checkpoint. */
  lemma FinalsAreCheckpoints(models: seq<string>, questionnaire: string, transcripts: seq<Transcript>,
                             draws: seq<seq<real>>, oracle: Oracle, i: nat)
    requires DrawsFor(models, transcripts, draws) && i < |models|
    requires OutcomeOf(questionnaire, transcripts) == Writes
    ensures Finals(models, questionnaire, transcripts, draws, oracle)[i]
         == Checkpoint(models[i], ParseQuestionnaire(questionnaire).template, transcripts, draws[i], oracle, |transcripts| - 1)
  {
  }
}
