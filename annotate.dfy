/**
 * The job annotations of a node row and the queue line of a partition. With `-j` or `-m`
 * every job `squeue` lists on a node is shown as `user(cpu:gpu:mem)`, its CPU and memory
 * coloured by whether they stay within what the node's `slurm.conf` defaults recommend; with
 * `-q` the pending jobs of a partition whose reason is in parentheses are listed after a
 * ` ᶫ` mark. Colours are values here, not terminal escapes.
 */
module Annotate {
  import opened Wrappers
  import opened PyStr
  import opened Tres
  import opened Jobs
  import opened SlurmConf

  /** The rows of an `squeue` listing, `text.split('\n')[1:-1]`: every line but the header and
      the empty text after the final newline. */
  function Rows(stdout: string): seq<string> {
    var text := Split(stdout, "\n");
    if |text| > 1 then text[1..|text| - 1] else []
  }

  /** `jobid.split('_')[0]`: an array job's id without its task index. */
  function JobKey(id: string): string {
    Before(id, "_")
  }

  /** The key is all of the id when it has no `_`, and otherwise the text before its first `_`. */
  lemma JobKeyContract(id: string)
    ensures '_' !in id ==> JobKey(id) == id
    ensures '_' in id ==>
      |JobKey(id)| < |id| && id[..|JobKey(id)|] == JobKey(id) && id[|JobKey(id)|] == '_' && '_' !in JobKey(id)
  {
    BeforeChar(id, '_');
  }

  /** The CPUs a job may use without being shown in red: `DefCpuPerGPU` for each GPU it holds,
      or 2 when it holds none. */
  function RecommendedCpu(p: Policy, gpus: nat): nat {
    if gpus > 0 then p.cpuPerGpu * gpus else 2
  }

  /** The gigabytes a job may use without being shown in red: `parse_mem` of `DefMemPerCPU` times
      its CPUs, written out in megabytes. */
  function RecommendedMem(p: Policy, cpus: nat): (g: nat)
    ensures g == p.memPerCpu * cpus / 1000
  {
    var n := p.memPerCpu * cpus;
    Megabytes(n);
    ParseMem(NatToString(n) + "M")
  }

  /** `str(n) + "M"` is read by `parse_mem` as `n` megabytes. */
  lemma Megabytes(n: nat)
    ensures IsMem(NatToString(n) + "M")
    ensures ParseMem(NatToString(n) + "M") == n / 1000
  {
    var s := NatToString(n) + "M";
    assert s[..|s| - 1] == NatToString(n);
    assert EndsWith(s, "M");
    NatOfNatToString(n);
  }

  /** How a request compares with the recommendation: yellow when within it, red when over. */
  datatype Fit = Within | Over

  /** How the GPU count is shown: gray for the text `0`, yellow otherwise. */
  datatype GpuShade = NoGpus | SomeGpus

  /** One `user(cpu:gpu:mem)` annotation with its colours. */
  datatype Note = Note(user: string, cpus: string, cpuFit: Fit, gpus: string, gpuShade: GpuShade, mem: nat, memFit: Fit)

  /** The annotation's text, colours left out. */
  function Text(n: Note): string {
    n.user + "(" + n.cpus + ":" + n.gpus + ":" + NatToString(n.mem) + "G)"
  }

  /** The comma-separated values of a stripped row: user, CPUs, gres, memory, job id. */
  function Values(line: string): seq<string> {
    Split(Strip(line), ",")
  }

  /** The job table holds `id`, with a GPU count `int()` reads and a memory size `parse_mem`
      reads. */
  predicate Known(table: JobTable, id: string) {
    id in table && GpuKey in table[id].tres && MemKey in table[id].tres
    && IsNumeral(Strip(table[id].tres[GpuKey])) && IsMem(table[id].tres[MemKey])
  }

  /** Annotating the row does not raise: a non-blank row has five values, its CPU count is a
      number, its job is in the table and the node has defaults. */
  predicate RowReadable(line: string, table: JobTable, defaults: Defaults, node: string) {
    var v := Values(line);
    Strip(line) != "" ==> |v| >= 5 && IsNumeral(Strip(v[1])) && Known(table, JobKey(v[4])) && node in defaults
  }

  /** The annotation of one row, or nothing for a blank row. The GPU count and the memory come
      from the job table, not from the row. A row Python cannot read raises there; it gives
      nothing here, and `AnnotateNode` requires every row to be readable. */
  function NoteOf(line: string, table: JobTable, defaults: Defaults, node: string): Option<Note> {
    if Strip(line) == "" || !RowReadable(line, table, defaults, node) then None
    else
      var v := Values(line);
      var tres := table[JobKey(v[4])].tres;
      Some(Judged(v[0], v[1], ToInt(v[1]), tres[GpuKey], ToInt(tres[GpuKey]), ParseMem(tres[MemKey]), defaults[node]))
  }

  /** The annotation of a job of `user` with `c` CPUs (written `cpus`), `g` GPUs (written
      `gpus`) and `mem` gigabytes on a node with defaults `p`, coloured against the recommended
      amounts. */
  function Judged(user: string, cpus: string, c: nat, gpus: string, g: nat, mem: nat, p: Policy): Note {
    Note(user, cpus, if c <= RecommendedCpu(p, g) then Within else Over,
         gpus, if gpus == "0" then NoGpus else SomeGpus,
         mem, if mem <= RecommendedMem(p, c) then Within else Over)
  }

  /** A non-blank row is annotated with its user and CPU text and its job's GPU count and
      memory; the CPUs are within iff they are at most `DefCpuPerGPU` per GPU (2 for a job
      without GPUs), the memory is within iff it is at most `DefMemPerCPU` times the CPUs,
      divided by 1000, and the GPU count is gray iff it is the text `0`. */
  lemma NoteContract(line: string, table: JobTable, defaults: Defaults, node: string)
    requires RowReadable(line, table, defaults, node) && Strip(line) != ""
    ensures NoteOf(line, table, defaults, node).Some?
    ensures var n, v := NoteOf(line, table, defaults, node).value, Values(line);
      var job, p := table[JobKey(v[4])], defaults[node];
      && n.user == v[0] && n.cpus == v[1] && n.gpus == job.tres[GpuKey]
      && n.mem == ParseMem(job.tres[MemKey])
      && (n.cpuFit == Within <==>
          ToInt(v[1]) <= if ToInt(n.gpus) > 0 then p.cpuPerGpu * ToInt(n.gpus) else 2)
      && (n.memFit == Within <==> n.mem <= p.memPerCpu * ToInt(v[1]) / 1000)
      && (n.gpuShade == NoGpus <==> n.gpus == "0")
  {
  }

  /** Every row can be annotated without raising. */
  predicate RowsReadable(lines: seq<string>, table: JobTable, defaults: Defaults, node: string) {
    forall k :: 0 <= k < |lines| ==> RowReadable(lines[k], table, defaults, node)
  }

  /** What each row gives: an annotation, or nothing for a blank row. */
  function RowNotes(lines: seq<string>, table: JobTable, defaults: Defaults, node: string): (xs: seq<Option<Note>>)
    ensures |xs| == |lines| && forall k :: 0 <= k < |lines| ==> xs[k] == NoteOf(lines[k], table, defaults, node)
  {
    if lines == [] then []
    else RowNotes(lines[..|lines| - 1], table, defaults, node) + [NoteOf(lines[|lines| - 1], table, defaults, node)]
  }

  /** The annotations of the rows, in order, blank rows giving none. */
  function Notes(lines: seq<string>, table: JobTable, defaults: Defaults, node: string): seq<Note>
  {
    Somes(RowNotes(lines, table, defaults, node))
  }

  /** The texts of the annotations. */
  function Texts(ns: seq<Note>): seq<string> {
    seq(|ns|, i requires 0 <= i < |ns| => Text(ns[i]))
  }

  /** `out[:-2] if out.endswith(", ") else out` */
  function CutComma(out: string): string {
    if EndsWith(out, ", ") then out[..|out| - 2] else out
  }

  /** The row text after the annotations are appended, each followed by `", "`, and the last
      separator is cut; output without a line break is not read at all. */
  function Annotated(row: string, stdout: string, table: JobTable, defaults: Defaults, node: string): string
  {
    if |Split(stdout, "\n")| > 1 then CutComma(row + Terminated(Texts(Notes(Rows(stdout), table, defaults, node)), ", "))
    else row
  }

  /** Appending every text with `", "` after it and cutting the last `", "` joins the texts with
      `", "`, provided the text they follow does not end in `", "`. */
  lemma CutCommaJoins(row: string, xs: seq<string>)
    requires !EndsWith(row, ", ")
    ensures CutComma(row + Terminated(xs, ", ")) == row + Join(xs, ", ")
  {
    TerminatedIsJoin(xs, ", ");
    if xs != [] {
      var out := row + Join(xs, ", ") + ", ";
      assert out[..|out| - 2] == row + Join(xs, ", ");
      assert out[|out| - 2..] == ", ";
    }
  }

  /** The node row (which ends in `" | "`, not in `", "`) is followed by the annotations of the
      non-blank rows, in order and joined with `", "`, and by nothing when there are none. */
  lemma AnnotatedJoin(row: string, stdout: string, table: JobTable, defaults: Defaults, node: string)
    requires !EndsWith(row, ", ")
    ensures Annotated(row, stdout, table, defaults, node) ==
      row + Join(Texts(Notes(Rows(stdout), table, defaults, node)), ", ")
    ensures forall n :: n in Notes(Rows(stdout), table, defaults, node) <==>
      Some(n) in RowNotes(Rows(stdout), table, defaults, node)
  {
    CutCommaJoins(row, Texts(Notes(Rows(stdout), table, defaults, node)));
    forall n ensures n in Notes(Rows(stdout), table, defaults, node) <==>
      Some(n) in RowNotes(Rows(stdout), table, defaults, node)
    {
      SomesHas(RowNotes(Rows(stdout), table, defaults, node), n);
    }
  }

  /** When no row is blank, there is one annotation per row, in the order of the rows. */
  lemma NotesOfRows(lines: seq<string>, table: JobTable, defaults: Defaults, node: string)
    requires RowsReadable(lines, table, defaults, node)
    requires forall k :: 0 <= k < |lines| ==> Strip(lines[k]) != ""
    ensures |Notes(lines, table, defaults, node)| == |lines|
    ensures forall k :: 0 <= k < |lines| ==>
      Some(Notes(lines, table, defaults, node)[k]) == NoteOf(lines[k], table, defaults, node)
  {
    var xs := RowNotes(lines, table, defaults, node);
    forall k | 0 <= k < |lines| ensures xs[k].Some? {
      NoteContract(lines[k], table, defaults, node);
    }
    SomesAll(xs);
  }

  /** Row `i` adds its annotation, if any, to those of the rows before it. */
  lemma NotesStep(lines: seq<string>, i: nat, table: JobTable, defaults: Defaults, node: string)
    requires i < |lines|
    ensures Notes(lines[..i + 1], table, defaults, node) == Notes(lines[..i], table, defaults, node) +
      var x := NoteOf(lines[i], table, defaults, node); if x.Some? then [x.value] else []
  {
    RowNotesStep(lines, i, table, defaults, node);
    SomesSnoc(RowNotes(lines[..i], table, defaults, node), NoteOf(lines[i], table, defaults, node));
  }

  lemma RowNotesStep(lines: seq<string>, i: nat, table: JobTable, defaults: Defaults, node: string)
    requires i < |lines|
    ensures RowNotes(lines[..i + 1], table, defaults, node) ==
      RowNotes(lines[..i], table, defaults, node) + [NoteOf(lines[i], table, defaults, node)]
  {
    var b := lines[..i + 1];
    assert b[..|b| - 1] == lines[..i] && b[|b| - 1] == lines[i];
  }

  lemma TextsSnoc(ns: seq<Note>, n: Note)
    ensures Texts(ns + [n]) == Texts(ns) + [Text(n)]
  {
  }

  lemma TerminatedSnoc(xs: seq<string>, x: string, sep: string)
    ensures Terminated(xs + [x], sep) == Terminated(xs, sep) + x + sep
  {
    assert (xs + [x])[..|xs|] == xs;
  }

  lemma Regroup(a: string, b: string, c: string, d: string)
    ensures a + b + c + d == a + (b + c + d)
  {
  }

  /** The body of the `for line in text[1:-1]` loop for one row. */
  method AnnotateRow(line: string, table: JobTable, defaults: Defaults, node: string) returns (note: Option<Note>)
    requires RowReadable(line, table, defaults, node)
    ensures note == NoteOf(line, table, defaults, node)
  {
    var row := Strip(line);
    if row == "" {
      return None;
    }
    var values := Split(row, ",");
    var user, cpu, jobid := values[0], values[1], JobKey(values[4]);
    var gpu := table[jobid].tres[GpuKey];
    var mem := ParseMem(table[jobid].tres[MemKey]);
    var judged := Judge(user, cpu, ToInt(cpu), gpu, ToInt(gpu), mem, defaults[node]);
    note := Some(judged);
  }

  /** The colours of one annotation, once `int(cpu)` and `int(gpu)` are read: the recommended
      CPUs and memory and the comparisons. */
  method Judge(user: string, cpu: string, cpus: nat, gpu: string, gpus: nat, mem: nat, p: Policy) returns (note: Note)
    ensures note == Judged(user, cpu, cpus, gpu, gpus, mem, p)
  {
    var recommendedCpu := RecommendedCpu(p, gpus);
    var recommendedMem := RecommendedMem(p, cpus);
    var cpuFit := if cpus <= recommendedCpu then Within else Over;
    var memFit := if mem <= recommendedMem then Within else Over;
    var gpuShade := if gpu == "0" then NoGpus else SomeGpus;
    note := Note(user, cpu, cpuFit, gpu, gpuShade, mem, memFit);
  }

  /** The annotation loop of one node row: `row` is the row text, `stdout` what `squeue` prints
      for the node. */
  method AnnotateNode(row: string, stdout: string, table: JobTable, defaults: Defaults, node: string)
    returns (out: string)
    requires RowsReadable(Rows(stdout), table, defaults, node)
    ensures out == Annotated(row, stdout, table, defaults, node)
  {
    out := row;
    var text := Split(stdout, "\n");
    if |text| > 1 {
      out := AnnotateRows(row, text[1..|text| - 1], table, defaults, node);
      out := if EndsWith(out, ", ") then out[..|out| - 2] else out;
    }
  }

  /** `for line in text[1:-1]`: each annotation is appended to the row text with `", "` after it. */
  method AnnotateRows(row: string, lines: seq<string>, table: JobTable, defaults: Defaults, node: string)
    returns (out: string)
    requires RowsReadable(lines, table, defaults, node)
    ensures out == row + Terminated(Texts(Notes(lines, table, defaults, node)), ", ")
  {
    out := row;
    for i := 0 to |lines|
      invariant out == row + Terminated(Texts(Notes(lines[..i], table, defaults, node)), ", ")
    {
      NotesStep(lines, i, table, defaults, node);
      assert RowReadable(lines[i], table, defaults, node);
      ghost var before := Notes(lines[..i], table, defaults, node);
      var note := AnnotateRow(lines[i], table, defaults, node);
      if note.Some? {
        assert Notes(lines[..i + 1], table, defaults, node) == before + [note.value];
        TextsSnoc(before, note.value);
        TerminatedSnoc(Texts(before), Text(note.value), ", ");
        Regroup(row, Terminated(Texts(before), ", "), Text(note.value), ", ");
        out := out + Text(note.value) + ", ";
      } else {
        assert Notes(lines[..i + 1], table, defaults, node) == before;
      }
    }
    assert lines[..|lines|] == lines;
  }

  /** The mark that opens a partition's queue line. */
  const QueueMark: string := " \U{1DAB}"

  /** Reading a queue row does not raise: a non-blank row has at least three words. */
  predicate QueueRowReadable(line: string) {
    Strip(line) != "" ==> |Words(Strip(line))| >= 3
  }

  /** A stripped queue row whose third word, the pending reason, starts with `(`. */
  predicate Waiting(x: string) {
    |Words(x)| >= 3 && StartsWith(Words(x)[2], "(")
  }

  /** What a row adds to `queued_jobs`: the stripped row, if it is not blank and waits for a
      reason in parentheses. */
  function Kept(line: string): Option<string> {
    var x := Strip(line);
    if x != "" && Waiting(x) then Some(x) else None
  }

  function RowsKept(lines: seq<string>): (xs: seq<Option<string>>)
    ensures |xs| == |lines| && forall k :: 0 <= k < |lines| ==> xs[k] == Kept(lines[k])
  {
    if lines == [] then [] else RowsKept(lines[..|lines| - 1]) + [Kept(lines[|lines| - 1])]
  }

  /** `queued_jobs`: the stripped rows of the jobs that wait for a reason in parentheses, in
      order. */
  function Queued(lines: seq<string>): seq<string> {
    Somes(RowsKept(lines))
  }

  /** A row's stripped text is queued exactly when it is not blank and its third word starts
      with `(`; everything queued is the stripped text of a row. */
  lemma QueuedContract(lines: seq<string>)
    ensures forall x :: x in Queued(lines) ==> x != "" && Waiting(x)
    ensures forall k :: 0 <= k < |lines| ==>
      (Strip(lines[k]) in Queued(lines) <==> Strip(lines[k]) != "" && Waiting(Strip(lines[k])))
    ensures forall x :: x in Queued(lines) ==> exists k :: 0 <= k < |lines| && Strip(lines[k]) == x
  {
    var xs := RowsKept(lines);
    forall x ensures x in Queued(lines) <==> exists k :: 0 <= k < |lines| && xs[k] == Some(x) {
      SomesHas(xs, x);
    }
  }

  /** The text a queued job is shown with: its user, then its reason without the reason's first
      and last characters, in parentheses. Only rows of three words or more are queued; any
      other text stands for itself. */
  function QueueText(x: string): string {
    var info := Words(x);
    if |info| >= 3 then info[0] + "(" + Inner(Join(info[2..], " ")) + ")" else x
  }

  /** The rendered reason is the reason words joined with spaces, without the opening `(` and
      without the last character. */
  lemma QueueReason(x: string)
    requires Waiting(x)
    ensures var r := Join(Words(x)[2..], " ");
      r[0] == '(' && (|r| >= 2 ==> r == "(" + Inner(r) + [r[|r| - 1]]) && (|r| < 2 ==> Inner(r) == "")
  {
    var ws := Words(x)[2..];
    assert ws[0] == Words(x)[2];
    ReasonJoin(ws);
  }

  lemma ReasonJoin(ws: seq<string>)
    requires ws != [] && StartsWith(ws[0], "(")
    ensures var r := Join(ws, " ");
      r[0] == '(' && (|r| >= 2 ==> r == "(" + Inner(r) + [r[|r| - 1]]) && (|r| < 2 ==> Inner(r) == "")
  {
    assert ws[0][..1] == "(";
    JoinStartsWith(ws, " ");
    var r := Join(ws, " ");
    assert [r[0]] == "(";
  }

  /** A join starts with the first character of its first item. */
  lemma JoinStartsWith(ws: seq<string>, sep: string)
    requires ws != [] && ws[0] != []
    ensures |Join(ws, sep)| > 0 && Join(ws, sep)[0] == ws[0][0]
  {
    if |ws| > 1 {
      JoinCons(ws[0], ws[1..], sep);
      assert ws == [ws[0]] + ws[1..];
    }
  }

  /** The texts of the queued jobs, in order. */
  function QueueTexts(q: seq<string>): seq<string> {
    if q == [] then [] else QueueTexts(q[..|q| - 1]) + [QueueText(q[|q| - 1])]
  }

  /** `out[:-1] if out.endswith("-") else out` */
  function CutDash(out: string): string {
    if EndsWith(out, "-") then out[..|out| - 1] else out
  }

  /** The queue line of a partition, or nothing when no job waits for a reason in parentheses. */
  function QueueLine(stdout: string): Option<string> {
    var q := Queued(Rows(stdout));
    if q == [] then None else Some(CutDash(QueueMark + Terminated(QueueTexts(q), "-")))
  }

  /** There is a queue line exactly when some row is kept, and it is the mark followed by the
      queued jobs joined with `-`. */
  lemma QueueLineJoin(stdout: string)
    ensures QueueLine(stdout).None? <==> forall k :: 0 <= k < |Rows(stdout)| ==> Kept(Rows(stdout)[k]).None?
    ensures QueueLine(stdout).Some? ==> QueueLine(stdout).value == QueueMark + Join(QueueTexts(Queued(Rows(stdout))), "-")
  {
    var xs := RowsKept(Rows(stdout));
    var q := Somes(xs);
    if q != [] {
      CutDashJoins(QueueTexts(q));
      SomesHas(xs, q[0]);
    } else {
      NothingKept(xs);
    }
  }

  lemma QueueLineOf(stdout: string, queued: seq<string>)
    requires queued == Queued(Rows(stdout))
    ensures QueueLine(stdout) == if queued == [] then None else Some(CutDash(QueueMark + Terminated(QueueTexts(queued), "-")))
  {
  }

  /** Every queued row waits for a reason in parentheses. */
  lemma QueuedWaiting(lines: seq<string>)
    ensures forall k :: 0 <= k < |Queued(lines)| ==> Waiting(Queued(lines)[k])
  {
    QueuedContract(lines);
  }

  lemma NothingKept(xs: seq<Option<string>>)
    requires Somes(xs) == []
    ensures forall k :: 0 <= k < |xs| ==> xs[k].None?
  {
    forall k | 0 <= k < |xs| ensures xs[k].None? {
      if xs[k].Some? {
        SomesHas(xs, xs[k].value);
      }
    }
  }

  /** Appending every text with `-` after it to the mark and cutting the last `-` joins the texts
      with `-`. */
  lemma CutDashJoins(ts: seq<string>)
    requires ts != []
    ensures CutDash(QueueMark + Terminated(ts, "-")) == QueueMark + Join(ts, "-")
  {
    TerminatedIsJoin(ts, "-");
    var out := QueueMark + Join(ts, "-") + "-";
    assert out[..|out| - 1] == QueueMark + Join(ts, "-");
    assert out[|out| - 1..] == "-";
  }

  lemma QueuedStep(lines: seq<string>, i: nat)
    requires i < |lines|
    ensures Queued(lines[..i + 1]) == Queued(lines[..i]) + var x := Kept(lines[i]); if x.Some? then [x.value] else []
  {
    var b := lines[..i + 1];
    assert b[..|b| - 1] == lines[..i] && b[|b| - 1] == lines[i];
    SomesSnoc(RowsKept(lines[..i]), Kept(lines[i]));
  }

  lemma QueueTextsStep(q: seq<string>, i: nat)
    requires i < |q|
    ensures QueueTexts(q[..i + 1]) == QueueTexts(q[..i]) + [QueueText(q[i])]
  {
    var b := q[..i + 1];
    assert b[..|b| - 1] == q[..i] && b[|b| - 1] == q[i];
  }

  /** The queue summary of one partition: `stdout` is what `squeue` prints for it. */
  method QueueSummary(stdout: string) returns (summary: Option<string>)
    requires forall k :: 0 <= k < |Rows(stdout)| ==> QueueRowReadable(Rows(stdout)[k])
    ensures summary == QueueLine(stdout)
  {
    var queued := QueuedRows(stdout);
    QueuedWaiting(Rows(stdout));
    QueueLineOf(stdout, queued);
    if |queued| > 0 {
      var out := RenderQueue(queued);
      out := if EndsWith(out, "-") then out[..|out| - 1] else out;
      summary := Some(out);
    } else {
      summary := None;
    }
  }

  /** `queued_jobs` of the rows of `squeue`'s output. */
  method QueuedRows(stdout: string) returns (queued: seq<string>)
    requires forall k :: 0 <= k < |Rows(stdout)| ==> QueueRowReadable(Rows(stdout)[k])
    ensures queued == Queued(Rows(stdout))
  {
    var text := Split(stdout, "\n");
    queued := [];
    if |text| > 1 {
      assert text[1..|text| - 1] == Rows(stdout);
      queued := CollectQueued(text[1..|text| - 1]);
    }
  }

  /** The `for line in text[1:-1]` loop that fills `queued_jobs`. */
  method CollectQueued(lines: seq<string>) returns (queued: seq<string>)
    requires forall k :: 0 <= k < |lines| ==> QueueRowReadable(lines[k])
    ensures queued == Queued(lines)
  {
    queued := [];
    for i := 0 to |lines|
      invariant queued == Queued(lines[..i])
    {
      QueuedStep(lines, i);
      assert QueueRowReadable(lines[i]);
      var line := Strip(lines[i]);
      if line != "" {
        var reason := Words(line)[2];
        if StartsWith(reason, "(") {
          queued := queued + [line];
        }
      }
    }
    assert lines[..|lines|] == lines;
  }

  /** The `for line in queued_jobs` loop: each job's text is appended to the mark with `-` after
      it. */
  method RenderQueue(queued: seq<string>) returns (out: string)
    requires forall k :: 0 <= k < |queued| ==> Waiting(queued[k])
    ensures out == QueueMark + Terminated(QueueTexts(queued), "-")
  {
    out := QueueMark;
    for i := 0 to |queued|
      invariant out == QueueMark + Terminated(QueueTexts(queued[..i]), "-")
    {
      QueueTextsStep(queued, i);
      TerminatedSnoc(QueueTexts(queued[..i]), QueueText(queued[i]), "-");
      Regroup(QueueMark, Terminated(QueueTexts(queued[..i]), "-"), QueueText(queued[i]), "-");
      var info := Words(queued[i]);
      var reason := Inner(Join(info[2..], " "));
      assert info[0] + "(" + reason + ")" == QueueText(queued[i]);
      out := out + (info[0] + "(" + reason + ")") + "-";
    }
    assert queued[..|queued|] == queued;
  }
}
