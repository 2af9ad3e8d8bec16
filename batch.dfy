/**
 * The resumable batch run of `main`: the output file is read (or created) to
 * learn which source texts are already translated, then the rows of the
 * chosen index range are visited in order; a row whose `context` is already
 * done is skipped, any other row is translated and appended to the output
 * file, one row per write.
 *
 * The loop's calls out are parameters: `translate(i, text)` is what the call
 * to `translate` returns at row `i` (see `Via`, which builds it from the remote
 * service's replies), and `writeOk(i)` says whether appending the row for index
 * `i` succeeds.
 */
module Batch {
  import opened Wrappers
  import opened Translator

  /** A row of the input table: its `context` column (the text to translate)
      and its `ids` column. */
  datatype SourceRow = SourceRow(context: string, ids: string)

  /** A row of the output table, in the column order `context, id, context_my`. */
  datatype OutRow = OutRow(context: string, id: string, contextMy: string)

  /** The header written when the output file is created. Note that it names the
      identifier column `id`, while the input column is `ids`. */
  const Header: seq<string> := ["context", "id", "context_my"]

  /** The output table. Its rows are taken in the script's column order
      `context, id, context_my`, whatever `header` says. */
  datatype OutputFile = OutputFile(header: seq<string>, rows: seq<OutRow>)

  /** The output path at start-up: absent, or present with a flag telling
      whether it can be read back as a table with a `context` column. */
  datatype Disk = Missing | Present(file: OutputFile, readable: bool)

  /** The command-line arguments the run uses; `end` is `None` when not given. */
  datatype Args = Args(start: int, end: Option<int>, source: string, target: string)

  datatype Stats = Stats(processed: nat, skipped: nat, tokens: nat)

  datatype ExitReason = OutputNotCreated | QuotaExceeded | TranslationError | RowIndexError

  /** How the process ends: normal completion, or `sys.exit(1)` (or an uncaught
      exception) for the given reason. */
  datatype Outcome = Completed | Exited(reason: ExitReason)

  function ExitStatus(o: Outcome): (code: int)
    ensures code == 0 <==> o.Completed?
    ensures o.Exited? ==> code == 1
  {
    match o
    case Completed => 0
    case Exited(_) => 1
  }

  /** What happened at one visited index: the row was skipped, translated (with
      the output row, its token count, and whether the append succeeded), or the
      run stopped there. */
  datatype Step =
    | Skipped(index: int)
    | Processed(index: int, out: OutRow, tokens: nat, written: bool)
    | Aborted(index: int, reason: ExitReason)

  /** Everything one run produces: the exit outcome, the output file afterwards,
      the counters, and the per-index log of what was done. */
  datatype Report = Report(outcome: Outcome, disk: Disk, stats: Stats, log: seq<Step>)

  /** The source texts of a list of output rows. */
  function Contexts(rows: seq<OutRow>): set<string> {
    set k | 0 <= k < |rows| :: rows[k].context
  }

  /** Start-up: the completed set and the output file the run appends to, or
      `None` when the file is absent and cannot be created. */
  function Bootstrap(disk: Disk, canCreate: bool): (r: Option<(OutputFile, set<string>)>)
    ensures r.None? <==> disk.Missing? && !canCreate
    ensures r.Some? ==> r.value.1 <= Contexts(r.value.0.rows)
    ensures disk.Missing? && canCreate ==> r == Some((OutputFile(Header, []), {}))
    ensures disk.Present? ==> r.Some? && r.value.0 == disk.file
    ensures disk.Present? && disk.readable ==> r.value.1 == Contexts(disk.file.rows)
    ensures disk.Present? && !disk.readable ==> r.value.1 == {}
  {
    match disk
    case Missing =>
      if canCreate then Some((OutputFile(Header, []), {})) else None
    case Present(file, readable) =>
      if readable then Some((file, set row | row in file.rows :: row.context))
      else Some((file, {}))
  }

  /** The end of the visited range: `min(end, total_rows)`, `end` defaulting to
      the row count. */
  function RangeEnd(args: Args, total: nat): int {
    var end := args.end.GetOr(total);
    if end < total then end else total
  }

  /** `df.iloc[i]`: a negative index counts from the end; an index out of range
      raises. */
  function RowAt(src: seq<SourceRow>, i: int): Option<SourceRow> {
    if 0 <= i < |src| then Some(src[i])
    else if -|src| <= i < 0 then Some(src[|src| + i])
    else None
  }

  /** What the loop reads but never changes. `translate(i, text)` is what the
      call to `translate` returns when row `i` is visited with source text
      `text`. */
  datatype Env = Env(
    src: seq<SourceRow>,
    done: set<string>,
    hi: int,
    translate: (int, string) -> Translation,
    writeOk: int -> bool)

  /** What the loop changes: the output file's rows, the counters and the log. */
  datatype LoopState = LoopState(rows: seq<OutRow>, stats: Stats, log: seq<Step>)

  function ExitFor(f: Failure): ExitReason {
    match f
    case QuotaExhausted => QuotaExceeded
    case OtherError => TranslationError
  }

  /** What the loop body does at `index`: look the row up, skip it when its
      text is done, otherwise translate it (stopping on failure) and try to
      append the result. It depends only on what the loop never changes. */
  function Attempt(env: Env, index: int): Step {
    match RowAt(env.src, index)
    case None => Aborted(index, RowIndexError)
    case Some(row) =>
      if row.context in env.done then Skipped(index)
      else match env.translate(index, row.context)
        case Failed(f) => Aborted(index, ExitFor(f))
        case Translated(text, n) =>
          Processed(index, OutRow(row.context, row.ids, text), n, env.writeOk(index))
  }

  /** The state after a step that does not stop the run: the appended row when
      the write succeeded, the counters, and the log entry. */
  function Apply(st: LoopState, s: Step): LoopState {
    LoopState(
      if s.Processed? && s.written then st.rows + [s.out] else st.rows,
      Stats(st.stats.processed + (if s.Processed? then 1 else 0),
            st.stats.skipped + (if s.Skipped? then 1 else 0),
            st.stats.tokens + (if s.Processed? then s.tokens else 0)),
      st.log + [s])
  }

  /** The loop from `index` on, up to (not including) `env.hi`. */
  function Loop(env: Env, index: int, st: LoopState): (Outcome, LoopState)
    decreases env.hi - index
  {
    if index >= env.hi then (Completed, st)
    else
      var s := Attempt(env, index);
      if s.Aborted? then (Exited(s.reason), st.(log := st.log + [s]))
      else Loop(env, index + 1, Apply(st, s))
  }

  /** One iteration of the loop that does not stop the run. */
  lemma LoopStep(env: Env, index: int, st: LoopState)
    requires index < env.hi && !Attempt(env, index).Aborted?
    ensures Loop(env, index, st) == Loop(env, index + 1, Apply(st, Attempt(env, index)))
  {
  }

  /** The `translate` that `main` calls: the prompt is built from the row's
      text and the two languages, sent to the remote service (whose reply to
      the request made at row `i` is `remote(i, prompt)`), and the reply turned
      into an outcome. */
  function Via(remote: (int, string) -> Reply, source: string, target: string)
    : (int, string) -> Translation
  {
    (i: int, text: string) => Translate(remote(i, Prompt(text, source, target)))
  }

  /** The loop's environment once start-up has produced `done`. */
  function EnvOf(args: Args, src: seq<SourceRow>, done: set<string>,
                 translate: (int, string) -> Translation, writeOk: int -> bool): Env
  {
    Env(src, done, RangeEnd(args, |src|), translate, writeOk)
  }

  /** A whole run: start-up followed by the loop from `args.start`. */
  function RunSpec(args: Args, src: seq<SourceRow>, disk: Disk, canCreate: bool,
                   translate: (int, string) -> Translation, writeOk: int -> bool): Report
  {
    match Bootstrap(disk, canCreate)
    case None => Report(Exited(OutputNotCreated), disk, Stats(0, 0, 0), [])
    case Some((file, done)) =>
      var (o, st) := Loop(EnvOf(args, src, done, translate, writeOk), args.start,
                          LoopState(file.rows, Stats(0, 0, 0), []));
      Report(o, Present(file.(rows := st.rows), disk.Missing? || disk.readable), st.stats, st.log)
  }

  /** The loop body of `main` up to the counter updates: look the row up, skip
      it when its text is done, otherwise translate it and try to append the
      result. */
  method Visit(env: Env, index: int) returns (step: Step)
    ensures step == Attempt(env, index)
    ensures step.index == index
  {
    var found := RowAt(env.src, index);
    if found.None? {
      return Aborted(index, RowIndexError);
    }
    var row := found.value;
    if row.context in env.done {
      return Skipped(index);
    }
    var t := env.translate(index, row.context);
    if t.Failed? {
      return Aborted(index, ExitFor(t.failure));
    }
    var written := env.writeOk(index);
    step := Processed(index, OutRow(row.context, row.ids, t.text), t.tokens, written);
  }

  /** `main` from start-up on: the bootstrap of the output file, then the loop
      over the index range with its three counters and one append per
      translated row. */
  method Run(args: Args, src: seq<SourceRow>, disk: Disk, canCreate: bool,
             translate: (int, string) -> Translation, writeOk: int -> bool)
    returns (report: Report)
    ensures report == RunSpec(args, src, disk, canCreate, translate, writeOk)
  {
    var boot := Bootstrap(disk, canCreate);
    if boot.None? {
      return Report(Exited(OutputNotCreated), disk, Stats(0, 0, 0), []);
    }
    var (file, done) := boot.value;
    var readable := disk.Missing? || disk.readable;
    var env := EnvOf(args, src, done, translate, writeOk);
    ghost var init := LoopState(file.rows, Stats(0, 0, 0), []);

    var rows := file.rows;
    var processed: nat, skipped: nat, tokens: nat := 0, 0, 0;
    var log: seq<Step> := [];
    var index := args.start;
    while index < env.hi
      invariant Loop(env, index, LoopState(rows, Stats(processed, skipped, tokens), log))
             == Loop(env, args.start, init)
      decreases env.hi - index
    {
      ghost var before := LoopState(rows, Stats(processed, skipped, tokens), log);
      var step := Visit(env, index);
      log := log + [step];
      match step {
        case Aborted(_, reason) =>
          return Report(Exited(reason), Present(file.(rows := rows), readable),
                        Stats(processed, skipped, tokens), log);
        case Skipped(_) =>
          skipped := skipped + 1;
          assert Apply(before, step) == LoopState(rows, Stats(processed, skipped, tokens), log);
        case Processed(_, out, n, written) =>
          processed := processed + 1;
          tokens := tokens + n;
          if written {
            rows := rows + [out];
          }
          assert Apply(before, step).rows == rows;
          assert Apply(before, step).stats == Stats(processed, skipped, tokens);
          assert Apply(before, step).log == log;
      }
      ghost var after := LoopState(rows, Stats(processed, skipped, tokens), log);
      assert Apply(before, step) == after;
      LoopStep(env, index, before);
      assert Loop(env, index + 1, after) == Loop(env, args.start, init);
      index := index + 1;
    }
    report := Report(Completed, Present(file.(rows := rows), readable),
                     Stats(processed, skipped, tokens), log);
  }
}
