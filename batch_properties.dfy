/**
 * What a run of the batch loop guarantees: the indices it visits, when it
 * skips, what it appends, what its counters add up to, how it stops, and what
 * a second run over the same range does.
 */
module BatchProperties {
  import opened Wrappers
  import opened Text
  import opened Translator
  import opened Batch

  // ---------------------------------------------------------------------------
  // Reading a log

  function Last(log: seq<Step>): Step
    requires log != []
  {
    log[|log| - 1]
  }

  predicate NoAbort(log: seq<Step>) {
    forall k :: 0 <= k < |log| ==> !log[k].Aborted?
  }

  function SkippedCount(log: seq<Step>): nat {
    if log == [] then 0
    else SkippedCount(log[..|log| - 1]) + (if Last(log).Skipped? then 1 else 0)
  }

  function ProcessedCount(log: seq<Step>): nat {
    if log == [] then 0
    else ProcessedCount(log[..|log| - 1]) + (if Last(log).Processed? then 1 else 0)
  }

  /** The token counts of the translated rows, added up. */
  function TokenSum(log: seq<Step>): nat {
    if log == [] then 0
    else TokenSum(log[..|log| - 1]) + (if Last(log).Processed? then Last(log).tokens else 0)
  }

  /** The rows whose append succeeded, in the order they were written. */
  function Appended(log: seq<Step>): seq<OutRow> {
    if log == [] then []
    else if Last(log).Processed? && Last(log).written then Appended(log[..|log| - 1]) + [Last(log).out]
    else Appended(log[..|log| - 1])
  }

  /** The row at index `i` exists and its text is not in the completed set. */
  predicate Pending(src: seq<SourceRow>, done: set<string>, i: int) {
    RowAt(src, i).Some? && RowAt(src, i).value.context !in done
  }

  /** A log of the loop started at `start`: entry `k` is what the loop body
      does at index `start + k`, below the end of the range; only the last
      entry may stop the run. */
  predicate IsTrace(env: Env, start: int, log: seq<Step>) {
    && (forall k :: 0 <= k < |log| ==> start + k < env.hi && log[k] == Attempt(env, start + k))
    && (forall k :: 0 <= k < |log| - 1 ==> !log[k].Aborted?)
  }

  /** The file rows and the counters are those the log accounts for. */
  predicate Tallies(base: seq<OutRow>, st: LoopState) {
    && st.rows == base + Appended(st.log)
    && st.stats == Stats(ProcessedCount(st.log), SkippedCount(st.log), TokenSum(st.log))
  }

  // ---------------------------------------------------------------------------
  // One iteration

  /** What the loop body does at index `i` before translating: a row that
      does not exist stops the run with an index error, and a row whose text is
      done is skipped. */
  lemma AttemptSkips(env: Env, i: int)
    ensures var s := Attempt(env, i);
      && s.index == i
      && (s == Aborted(i, RowIndexError) <==> RowAt(env.src, i).None?)
      && (s.Skipped? <==> RowAt(env.src, i).Some? && RowAt(env.src, i).value.context in env.done)
  {
  }

  /** What the loop body does at a pending index: the translation's failure
      stops the run with the matching reason, and its success yields the output
      row (text, id, translation), the token count and the outcome of the
      append. */
  lemma AttemptTranslates(env: Env, i: int)
    ensures var s := Attempt(env, i);
      && s.index == i
      && (s.Processed? ==>
            && Pending(env.src, env.done, i)
            && var row := RowAt(env.src, i).value;
            && env.translate(i, row.context) == Translated(s.out.contextMy, s.tokens)
            && s.out.context == row.context && s.out.id == row.ids
            && s.written == env.writeOk(i))
      && (s.Aborted? && s.reason != RowIndexError ==>
            && Pending(env.src, env.done, i)
            && var t := env.translate(i, RowAt(env.src, i).value.context);
            && t.Failed? && s.reason == ExitFor(t.failure))
      && (Pending(env.src, env.done, i) ==>
            (s.Processed? <==> env.translate(i, RowAt(env.src, i).value.context).Translated?))
  {
  }

  lemma CountsAppend(log: seq<Step>, s: Step)
    ensures (log + [s])[..|log|] == log && Last(log + [s]) == s
    ensures SkippedCount(log + [s]) == SkippedCount(log) + (if s.Skipped? then 1 else 0)
    ensures ProcessedCount(log + [s]) == ProcessedCount(log) + (if s.Processed? then 1 else 0)
    ensures TokenSum(log + [s]) == TokenSum(log) + (if s.Processed? then s.tokens else 0)
    ensures Appended(log + [s]) == if s.Processed? && s.written then Appended(log) + [s.out] else Appended(log)
  {
    assert (log + [s])[..|log|] == log;
  }

  /** A step that does not stop the run keeps the tallies right. */
  lemma ApplyTallies(base: seq<OutRow>, st: LoopState, s: Step)
    requires Tallies(base, st)
    ensures Tallies(base, Apply(st, s))
  {
    CountsAppend(st.log, s);
    if s.Processed? && s.written {
      assert base + Appended(st.log) + [s.out] == base + (Appended(st.log) + [s.out]);
    }
  }

  /** A step that stops the run adds a log entry and nothing else. */
  lemma AbortTallies(base: seq<OutRow>, st: LoopState, s: Step)
    requires s.Aborted? && Tallies(base, st)
    ensures Tallies(base, st.(log := st.log + [s]))
  {
    CountsAppend(st.log, s);
  }

  lemma TraceExtend(env: Env, start: int, log: seq<Step>)
    requires IsTrace(env, start, log) && NoAbort(log)
    requires start + |log| < env.hi
    ensures var log' := log + [Attempt(env, start + |log|)];
      IsTrace(env, start, log') && (!Last(log').Aborted? ==> NoAbort(log'))
  {
    var log' := log + [Attempt(env, start + |log|)];
    assert forall k :: 0 <= k < |log| ==> log'[k] == log[k];
  }

  // ---------------------------------------------------------------------------
  // The loop

  /** The loop from `index` keeps the log a trace and the tallies right; it
      either completes having visited every index up to `env.hi`, or stops at
      the index of its last log entry, for the reason that entry gives. */
  lemma {:induction false} LoopKeeps(env: Env, start: int, index: int, base: seq<OutRow>, st: LoopState)
    requires start <= index && |st.log| == index - start
    requires IsTrace(env, start, st.log) && NoAbort(st.log) && Tallies(base, st)
    ensures var r := Loop(env, index, st);
      && IsTrace(env, start, r.1.log) && Tallies(base, r.1)
      && (r.0.Completed? ==>
            NoAbort(r.1.log) && start + |r.1.log| == (if index < env.hi then env.hi else index))
      && (r.0.Exited? ==>
            r.1.log != [] && Last(r.1.log).Aborted? && Last(r.1.log).reason == r.0.reason)
    decreases env.hi - index
  {
    if index < env.hi {
      var s := Attempt(env, index);
      TraceExtend(env, start, st.log);
      CountsAppend(st.log, s);
      if s.Aborted? {
        AbortTallies(base, st, s);
      } else {
        LoopStep(env, index, st);
        ApplyTallies(base, st, s);
        LoopKeeps(env, start, index + 1, base, Apply(st, s));
      }
    }
  }

  /** The loop calls `translate` only for pending rows: two loops whose
      `translate` agree on the pending rows of the range are the same loop. */
  lemma {:induction false} LoopIgnoresDoneRows(env: Env, translate': (int, string) -> Translation,
                                               index: int, st: LoopState)
    requires forall i :: index <= i < env.hi && Pending(env.src, env.done, i) ==>
      env.translate(i, RowAt(env.src, i).value.context) == translate'(i, RowAt(env.src, i).value.context)
    ensures Loop(env, index, st) == Loop(env.(translate := translate'), index, st)
    decreases env.hi - index
  {
    var env' := env.(translate := translate');
    if index < env.hi {
      assert Attempt(env, index) == Attempt(env', index);
      var s := Attempt(env, index);
      if !s.Aborted? {
        LoopIgnoresDoneRows(env, translate', index + 1, Apply(st, s));
      }
    }
  }

  // ---------------------------------------------------------------------------
  // A whole run

  /** The completed set a run derives from the output file it finds. */
  function DoneAtStart(disk: Disk): set<string> {
    if disk.Present? && disk.readable then Contexts(disk.file.rows) else {}
  }

  /** The rows the output file holds before the run. */
  function RowsAtStart(disk: Disk): seq<OutRow> {
    if disk.Present? then disk.file.rows else []
  }

  function HeaderAfterStart(disk: Disk): seq<string> {
    if disk.Present? then disk.file.header else Header
  }

  /** The loop environment of a run whose start-up succeeded. */
  function RunEnv(args: Args, src: seq<SourceRow>, disk: Disk,
                  translate: (int, string) -> Translation, writeOk: int -> bool): Env
  {
    EnvOf(args, src, DoneAtStart(disk), translate, writeOk)
  }

  /** Everything about one run that the lemmas below rely on. */
  lemma RunFacts(args: Args, src: seq<SourceRow>, disk: Disk, canCreate: bool,
                 translate: (int, string) -> Translation, writeOk: int -> bool)
    requires disk.Present? || canCreate
    ensures var rep := RunSpec(args, src, disk, canCreate, translate, writeOk);
      var env := RunEnv(args, src, disk, translate, writeOk);
      && rep.outcome != Exited(OutputNotCreated)
      && IsTrace(env, args.start, rep.log)
      && rep.disk == Present(OutputFile(HeaderAfterStart(disk), RowsAtStart(disk) + Appended(rep.log)),
                             disk.Missing? || disk.readable)
      && rep.stats == Stats(ProcessedCount(rep.log), SkippedCount(rep.log), TokenSum(rep.log))
      && (rep.outcome.Completed? ==>
            NoAbort(rep.log) && |rep.log| == (if args.start < env.hi then env.hi - args.start else 0))
      && (rep.outcome.Exited? ==>
            rep.log != [] && Last(rep.log).Aborted? && Last(rep.log).reason == rep.outcome.reason)
  {
    var env := RunEnv(args, src, disk, translate, writeOk);
    assert Bootstrap(disk, canCreate)
        == Some((OutputFile(HeaderAfterStart(disk), RowsAtStart(disk)), DoneAtStart(disk)));
    var init := LoopState(RowsAtStart(disk), Stats(0, 0, 0), []);
    assert Tallies(RowsAtStart(disk), init);
    LoopKeeps(env, args.start, args.start, RowsAtStart(disk), init);
    assert Appended([]) == [];
  }

  lemma {:induction false} CountsWithoutAbort(log: seq<Step>)
    requires NoAbort(log)
    ensures SkippedCount(log) + ProcessedCount(log) == |log|
  {
    if log != [] {
      CountsWithoutAbort(log[..|log| - 1]);
    }
  }

  /** Start-up fails, with exit status 1, exactly when the output file is
      absent and cannot be created; nothing else happens then. */
  lemma RunOutputNotCreated(args: Args, src: seq<SourceRow>, disk: Disk, canCreate: bool,
                            translate: (int, string) -> Translation, writeOk: int -> bool)
    ensures var rep := RunSpec(args, src, disk, canCreate, translate, writeOk);
      && (rep.outcome == Exited(OutputNotCreated) <==> disk.Missing? && !canCreate)
      && (rep.outcome == Exited(OutputNotCreated) ==>
            ExitStatus(rep.outcome) == 1 && rep.disk == disk && rep.log == [] && rep.stats == Stats(0, 0, 0))
  {
    if disk.Present? || canCreate {
      RunFacts(args, src, disk, canCreate, translate, writeOk);
    }
  }

  /** The run visits the indices `start, start + 1, ...` in ascending order, all
      below `min(end, total_rows)`; on completion it has visited every one of
      them, and none when `start` is not below that bound. */
  lemma RunVisitsRange(args: Args, src: seq<SourceRow>, disk: Disk, canCreate: bool,
                       translate: (int, string) -> Translation, writeOk: int -> bool)
    requires disk.Present? || canCreate
    ensures var rep := RunSpec(args, src, disk, canCreate, translate, writeOk);
      var hi := RangeEnd(args, |src|);
      && (forall k :: 0 <= k < |rep.log| ==> rep.log[k].index == args.start + k < hi)
      && (rep.outcome.Completed? ==> |rep.log| == if args.start < hi then hi - args.start else 0)
      && (args.start >= hi ==> rep.log == [] && rep.outcome.Completed?)
  {
    RunFacts(args, src, disk, canCreate, translate, writeOk);
    var rep := RunSpec(args, src, disk, canCreate, translate, writeOk);
    var env := RunEnv(args, src, disk, translate, writeOk);
    forall k | 0 <= k < |rep.log|
      ensures rep.log[k].index == args.start + k
    {
      AttemptSkips(env, args.start + k);
    }
  }

  /** An index is skipped exactly when its row exists and its text is in the
      completed set read at start-up; it stops the run with an index error
      exactly when its row does not exist. */
  lemma RunSkipsCompleted(args: Args, src: seq<SourceRow>, disk: Disk, canCreate: bool,
                          translate: (int, string) -> Translation, writeOk: int -> bool)
    requires disk.Present? || canCreate
    ensures var rep := RunSpec(args, src, disk, canCreate, translate, writeOk);
      forall k :: 0 <= k < |rep.log| ==>
        var i := args.start + k;
        && (rep.log[k].Skipped? <==> RowAt(src, i).Some? && RowAt(src, i).value.context in DoneAtStart(disk))
        && (rep.log[k] == Aborted(i, RowIndexError) <==> RowAt(src, i).None?)
  {
    RunFacts(args, src, disk, canCreate, translate, writeOk);
    var rep := RunSpec(args, src, disk, canCreate, translate, writeOk);
    var env := RunEnv(args, src, disk, translate, writeOk);
    forall k | 0 <= k < |rep.log|
      ensures var i := args.start + k;
        && (rep.log[k].Skipped? <==> RowAt(src, i).Some? && RowAt(src, i).value.context in DoneAtStart(disk))
        && (rep.log[k] == Aborted(i, RowIndexError) <==> RowAt(src, i).None?)
    {
      AttemptSkips(env, args.start + k);
    }
  }

  /** `translate` is called only for the pending rows of the range: two runs
      whose `translate` agree on those rows are the same run. In particular a
      row whose text is already done is never sent to the service. */
  lemma RunIgnoresDoneRows(args: Args, src: seq<SourceRow>, disk: Disk, canCreate: bool,
                           translate: (int, string) -> Translation,
                           translate': (int, string) -> Translation, writeOk: int -> bool)
    requires forall i :: args.start <= i < RangeEnd(args, |src|) && Pending(src, DoneAtStart(disk), i) ==>
      translate(i, RowAt(src, i).value.context) == translate'(i, RowAt(src, i).value.context)
    ensures RunSpec(args, src, disk, canCreate, translate, writeOk)
         == RunSpec(args, src, disk, canCreate, translate', writeOk)
  {
    if disk.Present? || canCreate {
      var env := RunEnv(args, src, disk, translate, writeOk);
      LoopIgnoresDoneRows(env, translate', args.start, LoopState(RowsAtStart(disk), Stats(0, 0, 0), []));
      assert env.(translate := translate') == RunEnv(args, src, disk, translate', writeOk);
      assert Bootstrap(disk, canCreate)
          == Some((OutputFile(HeaderAfterStart(disk), RowsAtStart(disk)), DoneAtStart(disk)));
    }
  }

  /** Each translated row is the row's text, its id and what `translate`
      returned for it; the counters are the number of translated rows, the
      number of skipped rows and the sum of the reported token counts; on
      completion translated and skipped rows add up to the visited indices. */
  lemma RunCounters(args: Args, src: seq<SourceRow>, disk: Disk, canCreate: bool,
                    translate: (int, string) -> Translation, writeOk: int -> bool)
    requires disk.Present? || canCreate
    ensures var rep := RunSpec(args, src, disk, canCreate, translate, writeOk);
      && rep.stats == Stats(ProcessedCount(rep.log), SkippedCount(rep.log), TokenSum(rep.log))
      && (forall k :: 0 <= k < |rep.log| && rep.log[k].Processed? ==>
            var i := args.start + k;
            && Pending(src, DoneAtStart(disk), i)
            && var row := RowAt(src, i).value;
            && rep.log[k].out.context == row.context && rep.log[k].out.id == row.ids
            && translate(i, row.context) == Translated(rep.log[k].out.contextMy, rep.log[k].tokens))
      && (rep.outcome.Completed? ==> rep.stats.processed + rep.stats.skipped == |rep.log|)
  {
    RunFacts(args, src, disk, canCreate, translate, writeOk);
    var rep := RunSpec(args, src, disk, canCreate, translate, writeOk);
    var env := RunEnv(args, src, disk, translate, writeOk);
    forall k | 0 <= k < |rep.log| && rep.log[k].Processed?
      ensures var i := args.start + k;
        && Pending(src, DoneAtStart(disk), i)
        && var row := RowAt(src, i).value;
        && rep.log[k].out.context == row.context && rep.log[k].out.id == row.ids
        && translate(i, row.context) == Translated(rep.log[k].out.contextMy, rep.log[k].tokens)
    {
      AttemptTranslates(env, args.start + k);
    }
    if rep.outcome.Completed? {
      CountsWithoutAbort(rep.log);
    }
  }

  /** The output file keeps its header and its earlier rows; the run only adds
      rows at the end, one per successful write, in index order. A failed write
      adds nothing, yet its row is counted as processed. */
  lemma RunAppendsOnly(args: Args, src: seq<SourceRow>, disk: Disk, canCreate: bool,
                       translate: (int, string) -> Translation, writeOk: int -> bool)
    requires disk.Present? || canCreate
    ensures var rep := RunSpec(args, src, disk, canCreate, translate, writeOk);
      && rep.disk.Present?
      && rep.disk.file.header == (if disk.Present? then disk.file.header else ["context", "id", "context_my"])
      && rep.disk.file.rows == RowsAtStart(disk) + Appended(rep.log)
      && (forall k :: 0 <= k < |rep.log| && rep.log[k].Processed? ==>
            rep.log[k].written == writeOk(args.start + k))
  {
    RunFacts(args, src, disk, canCreate, translate, writeOk);
    var rep := RunSpec(args, src, disk, canCreate, translate, writeOk);
    var env := RunEnv(args, src, disk, translate, writeOk);
    forall k | 0 <= k < |rep.log| && rep.log[k].Processed?
      ensures rep.log[k].written == writeOk(args.start + k)
    {
      AttemptTranslates(env, args.start + k);
    }
  }

  /** A failed translation ends the run with status 1 at the index of the last
      log entry, after no other stop; the exit reason is the quota one exactly
      when `translate` reported quota exhaustion. The rows written before stay
      as they were. */
  lemma RunStopsOnFailure(args: Args, src: seq<SourceRow>, disk: Disk, canCreate: bool,
                          translate: (int, string) -> Translation, writeOk: int -> bool)
    requires disk.Present? || canCreate
    ensures var rep := RunSpec(args, src, disk, canCreate, translate, writeOk);
      rep.outcome in {Exited(QuotaExceeded), Exited(TranslationError)} ==>
        && ExitStatus(rep.outcome) == 1
        && rep.log != [] && Last(rep.log).Aborted?
        && NoAbort(rep.log[..|rep.log| - 1])
        && var i := args.start + |rep.log| - 1;
        && Pending(src, DoneAtStart(disk), i)
        && var t := translate(i, RowAt(src, i).value.context);
        && t.Failed?
        && (rep.outcome == Exited(QuotaExceeded) <==> t.failure == QuotaExhausted)
        && RowsAtStart(disk) <= rep.disk.file.rows
  {
    RunFacts(args, src, disk, canCreate, translate, writeOk);
    var rep := RunSpec(args, src, disk, canCreate, translate, writeOk);
    var env := RunEnv(args, src, disk, translate, writeOk);
    if rep.outcome in {Exited(QuotaExceeded), Exited(TranslationError)} {
      AttemptTranslates(env, args.start + |rep.log| - 1);
    }
  }

  /** With the remote service behind `translate`, as `main` calls it: each
      translated row holds the cleaned reply text, which is in clean form and
      has the reply's words, and its token count is the reported total or zero
      when none is reported; a failed translation comes from a raised
      exception, and the run stops for quota exactly when the message mentions
      RESOURCE_EXHAUSTED or 429. */
  lemma RunWithService(args: Args, src: seq<SourceRow>, disk: Disk, canCreate: bool,
                       remote: (int, string) -> Reply, writeOk: int -> bool)
    requires disk.Present? || canCreate
    ensures var rep := RunSpec(args, src, disk, canCreate, Via(remote, args.source, args.target), writeOk);
      && (forall k :: 0 <= k < |rep.log| && rep.log[k].Processed? ==>
            var i := args.start + k;
            var reply := remote(i, Prompt(rep.log[k].out.context, args.source, args.target));
            && reply.Response?
            && rep.log[k].out.contextMy == CleanText(reply.text)
            && IsClean(rep.log[k].out.contextMy)
            && Split(rep.log[k].out.contextMy) == Split(reply.text)
            && rep.log[k].tokens == reply.usage.GetOr(0))
      && (rep.outcome in {Exited(QuotaExceeded), Exited(TranslationError)} ==>
            var i := args.start + |rep.log| - 1;
            && RowAt(src, i).Some?
            && var reply := remote(i, Prompt(RowAt(src, i).value.context, args.source, args.target));
            && reply.Raised?
            && (rep.outcome == Exited(QuotaExceeded) <==>
                  HasSubstring(reply.message, "RESOURCE_EXHAUSTED") || HasSubstring(reply.message, "429")))
  {
    var translate := Via(remote, args.source, args.target);
    RunCounters(args, src, disk, canCreate, translate, writeOk);
    RunStopsOnFailure(args, src, disk, canCreate, translate, writeOk);
    var rep := RunSpec(args, src, disk, canCreate, translate, writeOk);
    forall k | 0 <= k < |rep.log| && rep.log[k].Processed?
      ensures var i := args.start + k;
        var reply := remote(i, Prompt(rep.log[k].out.context, args.source, args.target));
        && reply.Response?
        && rep.log[k].out.contextMy == CleanText(reply.text)
        && IsClean(rep.log[k].out.contextMy)
        && Split(rep.log[k].out.contextMy) == Split(reply.text)
        && rep.log[k].tokens == reply.usage.GetOr(0)
    {
      var i := args.start + k;
      TranslateOutcome(remote(i, Prompt(rep.log[k].out.context, args.source, args.target)));
    }
    if rep.outcome in {Exited(QuotaExceeded), Exited(TranslationError)} {
      var i := args.start + |rep.log| - 1;
      TranslateOutcome(remote(i, Prompt(RowAt(src, i).value.context, args.source, args.target)));
    }
  }

  // ---------------------------------------------------------------------------
  // Running again

  /** Appending rows keeps every text already in the file and adds the texts
      of the appended rows. */
  lemma ContextsGrow(rows: seq<OutRow>, extra: seq<OutRow>)
    ensures Contexts(rows) <= Contexts(rows + extra)
    ensures forall r :: r in extra ==> r.context in Contexts(rows + extra)
  {
    forall c | c in Contexts(rows)
      ensures c in Contexts(rows + extra)
    {
      var j :| 0 <= j < |rows| && rows[j].context == c;
      assert (rows + extra)[j] == rows[j];
    }
    forall r | r in extra
      ensures r.context in Contexts(rows + extra)
    {
      var j :| 0 <= j < |extra| && extra[j] == r;
      assert (rows + extra)[|rows| + j] == r;
    }
  }

  /** Every written row of the log is among the appended rows. */
  lemma {:induction false} WrittenIsAppended(log: seq<Step>, k: nat)
    requires k < |log| && log[k].Processed? && log[k].written
    ensures log[k].out in Appended(log)
  {
    var n := |log| - 1;
    CountsAppend(log[..n], log[n]);
    assert log == log[..n] + [log[n]];
    if k < n {
      WrittenIsAppended(log[..n], k);
    }
  }

  /** On a readable or newly created output file, after a run whose appends
      all succeeded, every index it visited and did not stop at holds a row
      whose text the output file now contains. */
  lemma DoneAfterRun(args: Args, src: seq<SourceRow>, disk: Disk, canCreate: bool,
                     translate: (int, string) -> Translation, writeOk: int -> bool, k: nat)
    requires disk.Missing? ==> canCreate
    requires disk.Present? ==> disk.readable
    requires forall i :: args.start <= i < RangeEnd(args, |src|) ==> writeOk(i)
    requires var rep := RunSpec(args, src, disk, canCreate, translate, writeOk);
      k < |rep.log| && !rep.log[k].Aborted?
    ensures var rep := RunSpec(args, src, disk, canCreate, translate, writeOk);
      && rep.disk.Present? && rep.disk.readable
      && RowAt(src, args.start + k).Some?
      && RowAt(src, args.start + k).value.context in Contexts(rep.disk.file.rows)
  {
    RunFacts(args, src, disk, canCreate, translate, writeOk);
    var rep := RunSpec(args, src, disk, canCreate, translate, writeOk);
    var env := RunEnv(args, src, disk, translate, writeOk);
    AttemptSkips(env, args.start + k);
    AttemptTranslates(env, args.start + k);
    ContextsGrow(RowsAtStart(disk), Appended(rep.log));
    if rep.log[k].Processed? {
      WrittenIsAppended(rep.log, k);
    }
  }

  lemma {:induction false} AllSkippedCounts(log: seq<Step>)
    requires forall k :: 0 <= k < |log| ==> log[k].Skipped?
    ensures SkippedCount(log) == |log|
    ensures ProcessedCount(log) == 0 && TokenSum(log) == 0 && Appended(log) == []
  {
    if log != [] {
      AllSkippedCounts(log[..|log| - 1]);
    }
  }

  /** Every index a second run over the same range visits is skipped, when
      the first run, on a readable or newly created file, completed with every
      write succeeding. */
  lemma RerunSkipsAll(args: Args, src: seq<SourceRow>, disk: Disk, canCreate: bool,
                      translate: (int, string) -> Translation, writeOk: int -> bool,
                      canCreate': bool, translate': (int, string) -> Translation, writeOk': int -> bool)
    requires disk.Missing? ==> canCreate
    requires disk.Present? ==> disk.readable
    requires forall i :: args.start <= i < RangeEnd(args, |src|) ==> writeOk(i)
    requires RunSpec(args, src, disk, canCreate, translate, writeOk).outcome.Completed?
    ensures var first := RunSpec(args, src, disk, canCreate, translate, writeOk);
      var second := RunSpec(args, src, first.disk, canCreate', translate', writeOk');
      forall k :: 0 <= k < |second.log| ==> second.log[k].Skipped?
  {
    var first := RunSpec(args, src, disk, canCreate, translate, writeOk);
    RunFacts(args, src, disk, canCreate, translate, writeOk);
    var disk2 := first.disk;
    RunFacts(args, src, disk2, canCreate', translate', writeOk');
    var second := RunSpec(args, src, disk2, canCreate', translate', writeOk');
    RunVisitsRange(args, src, disk2, canCreate', translate', writeOk');
    RunSkipsCompleted(args, src, disk2, canCreate', translate', writeOk');
    forall k | 0 <= k < |second.log|
      ensures second.log[k].Skipped?
    {
      DoneAfterRun(args, src, disk, canCreate, translate, writeOk, k);
    }
  }

  /** Running the same range again after a run on a readable or newly created
      file that completed with every write succeeding skips every row: nothing is sent to the service, nothing is
      appended, and the second run's skip count is the first run's processed
      plus skipped count. */
  lemma RerunIsNoOp(args: Args, src: seq<SourceRow>, disk: Disk, canCreate: bool,
                    translate: (int, string) -> Translation, writeOk: int -> bool,
                    canCreate': bool, translate': (int, string) -> Translation, writeOk': int -> bool)
    requires disk.Missing? ==> canCreate
    requires disk.Present? ==> disk.readable
    requires forall i :: args.start <= i < RangeEnd(args, |src|) ==> writeOk(i)
    requires RunSpec(args, src, disk, canCreate, translate, writeOk).outcome.Completed?
    ensures var first := RunSpec(args, src, disk, canCreate, translate, writeOk);
      var second := RunSpec(args, src, first.disk, canCreate', translate', writeOk');
      && second.outcome.Completed?
      && second.disk == first.disk
      && (forall k :: 0 <= k < |second.log| ==> second.log[k].Skipped?)
      && second.stats == Stats(0, first.stats.processed + first.stats.skipped, 0)
  {
    var first := RunSpec(args, src, disk, canCreate, translate, writeOk);
    RunFacts(args, src, disk, canCreate, translate, writeOk);
    CountsWithoutAbort(first.log);
    var disk2 := first.disk;
    RunFacts(args, src, disk2, canCreate', translate', writeOk');
    var second := RunSpec(args, src, disk2, canCreate', translate', writeOk');
    RerunSkipsAll(args, src, disk, canCreate, translate, writeOk, canCreate', translate', writeOk');
    assert second.log != [] ==> Last(second.log).Skipped?;
    AllSkippedCounts(second.log);
    assert RowsAtStart(disk2) + [] == RowsAtStart(disk2);
  }

  /** A second run over the same range skips every index before the one where
      a failed first run stopped, when the first run started on a readable or
      newly created file and every earlier write succeeded. */
  lemma ResumeSkipsPrefix(args: Args, src: seq<SourceRow>, disk: Disk, canCreate: bool,
                          translate: (int, string) -> Translation, writeOk: int -> bool,
                          canCreate': bool, translate': (int, string) -> Translation, writeOk': int -> bool)
    requires disk.Missing? ==> canCreate
    requires disk.Present? ==> disk.readable
    requires forall i :: args.start <= i < RangeEnd(args, |src|) ==> writeOk(i)
    requires RunSpec(args, src, disk, canCreate, translate, writeOk).outcome.Exited?
    ensures var first := RunSpec(args, src, disk, canCreate, translate, writeOk);
      var second := RunSpec(args, src, first.disk, canCreate', translate', writeOk');
      forall k :: 0 <= k < |second.log| && k < |first.log| - 1 ==> second.log[k] == Skipped(args.start + k)
  {
    var first := RunSpec(args, src, disk, canCreate, translate, writeOk);
    RunFacts(args, src, disk, canCreate, translate, writeOk);
    var disk2 := first.disk;
    RunFacts(args, src, disk2, canCreate', translate', writeOk');
    var second := RunSpec(args, src, disk2, canCreate', translate', writeOk');
    RunVisitsRange(args, src, disk2, canCreate', translate', writeOk');
    RunSkipsCompleted(args, src, disk2, canCreate', translate', writeOk');
    forall k | 0 <= k < |second.log| && k < |first.log| - 1
      ensures second.log[k] == Skipped(args.start + k)
    {
      DoneAfterRun(args, src, disk, canCreate, translate, writeOk, k);
    }
  }

  /** After a run on a readable or newly created file that stopped on a failed
      translation, with every earlier write succeeding, a second run over the same range skips every index
      before the one where the first run stopped and reaches that index. */
  lemma ResumeAfterFailure(args: Args, src: seq<SourceRow>, disk: Disk, canCreate: bool,
                           translate: (int, string) -> Translation, writeOk: int -> bool,
                           canCreate': bool, translate': (int, string) -> Translation, writeOk': int -> bool)
    requires disk.Missing? ==> canCreate
    requires disk.Present? ==> disk.readable
    requires forall i :: args.start <= i < RangeEnd(args, |src|) ==> writeOk(i)
    requires RunSpec(args, src, disk, canCreate, translate, writeOk).outcome
             in {Exited(QuotaExceeded), Exited(TranslationError)}
    ensures var first := RunSpec(args, src, disk, canCreate, translate, writeOk);
      var second := RunSpec(args, src, first.disk, canCreate', translate', writeOk');
      var m := |first.log| - 1;
      && first.log != []
      && |second.log| > m
      && second.log[m].index == Last(first.log).index
      && (forall k :: 0 <= k < m ==> second.log[k] == Skipped(args.start + k))
      && first.disk.file.rows <= second.disk.file.rows
  {
    var first := RunSpec(args, src, disk, canCreate, translate, writeOk);
    RunFacts(args, src, disk, canCreate, translate, writeOk);
    RunVisitsRange(args, src, disk, canCreate, translate, writeOk);
    var disk2 := first.disk;
    RunFacts(args, src, disk2, canCreate', translate', writeOk');
    RunVisitsRange(args, src, disk2, canCreate', translate', writeOk');
    var second := RunSpec(args, src, disk2, canCreate', translate', writeOk');
    ResumeSkipsPrefix(args, src, disk, canCreate, translate, writeOk, canCreate', translate', writeOk');
  }

  /** No two rows of a table have the same source text. */
  predicate DistinctTexts(rows: seq<OutRow>) {
    forall a, b :: 0 <= a < b < |rows| ==> rows[a].context != rows[b].context
  }

  /** The rows with index in `[lo, hi)` that exist have pairwise different
      texts (counting a negative index as the row it wraps to). */
  predicate DistinctSourceTexts(src: seq<SourceRow>, lo: int, hi: int) {
    forall i, j :: lo <= i < j < hi && RowAt(src, i).Some? && RowAt(src, j).Some? ==>
      RowAt(src, i).value.context != RowAt(src, j).value.context
  }

  /** Every appended row is the output row of some log entry. */
  lemma {:induction false} AppendedComesFromLog(log: seq<Step>, j: nat)
    requires j < |Appended(log)|
    ensures exists k :: 0 <= k < |log| && log[k].Processed? && log[k].out == Appended(log)[j]
  {
    var n := |log| - 1;
    CountsAppend(log[..n], log[n]);
    assert log == log[..n] + [log[n]];
    if j < |Appended(log[..n])| {
      AppendedComesFromLog(log[..n], j);
      var k :| 0 <= k < n && log[..n][k].Processed? && log[..n][k].out == Appended(log[..n])[j];
      assert log[k] == log[..n][k];
    }
  }

  /** A trace without its last entry is a trace. */
  lemma TracePrefix(env: Env, start: int, log: seq<Step>)
    requires IsTrace(env, start, log) && log != []
    ensures IsTrace(env, start, log[..|log| - 1])
  {
    var prev := log[..|log| - 1];
    forall k | 0 <= k < |prev|
      ensures start + k < env.hi && prev[k] == Attempt(env, start + k)
    {
      assert prev[k] == log[k];
    }
    forall k | 0 <= k < |prev| - 1
      ensures !prev[k].Aborted?
    {
      assert prev[k] == log[k];
    }
    assert IsTrace(env, start, prev);
  }

  /** When the file's texts are in the completed set and the range's source
      texts are distinct, a row processed at the end of a trace has a text that
      no earlier row of the file has: it was pending, so not among the texts there at start-up,
      and its source text differs from those of the rows processed before. */
  lemma ProcessedTextIsNew(env: Env, start: int, base: seq<OutRow>, prev: seq<Step>)
    requires IsTrace(env, start, prev)
    requires start + |prev| < env.hi && Attempt(env, start + |prev|).Processed?
    requires Contexts(base) <= env.done
    requires DistinctSourceTexts(env.src, start, env.hi)
    ensures var rows := base + Appended(prev);
      forall a :: 0 <= a < |rows| ==> rows[a].context != Attempt(env, start + |prev|).out.context
  {
    var n := |prev|;
    var s := Attempt(env, start + n);
    AttemptTranslates(env, start + n);
    var rows := base + Appended(prev);
    forall a | 0 <= a < |rows|
      ensures rows[a].context != s.out.context
    {
      if a < |base| {
        assert base[a].context in Contexts(base);
      } else {
        AppendedComesFromLog(prev, a - |base|);
        var k :| 0 <= k < n && prev[k].Processed? && prev[k].out == Appended(prev)[a - |base|];
        AttemptTranslates(env, start + k);
      }
    }
  }

  /** Along a trace whose completed set covers the existing rows, appending
      keeps the texts distinct when the visited source texts are distinct. */
  lemma {:induction false} TraceKeepsTextsDistinct(env: Env, start: int, base: seq<OutRow>, log: seq<Step>)
    requires IsTrace(env, start, log)
    requires Contexts(base) <= env.done && DistinctTexts(base)
    requires DistinctSourceTexts(env.src, start, env.hi)
    ensures DistinctTexts(base + Appended(log))
  {
    if log != [] {
      var n := |log| - 1;
      var prev := log[..n];
      TracePrefix(env, start, log);
      TraceKeepsTextsDistinct(env, start, base, prev);
      CountsAppend(prev, log[n]);
      assert log == prev + [log[n]];
      if log[n].Processed? && log[n].written {
        ProcessedTextIsNew(env, start, base, prev);
        assert base + Appended(log) == base + Appended(prev) + [log[n].out];
      }
    }
  }

  /** The output file has no repeated source text after a run, provided it had
      none before, was readable (or is created), and the visited source rows
      have distinct texts. Without the last condition the run can repeat a text
      (see `DuplicateTextTranslatedTwice`). */
  lemma RunKeepsTextsDistinct(args: Args, src: seq<SourceRow>, disk: Disk, canCreate: bool,
                              translate: (int, string) -> Translation, writeOk: int -> bool)
    requires disk.Missing? ==> canCreate
    requires disk.Present? ==> disk.readable && DistinctTexts(disk.file.rows)
    requires DistinctSourceTexts(src, args.start, RangeEnd(args, |src|))
    ensures DistinctTexts(RunSpec(args, src, disk, canCreate, translate, writeOk).disk.file.rows)
  {
    RunFacts(args, src, disk, canCreate, translate, writeOk);
    var rep := RunSpec(args, src, disk, canCreate, translate, writeOk);
    TraceKeepsTextsDistinct(RunEnv(args, src, disk, translate, writeOk), args.start,
                            RowsAtStart(disk), rep.log);
  }

  /** Two written entries of a log appear among the appended rows in the
      order of the log, at different positions. */
  lemma {:induction false} AppendedInOrder(log: seq<Step>, a: nat, b: nat)
    requires a < b < |log|
    requires log[a].Processed? && log[a].written && log[b].Processed? && log[b].written
    ensures exists ja, jb ::
      0 <= ja < jb < |Appended(log)| && Appended(log)[ja] == log[a].out && Appended(log)[jb] == log[b].out
  {
    var n := |log| - 1;
    var prev := log[..n];
    CountsAppend(prev, log[n]);
    assert log == prev + [log[n]];
    assert prev[a] == log[a];
    if b < n {
      assert prev[b] == log[b];
      AppendedInOrder(prev, a, b);
      var ja, jb :| 0 <= ja < jb < |Appended(prev)|
        && Appended(prev)[ja] == prev[a].out && Appended(prev)[jb] == prev[b].out;
      assert Appended(log)[ja] == Appended(prev)[ja];
      assert Appended(log)[jb] == Appended(prev)[jb];
    } else {
      WrittenIsAppended(prev, a);
      var ja :| 0 <= ja < |Appended(prev)| && Appended(prev)[ja] == log[a].out;
      var jb := |Appended(prev)|;
      assert Appended(log) == Appended(prev) + [log[b].out];
      assert Appended(log)[ja] == log[a].out && Appended(log)[jb] == log[b].out;
    }
  }

  /** Two written entries with the same text leave that text twice in the
      file they are appended to. */
  lemma RepeatedTextInFile(base: seq<OutRow>, log: seq<Step>, a: nat, b: nat)
    requires a < b < |log|
    requires log[a].Processed? && log[a].written && log[b].Processed? && log[b].written
    requires log[a].out.context == log[b].out.context
    ensures !DistinctTexts(base + Appended(log))
  {
    AppendedInOrder(log, a, b);
    var ja, jb :|
      0 <= ja < jb < |Appended(log)| && Appended(log)[ja] == log[a].out && Appended(log)[jb] == log[b].out;
    var rows := base + Appended(log);
    assert rows[|base| + ja] == log[a].out;
    assert rows[|base| + jb] == log[b].out;
  }

  /** The completed set is read once and never updated: two visited rows that
      share a text are either both skipped or both not, the earlier one is then
      translated, and when both are translated and written the output file
      holds that text twice. */
  lemma RunRepeatsSharedText(args: Args, src: seq<SourceRow>, disk: Disk, canCreate: bool,
                             translate: (int, string) -> Translation, writeOk: int -> bool,
                             a: nat, b: nat)
    requires disk.Present? || canCreate
    requires a < b < |RunSpec(args, src, disk, canCreate, translate, writeOk).log|
    requires RowAt(src, args.start + a).Some? && RowAt(src, args.start + b).Some?
    requires RowAt(src, args.start + a).value.context == RowAt(src, args.start + b).value.context
    ensures var rep := RunSpec(args, src, disk, canCreate, translate, writeOk);
      && (rep.log[a].Skipped? <==> rep.log[b].Skipped?)
      && (!rep.log[a].Skipped? ==> rep.log[a].Processed?)
      && (rep.log[a].Processed? && rep.log[a].written && rep.log[b].Processed? && rep.log[b].written ==>
            && rep.log[a].out.context == rep.log[b].out.context
            && !DistinctTexts(rep.disk.file.rows))
  {
    var rep := RunSpec(args, src, disk, canCreate, translate, writeOk);
    RunFacts(args, src, disk, canCreate, translate, writeOk);
    RunSkipsCompleted(args, src, disk, canCreate, translate, writeOk);
    RunCounters(args, src, disk, canCreate, translate, writeOk);
    assert !rep.log[a].Aborted?;
    if rep.log[a].Processed? && rep.log[a].written && rep.log[b].Processed? && rep.log[b].written {
      RepeatedTextInFile(RowsAtStart(disk), rep.log, a, b);
    }
  }

  /** For example, a two-row table whose rows share the text "hello", run
      against a fresh output file with every call and write succeeding, ends
      with both rows translated and appended. */
  lemma DuplicateTextTranslatedTwice(remote: (int, string) -> Reply)
    requires remote(0, Prompt("hello", "English", "Myanmar")).Response?
    requires remote(1, Prompt("hello", "English", "Myanmar")).Response?
    ensures var src := [SourceRow("hello", "1"), SourceRow("hello", "2")];
      var rep := RunSpec(Args(0, None, "English", "Myanmar"), src, Missing, true,
                         Via(remote, "English", "Myanmar"), i => true);
      var r0 := remote(0, Prompt("hello", "English", "Myanmar"));
      var r1 := remote(1, Prompt("hello", "English", "Myanmar"));
      && rep.outcome == Completed
      && rep.disk.file.rows == [OutRow("hello", "1", CleanText(r0.text)), OutRow("hello", "2", CleanText(r1.text))]
  {
    var src := [SourceRow("hello", "1"), SourceRow("hello", "2")];
    var args := Args(0, None, "English", "Myanmar");
    var translate := Via(remote, "English", "Myanmar");
    var env := EnvOf(args, src, {}, translate, i => true);
    var r0 := remote(0, Prompt("hello", "English", "Myanmar"));
    var r1 := remote(1, Prompt("hello", "English", "Myanmar"));
    TranslateOutcome(r0);
    TranslateOutcome(r1);
    var init := LoopState([], Stats(0, 0, 0), []);
    var s0 := Processed(0, OutRow("hello", "1", CleanText(r0.text)), r0.usage.GetOr(0), true);
    var s1 := Processed(1, OutRow("hello", "2", CleanText(r1.text)), r1.usage.GetOr(0), true);
    assert Attempt(env, 0) == s0;
    LoopStep(env, 0, init);
    assert Attempt(env, 1) == s1;
    LoopStep(env, 1, Apply(init, s0));
  }
}
