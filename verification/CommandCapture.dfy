/** executeCloseoutCommand (scripts/scanner-hardening-closeout.ts): a command whose two output files
    grow while a chain of flushes forwards them under one byte budget and a timer may end it.
    JavaScript runs each callback to its next await without interruption, so a run is a sequence of
    the events below, in any order that their guards allow. */
module CommandCapture {
  import opened Naturals
  import opened Wrappers

  type byte = n: nat | n < 256
  type Bytes = seq<byte>

  datatype Config = Config(maxLogBytes: nat, forward: bool) {
    /** The log limit that the function accepts. */
    predicate Valid() { maxLogBytes >= 128 }
  }

  datatype Reason = Timeout | OutputLimit
  datatype Signal = SIGTERM | SIGKILL

  /** Where the flush chain stands. A read in progress remembers the file's length when it began:
      it returns at least that much, and at most what the file has when it ends. */
  datatype Phase = Waiting | ReadingOut(atLeast: nat) | ReadingErr(atLeast: nat)
                 | Final(outAtLeast: nat, errAtLeast: nat)

  /** The returned record; outRead and errRead are how much the two final reads returned. */
  datatype Capture = Capture(exitCode: int, stdout: Bytes, stderr: Bytes, diagnostic: Bytes, outRead: nat, errRead: nat)

  /** One output file: what has been written to it, how far flushes have read it, the slices of it
      counted against the budget, and what the destination received. */
  datatype Channel = Channel(file: Bytes, offset: nat, retained: Bytes, sent: Bytes)

  datatype State = State(
    out: Channel, err: Channel,
    forwardedBytes: nat,
    reason: Option<Reason>,                 // terminationReason
    spawnError: Option<Bytes>,              // spawnErrorMessage
    childClosed: bool,
    completion: Option<int>,                // the exit code that `completion` resolved with
    signals: seq<Signal>, killTimer: bool,  // signals sent; forceKillTimer armed
    flushes: nat,                           // flushes scheduled and not begun
    phase: Phase,
    late: bool,                             // history: something was written after completion
    result: Option<Capture>)

  const EMPTY: Channel := Channel([], 0, [], [])
  const START: State := State(EMPTY, EMPTY, 0, None, None, false, None, [], false, 0, Waiting, false, None)

  datatype Event =
    | WriteOut(bytes: Bytes)      // the command, or a process it left behind, writes
    | WriteErr(bytes: Bytes)
    | TimerFires
    | IntervalFires
    | ForceKillFires
    | BeginFlush
    | OutRead(length: nat)        // the read of stdout returns the first length bytes
    | ErrRead(length: nat)
    | ChildError(message: Bytes)
    | ChildClose(code: int)
    | BeginFinalReads
    | FinalReads(outLength: nat, errLength: nat)

  predicate Enabled(st: State, ev: Event) {
    match ev
    case WriteOut(_) => true
    case WriteErr(_) => true
    case TimerFires => st.completion.None?
    case IntervalFires => st.completion.None?
    case ForceKillFires => st.killTimer
    case BeginFlush => st.phase.Waiting? && st.flushes > 0
    case OutRead(n) => st.phase.ReadingOut? && st.phase.atLeast <= n <= |st.out.file|
    case ErrRead(n) => st.phase.ReadingErr? && st.phase.atLeast <= n <= |st.err.file|
    case ChildError(_) => st.spawnError.None? && !st.childClosed
    case ChildClose(_) => !st.childClosed
    case BeginFinalReads => st.completion.Some? && st.flushes == 0 && st.phase.Waiting? && st.result.None?
    case FinalReads(n, m) =>
      && st.phase.Final? && st.result.None?
      && st.phase.outAtLeast <= n <= |st.out.file| && st.phase.errAtLeast <= m <= |st.err.file|
  }

  /** `terminate(reason)` */
  function Terminate(st: State, reason: Reason): State {
    if st.reason.Some? then st
    else if st.childClosed then st.(reason := Some(reason))
    else st.(reason := Some(reason), signals := st.signals + [SIGTERM], killTimer := true)
  }

  datatype Forwarded = Forwarded(channel: Channel, forwardedBytes: nat, overflow: bool)

  /** `forwardFile` from where its read has returned the first n bytes of the file. */
  function ForwardFile(cfg: Config, ch: Channel, forwardedBytes: nat, n: nat): Forwarded
    requires n <= |ch.file|
  {
    if n <= ch.offset then Forwarded(ch, forwardedBytes, false)
    else
      var available := Monus(cfg.maxLogBytes, forwardedBytes);
      var retained := ch.file[ch.offset..Min(n, ch.offset + available)];
      Forwarded(Channel(ch.file, n, ch.retained + retained, if cfg.forward then ch.sent + retained else ch.sent),
                forwardedBytes + |retained|, |retained| != n - ch.offset)
  }

  function ReadOut(cfg: Config, st: State, n: nat): State
    requires n <= |st.out.file|
  {
    var f := ForwardFile(cfg, st.out, st.forwardedBytes, n);
    var st1 := st.(out := f.channel, forwardedBytes := f.forwardedBytes, phase := ReadingErr(|st.err.file|));
    if f.overflow then Terminate(st1, OutputLimit) else st1
  }

  function ReadErr(cfg: Config, st: State, n: nat): State
    requires n <= |st.err.file|
  {
    var f := ForwardFile(cfg, st.err, st.forwardedBytes, n);
    var st1 := st.(err := f.channel, forwardedBytes := f.forwardedBytes, phase := Waiting);
    if f.overflow then Terminate(st1, OutputLimit) else st1
  }

  /** The `completion` promise resolves once; then the timers are cleared and a last flush is
      scheduled before any other event can run. */
  function Complete(st: State, code: int): State {
    if st.completion.Some? then st
    else st.(completion := Some(code), killTimer := false, flushes := st.flushes + 1)
  }

  function Ascii(s: string): Bytes {
    seq(|s|, i requires 0 <= i < |s| => if s[i] as int < 256 then s[i] as int else 63)
  }

  const NEWLINE: Bytes := [10]

  function Diagnostic(st: State): Bytes {
    match st.reason
    case Some(Timeout) => Ascii("scanner_hardening_closeout_timeout\n")
    case Some(OutputLimit) => Ascii("scanner_hardening_closeout_output_limit\n")
    case None =>
      match st.spawnError
      case Some(message) =>
        if message == [] then [] else Ascii("scanner_hardening_closeout_spawn_failed:") + message + NEWLINE
      case None => []
  }

  /** The returned record. */
  function Record(cfg: Config, st: State, rawOut: Bytes, rawErr: Bytes): Capture
    requires st.completion.Some?
  {
    var diagnostic := Diagnostic(st);
    var contentBudget := Monus(cfg.maxLogBytes, |diagnostic|);
    var stdout := rawOut[..Min(|rawOut|, contentBudget)];
    var capturedErr := rawErr[..Min(|rawErr|, Monus(contentBudget, |stdout|))];
    var exitCode := match st.reason
                    case Some(Timeout) => 124
                    case Some(OutputLimit) => 125
                    case None => st.completion.value;
    Capture(exitCode, stdout, capturedErr + diagnostic, diagnostic, |rawOut|, |rawErr|)
  }

  /** From the two final reads to the end. */
  function Finish(cfg: Config, st: State, rawOut: Bytes, rawErr: Bytes): State
    requires st.completion.Some?
  {
    var st1 := if |rawOut| + |rawErr| > cfg.maxLogBytes then Terminate(st, OutputLimit) else st;
    st1.(phase := Waiting, result := Some(Record(cfg, st1, rawOut, rawErr)))
  }

  function Grow(ch: Channel, bytes: Bytes): Channel { ch.(file := ch.file + bytes) }

  function Step(cfg: Config, st: State, ev: Event): State
    requires Enabled(st, ev)
  {
    match ev
    case WriteOut(bytes) => st.(out := Grow(st.out, bytes), late := st.late || (bytes != [] && st.completion.Some?))
    case WriteErr(bytes) => st.(err := Grow(st.err, bytes), late := st.late || (bytes != [] && st.completion.Some?))
    case TimerFires => Terminate(st, Timeout)
    case IntervalFires => st.(flushes := st.flushes + 1)
    case ForceKillFires => st.(killTimer := false, signals := st.signals + [SIGKILL])
    case BeginFlush => st.(flushes := st.flushes - 1, phase := ReadingOut(|st.out.file|))
    case OutRead(n) => ReadOut(cfg, st, n)
    case ErrRead(n) => ReadErr(cfg, st, n)
    case ChildError(message) => Complete(st.(spawnError := Some(message)), 126)
    case ChildClose(code) => Complete(st.(childClosed := true), code)
    case BeginFinalReads => st.(phase := Final(|st.out.file|, |st.err.file|))
    case FinalReads(n, m) =>
      if st.completion.Some? then Finish(cfg, st, st.out.file[..n], st.err.file[..m]) else st
  }

  // ----- runs

  /** The state after a sequence of events, if each was enabled when it came. */
  function Run(cfg: Config, events: seq<Event>): Option<State> {
    if events == [] then Some(START)
    else
      match Run(cfg, events[..|events| - 1])
      case None => None
      case Some(st) =>
        var ev := events[|events| - 1];
        if Enabled(st, ev) then Some(Step(cfg, st, ev)) else None
  }

  /** What is counted against the budget, and sent, is a prefix of the file. */
  ghost predicate ChannelKept(cfg: Config, ch: Channel) {
    && ch.retained <= ch.file
    && |ch.retained| <= ch.offset <= |ch.file|
    && ch.sent == (if cfg.forward then ch.retained else [])
  }

  ghost predicate BudgetKept(cfg: Config, st: State) {
    && ChannelKept(cfg, st.out) && ChannelKept(cfg, st.err)
    && st.forwardedBytes == |st.out.retained| + |st.err.retained| <= cfg.maxLogBytes
    && (|| (st.out.offset == |st.out.retained| && st.err.offset == |st.err.retained|)
        || (st.forwardedBytes == cfg.maxLogBytes && st.reason.Some?))
  }

  /** Termination: signals follow a reason, and the output limit is a reason only when exceeded. */
  ghost predicate TerminationKept(cfg: Config, st: State) {
    && (st.reason == Some(OutputLimit) ==> |st.out.file| + |st.err.file| > cfg.maxLogBytes)
    && (st.signals == [] || st.signals == [SIGTERM] || st.signals == [SIGTERM, SIGKILL])
    && (st.signals != [] ==> st.reason.Some?)
    && (st.killTimer ==> st.signals == [SIGTERM])
    && (st.childClosed || st.spawnError.Some? <==> st.completion.Some?)
    && (st.phase.Final? || st.result.Some? ==> st.completion.Some? && st.flushes == 0)
    && (st.result.Some? ==> st.phase.Waiting?)
  }

  /** The read in progress can end, and while nothing is written after completion the flush that
      completion schedules sees everything. */
  ghost predicate ReadsKept(st: State) {
    match st.phase
    case ReadingOut(n) =>
      n <= |st.out.file| && (LastFlush(st) ==> n == |st.out.file|)
    case ReadingErr(m) =>
      m <= |st.err.file| && (LastFlush(st) ==> m == |st.err.file| && st.out.offset == |st.out.file|)
    case Waiting =>
      LastFlush(st) ==> st.out.offset == |st.out.file| && st.err.offset == |st.err.file|
    case Final(n, m) =>
      && st.out.offset <= n <= |st.out.file| && st.err.offset <= m <= |st.err.file|
      && (LastFlush(st) ==> n == st.out.offset == |st.out.file| && m == st.err.offset == |st.err.file|)
  }

  ghost predicate LastFlush(st: State) {
    st.completion.Some? && st.flushes == 0 && !st.late
  }

  /** The returned record c, in terms of the files. */
  ghost predicate Describes(cfg: Config, st: State, c: Capture)
    requires st.completion.Some?
  {
    var budget := Monus(cfg.maxLogBytes, |c.diagnostic|);
    && st.out.offset <= c.outRead <= |st.out.file| && st.err.offset <= c.errRead <= |st.err.file|
    && (!st.late ==> c.outRead == |st.out.file| && c.errRead == |st.err.file|)
    && c.diagnostic == Diagnostic(st)
    && c.stdout == st.out.file[..Min(c.outRead, budget)]
    && c.stderr == st.err.file[..Min(c.errRead, Monus(budget, |c.stdout|))] + c.diagnostic
    && (st.reason.None? ==> c.outRead + c.errRead <= cfg.maxLogBytes && c.exitCode == st.completion.value)
    && (st.reason == Some(Timeout) ==> c.exitCode == 124)
    && (st.reason == Some(OutputLimit) ==> c.exitCode == 125)
  }

  ghost predicate ResultKept(cfg: Config, st: State) {
    st.result.Some? && st.completion.Some? ==> Describes(cfg, st, st.result.value)
  }

  ghost predicate Kept(cfg: Config, st: State) {
    BudgetKept(cfg, st) && TerminationKept(cfg, st) && ReadsKept(st) && ResultKept(cfg, st)
  }

  // ----- every event keeps them

  lemma ForwardFileKeeps(cfg: Config, ch: Channel, forwardedBytes: nat, n: nat)
    requires ChannelKept(cfg, ch) && n <= |ch.file| && forwardedBytes <= cfg.maxLogBytes
    requires ch.offset == |ch.retained| || forwardedBytes == cfg.maxLogBytes
    ensures var f := ForwardFile(cfg, ch, forwardedBytes, n);
            && ChannelKept(cfg, f.channel) && f.channel.file == ch.file
            && f.channel.offset == (if n <= ch.offset then ch.offset else n)
            && f.forwardedBytes == forwardedBytes + |f.channel.retained| - |ch.retained| <= cfg.maxLogBytes
            && (f.overflow ==> f.forwardedBytes == cfg.maxLogBytes < forwardedBytes + n - ch.offset)
            && (!f.overflow ==> f.channel.offset - ch.offset == |f.channel.retained| - |ch.retained|)
  {
    if n > ch.offset {
      var end := Min(n, ch.offset + Monus(cfg.maxLogBytes, forwardedBytes));
      var retained := ch.file[ch.offset..end];
      if |retained| > 0 {
        assert ch.retained == ch.file[..ch.offset];
        assert ch.retained + retained == ch.file[..end];
      } else {
        assert ch.retained + retained == ch.retained && ch.sent + retained == ch.sent;
      }
    }
  }

  lemma ReadOutBudget(cfg: Config, st: State, n: nat)
    requires Kept(cfg, st) && Enabled(st, OutRead(n))
    ensures BudgetKept(cfg, ReadOut(cfg, st, n))
  {
    ForwardFileKeeps(cfg, st.out, st.forwardedBytes, n);
  }

  lemma ReadOutProgress(cfg: Config, st: State, n: nat)
    requires Kept(cfg, st) && Enabled(st, OutRead(n))
    ensures TerminationKept(cfg, ReadOut(cfg, st, n)) && ReadsKept(ReadOut(cfg, st, n))
  {
    ForwardFileKeeps(cfg, st.out, st.forwardedBytes, n);
  }

  lemma ReadOutKeeps(cfg: Config, st: State, n: nat)
    requires Kept(cfg, st) && Enabled(st, OutRead(n))
    ensures Kept(cfg, ReadOut(cfg, st, n))
  {
    ReadOutBudget(cfg, st, n);
    ReadOutProgress(cfg, st, n);
  }

  lemma ReadErrBudget(cfg: Config, st: State, n: nat)
    requires Kept(cfg, st) && Enabled(st, ErrRead(n))
    ensures BudgetKept(cfg, ReadErr(cfg, st, n))
  {
    ForwardFileKeeps(cfg, st.err, st.forwardedBytes, n);
  }

  lemma ReadErrProgress(cfg: Config, st: State, n: nat)
    requires Kept(cfg, st) && Enabled(st, ErrRead(n))
    ensures TerminationKept(cfg, ReadErr(cfg, st, n)) && ReadsKept(ReadErr(cfg, st, n))
  {
    ForwardFileKeeps(cfg, st.err, st.forwardedBytes, n);
  }

  lemma ReadErrKeeps(cfg: Config, st: State, n: nat)
    requires Kept(cfg, st) && Enabled(st, ErrRead(n))
    ensures Kept(cfg, ReadErr(cfg, st, n))
  {
    ReadErrBudget(cfg, st, n);
    ReadErrProgress(cfg, st, n);
  }

  lemma PrefixGrows(file: Bytes, more: Bytes, n: nat)
    requires n <= |file|
    ensures (file + more)[..n] == file[..n]
  {}

  /** A record describes longer files as well, once the difference is known to be late. */
  lemma GrowthDescribes(cfg: Config, st: State, moreOut: Bytes, moreErr: Bytes, c: Capture)
    requires st.completion.Some? && Describes(cfg, st, c)
    ensures Describes(cfg, st.(out := Grow(st.out, moreOut), err := Grow(st.err, moreErr),
                               late := st.late || moreOut + moreErr != []), c)
  {
    var budget := Monus(cfg.maxLogBytes, |c.diagnostic|);
    PrefixGrows(st.out.file, moreOut, Min(c.outRead, budget));
    PrefixGrows(st.err.file, moreErr, Min(c.errRead, Monus(budget, |c.stdout|)));
  }

  lemma WriteKeeps(cfg: Config, st: State, moreOut: Bytes, moreErr: Bytes)
    requires Kept(cfg, st)
    ensures Kept(cfg, st.(out := Grow(st.out, moreOut), err := Grow(st.err, moreErr),
                          late := st.late || (moreOut + moreErr != [] && st.completion.Some?)))
  {
    if st.result.Some? { GrowthDescribes(cfg, st, moreOut, moreErr, st.result.value); }
  }

  lemma RecordDescribes(cfg: Config, st: State, n: nat, m: nat)
    requires st.completion.Some?
    requires st.out.offset <= n <= |st.out.file| && st.err.offset <= m <= |st.err.file|
    requires st.reason.None? ==> n + m <= cfg.maxLogBytes
    requires !st.late ==> n == |st.out.file| && m == |st.err.file|
    ensures Describes(cfg, st, Record(cfg, st, st.out.file[..n], st.err.file[..m]))
  {
    var c := Record(cfg, st, st.out.file[..n], st.err.file[..m]);
    var budget := Monus(cfg.maxLogBytes, |c.diagnostic|);
    assert st.out.file[..n][..Min(n, budget)] == st.out.file[..Min(n, budget)];
    var k := Min(m, Monus(budget, |c.stdout|));
    assert st.err.file[..m][..k] == st.err.file[..k];
  }

  lemma OverflowKeeps(cfg: Config, st: State)
    requires Kept(cfg, st) && st.phase.Final? && st.result.None?
    requires |st.out.file| + |st.err.file| > cfg.maxLogBytes
    ensures Kept(cfg, Terminate(st, OutputLimit))
  {}

  lemma ResultKeeps(cfg: Config, st: State, c: Capture)
    requires Kept(cfg, st) && st.phase.Final? && st.completion.Some? && Describes(cfg, st, c)
    ensures Kept(cfg, st.(phase := Waiting, result := Some(c)))
  {
    assert Describes(cfg, st.(phase := Waiting, result := Some(c)), c);
  }

  lemma FinishKeeps(cfg: Config, st: State, n: nat, m: nat)
    requires Kept(cfg, st) && Enabled(st, FinalReads(n, m))
    ensures Kept(cfg, Step(cfg, st, FinalReads(n, m)))
  {
    var st1 := if n + m > cfg.maxLogBytes then Terminate(st, OutputLimit) else st;
    assert Kept(cfg, st1) by { if n + m > cfg.maxLogBytes { OverflowKeeps(cfg, st); } }
    RecordDescribes(cfg, st1, n, m);
    ResultKeeps(cfg, st1, Record(cfg, st1, st.out.file[..n], st.err.file[..m]));
  }

  lemma StepKeeps(cfg: Config, st: State, ev: Event)
    requires Kept(cfg, st) && Enabled(st, ev)
    ensures Kept(cfg, Step(cfg, st, ev))
  {
    match ev {
      case WriteOut(bytes) =>
        WriteKeeps(cfg, st, bytes, []);
        assert Grow(st.err, []) == st.err && bytes + [] == bytes;
      case WriteErr(bytes) =>
        WriteKeeps(cfg, st, [], bytes);
        assert Grow(st.out, []) == st.out && [] + bytes == bytes;
      case OutRead(n) => ReadOutKeeps(cfg, st, n);
      case ErrRead(n) => ReadErrKeeps(cfg, st, n);
      case FinalReads(n, m) => FinishKeeps(cfg, st, n, m);
      case BeginFlush => ReadBeginKeeps(cfg, st, ev);
      case BeginFinalReads => ReadBeginKeeps(cfg, st, ev);
      case ChildError(_) => ChildEventKeeps(cfg, st, ev);
      case ChildClose(_) => ChildEventKeeps(cfg, st, ev);
      case _ => TimerEventKeeps(cfg, st, ev);
    }
  }

  lemma TimerEventKeeps(cfg: Config, st: State, ev: Event)
    requires Kept(cfg, st) && Enabled(st, ev)
    requires ev.TimerFires? || ev.IntervalFires? || ev.ForceKillFires?
    ensures Kept(cfg, Step(cfg, st, ev))
  {}

  lemma ReadBeginKeeps(cfg: Config, st: State, ev: Event)
    requires Kept(cfg, st) && Enabled(st, ev)
    requires ev.BeginFlush? || ev.BeginFinalReads?
    ensures Kept(cfg, Step(cfg, st, ev))
  {}

  lemma ChildEventKeeps(cfg: Config, st: State, ev: Event)
    requires Kept(cfg, st) && Enabled(st, ev)
    requires ev.ChildError? || ev.ChildClose?
    ensures Kept(cfg, Step(cfg, st, ev))
  {}

  // ----- main results, over every run

  /** The run is one that has returned its record. */
  ghost predicate Finishes(cfg: Config, events: seq<Event>) {
    Run(cfg, events).Some? && Run(cfg, events).value.result.Some?
  }

  lemma {:induction false} RunKeeps(cfg: Config, events: seq<Event>)
    ensures Run(cfg, events).Some? ==> Kept(cfg, Run(cfg, events).value)
  {
    if events == [] {
    } else {
      var front, ev := events[..|events| - 1], events[|events| - 1];
      RunKeeps(cfg, front);
      if Run(cfg, front).Some? && Enabled(Run(cfg, front).value, ev) {
        StepKeeps(cfg, Run(cfg, front).value, ev);
      }
    }
  }

  lemma StepKeepsReason(cfg: Config, st: State, ev: Event)
    requires Enabled(st, ev) && st.reason.Some?
    ensures Step(cfg, st, ev).reason == st.reason
  {}

  /** The first reason wins: once set it is the reason of every later state of the run. */
  lemma {:induction false} FirstReasonWins(cfg: Config, events: seq<Event>, i: nat)
    requires i <= |events| && Run(cfg, events).Some?
    ensures Run(cfg, events[..i]).Some?
    ensures Run(cfg, events[..i]).value.reason.Some? ==>
              Run(cfg, events).value.reason == Run(cfg, events[..i]).value.reason
  {
    if i < |events| {
      var front, ev := events[..|events| - 1], events[|events| - 1];
      assert front[..i] == events[..i];
      FirstReasonWins(cfg, front, i);
      if Run(cfg, front).value.reason.Some? { StepKeepsReason(cfg, Run(cfg, front).value, ev); }
    } else {
      assert events[..i] == events;
    }
  }

  /** In every interleaving: what is forwarded of each stream is a prefix of it, the two together
      stay within the budget, and they are all that was read unless the budget is used up. */
  lemma ForwardingStaysWithinBudget(cfg: Config, events: seq<Event>)
    requires Run(cfg, events).Some?
    ensures var st := Run(cfg, events).value;
            && st.out.retained <= st.out.file && st.err.retained <= st.err.file
            && st.out.sent <= st.out.file && st.err.sent <= st.err.file
            && |st.out.sent| + |st.err.sent| <= st.forwardedBytes <= cfg.maxLogBytes
            && st.forwardedBytes == |st.out.retained| + |st.err.retained|
            && (st.forwardedBytes == st.out.offset + st.err.offset
                || (st.forwardedBytes == cfg.maxLogBytes && st.reason.Some?))
            && st.out.offset <= |st.out.file| && st.err.offset <= |st.err.file|
            && (st.forwardedBytes < cfg.maxLogBytes ==>
                  st.out.retained == st.out.file[..st.out.offset] && st.err.retained == st.err.file[..st.err.offset])
  {
    RunKeeps(cfg, events);
  }

  /** What the command gets: no signal without a reason, SIGKILL only after SIGTERM, and the output
      limit is a reason only in runs that wrote more than the limit. */
  lemma CommandEndedOnlyForAReason(cfg: Config, events: seq<Event>)
    requires Run(cfg, events).Some?
    ensures var st := Run(cfg, events).value;
            && st.signals <= [SIGTERM, SIGKILL]
            && (st.signals != [] ==> st.reason.Some?)
            && (st.reason == Some(OutputLimit) ==> |st.out.file| + |st.err.file| > cfg.maxLogBytes)
  {
    RunKeeps(cfg, events);
    var st := Run(cfg, events).value;
    assert [SIGTERM] <= [SIGTERM, SIGKILL];
  }

  /** Without a reason or a spawn error the result is the child's exit code and both streams as
      read, whole, with what was forwarded as a prefix; they are also complete, and equal to what
      was forwarded, when nothing was written after the child had ended. */
  lemma UndisturbedCaptureIsComplete(cfg: Config, events: seq<Event>, st: State)
    requires Run(cfg, events) == Some(st) && st.result.Some? && st.reason.None? && st.spawnError.None?
    ensures var c := st.result.value;
            && st.childClosed && st.completion == Some(c.exitCode) && c.diagnostic == []
            && c.outRead <= |st.out.file| && c.stdout == st.out.file[..c.outRead]
            && c.errRead <= |st.err.file| && c.stderr == st.err.file[..c.errRead]
            && |c.stdout| + |c.stderr| <= cfg.maxLogBytes
            && st.out.retained <= c.stdout && st.err.retained <= c.stderr
            && (!st.late ==>
                  && c.stdout == st.out.file == st.out.retained
                  && c.stderr == st.err.file == st.err.retained)
  {
    RunKeeps(cfg, events);
    var c := st.result.value;
    assert c.stderr == st.err.file[..c.errRead] + [] == st.err.file[..c.errRead];
  }

  /** The record says which reason ended the command and fits the limit with its diagnostic; of what
      was read nothing is cut unless the limit is then used up, and of stdout only when nothing of
      stderr is left. */
  ghost predicate EndedRecord(cfg: Config, st: State, c: Capture) {
    && c.exitCode == (if st.reason == Some(Timeout) then 124 else 125)
    && c.diagnostic == Diagnostic(st) && |c.stdout| + |c.stderr| <= cfg.maxLogBytes
    && (!st.late ==> c.outRead == |st.out.file| && c.errRead == |st.err.file|)
    && exists k: nat :: CutAt(cfg, st, c, k)
  }

  ghost predicate CutAt(cfg: Config, st: State, c: Capture, k: nat) {
    && |c.stdout| <= c.outRead <= |st.out.file| && k <= c.errRead <= |st.err.file|
    && c.stdout == st.out.file[..|c.stdout|] && c.stderr == st.err.file[..k] + c.diagnostic
    && (|c.stdout| < c.outRead ==> k == 0)
    && (|c.stdout| < c.outRead || k < c.errRead ==> |c.stdout| + |c.stderr| == cfg.maxLogBytes)
  }

  /** With a reason the exit code is 124 or 125 accordingly, and the log with its diagnostic fits. */
  lemma TerminatedCaptureFits(cfg: Config, events: seq<Event>)
    requires cfg.Valid() && Finishes(cfg, events) && Run(cfg, events).value.reason.Some?
    ensures EndedRecord(cfg, Run(cfg, events).value, Run(cfg, events).value.result.value)
  {
    RunKeeps(cfg, events);
    EndedRecordKept(cfg, Run(cfg, events).value);
  }

  lemma EndedRecordKept(cfg: Config, st: State)
    requires cfg.Valid() && Kept(cfg, st) && st.result.Some? && st.reason.Some?
    ensures EndedRecord(cfg, st, st.result.value)
  {
    DiagnosticLengths(st);
    FittingCapture(cfg, st, st.result.value);
  }

  lemma FittingCapture(cfg: Config, st: State, c: Capture)
    requires st.completion.Some? && Describes(cfg, st, c) && 0 < |c.diagnostic| <= cfg.maxLogBytes
    ensures |c.stdout| + |c.stderr| <= cfg.maxLogBytes
    ensures exists k: nat :: CutAt(cfg, st, c, k)
  {
    CapturedTotal(cfg, st, c);
    var k := Min(c.errRead, Monus(Monus(cfg.maxLogBytes, |c.diagnostic|), |c.stdout|));
    assert CutAt(cfg, st, c, k);
  }

  lemma CapturedTotal(cfg: Config, st: State, c: Capture)
    requires st.completion.Some? && Describes(cfg, st, c)
    ensures |c.stdout| + |c.stderr| <= cfg.maxLogBytes <==> |c.diagnostic| <= cfg.maxLogBytes
  {}

  lemma DiagnosticLengths(st: State)
    requires st.reason.Some?
    ensures 0 < |Diagnostic(st)| <= 40
  {}

  /** The message of a spawn failure, when no reason ended the command, is too long for the limit. */
  predicate SpawnMessageTooLong(cfg: Config, st: State) {
    && st.reason.None? && st.spawnError.Some? && st.spawnError.value != []
    && 41 + |st.spawnError.value| > cfg.maxLogBytes
  }

  lemma DiagnosticTooLong(cfg: Config, st: State)
    requires cfg.Valid()
    ensures |Diagnostic(st)| > cfg.maxLogBytes <==> SpawnMessageTooLong(cfg, st)
  {
    if st.reason.Some? { DiagnosticLengths(st); }
  }

  /** The captured total exceeds the limit exactly when the diagnostic alone does. */
  lemma CaptureFitsIffDiagnosticFits(cfg: Config, events: seq<Event>)
    requires Finishes(cfg, events)
    ensures var c := Run(cfg, events).value.result.value;
            |c.stdout| + |c.stderr| <= cfg.maxLogBytes <==> |c.diagnostic| <= cfg.maxLogBytes
  {
    RunKeeps(cfg, events);
    CapturedTotal(cfg, Run(cfg, events).value, Run(cfg, events).value.result.value);
  }

  /** The captured total passes the limit exactly when a spawn failure has a message that does so
      with the 41 bytes around it. */
  lemma CaptureTooLongExactly(cfg: Config, events: seq<Event>)
    requires cfg.Valid() && Finishes(cfg, events)
    ensures var st := Run(cfg, events).value;
            |st.result.value.stdout| + |st.result.value.stderr| > cfg.maxLogBytes <==> SpawnMessageTooLong(cfg, st)
  {
    RunKeeps(cfg, events);
    CaptureFitsIffDiagnosticFits(cfg, events);
    DiagnosticTooLong(cfg, Run(cfg, events).value);
  }

  /** A run in which the command cannot be started. */
  function SpawnFailure(message: Bytes): seq<Event> {
    [ChildError(message), BeginFlush, OutRead(0), ErrRead(0), BeginFinalReads, FinalReads(0, 0)]
  }

  const NOT_STARTED: State := START.(completion := Some(126))

  /** The states of that run until the final reads: nothing is ever written. */
  lemma SpawnFailureSteps(cfg: Config, message: Bytes)
    ensures var (st, ev) := (NOT_STARTED.(spawnError := Some(message)), SpawnFailure(message));
            && Step(cfg, START, ev[0]) == st.(flushes := 1)
            && Step(cfg, st.(flushes := 1), ev[1]) == st.(phase := ReadingOut(0))
            && Step(cfg, st.(phase := ReadingOut(0)), ev[2]) == st.(phase := ReadingErr(0))
            && Step(cfg, st.(phase := ReadingErr(0)), ev[3]) == st
            && Step(cfg, st, ev[4]) == st.(phase := Final(0, 0))
  {}

  lemma SpawnFailureRuns(cfg: Config, message: Bytes)
    ensures var (st, ev) := (NOT_STARTED.(spawnError := Some(message), phase := Final(0, 0)), SpawnFailure(message));
            Run(cfg, ev) == Some(Step(cfg, st, ev[5]))
  {
    var st, events := NOT_STARTED.(spawnError := Some(message)), SpawnFailure(message);
    SpawnFailureSteps(cfg, message);
    RunPrefix(cfg, events, 0, START);
    RunPrefix(cfg, events, 1, st.(flushes := 1));
    RunPrefix(cfg, events, 2, st.(phase := ReadingOut(0)));
    RunPrefix(cfg, events, 3, st.(phase := ReadingErr(0)));
    RunPrefix(cfg, events, 4, st);
    RunPrefix(cfg, events, 5, st.(phase := Final(0, 0)));
    assert events[..6] == events;
  }

  /** With a message of maxLogBytes - 40 bytes or more that run passes the limit, for every limit. */
  lemma LongSpawnMessagePassesLimit(cfg: Config, message: Bytes)
    requires cfg.Valid() && |message| >= cfg.maxLogBytes - 40
    ensures Finishes(cfg, SpawnFailure(message))
    ensures var c := Run(cfg, SpawnFailure(message)).value.result.value;
            c.exitCode == 126 && |c.stdout| + |c.stderr| > cfg.maxLogBytes
  {
    SpawnFailureRuns(cfg, message);
    CaptureTooLongExactly(cfg, SpawnFailure(message));
  }

  lemma RunPrefix(cfg: Config, events: seq<Event>, i: nat, st: State)
    requires i < |events| && Run(cfg, events[..i]) == Some(st)
    requires Enabled(st, events[i])
    ensures Run(cfg, events[..i + 1]) == Some(Step(cfg, st, events[i]))
  {
    assert events[..i + 1][..i] == events[..i];
  }

  /** How many steps the flush chain still owes. */
  function Owed(st: State): nat {
    3 * st.flushes + match st.phase case ReadingOut(_) => 2 case ReadingErr(_) => 1 case _ => 0
  }

  /** Some continuation of the run returns a result. */
  ghost predicate CanFinish(cfg: Config, events: seq<Event>) {
    exists more :: Finishes(cfg, events + more)
  }

  /** No run gets stuck: once the child has ended, reads alone lead to a result. */
  lemma {:induction false} ResultIsReachable(cfg: Config, events: seq<Event>)
    requires Run(cfg, events).Some? && Run(cfg, events).value.completion.Some?
    ensures CanFinish(cfg, events)
    decreases Owed(Run(cfg, events).value), 1
  {
    RunKeeps(cfg, events);
    var st := Run(cfg, events).value;
    if st.result.Some? {
      assert events + [] == events;
      assert Finishes(cfg, events + []);
    } else if st.phase.Final? {
      FinishFrom(cfg, events, st);
    } else if st.phase.ReadingOut? {
      Continue(cfg, events, OutRead(st.phase.atLeast));
    } else if st.phase.ReadingErr? {
      Continue(cfg, events, ErrRead(st.phase.atLeast));
    } else if st.flushes > 0 {
      Continue(cfg, events, BeginFlush);
    } else {
      RunExtends(cfg, events, BeginFinalReads);
      RunKeeps(cfg, events + [BeginFinalReads]);
      FinishFrom(cfg, events + [BeginFinalReads], Run(cfg, events + [BeginFinalReads]).value);
      FinishEarlier(cfg, events, BeginFinalReads);
    }
  }

  lemma RunExtends(cfg: Config, events: seq<Event>, ev: Event)
    requires Run(cfg, events).Some? && Enabled(Run(cfg, events).value, ev)
    ensures Run(cfg, events + [ev]) == Some(Step(cfg, Run(cfg, events).value, ev))
  {
    assert (events + [ev])[..|events + [ev]| - 1] == events;
  }

  lemma FinishEarlier(cfg: Config, events: seq<Event>, ev: Event)
    requires CanFinish(cfg, events + [ev])
    ensures CanFinish(cfg, events)
  {
    var more :| Finishes(cfg, (events + [ev]) + more);
    assert events + ([ev] + more) == (events + [ev]) + more;
  }

  lemma {:induction false} Continue(cfg: Config, events: seq<Event>, ev: Event)
    requires Run(cfg, events).Some? && Run(cfg, events).value.completion.Some?
    requires Enabled(Run(cfg, events).value, ev) && (ev.OutRead? || ev.ErrRead? || ev.BeginFlush?)
    ensures CanFinish(cfg, events)
    decreases Owed(Run(cfg, events).value), 0
  {
    RunExtends(cfg, events, ev);
    ResultIsReachable(cfg, events + [ev]);
    FinishEarlier(cfg, events, ev);
  }

  lemma FinishFrom(cfg: Config, events: seq<Event>, st: State)
    requires Run(cfg, events) == Some(st) && ReadsKept(st) && st.completion.Some?
    requires st.phase.Final? && st.result.None?
    ensures CanFinish(cfg, events)
  {
    var ev := FinalReads(st.phase.outAtLeast, st.phase.errAtLeast);
    RunExtends(cfg, events, ev);
    assert Finishes(cfg, events + [ev]);
  }

  // ----- after completion the flushes end, in every run

  predicate FlushEvent(ev: Event) {
    ev.BeginFlush? || ev.OutRead? || ev.ErrRead? || ev.BeginFinalReads? || ev.FinalReads?
  }

  /** How many of the events from the i-th on belong to the flush chain or the final reads. */
  function FlushEvents(events: seq<Event>, i: nat): nat
    requires i <= |events|
  {
    if i == |events| then 0
    else
      var n := |events| - 1;
      FlushEvents(events[..n], i) + if FlushEvent(events[n]) then 1 else 0
  }

  /** Flushes still owed, and the two events of the final reads unless they are behind. */
  function Ahead(st: State): nat {
    if st.result.Some? then 0 else Owed(st) + if st.phase.Final? then 1 else 2
  }

  lemma StepAhead(cfg: Config, st: State, ev: Event)
    requires TerminationKept(cfg, st) && Enabled(st, ev) && st.completion.Some?
    ensures Step(cfg, st, ev).completion.Some?
    ensures Ahead(Step(cfg, st, ev)) + (if FlushEvent(ev) then 1 else 0) <= Ahead(st)
  {
    if FlushEvent(ev) { FlushStepAhead(cfg, st, ev); }
  }

  lemma FlushStepAhead(cfg: Config, st: State, ev: Event)
    requires TerminationKept(cfg, st) && Enabled(st, ev) && st.completion.Some? && FlushEvent(ev)
    ensures Step(cfg, st, ev).completion.Some? && Ahead(Step(cfg, st, ev)) < Ahead(st)
  {}

  lemma LastStep(cfg: Config, events: seq<Event>)
    requires events != [] && Run(cfg, events).Some?
    ensures var (front, ev) := (events[..|events| - 1], events[|events| - 1]);
            && Run(cfg, front).Some? && Kept(cfg, Run(cfg, front).value) && Enabled(Run(cfg, front).value, ev)
            && Run(cfg, events).value == Step(cfg, Run(cfg, front).value, ev)
  {
    RunKeeps(cfg, events[..|events| - 1]);
  }

  lemma FlushesNext(cfg: Config, events: seq<Event>, i: nat, st: State)
    requires i < |events| && TerminationKept(cfg, st) && st.completion.Some? && Enabled(st, events[|events| - 1])
    ensures var (front, after) := (events[..|events| - 1], Step(cfg, st, events[|events| - 1]));
            && after.completion.Some?
            && FlushEvents(events, i) + Ahead(after) <= FlushEvents(front, i) + Ahead(st)
  {
    StepAhead(cfg, st, events[|events| - 1]);
  }

  /** From completion on a run takes only as many flush and read events as were owed then: no
      schedule keeps it reading. */
  lemma {:induction false} FlushesEnd(cfg: Config, events: seq<Event>, i: nat)
    requires Run(cfg, events).Some? && i <= |events|
    requires Run(cfg, events[..i]).Some? && Run(cfg, events[..i]).value.completion.Some?
    ensures Run(cfg, events).value.completion.Some?
    ensures FlushEvents(events, i) + Ahead(Run(cfg, events).value) <= Ahead(Run(cfg, events[..i]).value)
    decreases |events|
  {
    if i == |events| {
      assert events[..i] == events;
    } else {
      var front := events[..|events| - 1];
      assert front[..i] == events[..i];
      LastStep(cfg, events);
      FlushesEnd(cfg, front, i);
      FlushesNext(cfg, events, i, Run(cfg, front).value);
    }
  }
}
