/** writeAtomicJson of scripts/seal-project-intelligence-value-pilot-registration.ts, run by any
    number of processes at once on one directory: write a temporary file piece by piece, hard-link
    it to the output, remove the temporary name. Every call may fail and a process may crash. */
module Sealing {
  import opened Wrappers

  /** Process i writes data[i] through the name temporary[i]. */
  datatype Config = Config(output: string, temporary: seq<string>, data: seq<string>)

  /** A temporary name extends the output's name, and the data ends with a newline. */
  ghost predicate WellFormed(cfg: Config) {
    && |cfg.temporary| == |cfg.data|
    && forall i :: 0 <= i < |cfg.data| ==> cfg.temporary[i] != cfg.output && cfg.data[i] != ""
  }

  ghost predicate DistinctNames(cfg: Config) {
    forall i, j :: 0 <= i < j < |cfg.temporary| ==> cfg.temporary[i] != cfg.temporary[j]
  }

  datatype Outcome = Sealed | Refused | Failed | Crashed

  datatype Phase =
    | Start
    | Writing(file: nat, at: nat)
    | Written(file: nat)
    | Cleanup(outcome: Outcome)              // in the finally block
    | Done(outcome: Outcome, removed: bool)  // removed: the unlink worked, or no file was made

  /** Names refer to files by number; a file outlives a name of it as long as it has another. */
  datatype State = State(names: map<string, nat>, files: seq<string>, phases: seq<Phase>)

  datatype Action =
    | DirectoryFails | Open | OpenFails | Write(n: nat) | WriteFails | Close
    | Link | LinkFails | Unlink | UnlinkFails | Crash

  datatype Event = Event(who: nat, action: Action)

  ghost predicate Valid(cfg: Config, s: State) {
    && |s.phases| == |cfg.data| == |cfg.temporary|
    && (forall name :: name in s.names ==> s.names[name] < |s.files|)
    && forall i :: 0 <= i < |s.phases| ==>
         (s.phases[i].Writing? ==> s.phases[i].file < |s.files| && s.phases[i].at <= |cfg.data[i]|)
  }

  ghost predicate Enabled(cfg: Config, s: State, e: Event)
    requires Valid(cfg, s)
  {
    && e.who < |s.phases|
    && var phase := s.phases[e.who];
       match e.action
       case DirectoryFails => phase.Start?
       case Open => phase.Start?
       case OpenFails => phase.Start?
       case Write(n) => phase.Writing? && n > 0 && phase.at + n <= |cfg.data[e.who]|
       case WriteFails => phase.Writing?
       case Close => phase.Writing? && phase.at == |cfg.data[e.who]|
       case Link => phase.Written?
       case LinkFails => phase.Written?
       case Unlink => phase.Cleanup?
       case UnlinkFails => phase.Cleanup?
       case Crash => !phase.Done?
  }

  /** Writing bytes at a position; a gap left by another writer's truncation reads as zeros. */
  function Overlay(file: string, at: nat, bytes: string): string {
    var head := if at <= |file| then file[..at] else file + seq(at - |file|, i => '\0');
    head + bytes + if at + |bytes| <= |file| then file[at + |bytes|..] else ""
  }

  ghost function Moved(s: State, who: nat, phase: Phase): State
    requires who < |s.phases|
  {
    s.(phases := s.phases[who := phase])
  }

  /** Opening for writing creates the file, or truncates the one that has the name. */
  ghost function Opened(cfg: Config, s: State, who: nat): State
    requires Valid(cfg, s) && who < |s.phases|
  {
    var name := cfg.temporary[who];
    if name in s.names then
      State(s.names, s.files[s.names[name] := ""], s.phases[who := Writing(s.names[name], 0)])
    else
      State(s.names[name := |s.files|], s.files + [""], s.phases[who := Writing(|s.files|, 0)])
  }

  /** `link` fails when the output exists (EEXIST) or the temporary name is gone (ENOENT). */
  ghost function Linked(cfg: Config, s: State, who: nat): State
    requires Valid(cfg, s) && who < |s.phases|
  {
    var name := cfg.temporary[who];
    if name !in s.names then Moved(s, who, Cleanup(Failed))
    else if cfg.output in s.names then Moved(s, who, Cleanup(Refused))
    else Moved(s.(names := s.names[cfg.output := s.names[name]]), who, Cleanup(Sealed))
  }

  ghost function Step(cfg: Config, s: State, e: Event): (r: State)
    requires Valid(cfg, s) && Enabled(cfg, s, e)
    ensures Valid(cfg, r)
  {
    var who, phase := e.who, s.phases[e.who];
    match e.action
    case DirectoryFails => Moved(s, who, Done(Failed, true))
    case Open => Opened(cfg, s, who)
    case OpenFails => Moved(s, who, Cleanup(Failed))
    case Write(n) =>
      var written := Overlay(s.files[phase.file], phase.at, cfg.data[who][phase.at..phase.at + n]);
      Moved(s.(files := s.files[phase.file := written]), who, Writing(phase.file, phase.at + n))
    case WriteFails => Moved(s, who, Cleanup(Failed))
    case Close => Moved(s, who, Written(phase.file))
    case Link => Linked(cfg, s, who)
    case LinkFails => Moved(s, who, Cleanup(Failed))
    case Unlink => Moved(s.(names := s.names - {cfg.temporary[who]}), who, Done(phase.outcome, true))
    case UnlinkFails => Moved(s, who, Done(phase.outcome, false))
    case Crash => Moved(s, who, Done(if phase.Cleanup? then phase.outcome else Crashed, false))
  }

  /** The state after a sequence of events, if each can happen in its turn. */
  ghost function Run(cfg: Config, s: State, events: seq<Event>): (r: Option<State>)
    requires Valid(cfg, s)
    ensures r.Some? ==> Valid(cfg, r.value)
    decreases |events|
  {
    if events == [] then Some(s)
    else if Enabled(cfg, s, events[0]) then Run(cfg, Step(cfg, s, events[0]), events[1..])
    else None
  }

  ghost predicate Initial(cfg: Config, s: State) {
    && Valid(cfg, s)
    && (forall i :: 0 <= i < |s.phases| ==> s.phases[i] == Start)
    && forall i :: 0 <= i < |cfg.temporary| ==> cfg.temporary[i] !in s.names
  }

  /** What a reader of the output finds. */
  ghost function Output(cfg: Config, s: State): Option<string>
    requires Valid(cfg, s)
  {
    if cfg.output in s.names then Some(s.files[s.names[cfg.output]]) else None
  }

  predicate HasOutcome(phase: Phase, outcome: Outcome) {
    (phase.Cleanup? || phase.Done?) && phase.outcome == outcome
  }

  // ----- what every step keeps

  /** The process's file is complete up to its position, new, and has no other name. */
  ghost predicate OwnFile(cfg: Config, init: State, s: State, i: nat, file: nat)
    requires i < |cfg.temporary|
  {
    var name := cfg.temporary[i];
    && name in s.names && s.names[name] == file
    && |init.files| <= file < |s.files|
    && forall other :: other in s.names && other != name ==> s.names[other] != file
  }

  ghost predicate PhaseKept(cfg: Config, init: State, s: State, i: nat)
    requires Valid(cfg, s) && i < |s.phases|
  {
    match s.phases[i]
    case Start => cfg.temporary[i] !in s.names
    case Writing(file, at) => OwnFile(cfg, init, s, i, file) && s.files[file] == cfg.data[i][..at]
    case Written(file) => OwnFile(cfg, init, s, i, file) && s.files[file] == cfg.data[i]
    case Cleanup(outcome) => true
    case Done(outcome, removed) => removed ==> cfg.temporary[i] !in s.names
  }

  ghost predicate OutcomeKept(cfg: Config, init: State, s: State, i: nat)
    requires Valid(cfg, s) && i < |s.phases|
  {
    && (HasOutcome(s.phases[i], Sealed) ==> cfg.output !in init.names && Output(cfg, s) == Some(cfg.data[i]))
    && (HasOutcome(s.phases[i], Refused) ==> cfg.output in s.names)
  }

  ghost predicate OneSealer(s: State) {
    forall i, j :: (0 <= i < |s.phases| && 0 <= j < |s.phases|
                    && HasOutcome(s.phases[i], Sealed) && HasOutcome(s.phases[j], Sealed)) ==> i == j
  }

  ghost predicate SomeSealer(s: State) {
    exists i :: 0 <= i < |s.phases| && HasOutcome(s.phases[i], Sealed)
  }

  ghost predicate OthersKept(cfg: Config, init: State, s: State) {
    && init.files <= s.files
    && (forall name :: name in init.names ==> name in s.names && s.names[name] == init.names[name])
    && forall name :: name in s.names ==> name in init.names || name == cfg.output || name in cfg.temporary
  }

  ghost predicate Kept(cfg: Config, init: State, s: State) {
    && WellFormed(cfg) && DistinctNames(cfg) && Initial(cfg, init) && Valid(cfg, s)
    && (forall i :: 0 <= i < |s.phases| ==> PhaseKept(cfg, init, s, i))
    && (forall i :: 0 <= i < |s.phases| ==> OutcomeKept(cfg, init, s, i))
    && OneSealer(s)
    && (cfg.output in s.names ==> cfg.output in init.names || SomeSealer(s))
    && OthersKept(cfg, init, s)
  }

  /** A process moves on and neither names nor files change. */
  lemma MovedKept(cfg: Config, init: State, s: State, who: nat, phase: Phase)
    requires Kept(cfg, init, s) && who < |s.phases|
    requires Valid(cfg, Moved(s, who, phase)) && PhaseKept(cfg, init, Moved(s, who, phase), who)
    requires HasOutcome(s.phases[who], Sealed) <==> HasOutcome(phase, Sealed)
    requires HasOutcome(phase, Refused) ==> cfg.output in s.names
    ensures Kept(cfg, init, Moved(s, who, phase))
  {
    var r := Moved(s, who, phase);
    forall i | 0 <= i < |r.phases| ensures PhaseKept(cfg, init, r, i) && OutcomeKept(cfg, init, r, i) {
      assert PhaseKept(cfg, init, s, i) && OutcomeKept(cfg, init, s, i);
    }
    if SomeSealer(s) {
      var i :| 0 <= i < |s.phases| && HasOutcome(s.phases[i], Sealed);
      assert HasOutcome(r.phases[i], Sealed);
    }
  }

  lemma OpenKept(cfg: Config, init: State, s: State, who: nat)
    requires Kept(cfg, init, s) && who < |s.phases| && s.phases[who].Start?
    ensures Kept(cfg, init, Opened(cfg, s, who))
  {
    assert PhaseKept(cfg, init, s, who);
    var r := Opened(cfg, s, who);
    forall i | 0 <= i < |r.phases| ensures PhaseKept(cfg, init, r, i) && OutcomeKept(cfg, init, r, i) {
      assert PhaseKept(cfg, init, s, i) && OutcomeKept(cfg, init, s, i);
      assert cfg.temporary[i] != cfg.output && (i != who ==> cfg.temporary[i] != cfg.temporary[who]);
    }
    assert cfg.temporary[who] != cfg.output;
    if SomeSealer(s) {
      var i :| 0 <= i < |s.phases| && HasOutcome(s.phases[i], Sealed);
      assert HasOutcome(r.phases[i], Sealed);
    }
  }

  lemma OverlayExtends(data: string, at: nat, n: nat)
    requires at + n <= |data|
    ensures Overlay(data[..at], at, data[at..at + n]) == data[..at + n]
  {}

  lemma WriteKept(cfg: Config, init: State, s: State, who: nat, n: nat)
    requires Kept(cfg, init, s) && Enabled(cfg, s, Event(who, Write(n)))
    ensures Kept(cfg, init, Step(cfg, s, Event(who, Write(n))))
  {
    assert PhaseKept(cfg, init, s, who);
    var r := Step(cfg, s, Event(who, Write(n)));
    var file := s.phases[who].file;
    OverlayExtends(cfg.data[who], s.phases[who].at, n);
    assert forall k :: 0 <= k < |s.files| && k != file ==> r.files[k] == s.files[k];
    forall i | 0 <= i < |r.phases| ensures PhaseKept(cfg, init, r, i) && OutcomeKept(cfg, init, r, i) {
      assert PhaseKept(cfg, init, s, i) && OutcomeKept(cfg, init, s, i);
      assert cfg.temporary[who] != cfg.output && (i != who ==> cfg.temporary[i] != cfg.temporary[who]);
    }
    if SomeSealer(s) {
      var i :| 0 <= i < |s.phases| && HasOutcome(s.phases[i], Sealed);
      assert HasOutcome(r.phases[i], Sealed);
    }
  }

  lemma LinkKept(cfg: Config, init: State, s: State, who: nat)
    requires Kept(cfg, init, s) && who < |s.phases| && s.phases[who].Written?
    ensures Kept(cfg, init, Linked(cfg, s, who))
  {
    assert PhaseKept(cfg, init, s, who);
    if cfg.output in s.names {
      MovedKept(cfg, init, s, who, Cleanup(Refused));
    } else {
      var r := Linked(cfg, s, who);
      forall i | 0 <= i < |r.phases| ensures PhaseKept(cfg, init, r, i) && OutcomeKept(cfg, init, r, i) {
        assert PhaseKept(cfg, init, s, i) && OutcomeKept(cfg, init, s, i);
        assert cfg.temporary[i] != cfg.output && (i != who ==> cfg.temporary[i] != cfg.temporary[who]);
      }
      forall i | 0 <= i < |s.phases| ensures !HasOutcome(s.phases[i], Sealed) {
        assert OutcomeKept(cfg, init, s, i);
      }
      assert HasOutcome(r.phases[who], Sealed);
    }
  }

  lemma UnlinkKept(cfg: Config, init: State, s: State, who: nat)
    requires Kept(cfg, init, s) && Enabled(cfg, s, Event(who, Unlink))
    ensures Kept(cfg, init, Step(cfg, s, Event(who, Unlink)))
  {
    var r := Step(cfg, s, Event(who, Unlink));
    forall i | 0 <= i < |r.phases| ensures PhaseKept(cfg, init, r, i) && OutcomeKept(cfg, init, r, i) {
      assert PhaseKept(cfg, init, s, i) && OutcomeKept(cfg, init, s, i);
      assert cfg.temporary[who] != cfg.output && (i != who ==> cfg.temporary[i] != cfg.temporary[who]);
    }
    assert cfg.temporary[who] !in init.names;
    if SomeSealer(s) {
      var i :| 0 <= i < |s.phases| && HasOutcome(s.phases[i], Sealed);
      assert HasOutcome(r.phases[i], Sealed);
    }
  }

  lemma StepKeeps(cfg: Config, init: State, s: State, e: Event)
    requires Kept(cfg, init, s) && Enabled(cfg, s, e)
    ensures Kept(cfg, init, Step(cfg, s, e))
  {
    var who := e.who;
    var phase := s.phases[who];
    assert PhaseKept(cfg, init, s, who) && OutcomeKept(cfg, init, s, who);
    match e.action {
      case Open => OpenKept(cfg, init, s, who);
      case Write(n) => WriteKept(cfg, init, s, who, n);
      case Link => LinkKept(cfg, init, s, who);
      case Unlink => UnlinkKept(cfg, init, s, who);
      case DirectoryFails => MovedKept(cfg, init, s, who, Done(Failed, true));
      case OpenFails => MovedKept(cfg, init, s, who, Cleanup(Failed));
      case WriteFails => MovedKept(cfg, init, s, who, Cleanup(Failed));
      case LinkFails => MovedKept(cfg, init, s, who, Cleanup(Failed));
      case Close => MovedKept(cfg, init, s, who, Written(phase.file));
      case UnlinkFails => MovedKept(cfg, init, s, who, Done(phase.outcome, false));
      case Crash => MovedKept(cfg, init, s, who, Done(if phase.Cleanup? then phase.outcome else Crashed, false));
    }
  }

  lemma {:induction false} RunKeeps(cfg: Config, init: State, s: State, events: seq<Event>)
    requires Kept(cfg, init, s) && Run(cfg, s, events).Some?
    ensures Kept(cfg, init, Run(cfg, s, events).value)
    decreases |events|
  {
    if events == [] {
    } else {
      StepKeeps(cfg, init, s, events[0]);
      RunKeeps(cfg, init, Step(cfg, s, events[0]), events[1..]);
    }
  }

  lemma InitialKept(cfg: Config, init: State)
    requires WellFormed(cfg) && DistinctNames(cfg) && Initial(cfg, init)
    ensures Kept(cfg, init, init)
  {
    forall i | 0 <= i < |init.phases| ensures PhaseKept(cfg, init, init, i) && OutcomeKept(cfg, init, init, i) {
      assert init.phases[i] == Start;
    }
  }

  // ----- the output

  lemma OutputStaysStep(cfg: Config, init: State, s: State, e: Event)
    requires Kept(cfg, init, s) && Enabled(cfg, s, e) && Output(cfg, s).Some?
    ensures Output(cfg, Step(cfg, s, e)) == Output(cfg, s)
  {
    assert PhaseKept(cfg, init, s, e.who) && cfg.temporary[e.who] != cfg.output;
  }

  lemma {:induction false} OutputStays(cfg: Config, init: State, s: State, events: seq<Event>)
    requires Kept(cfg, init, s) && Run(cfg, s, events).Some? && Output(cfg, s).Some?
    ensures Output(cfg, Run(cfg, s, events).value) == Output(cfg, s)
    decreases |events|
  {
    if events == [] {
    } else {
      OutputStaysStep(cfg, init, s, events[0]);
      StepKeeps(cfg, init, s, events[0]);
      OutputStays(cfg, init, Step(cfg, s, events[0]), events[1..]);
    }
  }

  /** Once a reader has found an output, every later reader finds the same. */
  lemma OutputNeverChanges(cfg: Config, init: State, events: seq<Event>, more: seq<Event>)
    requires WellFormed(cfg) && DistinctNames(cfg) && Initial(cfg, init)
    requires Run(cfg, init, events).Some? && Output(cfg, Run(cfg, init, events).value).Some?
    requires Run(cfg, Run(cfg, init, events).value, more).Some?
    ensures Output(cfg, Run(cfg, Run(cfg, init, events).value, more).value) == Output(cfg, Run(cfg, init, events).value)
  {
    InitialKept(cfg, init);
    RunKeeps(cfg, init, init, events);
    OutputStays(cfg, init, Run(cfg, init, events).value, more);
  }

  /** The output is what it was at first, or, if there was none, one process's complete data. */
  ghost predicate OutputWhole(cfg: Config, init: State, s: State)
    requires Valid(cfg, init) && Valid(cfg, s)
  {
    || Output(cfg, s) == Output(cfg, init)
    || (Output(cfg, init).None? && exists i :: 0 <= i < |cfg.data| && Output(cfg, s) == Some(cfg.data[i]))
  }

  ghost predicate AlwaysWhole(cfg: Config)
    requires WellFormed(cfg)
  {
    forall init, events ::
      (Initial(cfg, init) && Run(cfg, init, events).Some?) ==> OutputWhole(cfg, init, Run(cfg, init, events).value)
  }

  lemma KeptWhole(cfg: Config, init: State, s: State)
    requires Kept(cfg, init, s)
    ensures OutputWhole(cfg, init, s)
  {
    if cfg.output in init.names {
      assert s.files[init.names[cfg.output]] == init.files[init.names[cfg.output]];
    } else if cfg.output in s.names {
      var i :| 0 <= i < |s.phases| && HasOutcome(s.phases[i], Sealed);
      assert OutcomeKept(cfg, init, s, i);
    }
  }

  // ----- without distinct names

  lemma RunOne(cfg: Config, s: State, events: seq<Event>)
    requires Valid(cfg, s) && events != [] && Enabled(cfg, s, events[0])
    ensures Run(cfg, s, events) == Run(cfg, Step(cfg, s, events[0]), events[1..])
    ensures Run(cfg, Step(cfg, s, events[0]), []) == Some(Step(cfg, s, events[0]))
  {}

  lemma {:induction false} RunSnoc(cfg: Config, s: State, events: seq<Event>, e: Event)
    requires Valid(cfg, s) && Run(cfg, s, events).Some? && Enabled(cfg, Run(cfg, s, events).value, e)
    ensures Run(cfg, s, events + [e]) == Some(Step(cfg, Run(cfg, s, events).value, e))
    decreases |events|
  {
    if events == [] {
      assert [e][1..] == [] && [] + [e] == [e];
    } else {
      assert (events + [e])[1..] == events[1..] + [e];
      RunSnoc(cfg, Step(cfg, s, events[0]), events[1..], e);
    }
  }

  function SealEvents(cfg: Config, i: nat): seq<Event>
    requires i < |cfg.data|
  {
    [Event(i, Open), Event(i, Write(|cfg.data[i]|)), Event(i, Close), Event(i, Link)]
  }

  /** In an empty directory, a process that is not disturbed gets its data linked to the output. */
  lemma SealsAlone(cfg: Config, init: State, i: nat)
    requires WellFormed(cfg) && i < |cfg.data| && init == State(map[], [], seq(|cfg.data|, k => Start))
    ensures Valid(cfg, init) && Run(cfg, init, SealEvents(cfg, i)).Some?
    ensures var s := Run(cfg, init, SealEvents(cfg, i)).value;
            && s.names == map[cfg.temporary[i] := 0, cfg.output := 0] && s.files == [cfg.data[i]]
            && forall j :: 0 <= j < |s.phases| && j != i ==> s.phases[j] == Start
  {
    var data, named, events := cfg.data[i], map[cfg.temporary[i] := 0], SealEvents(cfg, i);
    var s1 := Opened(cfg, init, i);
    assert s1.names == named && s1.files == [""] && s1.phases[i] == Writing(0, 0);
    assert data[0..|data|] == data && Overlay("", 0, data) == data;
    var s2 := Step(cfg, s1, Event(i, Write(|data|)));
    assert s2.names == named && s2.files == [data] && s2.phases[i] == Writing(0, |data|);
    var s3 := Step(cfg, s2, Event(i, Close));
    RunOne(cfg, s3, events[3..]);
    RunOne(cfg, s2, events[2..]);
    RunOne(cfg, s1, events[1..]);
    RunOne(cfg, init, events);
  }

  /** After the events the output is the sealed data, and after one event more it is empty. */
  ghost predicate Truncates(cfg: Config, init: State, events: seq<Event>, e: Event, sealed: string) {
    && Initial(cfg, init) && Run(cfg, init, events).Some? && Run(cfg, init, events + [e]).Some?
    && Output(cfg, Run(cfg, init, events).value) == Some(sealed)
    && Output(cfg, Run(cfg, init, events + [e]).value) == Some("")
  }

  /** Two processes with one name: the second opens, and truncates, the file the first has linked. */
  lemma SharedNameTruncatesOutput(cfg: Config, i: nat, j: nat)
    requires WellFormed(cfg) && i < j < |cfg.temporary| && cfg.temporary[i] == cfg.temporary[j]
    ensures exists init, events, e :: Truncates(cfg, init, events, e, cfg.data[i])
    ensures !AlwaysWhole(cfg)
  {
    var init := State(map[], [], seq(|cfg.data|, k => Start));
    var events, e := SealEvents(cfg, i), Event(j, Open);
    SealsAlone(cfg, init, i);
    var s := Run(cfg, init, events).value;
    RunSnoc(cfg, init, events, e);
    assert Output(cfg, s) == Some(cfg.data[i]) && Output(cfg, Opened(cfg, s, j)) == Some("");
    assert Truncates(cfg, init, events, e, cfg.data[i]);
    assert Initial(cfg, init) && !OutputWhole(cfg, init, Opened(cfg, s, j));
  }

  /** Distinct temporary names are exactly what makes the output whole in every run. */
  lemma WholeIffNamesDistinct(cfg: Config)
    requires WellFormed(cfg)
    ensures AlwaysWhole(cfg) <==> DistinctNames(cfg)
  {
    if DistinctNames(cfg) {
      forall init, events | Initial(cfg, init) && Run(cfg, init, events).Some?
        ensures OutputWhole(cfg, init, Run(cfg, init, events).value)
      {
        InitialKept(cfg, init);
        RunKeeps(cfg, init, init, events);
        KeptWhole(cfg, init, Run(cfg, init, events).value);
      }
    } else {
      var i, j :| 0 <= i < j < |cfg.temporary| && cfg.temporary[i] == cfg.temporary[j];
      SharedNameTruncatesOutput(cfg, i, j);
    }
  }

  // ----- how runs end

  /** At most one process is told that it sealed, only if there was no output before, and the
      output is then its data; whoever is refused was refused by an output that is there. */
  lemma AtMostOneSealed(cfg: Config, init: State, events: seq<Event>, i: nat, j: nat)
    requires WellFormed(cfg) && DistinctNames(cfg) && Initial(cfg, init) && Run(cfg, init, events).Some?
    requires i < |cfg.data| && j < |cfg.data|
    ensures var s := Run(cfg, init, events).value;
            && (HasOutcome(s.phases[i], Sealed) ==> cfg.output !in init.names && Output(cfg, s) == Some(cfg.data[i]))
            && (HasOutcome(s.phases[i], Sealed) && HasOutcome(s.phases[j], Sealed) ==> i == j)
            && (HasOutcome(s.phases[i], Refused) ==> Output(cfg, s).Some?)
  {
    InitialKept(cfg, init);
    RunKeeps(cfg, init, init, events);
    assert OutcomeKept(cfg, init, Run(cfg, init, events).value, i);
  }

  /** Every process has finished, and its unlink worked if it made a file. */
  ghost predicate FinishedCleanly(s: State) {
    forall i :: 0 <= i < |s.phases| ==> s.phases[i].Done? && s.phases[i].removed
  }

  /** When all have finished and no unlink failed, the directory holds what it held before and the
      output if someone sealed it. */
  lemma NothingLeftBehind(cfg: Config, init: State, events: seq<Event>, s: State)
    requires WellFormed(cfg) && DistinctNames(cfg) && Initial(cfg, init)
    requires Run(cfg, init, events) == Some(s) && FinishedCleanly(s)
    ensures s.names.Keys == init.names.Keys + (if SomeSealer(s) then {cfg.output} else {})
    ensures Valid(cfg, s) && forall name :: name in init.names ==>
              s.names[name] == init.names[name] && s.files[s.names[name]] == init.files[init.names[name]]
  {
    InitialKept(cfg, init);
    RunKeeps(cfg, init, init, events);
    forall i | 0 <= i < |cfg.temporary| ensures cfg.temporary[i] !in s.names {
      assert PhaseKept(cfg, init, s, i);
    }
    if SomeSealer(s) {
      var i :| 0 <= i < |s.phases| && HasOutcome(s.phases[i], Sealed);
      assert OutcomeKept(cfg, init, s, i);
    }
  }

  /** If nothing went wrong and there was no output, somebody sealed. */
  lemma SomebodySeals(cfg: Config, init: State, events: seq<Event>, s: State)
    requires WellFormed(cfg) && DistinctNames(cfg) && Initial(cfg, init) && Run(cfg, init, events) == Some(s)
    requires cfg.output !in init.names && cfg.data != []
    requires forall i :: 0 <= i < |s.phases| ==> HasOutcome(s.phases[i], Sealed) || HasOutcome(s.phases[i], Refused)
    ensures SomeSealer(s)
  {
    InitialKept(cfg, init);
    RunKeeps(cfg, init, init, events);
    assert OutcomeKept(cfg, init, s, 0);
  }

  // ----- every run is finite

  /** Steps a process can still take; each write takes at least one character. */
  function StepsLeft(cfg: Config, phase: Phase, i: nat): int
    requires i < |cfg.data|
  {
    match phase
    case Start => |cfg.data[i]| + 4
    case Writing(_, at) => |cfg.data[i]| - at + 3
    case Written(_) => 2
    case Cleanup(_) => 1
    case Done(_, _) => 0
  }

  ghost function Budget(cfg: Config, phases: seq<Phase>): int
    requires |phases| <= |cfg.data|
    decreases |phases|
  {
    if phases == [] then 0
    else
      var n := |phases| - 1;
      Budget(cfg, phases[..n]) + StepsLeft(cfg, phases[n], n)
  }

  lemma {:induction false} BudgetUpdate(cfg: Config, phases: seq<Phase>, who: nat, phase: Phase)
    requires |phases| <= |cfg.data| && who < |phases|
    ensures Budget(cfg, phases[who := phase]) ==
            Budget(cfg, phases) - StepsLeft(cfg, phases[who], who) + StepsLeft(cfg, phase, who)
    decreases |phases|
  {
    var n := |phases| - 1;
    if who < n {
      assert phases[who := phase][..n] == phases[..n][who := phase];
      BudgetUpdate(cfg, phases[..n], who, phase);
    } else {
      assert phases[who := phase][..n] == phases[..n];
    }
  }

  lemma {:induction false} BudgetNotNegative(cfg: Config, s: State, n: nat)
    requires Valid(cfg, s) && n <= |s.phases|
    ensures Budget(cfg, s.phases[..n]) >= 0
  {
    if n == 0 {
    } else {
      assert s.phases[..n][..n - 1] == s.phases[..n - 1];
      BudgetNotNegative(cfg, s, n - 1);
    }
  }

  /** A run is no longer than the steps its processes have left. */
  lemma {:induction false} RunsAreBounded(cfg: Config, s: State, events: seq<Event>)
    requires Valid(cfg, s) && Run(cfg, s, events).Some?
    ensures |events| <= Budget(cfg, s.phases)
    decreases |events|
  {
    if events == [] {
      assert s.phases[..|s.phases|] == s.phases;
      BudgetNotNegative(cfg, s, |s.phases|);
    } else {
      var r := Step(cfg, s, events[0]);
      RunsAreBounded(cfg, r, events[1..]);
      BudgetUpdate(cfg, s.phases, events[0].who, r.phases[events[0].who]);
      assert r.phases == s.phases[events[0].who := r.phases[events[0].who]];
    }
  }
}
