/** The emulator side of the trace: one target file name, opened on the first
    observed access, finished when the target changes or the emulator stops. */
module TraceAdapter {
  import opened Common
  import opened TraceFormat
  import opened TraceWriter

  // ---- The state machine ------------------------------------------------------

  /** `bustrace_open`: 0, 1 or -1. */
  datatype Phase = Closed | Open | Failed

  /** `file` holds what has been written to the open handle, `finished` what each
      closed handle held, `attempts` the calls of fopen so far.  An unset target
      and an empty one behave alike. */
  datatype Adapter = Adapter(target: string, phase: Phase, core: Core,
                             file: Option<seq<bv8>>, finished: seq<seq<bv8>>, attempts: nat)

  /** One memory access offered to the adapter; `canOpen` and `cyclesPerSec` are
      what the host would answer if asked. */
  datatype Observation = Observation(access: Access, canOpen: bool, cyclesPerSec: bv64)

  datatype Op = Retarget(target: string) | Observe(obs: Observation) | Shutdown

  const INITIAL: Adapter := Adapter("", Closed, Core(0, 0, 0, false), None, [], 0)

  function AppendTo(file: Option<seq<bv8>>, bytes: seq<bv8>): Option<seq<bv8>> {
    if file.None? then None else Some(file.value + bytes)
  }

  function OpenStep(s: Adapter, obs: Observation): Adapter {
    if s.phase != Closed || s.target == "" then s
    else if !obs.canOpen then s.(phase := Failed, attempts := s.attempts + 1)
    else s.(phase := Open, core := FRESH, file := Some(Header(obs.cyclesPerSec)), attempts := s.attempts + 1)
  }

  function ObserveStep(s: Adapter, obs: Observation): Adapter {
    if s.target == "" then s
    else
      var s1 := OpenStep(s, obs);
      if s1.phase != Open then s1
      else s1.(core := AfterAccess(s1.core, obs.access), file := AppendTo(s1.file, AccessBytes(s1.core, obs.access)))
  }

  /** Finish and close whatever is open, then use the new target. */
  function RetargetStep(s: Adapter, target: string): Adapter {
    var core := if s.phase == Open then AfterEnd(s.core) else s.core;
    var file := if s.phase == Open then AppendTo(s.file, EndBytes(s.core)) else s.file;
    Adapter(target, Closed, core, None, if file.Some? then s.finished + [file.value] else s.finished, s.attempts)
  }

  function Step(s: Adapter, op: Op): Adapter {
    match op
    case Retarget(target) => RetargetStep(s, target)
    case Observe(obs) => ObserveStep(s, obs)
    case Shutdown => RetargetStep(s, "")
  }

  function Run(ops: seq<Op>): Adapter {
    if ops == [] then INITIAL else Step(Run(Init(ops)), Last(ops))
  }

  // ---- Sessions, read off the operations alone ----------------------------------

  /** What was observed under one setting of the target. */
  datatype Session = Session(target: string, seen: seq<Observation>) {
    /** fopen is called for it. */
    predicate Tried() {
      target != "" && seen != []
    }

    /** It records: the first access under a non-empty target found the file
        could be opened. */
    predicate Recording() {
      Tried() && seen[0].canOpen
    }

    function Trace(): seq<bv8>
      requires Recording()
    {
      WriteTrace(seen[0].cyclesPerSec, Accesses(seen))
    }
  }

  function Accesses(seen: seq<Observation>): seq<Access> {
    seq(|seen|, i requires 0 <= i < |seen| => seen[i].access)
  }

  /** One operation's effect on the list of sessions. */
  function NextSessions(ss: seq<Session>, op: Op): (ss': seq<Session>)
    requires ss != []
    ensures ss' != []
  {
    match op
    case Retarget(target) => ss + [Session(target, [])]
    case Shutdown => ss + [Session("", [])]
    case Observe(obs) => Init(ss) + [Session(Last(ss).target, Last(ss).seen + [obs])]
  }

  /** Cut a run at every change of target; the last session is the current one. */
  function Sessions(ops: seq<Op>): (ss: seq<Session>)
    ensures ss != []
  {
    if ops == [] then [Session("", [])] else NextSessions(Sessions(Init(ops)), Last(ops))
  }

  /** The files the completed sessions should have left, in order. */
  function Files(ss: seq<Session>): seq<seq<bv8>> {
    if ss == [] then []
    else Files(Init(ss)) + if Last(ss).Recording() then [Last(ss).Trace()] else []
  }

  /** One attempt for each session in which anything was observed. */
  function Attempts(ss: seq<Session>): nat {
    if ss == [] then 0 else Attempts(Init(ss)) + if Last(ss).Tried() then 1 else 0
  }

  // ---- The lifecycle ------------------------------------------------------------

  /** The state a session must have put the adapter in. */
  ghost predicate InSession(s: Adapter, cur: Session) {
    && s.target == cur.target
    && (s.core.started <==> s.phase == Open)
    && (s.file.Some? <==> s.phase == Open)
    && s.phase == (if !cur.Tried() then Closed else if cur.Recording() then Open else Failed)
    && (cur.Recording() ==>
          && Records(s.core, Accesses(cur.seen))
          && s.file == Some(Header(cur.seen[0].cyclesPerSec) + Body(0, Accesses(cur.seen))))
  }

  ghost predicate Consistent(s: Adapter, ss: seq<Session>)
    requires ss != []
  {
    && InSession(s, Last(ss))
    && s.finished == Files(Init(ss))
    && s.attempts == Attempts(ss)
  }

  lemma AccessesSnoc(seen: seq<Observation>, obs: Observation)
    ensures Accesses(seen + [obs]) == Accesses(seen) + [obs.access]
  {
  }

  lemma ObserveKeeps(s: Adapter, cur: Session, obs: Observation)
    requires InSession(s, cur)
    ensures var next := Session(cur.target, cur.seen + [obs]);
      && InSession(ObserveStep(s, obs), next)
      && ObserveStep(s, obs).finished == s.finished
      && ObserveStep(s, obs).attempts == s.attempts + if next.Tried() && !cur.Tried() then 1 else 0
  {
    var seen := cur.seen + [obs];
    AccessesSnoc(cur.seen, obs);
    if cur.target != "" {
      var s1 := OpenStep(s, obs);
      if cur.seen == [] {
        FreshRecords();
        assert Accesses([]) == [];
        assert seen[0] == obs;
        if obs.canOpen {
          assert Header(obs.cyclesPerSec) + Body(0, []) == Header(obs.cyclesPerSec);
        }
      } else {
        assert s1 == s && seen[0] == cur.seen[0];
      }
      if s1.phase == Open {
        AccessRecords(s1.core, Accesses(cur.seen), obs.access);
        Regroup(Header(seen[0].cyclesPerSec), Body(0, Accesses(cur.seen)), AccessBytes(s1.core, obs.access));
      }
    }
  }

  lemma RetargetKeeps(s: Adapter, cur: Session, target: string)
    requires InSession(s, cur)
    ensures InSession(RetargetStep(s, target), Session(target, []))
    ensures RetargetStep(s, target).finished == s.finished + if cur.Recording() then [cur.Trace()] else []
  {
    if cur.Recording() {
      EndCompletes(s.core, Accesses(cur.seen), cur.seen[0].cyclesPerSec);
    }
  }

  lemma NewSession(s: Adapter, ss: seq<Session>, target: string)
    requires ss != [] && Consistent(s, ss)
    ensures Consistent(RetargetStep(s, target), ss + [Session(target, [])])
  {
    RetargetKeeps(s, Last(ss), target);
    assert Init(ss + [Session(target, [])]) == ss;
  }

  lemma StepConsistent(s: Adapter, ss: seq<Session>, op: Op)
    requires ss != [] && Consistent(s, ss)
    ensures Consistent(Step(s, op), NextSessions(ss, op))
  {
    match op
    case Retarget(target) => NewSession(s, ss, target);
    case Shutdown => NewSession(s, ss, "");
    case Observe(obs) =>
      ObserveKeeps(s, Last(ss), obs);
      var ss' := NextSessions(ss, op);
      assert Init(ss') == Init(ss);
      assert Attempts(ss) == Attempts(Init(ss)) + if Last(ss).Tried() then 1 else 0;
  }

  /** Over every run, the adapter's phase, the core and the open handle agree; the
      closed handles hold, in order, the complete traces of the recording sessions;
      and there was one attempt to open for each session that saw an access. */
  lemma {:induction false} Lifecycle(ops: seq<Op>)
    ensures Consistent(Run(ops), Sessions(ops))
  {
    if ops == [] {
      assert Init(Sessions([])) == [];
    } else {
      Lifecycle(Init(ops));
      StepConsistent(Run(Init(ops)), Sessions(Init(ops)), Last(ops));
    }
  }

  /** What the documented reader should make of the files the sessions left. */
  function ReadBacks(ss: seq<Session>): seq<Trace> {
    if ss == [] then []
    else
      var seen := Last(ss).seen;
      ReadBacks(Init(ss)) +
        if Last(ss).Recording() then [Trace(seen[0].cyclesPerSec, Reconstruct(0, 0, Accesses(seen)))] else []
  }

  lemma {:induction false} FilesReadBack(ss: seq<Session>)
    ensures |Files(ss)| == |ReadBacks(ss)|
    ensures forall j :: 0 <= j < |Files(ss)| ==> ReadTrace(Files(ss)[j]) == Some(ReadBacks(ss)[j])
  {
    if ss != [] {
      FilesReadBack(Init(ss));
      if Last(ss).Recording() {
        ReadBackReconstructs(Last(ss).seen[0].cyclesPerSec, Accesses(Last(ss).seen));
      }
    }
  }

  /** Over every run, each closed handle is a valid trace from which the documented
      reader gets the accesses of its own session, in order. */
  lemma ClosedFilesReadBack(ops: seq<Op>, j: nat)
    requires j < |Run(ops).finished|
    ensures j < |ReadBacks(Init(Sessions(ops)))|
    ensures ReadTrace(Run(ops).finished[j]) == Some(ReadBacks(Init(Sessions(ops)))[j])
  {
    Lifecycle(ops);
    FilesReadBack(Init(Sessions(ops)));
  }

  // ---- The adapter in place -------------------------------------------------------

  /** The adapter's statics.  `finished` and `attempts` only record its history. */
  class BusTraceAdapter {
    var filename: Option<string>
    var fd: ByteSink?
    const core: BusTrace
    var open: int
    ghost var finished: seq<seq<bv8>>
    ghost var attempts: nat

    ghost predicate Valid()
      reads this, core, fd
    {
      && open in {-1, 0, 1}
      && (fd != null <==> open == 1)
      && (core.started <==> open == 1)
      && (open == 1 ==> core.emit == fd)
      && (fd != null ==> fd.isOpen)
    }

    ghost function View(): Adapter
      reads this, core, fd
    {
      Adapter(if filename.None? then "" else filename.value,
              if open == 1 then Open else if open == 0 then Closed else Failed,
              core.View(), if fd == null then None else Some(fd.data), finished, attempts)
    }

    constructor ()
      ensures Valid() && View() == INITIAL
    {
      filename, fd, open := None, null, 0;
      core := new BusTrace();
      finished, attempts := [], 0;
    }

    /** bustrace_is_enabled */
    predicate Enabled()
      reads this
    {
      filename.Some? && filename.value != ""
    }

    /** bustrace_ensure_open */
    method EnsureOpen(obs: Observation)
      requires Valid()
      modifies this, core
      ensures Valid() && View() == OpenStep(old(View()), obs)
      ensures fd != null && fd != old(fd) ==> fresh(fd)
    {
      if open != 0 || !Enabled() {
        return;
      }
      attempts := attempts + 1;
      if !obs.canOpen {
        open := -1;
        return;
      }
      fd := new ByteSink();
      core.Begin(obs.cyclesPerSec, fd);
      open := 1;
      assert fd.data == Header(obs.cyclesPerSec);
    }

    /** bustrace_observe_access */
    method Observe(obs: Observation)
      requires Valid()
      modifies this, core, fd
      ensures Valid() && View() == ObserveStep(old(View()), obs)
    {
      if !Enabled() {
        return;
      }
      if open == 0 {
        EnsureOpen(obs);
      }
      if open != 1 {
        return;
      }
      core.Record(obs.access);
    }

    /** End the trace and close the handle, as both entry points below do first. */
    method Finish()
      requires Valid()
      modifies this, core, fd
      ensures Valid() && View() == RetargetStep(old(View()), old(View()).target)
      ensures fd == null && filename == old(filename)
    {
      if open == 1 {
        core.End();
      }
      if fd != null {
        finished := finished + [fd.data];
        fd.Close();
        fd := null;
      }
      open := 0;
    }

    /** set_bustrace_filename */
    method SetFilename(val: Option<string>)
      requires Valid()
      modifies this, core, fd
      ensures Valid() && View() == Step(old(View()), Retarget(if val.None? then "" else val.value))
    {
      Finish();
      filename := val;
    }

    /** bustrace_shutdown */
    method Stop()
      requires Valid()
      modifies this, core, fd
      ensures Valid() && View() == Step(old(View()), Shutdown)
    {
      Finish();
      filename := None;
    }
  }
}
