/**
 The replacement protocol tmp -> verify -> rename -> marker as a step system: workers with a source each,
 any interleaving, a failure or crash after any step, any number of reruns, and clean-up at any time.
 */
module Coord {
  import opened Bytes
  import opened PcapIo
  import opened TmpNames

  datatype Phase =
    | Idle
    | Writing                   // the temp file is created and being filled
    | Verifying(expected: nat)  // written and synced, not yet counted
    | Renaming                  // counted
    | Marking                   // renamed, not yet marked

  /** The source each worker slims. Workers of one run have different sources; workers of two processes need not. */
  type Jobs = map<nat, string>

  datatype State = State(files: map<string, seq<byte>>, markers: set<string>, phase: map<nat, Phase>) {
    /** Worker `w` moves to phase `ph`. */
    function To(w: nat, ph: Phase): State {
      this.(phase := phase[w := ph])
    }

    function Put(name: string, bytes: seq<byte>): State {
      this.(files := files[name := bytes])
    }

    /** A write to a file that was removed in the meantime reaches no name. */
    function Overwrite(name: string, bytes: seq<byte>): State {
      if name in files then Put(name, bytes) else this
    }

    function Remove(name: string): State {
      this.(files := files - {name})
    }
  }

  datatype Act =
    | Start
    | Spill(partial: seq<byte>)
    | Finish
    | Corrupt(bytes: seq<byte>)
    | Verify
    | Rename
    | Mark
    | GiveUp(removeTmp: bool, marked: bool)

  datatype Step = By(w: nat, act: Act) | Crash | Cleanup(tmp: string)

  /** No temp file is a source. */
  predicate TmpsApart(jobs: Jobs) {
    forall w, v :: w in jobs && v in jobs ==> TmpName(jobs[w]) != jobs[v]
  }

  /** No other worker uses the temp file of `w`; in particular none has the same source. */
  predicate OwnsTmp(jobs: Jobs, w: nat)
    requires w in jobs
  {
    forall v :: v in jobs && v != w ==> TmpName(jobs[v]) != TmpName(jobs[w])
  }

  predicate Typed(jobs: Jobs, st: State) {
    (forall w :: w in jobs ==> jobs[w] in st.files) && st.phase.Keys == jobs.Keys
  }

  /**
   What worker `w` does to its source `src`. `faithful` excludes `Corrupt`, which replaces a temp file between
   writing and counting. A worker gives up on any error or panic, in any phase; whether its temp file
   went and, when it was about to mark, whether the marker was left, is arbitrary.
   */
  predicate Acts(src: string, faithful: bool, st: State, st': State, w: nat, act: Act)
    requires src in st.files && w in st.phase
  {
    var tmp, ph := TmpName(src), st.phase[w];
    match act
    case Start => ph == Idle && src !in st.markers && st' == st.To(w, Writing).Put(tmp, [])
    case Spill(partial) => ph == Writing && st' == st.Overwrite(tmp, partial)
    case Finish =>
      && ph == Writing && SlimFile(st.files[src]).Done? && CountFile(st.files[src]).Done?
      && st' == st.To(w, Verifying(CountFile(st.files[src]).value)).Overwrite(tmp, SlimFile(st.files[src]).value)
    case Corrupt(bytes) => !faithful && ph.Verifying? && st' == st.Put(tmp, bytes)
    case Verify =>
      && ph.Verifying? && tmp in st.files
      && CountFile(st.files[tmp]) == Done(ph.expected)
      && st' == st.To(w, Renaming)
    case Rename => ph == Renaming && tmp in st.files && st' == st.To(w, Marking).Put(src, st.files[tmp]).Remove(tmp)
    case Mark => ph == Marking && st' == st.To(w, Idle).(markers := st.markers + {src})
    case GiveUp(removeTmp, marked) =>
      && ph != Idle && (marked ==> ph == Marking)
      && st' == (if removeTmp then st.Remove(tmp) else st)
                  .To(w, Idle).(markers := if marked then st.markers + {src} else st.markers)
  }

  /** One step: of a worker, a crash of all of them, or the removal of a temp file by a start-up elsewhere. */
  predicate Next(jobs: Jobs, faithful: bool, st: State, st': State, step: Step)
    requires Typed(jobs, st)
  {
    match step
    case By(w, act) => w in jobs && Acts(jobs[w], faithful, st, st', w, act)
    case Crash => st' == st.(phase := map w | w in jobs :: Idle)
    case Cleanup(tmp) =>
      EndsWith(tmp, TMP_SUFFIX) && (forall w :: w in jobs ==> jobs[w] != tmp) && st' == st.Remove(tmp)
  }

  /** The captures before the first run. Leftover temp files may lie around; no source is marked. */
  predicate Init(jobs: Jobs, orig: map<string, seq<byte>>, st: State) {
    && Typed(jobs, st)
    && forall w :: w in jobs ==>
         && jobs[w] in orig && st.files[jobs[w]] == orig[jobs[w]]
         && st.phase[w] == Idle && jobs[w] !in st.markers
  }

  // ---------------------------------------------------------------- faithful writes

  /** `now` is the original or its slimmed form. */
  predicate Settled(orig: seq<byte>, now: seq<byte>) {
    now == orig || SlimFile(orig) == Done(now)
  }

  /** The crash window is closed: slimming either form gives the same bytes. */
  lemma RerunSettles(orig: seq<byte>, now: seq<byte>)
    requires Settled(orig, now) && SlimFile(now).Done?
    ensures SlimFile(orig) == SlimFile(now) && CountFile(now) == CountFile(orig)
  {
    hide SlimFile, CountFile;
    if now != orig {
      SlimIdempotent(orig);
      ReadersAgree(orig);
    }
  }

  /** What holds of a worker, its source and its temp file, if that has not been cleaned up. */
  predicate SourceSafe(src: string, orig: seq<byte>, st: State, w: nat)
    requires src in st.files && w in st.phase
  {
    var written := TmpName(src) in st.files ==> SlimFile(orig) == Done(st.files[TmpName(src)]);
    && Settled(orig, st.files[src])
    && (src in st.markers ==> SlimFile(orig) == Done(st.files[src]))
    && match st.phase[w]
       case Idle => true
       case Writing => true
       case Verifying(n) => written && CountFile(orig) == Done(n)
       case Renaming => written
       case Marking => SlimFile(orig) == Done(st.files[src])
  }

  /** The worker or the file a step touches. */
  predicate Touches(jobs: Jobs, step: Step, w: nat)
    requires w in jobs
  {
    match step
    case By(v, _) => v == w
    case Crash => true
    case Cleanup(tmp) => tmp == TmpName(jobs[w])
  }

  /** What an act leaves alone: other workers, and every name but its source and its temp file. */
  lemma ActFrame(src: string, faithful: bool, st: State, st': State, w: nat, act: Act)
    requires src in st.files && w in st.phase && Acts(src, faithful, st, st', w, act) && TmpName(src) != src
    ensures src in st'.files && st'.phase.Keys == st.phase.Keys
    ensures forall v | v in st.phase && v != w :: st'.phase[v] == st.phase[v]
    ensures forall name | name != src :: name in st'.markers <==> name in st.markers
    ensures forall name | name in st.files && name != src && name != TmpName(src) ::
              name in st'.files && st'.files[name] == st.files[name]
    ensures forall name | name !in st.files && name != TmpName(src) :: name !in st'.files
  {
    hide SlimFile, CountFile, TmpName;
  }

  lemma StepKeepsTyped(jobs: Jobs, faithful: bool, st: State, st': State, step: Step)
    requires TmpsApart(jobs) && Typed(jobs, st) && Next(jobs, faithful, st, st', step)
    ensures Typed(jobs, st')
  {
    hide TmpName, Acts;
    if step.By? {
      ActFrame(jobs[step.w], faithful, st, st', step.w, step.act);
    }
  }

  /** Ownership: no step of another worker reaches a source, its temp file, its marker or its worker. */
  lemma OthersUntouched(jobs: Jobs, faithful: bool, st: State, st': State, step: Step, w: nat)
    requires TmpsApart(jobs) && Typed(jobs, st) && Next(jobs, faithful, st, st', step)
    requires w in jobs && OwnsTmp(jobs, w) && !Touches(jobs, step, w)
    ensures Typed(jobs, st')
    ensures
      var src, tmp := jobs[w], TmpName(jobs[w]);
      && st'.files[src] == st.files[src] && (src in st'.markers <==> src in st.markers) && st'.phase[w] == st.phase[w]
      && (tmp in st'.files <==> tmp in st.files)
      && (tmp in st.files ==> st'.files[tmp] == st.files[tmp])
  {
    hide TmpName, Acts;
    StepKeepsTyped(jobs, faithful, st, st', step);
    if step.By? {
      ActFrame(jobs[step.w], faithful, st, st', step.w, step.act);
      SameSourceSameTmp(jobs, step.w, w);
    }
  }

  lemma SameSourceSameTmp(jobs: Jobs, v: nat, w: nat)
    requires v in jobs && w in jobs && OwnsTmp(jobs, w) && v != w
    ensures jobs[v] != jobs[w] && TmpName(jobs[v]) != TmpName(jobs[w])
  {
    hide TmpName;
  }

  lemma ActKeepsSource(src: string, orig: seq<byte>, st: State, st': State, w: nat, act: Act)
    requires src in st.files && w in st.phase && Acts(src, true, st, st', w, act) && TmpName(src) != src
    requires SourceSafe(src, orig, st, w)
    ensures src in st'.files && w in st'.phase && SourceSafe(src, orig, st', w)
  {
    hide SlimFile, CountFile, TmpName;
    if act.Finish? {
      RerunSettles(orig, st.files[src]);
    }
  }

  /** A step keeps one source safe, whatever temp files the other workers share. */
  lemma StepKeepsSource(jobs: Jobs, orig: seq<byte>, st: State, st': State, step: Step, w: nat)
    requires TmpsApart(jobs) && Typed(jobs, st) && Next(jobs, true, st, st', step)
    requires w in jobs && OwnsTmp(jobs, w) && SourceSafe(jobs[w], orig, st, w)
    ensures Typed(jobs, st') && SourceSafe(jobs[w], orig, st', w)
  {
    hide SlimFile, CountFile, TmpName, Acts;
    StepKeepsTyped(jobs, true, st, st', step);
    if !Touches(jobs, step, w) {
      OthersUntouched(jobs, true, st, st', step, w);
    } else if step.By? {
      ActKeepsSource(jobs[w], orig, st, st', w, step.act);
    }
  }

  /** A run: states joined by steps, crashes and restarts included. */
  ghost predicate IsRun(jobs: Jobs, faithful: bool, run: seq<State>) {
    && 0 < |run|
    && (forall i :: 0 <= i < |run| ==> Typed(jobs, run[i]))
    && forall i :: 0 <= i < |run| - 1 ==> CanStep(jobs, faithful, run[i], run[i + 1])
  }

  ghost predicate CanStep(jobs: Jobs, faithful: bool, st: State, st': State)
    requires Typed(jobs, st)
  {
    exists step :: Next(jobs, faithful, st, st', step)
  }

  lemma Stepped(jobs: Jobs, faithful: bool, st: State, st': State, w: nat, act: Act)
    requires TmpsApart(jobs) && Typed(jobs, st) && w in jobs && Acts(jobs[w], faithful, st, st', w, act)
    ensures Typed(jobs, st') && CanStep(jobs, faithful, st, st')
  {
    hide TmpName, Acts;
    assert Next(jobs, faithful, st, st', By(w, act));
    StepKeepsTyped(jobs, faithful, st, st', By(w, act));
  }

  lemma RunExtends(jobs: Jobs, faithful: bool, run: seq<State>, st: State)
    requires IsRun(jobs, faithful, run) && Typed(jobs, st) && CanStep(jobs, faithful, run[|run| - 1], st)
    ensures IsRun(jobs, faithful, run + [st])
  {
    hide Typed, CanStep;
    var longer := run + [st];
    forall i | 0 <= i < |longer| - 1
      ensures CanStep(jobs, faithful, longer[i], longer[i + 1])
    {
      if i < |run| - 1 {
        assert CanStep(jobs, faithful, run[i], run[i + 1]);
      }
    }
  }

  lemma {:induction false} RunSafe(jobs: Jobs, orig: map<string, seq<byte>>, run: seq<State>, i: nat, w: nat)
    requires TmpsApart(jobs) && IsRun(jobs, true, run) && Init(jobs, orig, run[0]) && i < |run|
    requires w in jobs && OwnsTmp(jobs, w)
    ensures SourceSafe(jobs[w], orig[jobs[w]], run[i], w)
    decreases i
  {
    hide SlimFile, CountFile, TmpName, Next;
    if i > 0 {
      RunSafe(jobs, orig, run, i - 1, w);
      assert CanStep(jobs, true, run[i - 1], run[i - 1 + 1]);
      var step :| Next(jobs, true, run[i - 1], run[i], step);
      StepKeepsSource(jobs, orig[jobs[w]], run[i - 1], run[i], step, w);
    }
  }

  /**
   Crash safety: at every point of every run a source whose temp file belongs to one worker holds its original
   or its slimmed bytes, a marker implies the slimmed bytes, and a capture that cannot be slimmed is
   neither changed nor marked. `SafeExactly` says that owning the temp file cannot be dropped.
   */
  lemma CrashSafety(jobs: Jobs, orig: map<string, seq<byte>>, run: seq<State>, i: nat, w: nat)
    requires TmpsApart(jobs) && IsRun(jobs, true, run) && Init(jobs, orig, run[0]) && i < |run|
    requires w in jobs && OwnsTmp(jobs, w)
    ensures
      var src, before, now := jobs[w], orig[jobs[w]], run[i].files[jobs[w]];
      && Settled(before, now)
      && (src in run[i].markers ==> SlimFile(before) == Done(now))
      && (!SlimFile(before).Done? ==> now == before && src !in run[i].markers)
      && (SlimFile(before).Done? ==> SlimFile(now) == SlimFile(before))
  {
    hide SlimFile, CountFile, TmpName;
    RunSafe(jobs, orig, run, i, w);
    if SlimFile(orig[jobs[w]]).Done? {
      SlimIdempotent(orig[jobs[w]]);
    }
  }

  /** A marked source has an idle worker, which never starts again: marker and bytes stay as they are. */
  lemma ActOnMarked(src: string, faithful: bool, st: State, st': State, w: nat, act: Act)
    requires src in st.files && w in st.phase && Acts(src, faithful, st, st', w, act) && TmpName(src) != src
    requires src in st.markers ==> st.phase[w] == Idle
    ensures src in st'.files && w in st'.phase && (src in st'.markers ==> st'.phase[w] == Idle)
    ensures src in st.markers ==> src in st'.markers && st'.files[src] == st.files[src]
  {
    hide SlimFile, CountFile, TmpName;
  }

  lemma StepOnMarked(jobs: Jobs, faithful: bool, st: State, st': State, step: Step, w: nat)
    requires TmpsApart(jobs) && Typed(jobs, st) && Next(jobs, faithful, st, st', step)
    requires w in jobs && OwnsTmp(jobs, w) && (jobs[w] in st.markers ==> st.phase[w] == Idle)
    ensures Typed(jobs, st') && (jobs[w] in st'.markers ==> st'.phase[w] == Idle)
    ensures jobs[w] in st.markers ==> jobs[w] in st'.markers && st'.files[jobs[w]] == st.files[jobs[w]]
  {
    hide TmpName, Acts;
    StepKeepsTyped(jobs, faithful, st, st', step);
    if !Touches(jobs, step, w) {
      OthersUntouched(jobs, faithful, st, st', step, w);
    } else if step.By? {
      ActOnMarked(jobs[w], faithful, st, st', w, step.act);
    }
  }

  lemma {:induction false} MarkedIdle(jobs: Jobs, faithful: bool, orig: map<string, seq<byte>>, run: seq<State>,
                                      i: nat, w: nat)
    requires TmpsApart(jobs) && IsRun(jobs, faithful, run) && Init(jobs, orig, run[0]) && i < |run|
    requires w in jobs && OwnsTmp(jobs, w)
    ensures jobs[w] in run[i].markers ==> run[i].phase[w] == Idle
    decreases i
  {
    hide TmpName, Next, OwnsTmp, TmpsApart;
    if i > 0 {
      MarkedIdle(jobs, faithful, orig, run, i - 1, w);
      assert CanStep(jobs, faithful, run[i - 1], run[i - 1 + 1]);
      var step :| Next(jobs, faithful, run[i - 1], run[i], step);
      StepOnMarked(jobs, faithful, run[i - 1], run[i], step, w);
    }
  }

  /** Once marked, a source is skipped: in every run its marker and its bytes stay, even with corrupted temp files. */
  lemma {:induction false} MarkedStays(jobs: Jobs, faithful: bool, orig: map<string, seq<byte>>, run: seq<State>,
                                       i: nat, j: nat, w: nat)
    requires TmpsApart(jobs) && IsRun(jobs, faithful, run) && Init(jobs, orig, run[0]) && i <= j < |run|
    requires w in jobs && OwnsTmp(jobs, w) && jobs[w] in run[i].markers
    ensures jobs[w] in run[j].markers && run[j].files[jobs[w]] == run[i].files[jobs[w]]
    decreases j
  {
    hide TmpName, Next, Init, OwnsTmp, TmpsApart, Typed;
    if i < j {
      MarkedStays(jobs, faithful, orig, run, i, j - 1, w);
      MarkedIdle(jobs, faithful, orig, run, j - 1, w);
      assert CanStep(jobs, faithful, run[j - 1], run[j - 1 + 1]);
      var step :| Next(jobs, faithful, run[j - 1], run[j], step);
      StepOnMarked(jobs, faithful, run[j - 1], run[j], step, w);
    }
  }

  /** Counting never turns down a temp file that was written faithfully and is still there. */
  lemma VerifyNeverRefuses(jobs: Jobs, orig: seq<byte>, st: State, w: nat)
    requires Typed(jobs, st) && w in jobs && SourceSafe(jobs[w], orig, st, w) && st.phase[w].Verifying?
    ensures Next(jobs, true, st, st.To(w, Renaming), By(w, Verify)) <==> TmpName(jobs[w]) in st.files
  {
    hide SlimFile, CountFile, TmpName;
    ReadersAgree(orig);
  }

  /** Start and Finish, undisturbed. */
  lemma WritePass(jobs: Jobs, st: State, w: nat) returns (s1: State, s2: State)
    requires TmpsApart(jobs) && Typed(jobs, st) && w in jobs && st.phase[w] == Idle && jobs[w] !in st.markers
    requires SlimFile(st.files[jobs[w]]).Done? && CountFile(st.files[jobs[w]]).Done?
    ensures Typed(jobs, s1) && Typed(jobs, s2) && CanStep(jobs, true, st, s1) && CanStep(jobs, true, s1, s2)
    ensures s2.phase[w] == Verifying(CountFile(st.files[jobs[w]]).value) && TmpName(jobs[w]) in s2.files
    ensures s2.files[TmpName(jobs[w])] == SlimFile(st.files[jobs[w]]).value
  {
    hide SlimFile, CountFile, TmpName, CanStep;
    var src, tmp := jobs[w], TmpName(jobs[w]);
    s1 := st.To(w, Writing).Put(tmp, []);
    s2 := s1.To(w, Verifying(CountFile(st.files[src]).value)).Put(tmp, SlimFile(st.files[src]).value);
    Stepped(jobs, true, st, s1, w, Start);
    Stepped(jobs, true, s1, s2, w, Finish);
  }

  /** Verify and Rename, undisturbed. */
  lemma ReplacePass(jobs: Jobs, st: State, w: nat) returns (s1: State, s2: State)
    requires TmpsApart(jobs) && Typed(jobs, st) && w in jobs && st.phase[w].Verifying? && TmpName(jobs[w]) in st.files
    requires CountFile(st.files[TmpName(jobs[w])]) == Done(st.phase[w].expected)
    ensures Typed(jobs, s1) && Typed(jobs, s2) && CanStep(jobs, true, st, s1) && CanStep(jobs, true, s1, s2)
    ensures s2.files[jobs[w]] == st.files[TmpName(jobs[w])] && TmpName(jobs[w]) !in s2.files && s2.phase[w] == Marking
  {
    hide SlimFile, CountFile, TmpName;
    s1 := st.To(w, Renaming);
    s2 := s1.To(w, Marking).Put(jobs[w], st.files[TmpName(jobs[w])]).Remove(TmpName(jobs[w]));
    Stepped(jobs, true, st, s1, w, Verify);
    Stepped(jobs, true, s1, s2, w, Rename);
  }

  lemma MarkPass(jobs: Jobs, st: State, w: nat) returns (s1: State)
    requires TmpsApart(jobs) && Typed(jobs, st) && w in jobs && st.phase[w] == Marking
    ensures Typed(jobs, s1) && CanStep(jobs, true, st, s1)
    ensures s1.files == st.files && jobs[w] in s1.markers
  {
    hide SlimFile, CountFile, TmpName;
    s1 := st.To(w, Idle).(markers := st.markers + {jobs[w]});
    Stepped(jobs, true, st, s1, w, Mark);
  }

  /** What a pass over a safe source starts from. */
  lemma SafeReads(src: string, orig: seq<byte>, st: State, w: nat)
    requires src in st.files && w in st.phase && SourceSafe(src, orig, st, w) && SlimFile(orig).Done?
    ensures SlimFile(st.files[src]) == SlimFile(orig)
    ensures CountFile(st.files[src]).Done? && CountFile(SlimFile(orig).value) == CountFile(st.files[src])
  {
    hide SlimFile, CountFile;
    if st.files[src] != orig {
      SlimIdempotent(orig);
    }
    ReadersAgree(st.files[src]);
  }

  /** Wherever a source is safe and its worker idle, one undisturbed pass ends with the slimmed bytes and a marker. */
  lemma RecoveryCompletes(jobs: Jobs, orig: seq<byte>, st: State, w: nat) returns (run: seq<State>)
    requires TmpsApart(jobs) && Typed(jobs, st) && w in jobs
    requires SourceSafe(jobs[w], orig, st, w) && st.phase[w] == Idle && jobs[w] !in st.markers && SlimFile(orig).Done?
    ensures |run| == 6 && run[0] == st && IsRun(jobs, true, run)
    ensures jobs[w] in run[5].files && SlimFile(orig) == Done(run[5].files[jobs[w]])
    ensures jobs[w] in run[5].markers && TmpName(jobs[w]) !in run[5].files
  {
    hide SlimFile, CountFile, TmpName, TmpsApart, CanStep, SourceSafe, IsRun;
    SafeReads(jobs[w], orig, st, w);
    var s1, s2 := WritePass(jobs, st, w);
    var s3, s4 := ReplacePass(jobs, s2, w);
    var s5 := MarkPass(jobs, s4, w);
    run := [st, s1, s2, s3, s4, s5];
    hide Typed;
    IsRunOf(jobs, run);
  }

  lemma IsRunOf(jobs: Jobs, run: seq<State>)
    requires 0 < |run| && forall i :: 0 <= i < |run| ==> Typed(jobs, run[i])
    requires forall i :: 0 <= i < |run| - 1 ==> CanStep(jobs, true, run[i], run[i + 1])
    ensures IsRun(jobs, true, run)
  {
  }

  // ---------------------------------------------------------------- corrupted writes

  /** What the packet count alone still guarantees for one source. */
  predicate SourceCounted(src: string, count: Outcome<nat>, st: State, w: nat)
    requires src in st.files && w in st.phase
  {
    var tmp := TmpName(src);
    && CountFile(st.files[src]) == count
    && (src in st.markers ==> count.Done?)
    && match st.phase[w]
       case Idle => true
       case Writing => true
       case Verifying(n) => count == Done(n)
       case Renaming => count.Done? && (tmp in st.files ==> CountFile(st.files[tmp]) == count)
       case Marking => count.Done?
  }

  lemma ActKeepsCount(src: string, count: Outcome<nat>, st: State, st': State, w: nat, act: Act)
    requires src in st.files && w in st.phase && Acts(src, false, st, st', w, act) && TmpName(src) != src
    requires SourceCounted(src, count, st, w)
    ensures src in st'.files && w in st'.phase && SourceCounted(src, count, st', w)
  {
    hide SlimFile, CountFile, TmpName;
  }

  lemma StepKeepsCount(jobs: Jobs, count: Outcome<nat>, st: State, st': State, step: Step, w: nat)
    requires TmpsApart(jobs) && Typed(jobs, st) && Next(jobs, false, st, st', step)
    requires w in jobs && OwnsTmp(jobs, w) && SourceCounted(jobs[w], count, st, w)
    ensures Typed(jobs, st') && SourceCounted(jobs[w], count, st', w)
  {
    hide CountFile, TmpName, Acts;
    StepKeepsTyped(jobs, false, st, st', step);
    if !Touches(jobs, step, w) {
      OthersUntouched(jobs, false, st, st', step, w);
    } else if step.By? {
      ActKeepsCount(jobs[w], count, st, st', w, step.act);
    }
  }

  /**
   Even when a temp file is replaced by arbitrary bytes before it is counted, every source stays
   readable with exactly its original number of packets, and an unreadable one is never marked.
   */
  lemma {:induction false} PacketCountKept(jobs: Jobs, orig: map<string, seq<byte>>, run: seq<State>, i: nat, w: nat)
    requires TmpsApart(jobs) && IsRun(jobs, false, run) && Init(jobs, orig, run[0]) && i < |run|
    requires w in jobs && OwnsTmp(jobs, w)
    ensures SourceCounted(jobs[w], CountFile(orig[jobs[w]]), run[i], w)
    decreases i
  {
    hide SlimFile, CountFile, TmpName, Next;
    if i > 0 {
      PacketCountKept(jobs, orig, run, i - 1, w);
      assert CanStep(jobs, false, run[i - 1], run[i - 1 + 1]);
      var step :| Next(jobs, false, run[i - 1], run[i], step);
      StepKeepsCount(jobs, CountFile(orig[jobs[w]]), run[i - 1], run[i], step, w);
    }
  }

  // ---------------------------------------------------------------- which temp files listed sources own

  /** Two listed sources that share a temp file. */
  predicate Collide(a: string, b: string) {
    (a == ".pcap" && b == ".pcap.pcap") || (a == ".pcap.pcap" && b == ".pcap")
  }

  /** No temp file is listed, and a worker owns its temp file unless another has its source or the colliding one. */
  lemma ListedTmps(jobs: Jobs)
    requires forall w :: w in jobs ==> Listed(jobs[w])
    ensures TmpsApart(jobs)
    ensures forall w | w in jobs ::
              OwnsTmp(jobs, w) <==> forall v :: v in jobs && v != w ==> jobs[v] != jobs[w] && !Collide(jobs[v], jobs[w])
  {
    hide TmpName, Listed, Collide;
    forall w, v | w in jobs && v in jobs
      ensures TmpName(jobs[w]) != jobs[v]
      ensures TmpName(jobs[w]) == TmpName(jobs[v]) <==> jobs[w] == jobs[v] || Collide(jobs[w], jobs[v])
    {
      TmpNameApart(jobs[w]);
      if jobs[w] != jobs[v] {
        ListedCollide(jobs[w], jobs[v]);
      }
    }
  }

  lemma ListedCollide(a: string, b: string)
    requires Listed(a) && Listed(b) && a != b
    ensures TmpName(a) == TmpName(b) <==> Collide(a, b)
  {
    hide TmpName, Listed;
    TmpNamesCollideExactly(a, b);
  }

  datatype DirEntry = DirEntry(name: string, isFile: bool, mtime: int, marked: bool)

  predicate Selected(entry: DirEntry, cutoff: Option<int>) {
    && entry.isFile
    && Listed(entry.name)
    && (cutoff.Some? ==> entry.mtime <= cutoff.value)
    && !entry.marked
  }

  /** The selected entries in directory order. */
  function Pending(entries: seq<DirEntry>, cutoff: Option<int>): seq<DirEntry> {
    if entries == [] then []
    else
      var k := |entries| - 1;
      Pending(entries[..k], cutoff) + if Selected(entries[k], cutoff) then [entries[k]] else []
  }

  /** A capture to be slimmed: a file named .pcap, not marked, and last changed no later than a given cutoff. */
  lemma SelectedExactly(entry: DirEntry, cutoff: Option<int>)
    ensures Selected(entry, cutoff) <==>
              && entry.isFile && !entry.marked
              && 5 <= |entry.name| && entry.name[|entry.name| - 5..] == ".pcap"
              && (cutoff == None || entry.mtime <= cutoff.value)
  {
    ListedExactly(entry.name);
    hide Listed;
  }

  lemma {:induction false} PendingIsSelected(entries: seq<DirEntry>, cutoff: Option<int>, entry: DirEntry)
    ensures entry in Pending(entries, cutoff) <==> entry in entries && Selected(entry, cutoff)
    decreases |entries|
  {
    hide Selected;
    if entries != [] {
      var k := |entries| - 1;
      PendingIsSelected(entries[..k], cutoff, entry);
      assert entries == entries[..k] + [entries[k]];
    }
  }

  /** An earlier cutoff lists a part of what a later one lists; without any, every unmarked capture is listed. */
  lemma CutoffMonotone(entries: seq<DirEntry>, earlier: int, later: int, entry: DirEntry)
    requires earlier <= later
    ensures entry in Pending(entries, Some(earlier)) ==> entry in Pending(entries, Some(later))
    ensures entry in Pending(entries, Some(later)) ==> entry in Pending(entries, None)
    ensures entry in Pending(entries, None) <==>
              entry in entries && entry.isFile && !entry.marked
              && 5 <= |entry.name| && entry.name[|entry.name| - 5..] == ".pcap"
    ensures entry in Pending(entries, None) && entry.mtime <= later ==> entry in Pending(entries, Some(later))
  {
    hide Pending, Selected;
    PendingIsSelected(entries, Some(earlier), entry);
    PendingIsSelected(entries, Some(later), entry);
    PendingIsSelected(entries, None, entry);
    SelectedExactly(entry, Some(earlier));
    SelectedExactly(entry, Some(later));
    SelectedExactly(entry, None);
  }

  predicate OldestFirst(files: seq<DirEntry>) {
    forall i, j :: 0 <= i < j < |files| ==> files[i].mtime <= files[j].mtime
  }

  /** The entries with modification time `mtime`, in order. */
  function Aged(files: seq<DirEntry>, mtime: int): seq<DirEntry> {
    if files == [] then [] else (if files[0].mtime == mtime then [files[0]] else []) + Aged(files[1..], mtime)
  }

  /** Puts `entry` behind everything that is not younger. */
  function InsertByAge(files: seq<DirEntry>, entry: DirEntry): (r: seq<DirEntry>)
    requires OldestFirst(files)
    ensures OldestFirst(r)
    ensures forall e :: e in r <==> e in files || e == entry
  {
    if files == [] || entry.mtime < files[0].mtime then [entry] + files
    else
      var rest := InsertByAge(files[1..], entry);
      assert forall e :: e in files <==> e == files[0] || e in files[1..];
      assert forall e :: e in rest ==> files[0].mtime <= e.mtime;
      [files[0]] + rest
  }

  lemma {:induction false} NoneAged(files: seq<DirEntry>, mtime: int)
    requires forall e :: e in files ==> e.mtime != mtime
    ensures Aged(files, mtime) == []
  {
    if files != [] {
      NoneAged(files[1..], mtime);
    }
  }

  lemma {:induction false} InsertKeepsOrder(files: seq<DirEntry>, entry: DirEntry, mtime: int)
    requires OldestFirst(files)
    ensures Aged(InsertByAge(files, entry), mtime) == Aged(files, mtime) + if entry.mtime == mtime then [entry] else []
  {
    if files == [] || entry.mtime < files[0].mtime {
      assert ([entry] + files)[1..] == files;
      if entry.mtime == mtime {
        NoneAged(files, mtime);
      }
    } else {
      InsertKeepsOrder(files[1..], entry, mtime);
      var r := InsertByAge(files, entry);
      assert r[1..] == InsertByAge(files[1..], entry);
    }
  }

  lemma {:induction false} AgedAppend(files: seq<DirEntry>, entry: DirEntry, mtime: int)
    ensures Aged(files + [entry], mtime) == Aged(files, mtime) + if entry.mtime == mtime then [entry] else []
  {
    if files == [] {
      assert [entry][1..] == [] && files + [entry] == [entry];
    } else {
      AgedAppend(files[1..], entry, mtime);
      assert (files + [entry])[1..] == files[1..] + [entry];
    }
  }

  /** Stable: sorted by modification time, and among equal times the given order stands. */
  method SortByAge(pending: seq<DirEntry>) returns (files: seq<DirEntry>)
    ensures OldestFirst(files)
    ensures forall mtime :: Aged(files, mtime) == Aged(pending, mtime)
    ensures forall entry :: entry in files <==> entry in pending
  {
    files := [];
    for k := 0 to |pending|
      invariant OldestFirst(files)
      invariant forall mtime :: Aged(files, mtime) == Aged(pending[..k], mtime)
      invariant forall entry :: entry in files <==> entry in pending[..k]
    {
      assert pending[..k + 1] == pending[..k] + [pending[k]];
      forall mtime: int
        ensures Aged(InsertByAge(files, pending[k]), mtime) == Aged(pending[..k + 1], mtime)
      {
        InsertKeepsOrder(files, pending[k], mtime);
        AgedAppend(pending[..k], pending[k], mtime);
      }
      files := InsertByAge(files, pending[k]);
    }
    assert pending[..|pending|] == pending;
  }

  /** Exactly the unmarked captures that are old enough, oldest first; equal times stay in directory order. */
  method ListPendingPcaps(entries: seq<DirEntry>, cutoff: Option<int>) returns (files: seq<DirEntry>)
    ensures forall entry :: entry in files <==>
              && entry in entries
              && entry.isFile && !entry.marked
              && 5 <= |entry.name| && entry.name[|entry.name| - 5..] == ".pcap"
              && (cutoff == None || entry.mtime <= cutoff.value)
    ensures forall i, j :: 0 <= i < j < |files| ==> files[i].mtime <= files[j].mtime
    ensures forall mtime :: Aged(files, mtime) == Aged(Pending(entries, cutoff), mtime)
  {
    hide Listed;
    files := [];
    for k := 0 to |entries|
      invariant files == Pending(entries[..k], cutoff)
      invariant forall entry :: entry in files <==> entry in entries[..k] && Selected(entry, cutoff)
    {
      var entry := entries[k];
      assert entries[..k + 1] == entries[..k] + [entry];
      assert entries[..k + 1][..k] == entries[..k];
      if !entry.isFile || !Listed(entry.name) {
        continue;
      }
      if cutoff.Some? && entry.mtime > cutoff.value {
        continue;
      }
      if entry.marked {
        continue;
      }
      files := files + [entry];
    }
    assert entries[..|entries|] == entries;
    files := SortByAge(files);
    forall entry: DirEntry
      ensures Selected(entry, cutoff) <==>
                && entry.isFile && !entry.marked
                && 5 <= |entry.name| && entry.name[|entry.name| - 5..] == ".pcap"
                && (cutoff == None || entry.mtime <= cutoff.value)
    {
      SelectedExactly(entry, cutoff);
    }
  }
}
