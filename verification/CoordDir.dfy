/** Several passes in one directory: the runs of single workers, joined into one run of all of them. */
module CoordDir {
  import opened Bytes
  import opened PcapIo
  import opened TmpNames
  import opened Coord
  import opened CoordFs

  function AllIdle(jobs: Jobs): map<nat, Phase> {
    map v | v in jobs :: Idle
  }

  /** The state of a single worker's run as a state of all workers: it is worker `w`, the others are idle. */
  function Lifted(jobs: Jobs, w: nat, st: State): State
    requires 0 in st.phase
  {
    State(st.files, st.markers, AllIdle(jobs)[w := st.phase[0]])
  }

  lemma LiftedMoves(jobs: Jobs, w: nat, st: State, ph: Phase)
    requires st.phase.Keys == {0} && w in jobs
    ensures Lifted(jobs, w, st.To(0, ph)) == Lifted(jobs, w, st).To(w, ph)
    ensures Lifted(jobs, w, st.(phase := map[0 := Idle])) == Lifted(jobs, w, st).(phase := AllIdle(jobs))
    ensures Lifted(jobs, w, st).phase.Keys == jobs.Keys
  {
    assert AllIdle(jobs)[w := st.phase[0]][w := ph] == AllIdle(jobs)[w := ph];
    assert AllIdle(jobs)[w := Idle] == AllIdle(jobs);
  }

  lemma LiftAct(jobs: Jobs, w: nat, src: string, faithful: bool, st: State, st': State, act: Act)
    requires w in jobs && st.phase.Keys == {0} && src in st.files && Acts(src, faithful, st, st', 0, act)
    ensures st'.phase.Keys == {0}
    ensures Acts(src, faithful, Lifted(jobs, w, st), Lifted(jobs, w, st'), w, act)
  {
    hide SlimFile, CountFile, TmpName, AllIdle;
    var ph := if 0 in st'.phase then st'.phase[0] else Idle;
    LiftedMoves(jobs, w, st, ph);
  }

  lemma ListedIsNoTmp(name: string)
    requires Listed(name)
    ensures !EndsWith(name, TMP_SUFFIX)
  {
  }

  lemma LiftCrash(jobs: Jobs, w: nat, faithful: bool, st: State, st': State)
    requires w in jobs && Typed(One(jobs[w]), st) && Typed(jobs, Lifted(jobs, w, st))
    requires Next(One(jobs[w]), faithful, st, st', Crash)
    ensures st'.phase.Keys == {0}
    ensures Typed(jobs, Lifted(jobs, w, st')) && CanStep(jobs, faithful, Lifted(jobs, w, st), Lifted(jobs, w, st'))
  {
    hide Acts;
    assert (map v | v in One(jobs[w]) :: Idle) == map[0 := Idle];
    LiftedMoves(jobs, w, st, Idle);
    assert Next(jobs, faithful, Lifted(jobs, w, st), Lifted(jobs, w, st'), Crash);
  }

  lemma LiftStep(jobs: Jobs, w: nat, faithful: bool, st: State, st': State)
    requires TmpsApart(jobs) && w in jobs && forall v :: v in jobs ==> Listed(jobs[v])
    requires Typed(One(jobs[w]), st) && Typed(jobs, Lifted(jobs, w, st)) && CanStep(One(jobs[w]), faithful, st, st')
    ensures st'.phase.Keys == {0}
    ensures Typed(jobs, Lifted(jobs, w, st')) && CanStep(jobs, faithful, Lifted(jobs, w, st), Lifted(jobs, w, st'))
  {
    hide TmpName, Acts, Listed, EndsWith;
    var one := One(jobs[w]);
    var step :| Next(one, faithful, st, st', step);
    match step {
      case By(_, act) =>
        LiftAct(jobs, w, jobs[w], faithful, st, st', act);
        Stepped(jobs, faithful, Lifted(jobs, w, st), Lifted(jobs, w, st'), w, act);
      case Crash =>
        LiftCrash(jobs, w, faithful, st, st');
      case Cleanup(tmp) =>
        forall v | v in jobs
          ensures jobs[v] != tmp
        {
          ListedIsNoTmp(jobs[v]);
        }
        assert Next(jobs, faithful, Lifted(jobs, w, st), Lifted(jobs, w, st'), Cleanup(tmp));
    }
  }

  /** A run of one worker is a run of all while the others are idle. */
  lemma {:induction false} LiftRun(jobs: Jobs, w: nat, faithful: bool, run: seq<State>) returns (lifted: seq<State>)
    requires TmpsApart(jobs) && w in jobs && forall v :: v in jobs ==> Listed(jobs[v])
    requires IsRun(One(jobs[w]), faithful, run) && Typed(jobs, Lifted(jobs, w, run[0]))
    ensures IsRun(jobs, faithful, lifted) && run[|run| - 1].phase.Keys == {0}
    ensures lifted[0] == Lifted(jobs, w, run[0]) && lifted[|lifted| - 1] == Lifted(jobs, w, run[|run| - 1])
    decreases |run|
  {
    hide TmpName, Next, Listed, Lifted;
    var k := |run| - 1;
    if k == 0 {
      lifted := [Lifted(jobs, w, run[0])];
    } else {
      RunPrefix(One(jobs[w]), faithful, run);
      var before := LiftRun(jobs, w, faithful, run[..k]);
      LiftStep(jobs, w, faithful, run[k - 1], run[k]);
      hide Typed, CanStep;
      RunExtends(jobs, faithful, before, Lifted(jobs, w, run[k]));
      lifted := before + [Lifted(jobs, w, run[k])];
    }
  }

  lemma RunPrefix(jobs: Jobs, faithful: bool, run: seq<State>)
    requires IsRun(jobs, faithful, run) && 1 < |run|
    ensures IsRun(jobs, faithful, run[..|run| - 1])
    ensures CanStep(jobs, faithful, run[|run| - 2], run[|run| - 1])
  {
    hide Typed, CanStep;
    var k := |run| - 1;
    forall i | 0 <= i < k - 1
      ensures CanStep(jobs, faithful, run[..k][i], run[..k][i + 1])
    {
      assert CanStep(jobs, faithful, run[i], run[i + 1]);
    }
    assert CanStep(jobs, faithful, run[k - 1], run[k - 1 + 1]);
  }

  lemma JoinRuns(jobs: Jobs, faithful: bool, a: seq<State>, b: seq<State>)
    requires IsRun(jobs, faithful, a) && IsRun(jobs, faithful, b) && a[|a| - 1] == b[0]
    ensures IsRun(jobs, faithful, a + b[1..]) && (a + b[1..])[0] == a[0]
    ensures (a + b[1..])[|a + b[1..]| - 1] == b[|b| - 1]
  {
    hide Typed, CanStep;
    var run := a + b[1..];
    forall i | 0 <= i < |run| - 1
      ensures CanStep(jobs, faithful, run[i], run[i + 1])
    {
      if i < |a| - 1 {
        assert CanStep(jobs, faithful, a[i], a[i + 1]);
      } else {
        assert CanStep(jobs, faithful, b[i - |a| + 1], b[i - |a| + 1 + 1]);
      }
    }
  }

  /** A faithful run is a run. */
  lemma WeakenRun(jobs: Jobs, faithful: bool, run: seq<State>)
    requires IsRun(jobs, true, run)
    ensures IsRun(jobs, faithful, run)
  {
    hide TmpName, SlimFile, CountFile;
    forall i | 0 <= i < |run| - 1
      ensures CanStep(jobs, faithful, run[i], run[i + 1])
    {
      assert CanStep(jobs, true, run[i], run[i + 1]);
      var step :| Next(jobs, true, run[i], run[i + 1], step);
      assert Next(jobs, faithful, run[i], run[i + 1], step);
    }
  }

  // ---------------------------------------------------------------- one worker thread over a directory

  /** One job for every listed name. */
  function JobsOf(names: seq<string>): Jobs {
    map k: nat | k < |names| :: names[k]
  }

  ghost predicate AllFaithful(faults: seq<Faults>) {
    forall k :: 0 <= k < |faults| ==> faults[k].corrupt.None?
  }

  /** What a directory shows between passes. */
  function Now(jobs: Jobs, files: map<string, seq<byte>>, markers: set<string>): State {
    State(files, markers, AllIdle(jobs))
  }

  lemma NowIsLifted(jobs: Jobs, w: nat, files: map<string, seq<byte>>, markers: set<string>)
    requires w in jobs
    ensures Lifted(jobs, w, Solo(files, markers, Idle)) == Now(jobs, files, markers)
  {
    assert AllIdle(jobs)[w := Idle] == AllIdle(jobs);
  }

  /** The pass of one worker extends the run of all. */
  lemma PassJoins(jobs: Jobs, w: nat, faithful: bool, run: seq<State>, pass: seq<State>,
                  files: map<string, seq<byte>>, markers: set<string>,
                  files': map<string, seq<byte>>, markers': set<string>)
    returns (longer: seq<State>)
    requires TmpsApart(jobs) && w in jobs && forall v :: v in jobs ==> Listed(jobs[v])
    requires IsRun(jobs, faithful, run) && run[|run| - 1] == Now(jobs, files, markers)
    requires RunTo(jobs[w], faithful, pass, Solo(files, markers, Idle), Solo(files', markers', Idle))
    ensures IsRun(jobs, faithful, longer) && longer[0] == run[0] && longer[|longer| - 1] == Now(jobs, files', markers')
  {
    hide TmpName, Next, CanStep, Listed;
    NowIsLifted(jobs, w, files, markers);
    NowIsLifted(jobs, w, files', markers');
    var lifted := LiftRun(jobs, w, faithful, pass);
    JoinRuns(jobs, faithful, run, lifted);
    longer := run + lifted[1..];
  }

  lemma PassFaithful(src: string, faithful: bool, run: seq<State>, first: State, last: State)
    requires RunTo(src, true, run, first, last)
    ensures RunTo(src, faithful, run, first, last)
  {
    WeakenRun(One(src), faithful, run);
  }

  /** What crash safety says of a finished directory run. */
  predicate Kept(jobs: Jobs, w: nat, files: map<string, seq<byte>>,
                 files': map<string, seq<byte>>, markers': set<string>)
    requires w in jobs
  {
    var src := jobs[w];
    && src in files && src in files'
    && Settled(files[src], files'[src])
    && (src in markers' ==> SlimFile(files[src]) == Done(files'[src]))
    && (!SlimFile(files[src]).Done? ==> files'[src] == files[src] && src !in markers')
  }

  /**
   Slims the listed files one after another, each under its own faults. The passes together are one run of the
   protocol, so crash safety holds of every source that owns its temp file.
   */
  method SlimAll(dir: Directory, names: seq<string>, faults: seq<Faults>, meter: Meter) returns (ghost run: seq<State>)
    requires |faults| == |names| && forall k :: 0 <= k < |names| ==> Listed(names[k]) && names[k] in dir.files
    modifies dir, meter
    ensures IsRun(JobsOf(names), AllFaithful(faults), run)
    ensures run[0] == Now(JobsOf(names), old(dir.files), old(dir.markers))
    ensures run[|run| - 1] == Now(JobsOf(names), dir.files, dir.markers)
    ensures AllFaithful(faults) && (forall k :: 0 <= k < |names| ==> names[k] !in old(dir.markers)) ==>
              forall w :: w in JobsOf(names) && OwnsTmp(JobsOf(names), w) ==>
                Kept(JobsOf(names), w, old(dir.files), dir.files, dir.markers)
  {
    hide TmpName, Next, CanStep, Listed, RunTo, PassEffect, SlimFile, CountFile, OwnsTmp, TmpsApart;
    ghost var jobs, faithful := JobsOf(names), AllFaithful(faults);
    ListedTmps(jobs);
    run := [Now(jobs, dir.files, dir.markers)];
    for k := 0 to |names|
      invariant IsRun(jobs, faithful, run) && run[0] == Now(jobs, old(dir.files), old(dir.markers))
      invariant run[|run| - 1] == Now(jobs, dir.files, dir.markers)
    {
      assert Typed(jobs, run[|run| - 1]) && jobs[k] == names[k];
      ghost var files, markers := dir.files, dir.markers;
      var r, pass := SlimFileInPlace(dir, names[k], faults[k], meter);
      if faults[k].corrupt.None? {
        PassFaithful(names[k], faithful, pass, Solo(files, markers, Idle), Solo(dir.files, dir.markers, Idle));
      }
      run := PassJoins(jobs, k, faithful, run, pass, files, markers, dir.files, dir.markers);
    }
    if faithful && forall k :: 0 <= k < |names| ==> names[k] !in old(dir.markers) {
      assert Init(jobs, old(dir.files), run[0]);
      forall w | w in jobs && OwnsTmp(jobs, w)
        ensures Kept(jobs, w, old(dir.files), dir.files, dir.markers)
      {
        CrashSafety(jobs, old(dir.files), run, |run| - 1, w);
      }
    }
  }
}
