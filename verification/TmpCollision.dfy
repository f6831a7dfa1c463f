/** What happens to two workers that share a temp file, and exactly when every run is safe. */
module TmpCollision {
  import opened Bytes
  import opened PcapFormat
  import opened PcapIo
  import opened TmpNames
  import opened Coord

  /** Two idle workers with one temp file between them. */
  predicate Sharing(jobs: Jobs, st: State, w: nat, v: nat) {
    && TmpsApart(jobs) && Typed(jobs, st)
    && w in jobs && v in jobs && w != v && TmpName(jobs[w]) == TmpName(jobs[v])
    && st.phase[w] == Idle && st.phase[v] == Idle && jobs[w] !in st.markers && jobs[v] !in st.markers
    && SlimFile(st.files[jobs[w]]).Done?
  }

  /** `w` has written the shared temp file and counted it. */
  function Written(jobs: Jobs, st: State, w: nat): State
    requires Typed(jobs, st) && w in jobs && SlimFile(st.files[jobs[w]]).Done? && CountFile(st.files[jobs[w]]).Done?
  {
    var src := jobs[w];
    st.To(w, Writing).Put(TmpName(src), [])
      .To(w, Verifying(CountFile(st.files[src]).value)).Put(TmpName(src), SlimFile(st.files[src]).value)
  }

  lemma WrittenFrame(jobs: Jobs, st: State, w: nat)
    requires TmpsApart(jobs) && Typed(jobs, st) && w in jobs && st.phase[w] == Idle && jobs[w] !in st.markers
    requires SlimFile(st.files[jobs[w]]).Done? && CountFile(st.files[jobs[w]]).Done?
    ensures
      var mid, st' := st.To(w, Writing).Put(TmpName(jobs[w]), []), Written(jobs, st, w);
      && Typed(jobs, mid) && Typed(jobs, st') && CanStep(jobs, true, st, mid) && CanStep(jobs, true, mid, st')
      && st'.markers == st.markers
      && (forall v | v in jobs :: st'.files[jobs[v]] == st.files[jobs[v]])
      && (forall v | v in jobs && v != w :: st'.phase[v] == st.phase[v])
      && TmpName(jobs[w]) in st'.files && st'.files[TmpName(jobs[w])] == SlimFile(st.files[jobs[w]]).value
      && st'.phase[w] == Verifying(CountFile(st.files[jobs[w]]).value)
  {
    hide SlimFile, CountFile, TmpName, CanStep;
    var mid := st.To(w, Writing).Put(TmpName(jobs[w]), []);
    Stepped(jobs, true, st, mid, w, Start);
    Stepped(jobs, true, mid, Written(jobs, st, w), w, Finish);
  }

  /**
   Both workers write the shared temp file before one of them counts and renames it: its source ends up
   with the slimmed bytes of the other, for any two captures with equally many packets.
   */
  lemma SharedTmpSwaps(jobs: Jobs, st: State, w: nat, v: nat) returns (run: seq<State>)
    requires Sharing(jobs, st, w, v)
    requires SlimFile(st.files[jobs[v]]).Done? && CountFile(st.files[jobs[w]]) == CountFile(st.files[jobs[v]])
    ensures |run| == 7 && run[0] == st && IsRun(jobs, true, run)
    ensures jobs[w] in run[6].files && run[6].files[jobs[w]] == SlimFile(st.files[jobs[v]]).value
  {
    hide SlimFile, CountFile, TmpName, TmpsApart, CanStep, IsRun, Written;
    ReadersAgree(st.files[jobs[w]]);
    ReadersAgree(st.files[jobs[v]]);
    WrittenFrame(jobs, st, w);
    var s1, s2 := st.To(w, Writing).Put(TmpName(jobs[w]), []), Written(jobs, st, w);
    WrittenFrame(jobs, s2, v);
    var s3, s4 := s2.To(v, Writing).Put(TmpName(jobs[v]), []), Written(jobs, s2, v);
    var s5, s6 := ReplacePass(jobs, s4, w);
    run := [st, s1, s2, s3, s4, s5, s6];
    hide Typed;
    IsRunOf(jobs, run);
  }

  /**
   One worker creates the shared temp file anew when the other has counted it and is about to rename it: the
   source becomes an empty file. Nothing but equal temp names is needed; the two may slim the same source.
   */
  lemma SharedTmpEmpties(jobs: Jobs, st: State, w: nat, v: nat) returns (run: seq<State>)
    requires Sharing(jobs, st, w, v)
    ensures |run| == 6 && run[0] == st && IsRun(jobs, true, run)
    ensures jobs[w] in run[5].files && run[5].files[jobs[w]] == []
  {
    hide SlimFile, CountFile, TmpName, TmpsApart, CanStep, IsRun, Written;
    ReadersAgree(st.files[jobs[w]]);
    WrittenFrame(jobs, st, w);
    var s1, s2 := st.To(w, Writing).Put(TmpName(jobs[w]), []), Written(jobs, st, w);
    var s3 := CountPass(jobs, s2, w);
    var s4 := CreatePass(jobs, s3, v);
    var s5 := RenamePass(jobs, s4, w);
    run := [st, s1, s2, s3, s4, s5];
    hide Typed;
    IsRunOf(jobs, run);
  }

  lemma CountPass(jobs: Jobs, st: State, w: nat) returns (st': State)
    requires TmpsApart(jobs) && Typed(jobs, st) && w in jobs && st.phase[w].Verifying? && TmpName(jobs[w]) in st.files
    requires CountFile(st.files[TmpName(jobs[w])]) == Done(st.phase[w].expected)
    ensures Typed(jobs, st') && CanStep(jobs, true, st, st') && st' == st.To(w, Renaming)
  {
    hide CountFile, TmpName, CanStep;
    st' := st.To(w, Renaming);
    Stepped(jobs, true, st, st', w, Verify);
  }

  lemma CreatePass(jobs: Jobs, st: State, w: nat) returns (st': State)
    requires TmpsApart(jobs) && Typed(jobs, st) && w in jobs && st.phase[w] == Idle && jobs[w] !in st.markers
    ensures Typed(jobs, st') && CanStep(jobs, true, st, st') && st' == st.To(w, Writing).Put(TmpName(jobs[w]), [])
  {
    hide TmpName, CanStep;
    st' := st.To(w, Writing).Put(TmpName(jobs[w]), []);
    Stepped(jobs, true, st, st', w, Start);
  }

  lemma RenamePass(jobs: Jobs, st: State, w: nat) returns (st': State)
    requires TmpsApart(jobs) && Typed(jobs, st) && w in jobs && st.phase[w] == Renaming && TmpName(jobs[w]) in st.files
    ensures Typed(jobs, st') && CanStep(jobs, true, st, st') && st'.files[jobs[w]] == st.files[TmpName(jobs[w])]
  {
    hide TmpName, CanStep;
    st' := st.To(w, Marking).Put(jobs[w], st.files[TmpName(jobs[w])]).Remove(TmpName(jobs[w]));
    Stepped(jobs, true, st, st', w, Rename);
  }

  // ---------------------------------------------------------------- captures that tell

  /** A little-endian capture without packets; `last` is the last byte of its global header. */
  function EmptyCapture(last: byte): (file: seq<byte>)
    ensures |file| == PCAP_HDR_LEN && file[23] == last
  {
    [0xd4, 0xc3, 0xb2, 0xa1] + Zeros(19) + [last]
  }

  lemma EmptyCaptureSlims(last: byte)
    ensures SlimFile(EmptyCapture(last)) == Done(EmptyCapture(last)) && CountFile(EmptyCapture(last)) == Done(0)
  {
    var file := EmptyCapture(last);
    assert file[..4] == [0xd4, 0xc3, 0xb2, 0xa1] && file[..PCAP_HDR_LEN] == file && file[PCAP_HDR_LEN..] == [];
    MagicExactly(file);
    assert file[..4] != PCAPNG_MAGIC by {
      assert file[..4][0] == 0xd4;
    }
    hide DetectEndian, EmptyCapture;
    HeaderOnly(file);
  }

  lemma HeaderOnly(file: seq<byte>)
    requires ReadGlobalHeader(file).Ok? && |file| == PCAP_HDR_LEN
    ensures SlimFile(file) == Done(file) && CountFile(file) == Done(0)
  {
    hide ReadGlobalHeader;
    var e := ReadGlobalHeader(file).value;
    assert file[PCAP_HDR_LEN..] == [] && file[..PCAP_HDR_LEN] == file;
    ScanStep(e, []);
    NothingYet(e);
    assert file + [] == file;
  }

  /** Directory contents before the first run: two different captures without packets. */
  function Differing(jobs: Jobs, w: nat): map<string, seq<byte>>
    requires w in jobs
  {
    map name | name in jobs.Values :: EmptyCapture(if name == jobs[w] then 0 else 1)
  }

  function Fresh(jobs: Jobs, orig: map<string, seq<byte>>): State {
    State(orig, {}, map w | w in jobs :: Idle)
  }

  lemma DifferingInit(jobs: Jobs, w: nat)
    requires w in jobs
    ensures Init(jobs, Differing(jobs, w), Fresh(jobs, Differing(jobs, w)))
    ensures Differing(jobs, w)[jobs[w]] == EmptyCapture(0)
    ensures forall v | v in jobs && jobs[v] != jobs[w] :: Differing(jobs, w)[jobs[v]] == EmptyCapture(1)
  {
    hide EmptyCapture;
  }

  /** With two sources on one temp file, a run puts the packets of the other capture into the first. */
  lemma SharedTmpUnsafe(jobs: Jobs, w: nat, v: nat) returns (orig: map<string, seq<byte>>, run: seq<State>)
    requires TmpsApart(jobs) && w in jobs && v in jobs && jobs[w] != jobs[v] && TmpName(jobs[w]) == TmpName(jobs[v])
    ensures |run| == 7 && IsRun(jobs, true, run) && Init(jobs, orig, run[0])
    ensures !Settled(orig[jobs[w]], run[6].files[jobs[w]])
  {
    hide SlimFile, CountFile, TmpName, TmpsApart, CanStep, EmptyCapture, Differing, IsRun;
    EmptyCaptureSlims(0);
    EmptyCaptureSlims(1);
    orig := Differing(jobs, w);
    DifferingInit(jobs, w);
    run := SharedTmpSwaps(jobs, Fresh(jobs, orig), w, v);
    assert EmptyCapture(0)[23] != EmptyCapture(1)[23];
  }

  /** Two workers on one temp file, of one source or of two: a run leaves a capture empty. */
  lemma SharedTmpLoses(jobs: Jobs, w: nat, v: nat) returns (orig: map<string, seq<byte>>, run: seq<State>)
    requires TmpsApart(jobs) && w in jobs && v in jobs && w != v && TmpName(jobs[w]) == TmpName(jobs[v])
    ensures |run| == 6 && IsRun(jobs, true, run) && Init(jobs, orig, run[0])
    ensures run[5].files[jobs[w]] == [] && !Settled(orig[jobs[w]], run[5].files[jobs[w]])
  {
    hide SlimFile, CountFile, TmpName, TmpsApart, CanStep, EmptyCapture, Differing, IsRun;
    EmptyCaptureSlims(0);
    orig := Differing(jobs, w);
    DifferingInit(jobs, w);
    run := SharedTmpEmpties(jobs, Fresh(jobs, orig), w, v);
  }

  // ---------------------------------------------------------------- exactly when every run is safe

  /** In every run, from any captures, the source of `w` holds its original or its slimmed bytes. */
  ghost predicate AlwaysSafe(jobs: Jobs, w: nat)
    requires w in jobs
  {
    forall orig: map<string, seq<byte>>, run: seq<State>, i: nat ::
      IsRun(jobs, true, run) && Init(jobs, orig, run[0]) && i < |run| ==> Settled(orig[jobs[w]], run[i].files[jobs[w]])
  }

  lemma SafeWhenOwned(jobs: Jobs, w: nat)
    requires TmpsApart(jobs) && w in jobs && OwnsTmp(jobs, w)
    ensures AlwaysSafe(jobs, w)
  {
    hide SlimFile, Settled, TmpsApart, OwnsTmp, TmpName, Next;
    forall orig: map<string, seq<byte>>, run: seq<State>, i: nat |
        IsRun(jobs, true, run) && Init(jobs, orig, run[0]) && i < |run|
      ensures Settled(orig[jobs[w]], run[i].files[jobs[w]])
    {
      CrashSafety(jobs, orig, run, i, w);
    }
  }

  /** A source is safe in every run exactly when no other worker uses its temp file. */
  lemma SafeExactly(jobs: Jobs, w: nat)
    requires TmpsApart(jobs) && w in jobs
    ensures AlwaysSafe(jobs, w) <==> OwnsTmp(jobs, w)
  {
    hide Settled, TmpsApart, IsRun, Init, TmpName;
    if OwnsTmp(jobs, w) {
      SafeWhenOwned(jobs, w);
    } else {
      var v :| v in jobs && v != w && TmpName(jobs[v]) == TmpName(jobs[w]);
      var orig, run := SharedTmpLoses(jobs, w, v);
    }
  }

  /**
   For listed captures: a source is safe in every run exactly when no other worker slims it too, and it is not
   one of `.pcap` and `.pcap.pcap` with a worker on the other.
   */
  lemma ListedSafeExactly(jobs: Jobs, w: nat)
    requires w in jobs && forall v :: v in jobs ==> Listed(jobs[v])
    ensures AlwaysSafe(jobs, w) <==>
              forall v :: v in jobs && v != w ==> jobs[v] != jobs[w] && !Collide(jobs[v], jobs[w])
  {
    hide AlwaysSafe, TmpsApart, OwnsTmp, Listed, Collide;
    ListedTmps(jobs);
    SafeExactly(jobs, w);
  }

  /**
   One run of the program gives every listed file to one worker: then all sources are safe exactly when
   `.pcap` and `.pcap.pcap` are not both listed.
   */
  lemma OneRunSafeExactly(jobs: Jobs)
    requires forall w :: w in jobs ==> Listed(jobs[w])
    requires forall w, v :: w in jobs && v in jobs && w != v ==> jobs[w] != jobs[v]
    ensures (forall w | w in jobs :: AlwaysSafe(jobs, w)) <==> !({".pcap", ".pcap.pcap"} <= jobs.Values)
  {
    hide AlwaysSafe, Listed;
    forall w | w in jobs
      ensures AlwaysSafe(jobs, w) <==>
                forall v :: v in jobs && v != w ==> jobs[v] != jobs[w] && !Collide(jobs[v], jobs[w])
    {
      ListedSafeExactly(jobs, w);
    }
    assert ".pcap" != ".pcap.pcap";
  }
}
