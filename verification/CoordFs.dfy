/** One worker's pass over one source on a mutable directory, tied step by step to the protocol. */
module CoordFs {
  import opened Bytes
  import opened PcapFormat
  import opened PcapIo
  import opened TmpNames
  import opened Coord

  /** A directory: file contents by name, and the names in its marker subdirectory. */
  class Directory {
    var files: map<string, seq<byte>>
    var markers: set<string>

    method Store(name: string, bytes: seq<byte>)
      modifies this
      ensures files == old(files)[name := bytes] && markers == old(markers)
    {
      files := files[name := bytes];
    }

    method Remove(name: string)
      modifies this
      ensures files == old(files) - {name} && markers == old(markers)
    {
      files := files - {name};
    }

    /** Atomic replacement of `to` by `from`. */
    method Move(from: string, to: string)
      requires from in files && from != to
      modifies this
      ensures files == old(files)[to := old(files)[from]] - {from} && markers == old(markers)
    {
      files := files[to := files[from]] - {from};
    }

    method AddMarker(name: string)
      modifies this
      ensures files == old(files) && markers == old(markers) + {name}
    {
      markers := markers + {name};
    }
  }

  datatype FileResult = SkippedMarker | Replaced(stats: SlimStats)

  datatype CoordError = IoError | Pcap(error: PcapError) | PacketCountMismatch(expected: nat, outCount: nat) | Panic

  /** What the operating system does to one pass. */
  datatype Faults = Faults(
    writeCut: Option<seq<byte>>, // writing fails, leaving these bytes in the temp file
    removeFails: bool,           // the temp file cannot be removed
    corrupt: Option<seq<byte>>,  // these bytes replace the temp file before it is counted
    countFails: bool,            // the temp file cannot be read back
    renameFails: bool,
    markerFails: Option<bool>)   // marking fails; the value tells whether the marker was left

  const NO_FAULTS := Faults(None, false, None, false, false, None)

  /** The jobs of a run with one worker. */
  function One(src: string): Jobs {
    map[0 := src]
  }

  /** The protocol state of a directory on which only one worker acts. */
  function Solo(files: map<string, seq<byte>>, markers: set<string>, ph: Phase): State {
    State(files, markers, map[0 := ph])
  }

  /** `run` is a protocol run for `src` from `first` to `last`; a `faithful` one corrupts no temp file. */
  ghost predicate RunTo(src: string, faithful: bool, run: seq<State>, first: State, last: State) {
    IsRun(One(src), faithful, run) && run[0] == first && run[|run| - 1] == last
  }

  lemma RunOfOne(src: string, faithful: bool, st: State)
    requires Typed(One(src), st)
    ensures RunTo(src, faithful, [st], st, st)
  {
  }

  lemma Extend(src: string, faithful: bool, run: seq<State>, first: State, st: State, st': State, act: Act)
    requires RunTo(src, faithful, run, first, st)
    requires src in st.files && 0 in st.phase && Acts(src, faithful, st, st', 0, act)
    ensures RunTo(src, faithful, run + [st'], first, st') && Typed(One(src), st')
  {
    hide Acts, TmpName, CanStep;
    TmpNameApart(src);
    Stepped(One(src), faithful, st, st', 0, act);
    hide Typed;
    RunExtends(One(src), faithful, run, st');
  }

  lemma Redo(ph: Phase, ph': Phase)
    ensures map[0 as nat := ph][0 := ph'] == map[0 as nat := ph']
  {
  }

  /** Gives up after an error: the temp file is removed unless that fails too. */
  method Abandon(dir: Directory, src: string, faults: Faults, ph: Phase,
                 ghost faithful: bool, ghost run: seq<State>, ghost first: State)
    returns (ghost run': seq<State>)
    requires src in dir.files && ph != Idle && RunTo(src, faithful, run, first, Solo(dir.files, dir.markers, ph))
    modifies dir
    ensures dir.markers == old(dir.markers)
    ensures dir.files == if faults.removeFails then old(dir.files) else old(dir.files) - {TmpName(src)}
    ensures RunTo(src, faithful, run', first, Solo(dir.files, dir.markers, Idle))
  {
    hide TmpName, RunTo;
    ghost var st := Solo(dir.files, dir.markers, ph);
    if !faults.removeFails {
      dir.Remove(TmpName(src));
    }
    Redo(ph, Idle);
    Extend(src, faithful, run, first, st, Solo(dir.files, dir.markers, Idle), GiveUp(!faults.removeFails, false));
    run' := run + [Solo(dir.files, dir.markers, Idle)];
  }

  /** Creates the temp file, empty, whatever an earlier pass left under its name. */
  method CreateTmp(dir: Directory, src: string, ghost faithful: bool, ghost run: seq<State>, ghost first: State)
    returns (ghost run': seq<State>)
    requires src in dir.files && src !in dir.markers
    requires RunTo(src, faithful, run, first, Solo(dir.files, dir.markers, Idle))
    modifies dir
    ensures dir.markers == old(dir.markers) && dir.files == old(dir.files)[TmpName(src) := []]
    ensures RunTo(src, faithful, run', first, Solo(dir.files, dir.markers, Writing))
  {
    hide TmpName, RunTo;
    ghost var st := Solo(dir.files, dir.markers, Idle);
    dir.Store(TmpName(src), []);
    Redo(Idle, Writing);
    Extend(src, faithful, run, first, st, Solo(dir.files, dir.markers, Writing), Start);
    run' := run + [Solo(dir.files, dir.markers, Writing)];
  }

  /** Writing ended early with `partial` in the temp file: cleaned up after an error, left behind by a panic. */
  method StopWriting(dir: Directory, src: string, faults: Faults, partial: seq<byte>, panics: bool,
                     ghost faithful: bool, ghost run: seq<State>, ghost first: State)
    returns (ghost run': seq<State>)
    requires src in dir.files && TmpName(src) in dir.files
    requires RunTo(src, faithful, run, first, Solo(dir.files, dir.markers, Writing))
    modifies dir
    ensures dir.markers == old(dir.markers)
    ensures dir.files == if panics || faults.removeFails then old(dir.files)[TmpName(src) := partial]
                         else old(dir.files) - {TmpName(src)}
    ensures RunTo(src, faithful, run', first, Solo(dir.files, dir.markers, Idle))
  {
    hide TmpName, RunTo, SlimFile, CountFile;
    TmpNameApart(src);
    ghost var st := Solo(dir.files, dir.markers, Writing);
    dir.Store(TmpName(src), partial);
    ghost var filled := Solo(dir.files, dir.markers, Writing);
    Extend(src, faithful, run, first, st, filled, Spill(partial));
    run' := run + [filled];
    if panics {
      Redo(Writing, Idle);
      Extend(src, faithful, run', first, filled, Solo(dir.files, dir.markers, Idle), GiveUp(false, false));
      run' := run' + [Solo(dir.files, dir.markers, Idle)];
    } else {
      run' := Abandon(dir, src, faults, Writing, faithful, run', first);
    }
  }

  /** The slimmed bytes are in the temp file and synced. */
  method CompleteWriting(dir: Directory, src: string, dst: seq<byte>, stats: SlimStats,
                         ghost faithful: bool, ghost run: seq<State>, ghost first: State)
    returns (ghost run': seq<State>)
    requires src in dir.files && TmpName(src) in dir.files
    requires SlimFile(dir.files[src]) == Done(dst)
    requires Decode(dir.files[src]).Ok? && stats == StatsOf(dir.files[src], |dst|)
    requires RunTo(src, faithful, run, first, Solo(dir.files, dir.markers, Writing))
    modifies dir
    ensures dir.markers == old(dir.markers) && dir.files == old(dir.files)[TmpName(src) := dst]
    ensures CountFile(dst) == CountFile(old(dir.files)[src]) == Done(stats.inPkts)
    ensures RunTo(src, faithful, run', first, Solo(dir.files, dir.markers, Verifying(stats.inPkts)))
  {
    hide TmpName, RunTo, SlimFile, CountFile, Decode, StatsOf;
    ReadersAgree(dir.files[src]);
    StatsInPkts(dir.files[src], |dst|);
    ghost var st := Solo(dir.files, dir.markers, Writing);
    dir.Store(TmpName(src), dst);
    Redo(Writing, Verifying(stats.inPkts));
    Extend(src, faithful, run, first, st, Solo(dir.files, dir.markers, Verifying(stats.inPkts)), Finish);
    run' := run + [Solo(dir.files, dir.markers, Verifying(stats.inPkts))];
  }

  /** Creates the temp file and streams the slimmed capture into it. */
  method WriteTmp(dir: Directory, src: string, faults: Faults, meter: Meter,
                  ghost faithful: bool, ghost run: seq<State>, ghost first: State)
    returns (r: Result<SlimStats, CoordError>, ghost run': seq<State>)
    requires src in dir.files && src !in dir.markers
    requires RunTo(src, faithful, run, first, Solo(dir.files, dir.markers, Idle))
    modifies dir, meter
    ensures dir.markers == old(dir.markers)
    ensures r.Err? ==> RunTo(src, faithful, run', first, Solo(dir.files, dir.markers, Idle))
    ensures r.Err? ==> dir.files - {TmpName(src)} == old(dir.files) - {TmpName(src)}
    ensures r.Err? ==> faults.writeCut.Some? || !SlimFile(old(dir.files)[src]).Done?
    ensures r.Err? ==> !r.error.PacketCountMismatch?
    ensures SlimFile(old(dir.files)[src]).Failed? && faults.writeCut.None? ==>
              && r == Err(Pcap(SlimFile(old(dir.files)[src]).error))
              && (!faults.removeFails ==> dir.files == old(dir.files) - {TmpName(src)})
    ensures r.Ok? ==> TmpWritten(old(dir.files), dir.files, src, r.value)
    ensures r.Ok? ==> RunTo(src, faithful, run', first, Solo(dir.files, dir.markers, Verifying(r.value.inPkts)))
  {
    hide TmpName, RunTo, SlimFile, CountFile, Decode, StatsOf, Encode;
    TmpNameApart(src);
    ghost var files := dir.files;
    run' := CreateTmp(dir, src, faithful, run, first);
    var dst, outcome := SlimPcap(dir.files[src], meter);
    SamePrefix(files, TmpName(src), [], dst);
    if faults.writeCut.Some? {
      SamePrefix(files, TmpName(src), [], faults.writeCut.value);
      run' := StopWriting(dir, src, faults, faults.writeCut.value, false, faithful, run', first);
      return Err(IoError), run';
    }
    match outcome {
      case Done(stats) =>
        run' := CompleteWriting(dir, src, dst, stats, faithful, run', first);
        return Ok(stats), run';
      case Failed(error) =>
        run' := StopWriting(dir, src, faults, dst, false, faithful, run', first);
        return Err(Pcap(error)), run';
      case Unwound =>
        run' := StopWriting(dir, src, faults, dst, true, faithful, run', first);
        return Err(Panic), run';
    }
  }

  /** Whatever a name held in between, removing it or storing it again leaves the same directory. */
  lemma SamePrefix(files: map<string, seq<byte>>, name: string, a: seq<byte>, b: seq<byte>)
    ensures files[name := a][name := b] == files[name := b]
    ensures files[name := a] - {name} == files - {name} && files[name := b] - {name} == files - {name}
  {
  }

  lemma StatsInPkts(file: seq<byte>, outBytes: nat)
    requires Decode(file).Ok?
    ensures CountFile(file) == Done(StatsOf(file, outBytes).inPkts)
  {
  }

  /** The temp file holds exactly the slimmed capture, and `stats` describes the pass. */
  ghost predicate TmpWritten(before: map<string, seq<byte>>, after: map<string, seq<byte>>, src: string,
                             stats: SlimStats) {
    && src in before
    && SlimFile(before[src]).Done? && Decode(before[src]).Ok?
    && after == before[TmpName(src) := SlimFile(before[src]).value]
    && stats == StatsOf(before[src], |SlimFile(before[src]).value|)
    && CountFile(SlimFile(before[src]).value) == CountFile(before[src]) == Done(stats.inPkts)
  }

  /** Counts the temp file again and compares. */
  method VerifyTmpPacketCount(expected: nat, tmp: seq<byte>, meter: Meter) returns (r: Result<(), CoordError>)
    modifies meter
    ensures r.Ok? <==> CountFile(tmp) == Done(expected)
    ensures r.Err? && r.error.PacketCountMismatch? ==>
              r.error.expected == expected && CountFile(tmp) == Done(r.error.outCount) && r.error.outCount != expected
  {
    hide CountFile;
    var outCount := CountPackets(tmp, meter);
    match outCount {
      case Failed(error) => return Err(Pcap(error));
      case Unwound => return Err(Panic);
      case Done(n) => return if n != expected then Err(PacketCountMismatch(expected, n)) else Ok(());
    }
  }

  /** Moves the counted temp file over the source and marks it. */
  method ReplaceSource(dir: Directory, src: string, faults: Faults,
                       ghost faithful: bool, ghost run: seq<State>, ghost first: State)
    returns (ok: bool, ghost run': seq<State>)
    requires src in dir.files && TmpName(src) in dir.files
    requires RunTo(src, faithful, run, first, Solo(dir.files, dir.markers, Renaming))
    modifies dir
    ensures RunTo(src, faithful, run', first, Solo(dir.files, dir.markers, Idle))
    ensures ok == (!faults.renameFails && faults.markerFails.None?)
    ensures dir.files == if faults.renameFails then old(dir.files)
                         else old(dir.files)[src := old(dir.files)[TmpName(src)]] - {TmpName(src)}
    ensures dir.markers == if !faults.renameFails && (faults.markerFails.None? || faults.markerFails.value)
                           then old(dir.markers) + {src} else old(dir.markers)
  {
    hide TmpName, RunTo, SlimFile, CountFile;
    TmpNameApart(src);
    ghost var counted := Solo(dir.files, dir.markers, Renaming);
    if faults.renameFails {
      Redo(Renaming, Idle);
      Extend(src, faithful, run, first, counted, Solo(dir.files, dir.markers, Idle), GiveUp(false, false));
      return false, run + [Solo(dir.files, dir.markers, Idle)];
    }
    dir.Move(TmpName(src), src);
    Redo(Renaming, Marking);
    ghost var renamed := Solo(dir.files, dir.markers, Marking);
    Extend(src, faithful, run, first, counted, renamed, Rename);
    run' := run + [renamed];
    Redo(Marking, Idle);
    if faults.markerFails.None? {
      dir.AddMarker(src);
      Extend(src, faithful, run', first, renamed, Solo(dir.files, dir.markers, Idle), Mark);
      ok := true;
    } else {
      if faults.markerFails.value {
        dir.AddMarker(src);
      }
      ghost var act := GiveUp(false, faults.markerFails.value);
      Extend(src, faithful, run', first, renamed, Solo(dir.files, dir.markers, Idle), act);
      ok := false;
    }
    run' := run' + [Solo(dir.files, dir.markers, Idle)];
  }

  /** What a finished pass has done to the directory, whatever failed. */
  ghost predicate PassEffect(src: string, faults: Faults, files: map<string, seq<byte>>, markers: set<string>,
                             files': map<string, seq<byte>>, markers': set<string>)
    requires src in files
  {
    && src in files'
    && files' - {src, TmpName(src)} == files - {src, TmpName(src)}
    && CountFile(files'[src]) == CountFile(files[src])
    && (faults.corrupt.None? ==> Settled(files[src], files'[src]))
    && (!SlimFile(files[src]).Done? ==> files'[src] == files[src] && markers' == markers)
    && (markers' == markers || markers' == markers + {src})
    && (markers' != markers && faults.corrupt.None? ==> SlimFile(files[src]) == Done(files'[src]))
  }

  /** The bytes the temp file holds when it is counted. */
  function Stored(faults: Faults, out: seq<byte>): seq<byte> {
    match faults.corrupt
    case Some(bytes) => bytes
    case None => out
  }

  /**
   Counts the temp file; on a failure or a mismatch the pass is abandoned. `files` is the directory before
   the pass.
   */
  method CountPhase(dir: Directory, src: string, faults: Faults, stats: SlimStats, meter: Meter,
                    ghost files: map<string, seq<byte>>, ghost faithful: bool,
                    ghost run: seq<State>, ghost first: State)
    returns (r: Result<(), CoordError>, ghost run': seq<State>)
    requires src in dir.files && TmpWritten(files, dir.files, src, stats) && faithful == faults.corrupt.None?
    requires RunTo(src, faithful, run, first, Solo(dir.files, dir.markers, Verifying(stats.inPkts)))
    modifies dir, meter
    ensures dir.markers == old(dir.markers)
    ensures r.Ok? ==>
              && RunTo(src, faithful, run', first, Solo(dir.files, dir.markers, Renaming))
              && dir.files == files[TmpName(src) := Stored(faults, SlimFile(files[src]).value)]
              && CountFile(Stored(faults, SlimFile(files[src]).value)) == CountFile(files[src])
    ensures r.Err? ==>
              && RunTo(src, faithful, run', first, Solo(dir.files, dir.markers, Idle))
              && dir.files - {TmpName(src)} == files - {TmpName(src)}
    ensures r.Err? ==> faults.corrupt.Some? || (faults.countFails && r.error == IoError)
  {
    hide TmpName, RunTo, SlimFile, CountFile, Decode, StatsOf;
    TmpNameApart(src);
    ghost var st := Solo(dir.files, dir.markers, Verifying(stats.inPkts));
    run' := run;
    if faults.corrupt.Some? {
      dir.Store(TmpName(src), faults.corrupt.value);
      ghost var corrupted := Solo(dir.files, dir.markers, Verifying(stats.inPkts));
      Extend(src, faithful, run', first, st, corrupted, Corrupt(faults.corrupt.value));
      run', st := run' + [corrupted], corrupted;
    }
    var verified := VerifyTmpPacketCount(stats.inPkts, dir.files[TmpName(src)], meter);
    if verified.Err? || faults.countFails {
      run' := Abandon(dir, src, faults, Verifying(stats.inPkts), faithful, run', first);
      r := match verified case Err(error) => Err(error) case Ok(_) => Err(IoError);
      return;
    }
    Redo(Verifying(stats.inPkts), Renaming);
    Extend(src, faithful, run', first, st, Solo(dir.files, dir.markers, Renaming), Verify);
    return Ok(()), run' + [Solo(dir.files, dir.markers, Renaming)];
  }

  /** Count, rename and mark, once the temp file is written. */
  method FinishPass(dir: Directory, src: string, faults: Faults, stats: SlimStats, meter: Meter,
                    ghost files: map<string, seq<byte>>, ghost faithful: bool,
                    ghost run: seq<State>, ghost first: State)
    returns (r: Result<FileResult, CoordError>, ghost run': seq<State>)
    requires src in dir.files && TmpWritten(files, dir.files, src, stats) && faithful == faults.corrupt.None?
    requires RunTo(src, faithful, run, first, Solo(dir.files, dir.markers, Verifying(stats.inPkts)))
    modifies dir, meter
    ensures RunTo(src, faithful, run', first, Solo(dir.files, dir.markers, Idle))
    ensures PassEffect(src, faults, files, old(dir.markers), dir.files, dir.markers)
    ensures r.Ok? ==>
              && r == Ok(Replaced(stats))
              && dir.markers == old(dir.markers) + {src}
              && TmpName(src) !in dir.files
              && dir.files[src] == Stored(faults, SlimFile(files[src]).value)
    ensures faults == NO_FAULTS ==> r.Ok?
    ensures r.Err? && r.error.PacketCountMismatch? ==> faults.corrupt.Some? && dir.files[src] == files[src]
  {
    hide TmpName, RunTo, SlimFile, CountFile, Decode, StatsOf;
    TmpNameApart(src);
    var counted: Result<(), CoordError>;
    counted, run' := CountPhase(dir, src, faults, stats, meter, files, faithful, run, first);
    if counted.Err? {
      OnlyTmpDiffers(src, files, dir.files);
      return Err(counted.error), run';
    }
    var ok: bool;
    ok, run' := ReplaceSource(dir, src, faults, faithful, run', first);
    r := if ok then Ok(Replaced(stats)) else Err(IoError);
  }

  /** tmp -> verify -> rename -> marker for one source, under any faults. */
  method SlimFileInPlace(dir: Directory, src: string, faults: Faults, meter: Meter)
    returns (r: Result<FileResult, CoordError>, ghost run: seq<State>)
    requires src in dir.files
    modifies dir, meter
    // The pass is a run of the protocol from the directory before to the directory after.
    ensures RunTo(src, faults.corrupt.None?, run,
                  Solo(old(dir.files), old(dir.markers), Idle), Solo(dir.files, dir.markers, Idle))
    ensures PassEffect(src, faults, old(dir.files), old(dir.markers), dir.files, dir.markers)
    ensures r == Ok(SkippedMarker) <==> src in old(dir.markers)
    ensures r == Ok(SkippedMarker) ==> dir.files == old(dir.files) && dir.markers == old(dir.markers)
    // Success means the counted bytes, a marker and no temp file.
    ensures r.Ok? && r.value.Replaced? ==>
              && SlimFile(old(dir.files)[src]).Done? && Decode(old(dir.files)[src]).Ok?
              && r.value.stats == StatsOf(old(dir.files)[src], |SlimFile(old(dir.files)[src]).value|)
              && dir.markers == old(dir.markers) + {src}
              && TmpName(src) !in dir.files
              && dir.files[src] == Stored(faults, SlimFile(old(dir.files)[src]).value)
    // Without faults it succeeds exactly on captures that can be slimmed, and reports why not.
    ensures faults == NO_FAULTS && src !in old(dir.markers) ==> (r.Ok? <==> SlimFile(old(dir.files)[src]).Done?)
    ensures SlimFile(old(dir.files)[src]).Failed? && faults == NO_FAULTS && src !in old(dir.markers) ==>
              r == Err(Pcap(SlimFile(old(dir.files)[src]).error)) && dir.files == old(dir.files) - {TmpName(src)}
    // A mismatch is reported only for a corrupted temp file, and then nothing was replaced.
    ensures r.Err? && r.error.PacketCountMismatch? ==> faults.corrupt.Some? && dir.files[src] == old(dir.files)[src]
  {
    hide TmpName, RunTo, SlimFile, CountFile, Decode, StatsOf;
    TmpNameApart(src);
    ghost var faithful := faults.corrupt.None?;
    ghost var files, markers := dir.files, dir.markers;
    ghost var first := Solo(files, markers, Idle);
    run := [first];
    RunOfOne(src, faithful, first);
    if src in dir.markers {
      return Ok(SkippedMarker), run;
    }
    var written: Result<SlimStats, CoordError>;
    written, run := WriteTmp(dir, src, faults, meter, faithful, run, first);
    if written.Err? {
      OnlyTmpDiffers(src, files, dir.files);
      return Err(written.error), run;
    }
    r, run := FinishPass(dir, src, faults, written.value, meter, files, faithful, run, first);
  }

  lemma OnlyTmpDiffers(src: string, a: map<string, seq<byte>>, b: map<string, seq<byte>>)
    requires src in a && a - {TmpName(src)} == b - {TmpName(src)}
    ensures src in b && b[src] == a[src] && a - {src, TmpName(src)} == b - {src, TmpName(src)}
  {
    TmpNameApart(src);
    hide TmpName;
    assert a[src] == (a - {TmpName(src)})[src] && src in b - {TmpName(src)};
    assert a - {src, TmpName(src)} == a - {TmpName(src)} - {src};
    assert b - {src, TmpName(src)} == b - {TmpName(src)} - {src};
  }
}
