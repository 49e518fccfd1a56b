/** `VideoProgressDialog.processa_videos` (videotools.py:107-253): the
    files of a batch are converted one after another by ffmpeg. The file
    system is two sets of paths (regular files and directories); what
    ffmpeg prints and how it exits, and whether the user has asked to stop
    by the time a file is about to start, are given for each file. */
module Batch {
  import opened Wrappers
  import opened PyStr
  import opened Naming
  import opened Template
  import opened Progress

  /** How starting ffmpeg ends: its output lines and exit code, or an
      exception from `subprocess.Popen`. */
  datatype Outcome = Launched(lines: seq<string>, exitCode: int) | LaunchError

  /** The world's side of one file: whether `mustStop` has been set when
      the file reaches the check, and what ffmpeg does. */
  datatype Run = Run(stopRequested: bool, outcome: Outcome)

  /** What the dialog is built with. */
  datatype Config = Config(ffmpeg: string, params: seq<string>, suffix: Option<string>,
                           fixedDest: Option<string>, total: int)

  /** The state `processa_videos` changes: the file system, the flags of
      the dialog, the seconds converted, the ffmpeg command lines started,
      the progress reports and whether the dialog was closed. */
  datatype BatchState = BatchState(existing: set<string>, dirs: set<string>, mustStop: bool,
                                   failed: bool, done: int, launched: seq<seq<string>>,
                                   reports: seq<Observation>, closed: bool)

  /** After one file: go on with the next one, or return at once. */
  datatype FileResult = Continue(state: BatchState) | Stop(state: BatchState)

  /** The body of the loop for one input `arquivo`: it starts at most one
      ffmpeg command, the one built for this input, and none when it stops. */
  function FileStep(cfg: Config, bs: BatchState, arquivo: string, run: Run): (r: FileResult)
    ensures r.state.launched == bs.launched ||
            r.state.launched == bs.launched + [Arguments(cfg.ffmpeg, cfg.params, arquivo,
                                                         Destination(arquivo, cfg.suffix, cfg.fixedDest),
                                                         Extension(Basename(arquivo)))]
    ensures r.Stop? ==> r.state.launched == bs.launched
  {
    if arquivo !in bs.existing && cfg.fixedDest.None? then Continue(bs.(failed := true))
    else
      var novo := Destination(arquivo, cfg.suffix, cfg.fixedDest);
      var args := Arguments(cfg.ffmpeg, cfg.params, arquivo, novo, Extension(Basename(arquivo)));
      Place(cfg, bs, novo, args, run)
  }

  /** Creating the directory of the new file and removing an old copy of it,
      then the check for a stop request. */
  function Place(cfg: Config, bs: BatchState, novo: string, args: seq<string>, run: Run): (r: FileResult)
    ensures r.state.launched == bs.launched || r.state.launched == bs.launched + [args]
    ensures r.Stop? ==> r.state.launched == bs.launched
  {
    var directory := Dirname(novo);
    // os.path.exists("") is False, and os.makedirs("") raises FileNotFoundError
    var present := directory != "" && (directory in bs.dirs || directory in bs.existing);
    if directory == "" then Continue(bs.(failed := true))
    else
      Start(cfg, bs.(dirs := if present then bs.dirs else bs.dirs + {directory},
                     existing := bs.existing - {novo},
                     mustStop := bs.mustStop || run.stopRequested), args, run)
  }

  /** The check of `mustStop`, then one run of ffmpeg. */
  function Start(cfg: Config, bs: BatchState, args: seq<string>, run: Run): (r: FileResult)
    ensures r.state.launched == bs.launched || r.state.launched == bs.launched + [args]
    ensures r.Stop? ==> r.state.launched == bs.launched
  {
    if bs.mustStop then Stop(bs)
    else
      match run.outcome
      case LaunchError => Continue(bs.(failed := true))
      case Launched(lines, exitCode) =>
        var bs1 := bs.(launched := bs.launched + [args]);
        match Feed(FileState(0, 0), lines, bs.done, cfg.total)
        case Aborted(rs) => Continue(bs1.(reports := bs1.reports + rs, failed := true))
        case Fed(st, rs) =>
          Continue(bs1.(reports := bs1.reports + rs, done := bs.done + st.curSecs,
                        failed := bs.failed || exitCode != 0))
  }

  /** The whole loop, then `self.close()` unless it returned early. The
      commands started only grow, by at most one per input. */
  function RunBatch(cfg: Config, bs: BatchState, files: seq<string>, runs: seq<Run>): (r: BatchState)
    requires |runs| == |files|
    ensures bs.launched <= r.launched
    ensures |r.launched| <= |bs.launched| + |files|
    decreases |files|
  {
    if files == [] then bs.(closed := true)
    else
      match FileStep(cfg, bs, files[0], runs[0])
      case Stop(s) => s
      case Continue(s) => RunBatch(cfg, s, files[1..], runs[1..])
  }

  /** No file clears `failed`. */
  lemma FileStepKeepsFailed(cfg: Config, bs: BatchState, arquivo: string, run: Run)
    requires bs.failed
    ensures FileStep(cfg, bs, arquivo, run).state.failed
  {
    if arquivo in bs.existing || cfg.fixedDest.Some? {
      var novo := Destination(arquivo, cfg.suffix, cfg.fixedDest);
      PlaceKeepsFailed(cfg, bs, novo, Arguments(cfg.ffmpeg, cfg.params, arquivo, novo, Extension(Basename(arquivo))), run);
    }
  }

  lemma PlaceKeepsFailed(cfg: Config, bs: BatchState, novo: string, args: seq<string>, run: Run)
    requires bs.failed
    ensures Place(cfg, bs, novo, args, run).state.failed
  {
  }

  /** Once a file has failed, the batch is reported as failed. */
  lemma {:induction false} FailedIsSticky(cfg: Config, bs: BatchState, files: seq<string>, runs: seq<Run>)
    requires |runs| == |files| && bs.failed
    ensures RunBatch(cfg, bs, files, runs).failed
    decreases |files|
  {
    if files != [] {
      FileStepKeepsFailed(cfg, bs, files[0], runs[0]);
      if FileStep(cfg, bs, files[0], runs[0]).Continue? {
        FailedIsSticky(cfg, FileStep(cfg, bs, files[0], runs[0]).state, files[1..], runs[1..]);
      }
    }
  }

  /** One file adds its last position to the seconds done, or nothing. */
  lemma FileStepDone(cfg: Config, bs: BatchState, arquivo: string, run: Run)
    ensures FileStep(cfg, bs, arquivo, run).state.done >= bs.done
  {
    if run.outcome.Launched? {
      FeedPositionNonNegative(FileState(0, 0), run.outcome.lines, bs.done, cfg.total);
    }
  }

  /** The seconds done (`segundosConcluidos`) never decrease. */
  lemma {:induction false} DoneNeverDecreases(cfg: Config, bs: BatchState, files: seq<string>, runs: seq<Run>)
    requires |runs| == |files|
    ensures RunBatch(cfg, bs, files, runs).done >= bs.done
    decreases |files|
  {
    if files != [] {
      FileStepDone(cfg, bs, files[0], runs[0]);
      if FileStep(cfg, bs, files[0], runs[0]).Continue? {
        DoneNeverDecreases(cfg, FileStep(cfg, bs, files[0], runs[0]).state, files[1..], runs[1..]);
      }
    }
  }

  /** Once `mustStop` is set no ffmpeg is started, nothing is reported and
      no seconds are added. */
  lemma {:induction false} StopLaunchesNothing(cfg: Config, bs: BatchState, files: seq<string>, runs: seq<Run>)
    requires |runs| == |files| && bs.mustStop
    ensures RunBatch(cfg, bs, files, runs).launched == bs.launched
    ensures RunBatch(cfg, bs, files, runs).reports == bs.reports
    ensures RunBatch(cfg, bs, files, runs).done == bs.done
    decreases |files|
  {
    if files != [] {
      var r := FileStep(cfg, bs, files[0], runs[0]);
      assert r.state.mustStop && r.state.launched == bs.launched && r.state.reports == bs.reports && r.state.done == bs.done;
      if r.Continue? {
        StopLaunchesNothing(cfg, r.state, files[1..], runs[1..]);
      }
    }
  }

  /** A stop request seen at the first file that gets as far as the check
      ends the batch there: nothing is started and the dialog is not closed. */
  lemma StopRequestHalts(cfg: Config, bs: BatchState, files: seq<string>, runs: seq<Run>)
    requires |runs| == |files| && files != [] && !bs.closed
    requires files[0] in bs.existing && cfg.fixedDest.None?
    requires runs[0].stopRequested
    ensures !RunBatch(cfg, bs, files, runs).closed
    ensures RunBatch(cfg, bs, files, runs).launched == bs.launched
    ensures RunBatch(cfg, bs, files, runs).mustStop
  {
    DestinationHasDirectory(files[0], cfg.suffix);
  }

  /** A file whose ffmpeg exits with a code other than zero marks the batch
      as failed. */
  lemma NonZeroExitFails(cfg: Config, bs: BatchState, arquivo: string, run: Run)
    requires run.outcome.Launched? && run.outcome.exitCode != 0
    requires FileStep(cfg, bs, arquivo, run).Continue?
    ensures FileStep(cfg, bs, arquivo, run).state.failed
  {
  }

  /** An input that does not exist is skipped and marks the batch as failed. */
  lemma MissingFileSkipped(cfg: Config, bs: BatchState, arquivo: string, run: Run)
    requires arquivo !in bs.existing && cfg.fixedDest.None?
    ensures FileStep(cfg, bs, arquivo, run) == Continue(bs.(failed := true))
  {
  }

  /** The command line started for one input. */
  function CommandFor(cfg: Config, arquivo: string): seq<string> {
    Arguments(cfg.ffmpeg, cfg.params, arquivo, Destination(arquivo, cfg.suffix, cfg.fixedDest),
              Extension(Basename(arquivo)))
  }

  /** The command lines of the inputs, in order. */
  function Commands(cfg: Config, files: seq<string>): (cs: seq<seq<string>>)
    ensures |cs| == |files|
    ensures forall k :: 0 <= k < |files| ==> cs[k] == CommandFor(cfg, files[k])
  {
    if files == [] then [] else [CommandFor(cfg, files[0])] + Commands(cfg, files[1..])
  }

  /** No input is the new file of an input. */
  predicate OutputsAreNotInputs(cfg: Config, files: seq<string>) {
    forall j, k :: 0 <= j < |files| && 0 <= k < |files| ==> Destination(files[j], cfg.suffix, None) != files[k]
  }

  lemma OutputsTail(cfg: Config, files: seq<string>)
    requires files != [] && OutputsAreNotInputs(cfg, files)
    ensures OutputsAreNotInputs(cfg, files[1..])
    ensures forall k :: 1 <= k < |files| ==> Destination(files[0], cfg.suffix, None) != files[k]
  {
    assert forall k :: 0 <= k < |files[1..]| ==> files[1..][k] == files[k + 1];
  }

  /** With every input present and no input being another's new file, and
      with no stop request and no failure to start ffmpeg, every input is
      converted in order, whatever the exit codes, the dialog is closed, and
      any non-zero exit code leaves the batch failed. */
  lemma {:induction false} EveryFileLaunched(cfg: Config, bs: BatchState, files: seq<string>, runs: seq<Run>)
    requires |runs| == |files| && cfg.fixedDest.None? && !bs.mustStop
    requires forall k :: 0 <= k < |files| ==> files[k] in bs.existing
    requires OutputsAreNotInputs(cfg, files)
    requires forall k :: 0 <= k < |runs| ==> !runs[k].stopRequested && runs[k].outcome.Launched?
    ensures RunBatch(cfg, bs, files, runs).closed
    ensures RunBatch(cfg, bs, files, runs).launched == bs.launched + Commands(cfg, files)
    ensures (exists k :: 0 <= k < |runs| && runs[k].outcome.exitCode != 0) ==> RunBatch(cfg, bs, files, runs).failed
    decreases |files|
  {
    if files != [] {
      FileLaunched(cfg, bs, files[0], runs[0]);
      OutputsTail(cfg, files);
      var s := FileStep(cfg, bs, files[0], runs[0]).state;
      assert forall k :: 0 <= k < |files[1..]| ==> files[1..][k] in s.existing;
      EveryFileLaunched(cfg, s, files[1..], runs[1..]);
      var c, rest := CommandFor(cfg, files[0]), Commands(cfg, files[1..]);
      assert Commands(cfg, files) == [c] + rest;
      Associative(bs.launched, [c], rest);
      if exists k :: 0 <= k < |runs| && runs[k].outcome.exitCode != 0 {
        var k :| 0 <= k < |runs| && runs[k].outcome.exitCode != 0;
        if k == 0 {
          FailedIsSticky(cfg, s, files[1..], runs[1..]);
        } else {
          assert runs[1..][k - 1] == runs[k];
        }
      }
    }
  }

  lemma Associative(a: seq<seq<string>>, b: seq<seq<string>>, c: seq<seq<string>>)
    ensures (a + b) + c == a + (b + c)
  {
  }

  /** One present input with no stop request: ffmpeg is started with its
      command line and only its new file leaves the set of files. */
  lemma FileLaunched(cfg: Config, bs: BatchState, arquivo: string, run: Run)
    requires cfg.fixedDest.None? && !bs.mustStop && arquivo in bs.existing
    requires !run.stopRequested && run.outcome.Launched?
    ensures FileStep(cfg, bs, arquivo, run).Continue?
    ensures FileStep(cfg, bs, arquivo, run).state.launched == bs.launched + [CommandFor(cfg, arquivo)]
    ensures !FileStep(cfg, bs, arquivo, run).state.mustStop
    ensures FileStep(cfg, bs, arquivo, run).state.existing == bs.existing - {Destination(arquivo, cfg.suffix, None)}
    ensures run.outcome.exitCode != 0 ==> FileStep(cfg, bs, arquivo, run).state.failed
  {
    DestinationHasDirectory(arquivo, cfg.suffix);
    PlaceLaunched(cfg, bs, Destination(arquivo, cfg.suffix, None), CommandFor(cfg, arquivo), run);
  }

  /** A new file without a directory is never started, whatever the file
      system holds: the makedirs("") call fails first. */
  lemma EmptyDirectoryFails(cfg: Config, bs: BatchState, novo: string, args: seq<string>, run: Run)
    requires Dirname(novo) == ""
    ensures Place(cfg, bs, novo, args, run) == Continue(bs.(failed := true))
  {
  }

  /** With a fixed destination (the concatenation), the one input is the
      destination itself: it is not skipped when missing, and its command
      starts. */
  lemma FixedDestinationRuns(cfg: Config, bs: BatchState, d: string, run: Run)
    requires cfg.fixedDest == Some(d) && Dirname(d) != "" && !bs.mustStop
    requires !run.stopRequested && run.outcome.Launched?
    ensures FileStep(cfg, bs, d, run).Continue?
    ensures FileStep(cfg, bs, d, run).state.launched == bs.launched + [CommandFor(cfg, d)]
    ensures FileStep(cfg, bs, d, run).state.existing == bs.existing - {d}
    ensures run.outcome.exitCode != 0 ==> FileStep(cfg, bs, d, run).state.failed
  {
    PlaceLaunched(cfg, bs, d, CommandFor(cfg, d), run);
  }

  lemma PlaceLaunched(cfg: Config, bs: BatchState, novo: string, args: seq<string>, run: Run)
    requires Dirname(novo) != "" && !bs.mustStop
    requires !run.stopRequested && run.outcome.Launched?
    ensures Place(cfg, bs, novo, args, run).Continue?
    ensures Place(cfg, bs, novo, args, run).state.launched == bs.launched + [args]
    ensures !Place(cfg, bs, novo, args, run).state.mustStop
    ensures Place(cfg, bs, novo, args, run).state.existing == bs.existing - {novo}
    ensures run.outcome.exitCode != 0 ==> Place(cfg, bs, novo, args, run).state.failed
  {
    var directory := Dirname(novo);
    var present := directory != "" && (directory in bs.dirs || directory in bs.existing);
    StartLaunched(cfg, bs.(dirs := if present then bs.dirs else bs.dirs + {directory},
                           existing := bs.existing - {novo},
                           mustStop := bs.mustStop || run.stopRequested), args, run);
  }

  lemma StartLaunched(cfg: Config, bs: BatchState, args: seq<string>, run: Run)
    requires !bs.mustStop && run.outcome.Launched?
    ensures Start(cfg, bs, args, run).Continue?
    ensures Start(cfg, bs, args, run).state.launched == bs.launched + [args]
    ensures !Start(cfg, bs, args, run).state.mustStop
    ensures Start(cfg, bs, args, run).state.existing == bs.existing
    ensures run.outcome.exitCode != 0 ==> Start(cfg, bs, args, run).state.failed
  {
  }

  /** Without a suffix, the new file of "d/s.e" is "d/se": when "d/se" is
      also an input listed after it, it is removed before its turn comes, is
      then skipped as missing, and the batch fails. This is the pass that
      computes the stabilisation vectors, whose arguments name no
      "${DESTINO}" and whose ffmpeg writes no file in place of the removed
      one. */
  lemma OutputRemovesLaterInput(cfg: Config, bs: BatchState, d: string, s: string, e: string, r0: Run, r1: Run)
    requires forall k | 0 <= k < |cfg.params| :: !Contains(cfg.params[k], DESTINO)
    requires d != [] && d[|d| - 1] != '/'
    requires '/' !in s && '/' !in e && '.' !in e
    requires '$' !in d && '$' !in s && '$' !in e
    requires cfg.suffix.None? && cfg.fixedDest.None? && !bs.mustStop
    requires d + "/" + s + "." + e in bs.existing
    requires !r0.stopRequested && r0.outcome.Launched?
    ensures RunBatch(cfg, bs, [d + "/" + s + "." + e, d + "/" + s + e], [r0, r1]).failed
    ensures |RunBatch(cfg, bs, [d + "/" + s + "." + e, d + "/" + s + e], [r0, r1]).launched| == |bs.launched| + 1
  {
    var a, b := d + "/" + s + "." + e, d + "/" + s + e;
    DefaultSuffixDropsDot(d, s, e);
    FileLaunched(cfg, bs, a, r0);
    var st := FileStep(cfg, bs, a, r0).state;
    assert b !in st.existing;
    assert [a, b][1..] == [b] && [r0, r1][1..] == [r1];
    assert RunBatch(cfg, bs, [a, b], [r0, r1]) == RunBatch(cfg, st, [b], [r1]);
    assert RunBatch(cfg, st, [b], [r1]) == st.(failed := true, closed := true) by {
      assert [b][1..] == [] && [r1][1..] == [];
    }
  }

  class VideoBatch {
    const ffmpeg: string
    const params: seq<string>
    const suffix: Option<string>
    const fixedDest: Option<string>
    const total: int
    const files: seq<string>
    var existing: set<string>
    var dirs: set<string>
    var mustStop: bool
    var failed: bool
    var done: int
    var launched: seq<seq<string>>
    var reports: seq<Observation>
    var closed: bool

    function Cfg(): Config {
      Config(ffmpeg, params, suffix, fixedDest, total)
    }

    function State(): BatchState
      reads this
    {
      BatchState(existing, dirs, mustStop, failed, done, launched, reports, closed)
    }

    /** `VideoProgressDialog.__init__`: a fixed destination replaces the
        list of inputs by the one-element list holding it. */
    constructor (arquivos: seq<string>, params: seq<string>, sufixo: Option<string>,
                 destino: Option<string>, segundosTotal: int, ffmpeg: string,
                 existing: set<string>, dirs: set<string>)
      ensures files == EffectiveFiles(arquivos, destino)
      ensures Cfg() == Config(ffmpeg, params, sufixo, destino, segundosTotal)
      ensures State() == BatchState(existing, dirs, false, false, 0, [], [], false)
    {
      this.ffmpeg := ffmpeg;
      this.params := params;
      this.suffix := sufixo;
      this.fixedDest := destino;
      this.total := segundosTotal;
      this.files := if destino.Some? then [destino.value] else arquivos;
      this.existing := existing;
      this.dirs := dirs;
      mustStop := false;
      failed := false;
      done := 0;
      launched := [];
      reports := [];
      closed := false;
    }

    /** One pass of the loop body; `stopped` is the early `return`. */
    method ProcessFile(arquivo: string, run: Run) returns (stopped: bool)
      modifies this
      ensures FileStep(Cfg(), old(State()), arquivo, run) ==
                (if stopped then Stop(State()) else Continue(State()))
    {
      if arquivo !in existing && fixedDest.None? {
        failed := true;
        return false;
      }
      var extensao := Extension(Basename(arquivo));
      var novo := Destination(arquivo, suffix, fixedDest);
      var args := BuildArgs(ffmpeg, params, arquivo, novo, extensao);
      stopped := Prepare(novo, args, run);
    }

    /** The directory of the new file, the old copy of it and the stop
        request, then the rest of the loop body. */
    method Prepare(novo: string, args: seq<string>, run: Run) returns (stopped: bool)
      modifies this
      ensures Place(Cfg(), old(State()), novo, args, run) == (if stopped then Stop(State()) else Continue(State()))
    {
      var directory := Dirname(novo);
      if directory == "" {
        failed := true;
        return false;
      }
      if directory !in dirs && directory !in existing {
        dirs := dirs + {directory};
      }
      existing := existing - {novo};
      mustStop := mustStop || run.stopRequested;
      stopped := Convert(args, run);
    }

    /** From the check of `mustStop` to the end of the loop body. */
    method Convert(args: seq<string>, run: Run) returns (stopped: bool)
      modifies this
      ensures Start(Cfg(), old(State()), args, run) == (if stopped then Stop(State()) else Continue(State()))
    {
      if mustStop {
        return true;
      }
      if run.outcome.LaunchError? {
        failed := true;
        return false;
      }
      launched := launched + [args];
      var maxSecs, curSecs, rs, aborted := FeedLines(run.outcome.lines, done, total);
      reports := reports + rs;
      if aborted {
        failed := true;
        return false;
      }
      done := done + curSecs;
      failed := failed || run.outcome.exitCode != 0;
      return false;
    }

    /** `processa_videos` */
    method ProcessVideos(runs: seq<Run>)
      requires |runs| == |files|
      modifies this
      ensures State() == RunBatch(Cfg(), old(State()), files, runs)
    {
      var i := 0;
      while i < |files|
        invariant 0 <= i <= |files|
        invariant RunBatch(Cfg(), old(State()), files, runs) == RunBatch(Cfg(), State(), files[i..], runs[i..])
      {
        assert files[i..][0] == files[i] && files[i..][1..] == files[i + 1..];
        assert runs[i..][0] == runs[i] && runs[i..][1..] == runs[i + 1..];
        var stopped := ProcessFile(files[i], runs[i]);
        if stopped {
          return;
        }
        i := i + 1;
      }
      closed := true;
    }
  }
}
