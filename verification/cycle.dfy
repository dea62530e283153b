/**
 * One run of the auto-update plugin's `on_internet_available` hook
 * (pwnagotchi/plugins/default/auto-update.py): the throttle, the version
 * probe of the three managed programs, the per-program `check`, then either
 * installing every candidate or announcing how many there are, recording the
 * check time, and rebooting when something was installed.
 *
 * Two lines of the hook raise on every input that reaches them, so the hook
 * is modelled under a `Revision` that says which of them is taken as
 * written: `AsWritten` is the code as it stands and `Corrected` is the
 * evidently intended code. An exception inside the `try` block is caught,
 * and the display is restored to what it showed before, so a raise there
 * is not an error of the hook but an `Aborted` outcome.
 */
module UpdateCycle {
  import opened Wrappers
  import opened Python
  import opened Text
  import opened StatusFiles
  import opened AutoUpdate

  // ---------------------------------------------------------------- revisions

  /** Which of the two raising lines are taken as corrected:
      `faceCallFixed` passes the two faces to `random.choice` as one list,
      `pluralFormatFixed` formats the plural suffix with `%s`. */
  datatype Revision = Revision(faceCallFixed: bool, pluralFormatFixed: bool)

  const AsWritten: Revision := Revision(false, false)
  const Corrected: Revision := Revision(true, true)

  /** The face shown while checking. As written, `random.choice` is given two
      arguments and raises TypeError; corrected, it picks one of the two
      looking faces (`pickLeft` stands in for the random draw). */
  function CheckingFace(rev: Revision, pickLeft: bool): (r: PyResult<Face>)
    ensures r.Failure? <==> !rev.faceCallFixed
    ensures r.Failure? ==> r.error == TypeError
    ensures r.Success? ==> r.value.LookL? || r.value.LookR?
    ensures r.Success? ==> (r.value.LookL? <==> pickLeft)
  {
    if !rev.faceCallFixed then Failure(TypeError)
    else if pickLeft then Success(LookL)
    else Success(LookR)
  }

  /** The plural suffix of the announcement. */
  function Plural(n: nat): string {
    if n > 1 then "s" else ""
  }

  /** `'%d new update%c available!' % (n, suffix)`. As written, `%c` demands
      exactly one character and raises TypeError on the empty suffix, which
      is what a single update gets; corrected, the suffix is inserted as a
      string. */
  function UpdatesMessage(rev: Revision, n: nat): (r: PyResult<string>)
    ensures r.Failure? <==> !rev.pluralFormatFixed && n <= 1
    ensures r.Failure? ==> r.error == TypeError
  {
    var suffix := Plural(n);
    if !rev.pluralFormatFixed && |suffix| != 1 then Failure(TypeError)
    else Success(IntToString(n) + " new update" + suffix + " available!")
  }

  /** The announcement starts with the count in decimal, followed by a
      space, and it is plural exactly when there is more than one update. */
  lemma UpdatesMessageCount(rev: Revision, n: nat)
    requires UpdatesMessage(rev, n).Success?
    ensures var msg := UpdatesMessage(rev, n).value;
            && |Split(msg, ' ')| >= 2
            && ParseInt(Split(msg, ' ')[0]) == Some(n)
            && (EndsWith(msg, "s available!") <==> n > 1)
  {
    var msg := UpdatesMessage(rev, n).value;
    var digits := IntToString(n);
    var tail := "new update" + Plural(n) + " available!";
    assert msg == digits + [' '] + tail;
    assert ' ' !in digits by {
      NatDigitsHaveNoSpace(n);
    }
    SplitAfterFirst(digits, ' ', tail);
    ParseIntOfIntToString(n);
    var head := digits + " new update";
    if n > 1 {
      PluralTail(head);
      EndsWithAppended(head, "s available!");
    } else {
      assert msg == head + " available!";
      EndsWithLonger(head, " available!", "s available!");
    }
  }

  lemma PluralTail(head: string)
    ensures head + "s" + " available!" == head + "s available!"
  {
    assert "s" + " available!" == "s available!";
  }

  // ---------------------------------------------------------------- the world

  /** Everything the hook consults. The display's previous status and face,
      the output of `bettercap -version` and `pwngrid -version`, the release
      document each repository's latest-release request yields, and what
      `install` finds for each repository are all given, and so is what
      opening the status file for writing raises, if anything. `stamp`
      renders the check time into the status file; `encode` is never used,
      as the status file is raw, but `update` takes it. */
  datatype World = World(
    config: PyValue,                         // agent.config()
    ready: bool,                             // READY
    options: map<string, PyValue>,           // OPTIONS
    status: StatusFile,                      // STATUS
    now: Instant,                            // datetime.now() in the throttle test
    updatedAt: Instant,                      // datetime.now() in STATUS.update()
    prevStatus: Option<string>,              // display.get('status')
    prevFace: Option<Face>,                  // display.get('face')
    bettercapVersion: string,                // output of `bettercap -version`
    pwngridVersion: string,                  // output of `pwngrid -version`
    appVersion: string,                      // pwnagotchi.version
    arch: string,                            // platform.machine()
    newer: (string, string) -> bool,         // parse_version(a) > parse_version(b)
    releases: string -> PyResult<PyValue>,   // the decoded latest release of a repo
    installEnv: string -> InstallEnv,        // what `install` finds for a repo
    pickLeft: bool,                          // the random face choice
    statusOpenError: Option<Exc>,            // what open(STATUS path, 'w') raises
    encode: PyValue -> string,
    stamp: Instant -> string)

  /** A program the hook keeps up to date. */
  datatype Target = Target(repo: string, native: bool, service: string)

  const Targets: seq<Target> := [
    Target("bettercap/bettercap", true, "bettercap"),
    Target("evilsocket/pwngrid", true, "pwngrid-peer"),
    Target("evilsocket/pwnagotchi", false, "pwnagotchi")
  ]

  /** The local versions, in the order of `Targets`: the second word of
      `bettercap -version` (IndexError when there is none), the whole output
      of `pwngrid -version`, each with every `v` removed, and the package's
      own version unchanged. */
  function LocalVersions(w: World): (r: PyResult<seq<string>>)
    ensures r.Success? ==> |r.value| == |Targets|
    ensures r.Failure? <==> |Split(w.bettercapVersion, ' ')| < 2
    ensures r.Failure? ==> r.error == IndexError
    ensures r.Success? ==> 'v' !in r.value[0] && 'v' !in r.value[1] && r.value[2] == w.appVersion
    ensures r.Success? ==> r.value[1] == RemoveAll(w.pwngridVersion, 'v')
  {
    var words := Split(w.bettercapVersion, ' ');
    if |words| < 2 then Failure(IndexError)
    else Success([RemoveAll(words[1], 'v'), RemoveAll(w.pwngridVersion, 'v'), w.appVersion])
  }

  /** When `bettercap -version` prints its name, its version and more, all
      separated by spaces, the bettercap version is that second word with
      its `v`s removed. */
  lemma LocalVersionsOfOutput(w: World, name: string, version: string, more: string)
    requires ' ' !in name && ' ' !in version
    requires w.bettercapVersion == name + " " + version + " " + more
    ensures LocalVersions(w) == Success([RemoveAll(version, 'v'), RemoveAll(w.pwngridVersion, 'v'), w.appVersion])
  {
    SecondSpaceField(name, version, more);
  }

  /** `check` for each target in turn, with its local version. */
  function Checks(w: World, versions: seq<string>): (checks: seq<PyResult<Info>>)
    requires |versions| == |Targets|
    ensures |checks| == |Targets|
    ensures forall j :: 0 <= j < |Targets| ==>
              checks[j] == Check(versions[j], Targets[j].repo, Targets[j].native, w.arch, w.releases(Targets[j].repo), w.newer)
  {
    seq(|Targets|, j requires 0 <= j < |Targets| =>
      Check(versions[j], Targets[j].repo, Targets[j].native, w.arch, w.releases(Targets[j].repo), w.newer))
  }

  /** The dictionary `check` returned, with the service name added. */
  function ToCandidate(info: Info, service: string): Candidate
    requires info.url.Some?
  {
    Candidate(info.repo, info.current, info.available, info.url.value, info.native, service)
  }

  /** The loop over the first `n` checks in order: those with a download URL
      become candidates. The first `check` that raises ends the loop. */
  function Collect(checks: seq<PyResult<Info>>, n: nat): (r: PyResult<seq<Candidate>>)
    requires n <= |checks| == |Targets|
    ensures r.Success? <==> forall j :: 0 <= j < n ==> checks[j].Success?
    ensures r.Success? ==> |r.value| <= n
  {
    if n == 0 then Success([])
    else
      var before :- Collect(checks, n - 1);
      var info :- checks[n - 1];
      Success(before + if info.url.Some? then [ToCandidate(info, Targets[n - 1].service)] else [])
  }

  /** Every candidate came from a target whose check found a URL, in the
      order of the targets, and every such target gave one. */
  lemma {:induction false} CandidateOrigins(checks: seq<PyResult<Info>>, n: nat) returns (idx: seq<nat>)
    requires n <= |checks| == |Targets|
    requires Collect(checks, n).Success?
    ensures var cands := Collect(checks, n).value;
            && |idx| == |cands|
            && (forall k :: 0 <= k < |idx| ==>
                  && idx[k] < n
                  && checks[idx[k]].value.url.Some?
                  && cands[k] == ToCandidate(checks[idx[k]].value, Targets[idx[k]].service))
            && (forall k, l :: 0 <= k < l < |idx| ==> idx[k] < idx[l])
            && (forall j :: 0 <= j < n && checks[j].value.url.Some? ==> j in idx)
  {
    idx := [];
    if n > 0 {
      var prev := CandidateOrigins(checks, n - 1);
      if checks[n - 1].value.url.Some? {
        idx := prev + [n - 1];
      } else {
        idx := prev;
      }
    }
  }

  // ---------------------------------------------------------------- installing

  /** `install` for one candidate, with what it finds for that repository. */
  function InstallOne(w: World, c: Candidate): (r: Run<bool>)
    ensures Harmless(r.trace)
  {
    Install(c, w.installEnv(c.repo))
  }

  /** The runs of `install` over the candidates, one per candidate. */
  function Installs(w: World, cands: seq<Candidate>): (runs: seq<Run<bool>>)
    ensures |runs| == |cands|
    ensures forall i :: 0 <= i < |runs| ==> runs[i] == InstallOne(w, cands[i])
    ensures forall i :: 0 <= i < |runs| ==> Harmless(runs[i].trace)
  {
    seq(|cands|, i requires 0 <= i < |cands| => InstallOne(w, cands[i]))
  }

  /** The positions among the first `k` runs where `install` returned True. */
  function TrueRuns(runs: seq<Run<bool>>, k: nat): set<nat>
    requires k <= |runs|
  {
    set i: nat | i < k && runs[i].result == Success(true)
  }

  /** The effects of the first `k` runs, one after the other. */
  function Traces(runs: seq<Run<bool>>, k: nat): seq<Effect>
    requires k <= |runs|
  {
    if k == 0 then [] else Traces(runs, k - 1) + runs[k - 1].trace
  }

  lemma TrueRunsStep(runs: seq<Run<bool>>, k: nat)
    requires 0 < k <= |runs|
    ensures k - 1 !in TrueRuns(runs, k - 1)
    ensures TrueRuns(runs, k) ==
              TrueRuns(runs, k - 1) + if runs[k - 1].result == Success(true) then {k - 1} else {}
  {
  }

  /** The install loop over the first `k` runs, counting the ones that
      return True. The first run that raises ends the loop; the effects
      performed so far stand. */
  function Tally(runs: seq<Run<bool>>, k: nat): (r: Run<nat>)
    requires k <= |runs|
    ensures r.result.Success? <==> forall i :: 0 <= i < k ==> runs[i].result.Success?
    ensures r.result.Success? ==> r.result.value == |TrueRuns(runs, k)| <= k
    ensures r.result.Success? ==> r.trace == Traces(runs, k)
    ensures (forall i :: 0 <= i < k ==> Harmless(runs[i].trace)) ==> Harmless(r.trace)
  {
    if k == 0 then Run(Success(0), [])
    else
      var prev := Tally(runs, k - 1);
      if prev.result.Failure? then prev
      else
        TrueRunsStep(runs, k);
        var one := runs[k - 1];
        var result := match one.result
          case Failure(e) => Failure(e)
          case Success(ok) => Success(prev.result.value + if ok then 1 else 0);
        Run(result, prev.trace + one.trace)
  }

  /** When every run returns True, every one counts. */
  lemma {:induction false} TallyCountsSuccesses(runs: seq<Run<bool>>, k: nat)
    requires k <= |runs|
    requires forall i :: 0 <= i < k ==> runs[i].result == Success(true)
    ensures Tally(runs, k).result == Success(k)
  {
    if k > 0 {
      TallyCountsSuccesses(runs, k - 1);
    }
  }

  /** The first run that raises ends the loop with its exception, after the
      effects of the runs up to and including it. */
  lemma {:induction false} TallyStopsAtFirstFailure(runs: seq<Run<bool>>, k: nat, j: nat)
    requires j < k <= |runs|
    requires runs[j].result.Failure? && forall i :: 0 <= i < j ==> runs[i].result.Success?
    ensures Tally(runs, k) == Run(Failure(runs[j].result.error), Traces(runs, j + 1))
  {
    if k > j + 1 {
      TallyStopsAtFirstFailure(runs, k - 1, j);
    }
  }

  /** The positions of the candidates whose `install` returned True. */
  function Installed(w: World, cands: seq<Candidate>): set<nat> {
    TrueRuns(Installs(w, cands), |cands|)
  }

  /** The numbers below `n`. */
  function Below(n: nat): (r: set<nat>)
    ensures forall i :: i in r <==> 0 <= i < n
    ensures |r| == n
  {
    if n == 0 then {} else Below(n - 1) + {n - 1}
  }

  // ---------------------------------------------------------------- the hook

  /** How a run of the hook ends. `Raised` is an exception outside the
      `try` block, which propagates out of the hook; `NoOp` returns before
      touching the display; `Aborted` is a caught exception, and
      `Finalized` a completed check. `trace` is every effect in order,
      ending with the display restore both times, and `status` is the
      status file object afterwards. */
  datatype Outcome =
    | Raised(error: Exc)
    | NoOp
    | Aborted(caught: Exc, trace: seq<Effect>, status: StatusFile)
    | Finalized(found: nat, installed: nat, reboot: bool, trace: seq<Effect>, status: StatusFile)

  const CheckingStatus: string := "Checking for updates ..."
  const RebootingStatus: string := "Installed! Rebooting ..."

  /** The display update after the `try` block: the previous status and
      face, with `''` and the awake face for missing ones. */
  function Restore(status: Option<string>, face: Option<Face>): (r: Effect)
    ensures r.Display?
    ensures status.Some? ==> r.status == status.value
    ensures status.None? ==> r.status == ""
    ensures face.Some? ==> r.face == face.value
    ensures face.None? ==> r.face == Awake
  {
    Display(status.GetOr(""), face.GetOr(Awake))
  }

  /** `config['ui']['faces']`, which is read before anything else. */
  function FacesConfig(config: PyValue): PyResult<PyValue> {
    var ui :- GetItem(config, "ui");
    GetItem(ui, "faces")
  }

  /** `STATUS.newer_then_hours(OPTIONS['interval'])`. */
  function Throttled(w: World): PyResult<bool> {
    var interval :- GetItem(PDict(w.options), "interval");
    NewerThenHours(w.status, w.now, interval)
  }

  /** The status file object once `STATUS.update()` has run, whether or not
      the file could be written. */
  function Stamped(w: World): StatusFile {
    w.status.(updated := Some(w.updatedAt), data := PNone)
  }

  /** The end of the `try` block once the status file is written: when
      something was installed, the reboot is announced and performed. */
  function Closing(installed: nat): (t: seq<Effect>)
    ensures |t| > 0 && t[0] == WriteStatus
    ensures Reboot in t <==> installed > 0
  {
    if installed > 0 then [WriteStatus, Display(RebootingStatus, Friend), Reboot] else [WriteStatus]
  }

  /** Where the `try` block stands when it reaches `STATUS.update()`: the
      counts, and the status and face the display is to be restored to. */
  datatype Completed = Completed(found: nat, installed: nat, restoreStatus: Option<string>, restoreFace: Option<Face>)

  /** The `try` block from line 220 to `STATUS.update()`, once the
      candidates are known. */
  function Deliver(w: World, rev: Revision, shown: seq<Effect>, cands: seq<Candidate>): (r: Run<Completed>)
    requires Harmless(shown)
    ensures Harmless(r.trace) && shown <= r.trace
    ensures r.result.Success? ==> r.result.value.found == |cands| && r.result.value.installed <= |cands|
    ensures |cands| == 0 ==> r == Run(Success(Completed(0, 0, w.prevStatus, w.prevFace)), shown)
    ensures |cands| > 0 && "install" !in w.options ==> r == Run(Failure(KeyError), shown)
    ensures |cands| > 0 && "install" in w.options && Truthy(w.options["install"]) ==>
              r == InstallEvery(w, shown, cands)
    ensures |cands| > 0 && "install" in w.options && !Truthy(w.options["install"]) ==>
              && r.trace == shown
              && (r.result.Success? <==> UpdatesMessage(rev, |cands|).Success?)
              && (r.result.Failure? ==> r.result.error == TypeError)
              && (r.result.Success? ==>
                    r.result.value == Completed(|cands|, 0, Some(UpdatesMessage(rev, |cands|).value), Some(Motivated)))
  {
    var n := |cands|;
    if n == 0 then Run(Success(Completed(0, 0, w.prevStatus, w.prevFace)), shown)
    else if "install" !in w.options then Run(Failure(KeyError), shown)
    else if Truthy(w.options["install"]) then InstallEvery(w, shown, cands)
    else
      match UpdatesMessage(rev, n)
      case Failure(e) => Run(Failure(e), shown)
      case Success(msg) => Run(Success(Completed(n, 0, Some(msg), Some(Motivated))), shown)
  }

  /** The `try` block when the `install` option is set: every candidate is
      installed in turn, and the ones whose `install` returned True are
      counted. An `install` that raises ends the block. */
  function InstallEvery(w: World, shown: seq<Effect>, cands: seq<Candidate>): (r: Run<Completed>)
    requires Harmless(shown)
    ensures Harmless(r.trace) && shown <= r.trace
    ensures r.result.Success? <==> forall i :: 0 <= i < |cands| ==> Installs(w, cands)[i].result.Success?
    ensures r.result.Success? ==>
              && r.result.value == Completed(|cands|, |Installed(w, cands)|, w.prevStatus, w.prevFace)
              && r.trace == shown + Traces(Installs(w, cands), |cands|)
              && |Installed(w, cands)| <= |cands|
  {
    var runs := Installs(w, cands);
    var installs := Tally(runs, |cands|);
    assert Harmless(installs.trace);
    var work := shown + installs.trace;
    assert Harmless(work);
    match installs.result
    case Failure(e) => Run(Failure(e), work)
    case Success(count) => Run(Success(Completed(|cands|, count, w.prevStatus, w.prevFace)), work)
  }

  /** The `try` block up to `STATUS.update()`. */
  function TryBlock(w: World, rev: Revision): (r: Run<Completed>)
    ensures Harmless(r.trace)
    ensures r.result.Success? ==>
              && |r.trace| > 0 && r.trace[0].Display?
              && r.result.value.installed <= r.result.value.found <= |Targets|
    ensures !rev.faceCallFixed ==> r == Run(Failure(TypeError), [])
    ensures r.result.Success? && "install" in w.options && Truthy(w.options["install"]) ==>
              r.result.value.restoreStatus == w.prevStatus && r.result.value.restoreFace == w.prevFace
  {
    match CheckingFace(rev, w.pickLeft)
    case Failure(e) => Run(Failure(e), [])
    case Success(face) =>
      var shown := [Display(CheckingStatus, face)];
      match LocalVersions(w)
      case Failure(e) => Run(Failure(e), shown)
      case Success(versions) =>
        match Collect(Checks(w, versions), |Targets|)
        case Failure(e) => Run(Failure(e), shown)
        case Success(cands) => Deliver(w, rev, shown, cands)
  }

  /** The `try` block with its closing steps, and the display restore after
      it. `STATUS.update()` stamps the object before it opens the file, so a
      failure to open it still records the check time in memory; it then
      skips the reboot. The restore shows whatever `prev_status` and
      `prev_face` hold when control leaves the block. */
  function Attempt(w: World, rev: Revision): (r: Outcome)
    ensures r.Aborted? || r.Finalized?
    ensures r.Finalized? <==> TryBlock(w, rev).result.Success? && w.statusOpenError.None?
    ensures r.Aborted? ==> Harmless(r.trace) && |r.trace| > 0 && r.trace[|r.trace| - 1].Display?
    ensures var body := TryBlock(w, rev).result;
            r.Aborted? && body.Failure? ==>
              && r.caught == body.error
              && r.status == w.status
              && r.trace[|r.trace| - 1] == Restore(w.prevStatus, w.prevFace)
    ensures r.Aborted? && TryBlock(w, rev).result.Success? ==>
              r.caught == w.statusOpenError.value && r.status == Stamped(w)
    ensures var body := TryBlock(w, rev).result;
            r.Finalized? ==>
              && r.found == body.value.found
              && r.installed == body.value.installed
              && (r.reboot <==> r.installed > 0)
              && r.installed <= r.found <= |Targets|
              && r.status == Stamped(w)
    ensures !rev.faceCallFixed ==> r == Aborted(TypeError, [Restore(w.prevStatus, w.prevFace)], w.status)
  {
    Conclude(w, TryBlock(w, rev))
  }

  /** How a run ends once its `try` block has run as `body`. */
  function Conclude(w: World, body: Run<Completed>): (r: Outcome)
    requires Harmless(body.trace)
    ensures r.Aborted? || r.Finalized?
    ensures r.Finalized? <==> body.result.Success? && w.statusOpenError.None?
    ensures r.Aborted? ==> Harmless(r.trace) && |r.trace| > 0 && r.trace[|r.trace| - 1].Display?
    ensures r.Aborted? && body.result.Failure? ==>
              && r.caught == body.result.error
              && r.status == w.status
              && r.trace == body.trace + [Restore(w.prevStatus, w.prevFace)]
    ensures r.Aborted? && body.result.Success? ==>
              r.caught == w.statusOpenError.value && r.status == Stamped(w)
    ensures r.Finalized? ==>
              && r.found == body.result.value.found
              && r.installed == body.result.value.installed
              && (r.reboot <==> r.installed > 0)
              && r.status == Stamped(w)
  {
    match body.result
    case Failure(e) => Aborted(e, body.trace + [Restore(w.prevStatus, w.prevFace)], w.status)
    case Success(done) => RecordAndRestore(w, done, body.trace)
  }

  /** `STATUS.update()`, the reboot when something was installed, and the
      display restore, after the `work` of a `try` block that got as far as
      line 234. */
  function RecordAndRestore(w: World, done: Completed, work: seq<Effect>): (r: Outcome)
    requires Harmless(work)
    ensures w.statusOpenError.Some? ==>
              r == Aborted(w.statusOpenError.value, work + [Restore(done.restoreStatus, done.restoreFace)], Stamped(w))
    ensures w.statusOpenError.None? ==>
              r == Finalized(done.found, done.installed, done.installed > 0,
                             work + Closing(done.installed) + [Restore(done.restoreStatus, done.restoreFace)], Stamped(w))
  {
    var restore := Restore(done.restoreStatus, done.restoreFace);
    var u := Update(w.status, w.updatedAt, PNone, w.statusOpenError, w.encode, w.stamp);
    match u.raised
    case Some(e) => Aborted(e, work + [restore], u.state)
    case None =>
      Finalized(done.found, done.installed, done.installed > 0, work + Closing(done.installed) + [restore], u.state)
  }

  /** `on_internet_available(agent)`. */
  function Cycle(w: World, rev: Revision): (r: Outcome)
    ensures FacesConfig(w.config).Failure? ==> r == Raised(FacesConfig(w.config).error)
    ensures FacesConfig(w.config).Success? && !w.ready ==> r.NoOp?
    ensures r.Raised? ==> FacesConfig(w.config).Failure? || (w.ready && Throttled(w).Failure?)
    ensures FacesConfig(w.config).Success? && w.ready && Throttled(w).Failure? ==> r == Raised(Throttled(w).error)
    ensures r.Aborted? || r.Finalized? <==> FacesConfig(w.config).Success? && w.ready && Throttled(w) == Success(false)
    ensures r.Aborted? || r.Finalized? ==> r == Attempt(w, rev)
  {
    match FacesConfig(w.config)
    case Failure(e) => Raised(e)
    case Success(_) =>
      if !w.ready then NoOp
      else
        match Throttled(w)
        case Failure(e) => Raised(e)
        case Success(recent) => if recent then NoOp else Attempt(w, rev)
  }

  // ---------------------------------------------------------------- properties

  /** As written, every run that gets past the throttle raises at the face
      choice: the display is restored straight away and the status file is
      never written, so the check time is never recorded and nothing is
      ever installed. */
  lemma AsWrittenNeverCompletes(w: World)
    ensures var r := Cycle(w, AsWritten);
            && !r.Finalized?
            && (r.Aborted? ==> r == Aborted(TypeError, [Restore(w.prevStatus, w.prevFace)], w.status))
  {
  }

  /** Once the face call is corrected and the versions and checks succeed,
      the `try` block goes on to deliver the candidates. */
  lemma TryBlockDelivers(w: World, rev: Revision, versions: seq<string>)
    requires rev.faceCallFixed && LocalVersions(w) == Success(versions)
    requires Collect(Checks(w, versions), |Targets|).Success?
    ensures TryBlock(w, rev) ==
              Deliver(w, rev, [Display(CheckingStatus, CheckingFace(rev, w.pickLeft).value)],
                      Collect(Checks(w, versions), |Targets|).value)
  {
  }

  /** Corrected, a run that finds no update completes: it shows the
      checking face, writes the status file, does not reboot, and restores
      the display. */
  lemma NoUpdatesCompletes(w: World, rev: Revision, versions: seq<string>)
    requires FacesConfig(w.config).Success? && w.ready && Throttled(w) == Success(false)
    requires rev.faceCallFixed && LocalVersions(w) == Success(versions)
    requires Collect(Checks(w, versions), |Targets|) == Success([])
    requires w.statusOpenError.None?
    ensures Cycle(w, rev) ==
              Finalized(0, 0, false,
                        [Display(CheckingStatus, CheckingFace(rev, w.pickLeft).value), WriteStatus,
                         Restore(w.prevStatus, w.prevFace)],
                        Stamped(w))
  {
    TryBlockDelivers(w, rev, versions);
  }

  /** Some `install` returned True exactly when the set of those that did
      is not empty. */
  lemma SomeInstalled(w: World, cands: seq<Candidate>)
    ensures |Installed(w, cands)| > 0 <==>
              exists i :: 0 <= i < |cands| && Installs(w, cands)[i].result == Success(true)
  {
    var done := Installed(w, cands);
    var runs := Installs(w, cands);
    if |done| > 0 {
      var i :| i in done;
      assert 0 <= i < |cands| && runs[i].result == Success(true);
    } else {
      forall i | 0 <= i < |cands|
        ensures runs[i].result != Success(true)
      {
        assert i !in done;
      }
    }
  }

  /** With the install option on, a `try` block that completes counts
      exactly the candidates whose `install` returned True. */
  lemma DeliverCountsTrueInstalls(w: World, rev: Revision, shown: seq<Effect>, cands: seq<Candidate>)
    requires Harmless(shown) && Deliver(w, rev, shown, cands).result.Success?
    requires "install" in w.options && Truthy(w.options["install"])
    ensures Deliver(w, rev, shown, cands).result.value.installed == |Installed(w, cands)|
  {
    if |cands| == 0 {
      assert Installed(w, cands) == {};
    }
  }

  /** When every `install` returns True, the loop counts every candidate. */
  lemma AllTrueCountsEvery(w: World, shown: seq<Effect>, cands: seq<Candidate>)
    requires Harmless(shown)
    requires forall i :: 0 <= i < |cands| ==> Installs(w, cands)[i].result == Success(true)
    ensures InstallEvery(w, shown, cands).result == Success(Completed(|cands|, |cands|, w.prevStatus, w.prevFace))
  {
    assert Installed(w, cands) == Below(|cands|);
  }

  /** A `try` block that completes is followed, when the status file can be
      opened, by its closing steps and the display restore. */
  lemma CompletedBlockFinalizes(w: World, rev: Revision)
    requires TryBlock(w, rev).result.Success? && w.statusOpenError.None?
    ensures var done := TryBlock(w, rev).result.value;
            Attempt(w, rev) ==
              Finalized(done.found, done.installed, done.installed > 0,
                        TryBlock(w, rev).trace + Closing(done.installed) + [Restore(done.restoreStatus, done.restoreFace)],
                        Stamped(w))
  {
  }

  /** A `try` block that completes having installed something is followed,
      when the status file can be opened, by the reboot. */
  lemma InstallsReboot(w: World, rev: Revision, n: nat)
    requires n > 0 && TryBlock(w, rev).result == Success(Completed(n, n, w.prevStatus, w.prevFace))
    requires w.statusOpenError.None?
    ensures var r := Attempt(w, rev);
            r.Finalized? && r.reboot && Reboot in r.trace && r.installed == r.found == n
  {
    CompletedBlockFinalizes(w, rev);
  }

  /** With the install option on, a `try` block that installs every one of
      its candidates, all returning True, is followed by the reboot. */
  lemma DeliveredInstallsReboot(w: World, rev: Revision, shown: seq<Effect>, cands: seq<Candidate>)
    requires Harmless(shown) && TryBlock(w, rev) == Deliver(w, rev, shown, cands)
    requires |cands| > 0 && forall i :: 0 <= i < |cands| ==> Installs(w, cands)[i].result == Success(true)
    requires "install" in w.options && Truthy(w.options["install"])
    requires w.statusOpenError.None?
    ensures var r := Attempt(w, rev);
            r.Finalized? && r.reboot && Reboot in r.trace && r.installed == r.found == |cands|
  {
    AllTrueCountsEvery(w, shown, cands);
    InstallsReboot(w, rev, |cands|);
  }

  /** With the install option on, a completed run counts exactly the
      candidates whose `install` returned True. */
  lemma InstalledCountsTrueInstalls(w: World, rev: Revision, versions: seq<string>, cands: seq<Candidate>)
    requires Cycle(w, rev).Finalized?
    requires rev.faceCallFixed && LocalVersions(w) == Success(versions)
    requires Collect(Checks(w, versions), |Targets|) == Success(cands)
    requires "install" in w.options && Truthy(w.options["install"])
    ensures Cycle(w, rev).installed == |Installed(w, cands)|
  {
    var shown := [Display(CheckingStatus, CheckingFace(rev, w.pickLeft).value)];
    FinalizedCountsBlock(w, rev);
    TryBlockDelivers(w, rev, versions);
    DeliverCountsTrueInstalls(w, rev, shown, cands);
  }

  /** A finalized run counts what its `try` block counted. */
  lemma FinalizedCountsBlock(w: World, rev: Revision)
    requires Cycle(w, rev).Finalized?
    ensures TryBlock(w, rev).result.Success?
    ensures Cycle(w, rev).installed == TryBlock(w, rev).result.value.installed
  {
    assert Cycle(w, rev) == Attempt(w, rev);
  }

  /** With the install option on, a completed run reboots exactly when some
      candidate's `install` returned True. */
  lemma RebootIffSomeInstallReturnedTrue(w: World, rev: Revision, versions: seq<string>, cands: seq<Candidate>)
    requires Cycle(w, rev).Finalized?
    requires rev.faceCallFixed && LocalVersions(w) == Success(versions)
    requires Collect(Checks(w, versions), |Targets|) == Success(cands)
    requires "install" in w.options && Truthy(w.options["install"])
    ensures Cycle(w, rev).reboot <==> exists i :: 0 <= i < |cands| && Installs(w, cands)[i].result == Success(true)
  {
    InstalledCountsTrueInstalls(w, rev, versions, cands);
    SomeInstalled(w, cands);
  }

  /** With the install option on, a completed run in which every `install`
      returned True counts them all and reboots. */
  lemma EveryInstallReboots(w: World, rev: Revision, versions: seq<string>, cands: seq<Candidate>)
    requires FacesConfig(w.config).Success? && w.ready && Throttled(w) == Success(false)
    requires rev.faceCallFixed && LocalVersions(w) == Success(versions)
    requires Collect(Checks(w, versions), |Targets|) == Success(cands)
    requires |cands| > 0 && forall i :: 0 <= i < |cands| ==> Installs(w, cands)[i].result == Success(true)
    requires "install" in w.options && Truthy(w.options["install"])
    requires w.statusOpenError.None?
    ensures var r := Cycle(w, rev);
            && r.Finalized? && r.reboot && Reboot in r.trace
            && r.installed == r.found == |cands|
  {
    var shown := [Display(CheckingStatus, CheckingFace(rev, w.pickLeft).value)];
    TryBlockDelivers(w, rev, versions);
    DeliveredInstallsReboot(w, rev, shown, cands);
  }

  /** When the status file cannot be opened, the run is aborted after the
      `try` block's work: nothing is written and nobody reboots, even after
      successful installs, but the check time is recorded in memory when
      the block got as far as `STATUS.update()`. */
  lemma StatusWriteFailureSkipsReboot(w: World, rev: Revision)
    requires FacesConfig(w.config).Success? && w.ready && Throttled(w) == Success(false)
    requires w.statusOpenError.Some?
    ensures var r := Cycle(w, rev);
            && r.Aborted? && Reboot !in r.trace && WriteStatus !in r.trace
            && (TryBlock(w, rev).result.Success? ==> r.caught == w.statusOpenError.value && r.status == Stamped(w))
  {
    var r := Cycle(w, rev);
    assert Harmless(r.trace);
  }

  /** When the display showed no status and no face before the run, it is
      restored to `''` and the awake face: after an exception in the `try`
      block, and after any run with the install option on, which keeps the
      previous display for the restore. */
  lemma EmptyDisplayRestoredWithDefaults(w: World, rev: Revision)
    requires w.prevStatus.None? && w.prevFace.None?
    requires Cycle(w, rev).Aborted? || Cycle(w, rev).Finalized?
    requires TryBlock(w, rev).result.Failure? || ("install" in w.options && Truthy(w.options["install"]))
    ensures var t := Cycle(w, rev).trace;
            |t| > 0 && t[|t| - 1] == Display("", Awake)
  {
    var body := TryBlock(w, rev);
    assert Cycle(w, rev) == Attempt(w, rev);
    if body.result.Success? {
      assert Attempt(w, rev) == RecordAndRestore(w, body.result.value, body.trace);
    }
  }

  /** With both lines corrected but the format as written, announcing a
      single update raises, and the announcement never replaces the status
      on the display. */
  lemma SingleUpdateRaisesAsWritten(w: World, versions: seq<string>)
    requires FacesConfig(w.config).Success? && w.ready && Throttled(w) == Success(false)
    requires LocalVersions(w) == Success(versions)
    requires Collect(Checks(w, versions), |Targets|).Success? && |Collect(Checks(w, versions), |Targets|).value| == 1
    requires "install" in w.options && !Truthy(w.options["install"])
    ensures var face := CheckingFace(Corrected, w.pickLeft).value;
            Cycle(w, Revision(true, false)) ==
              Aborted(TypeError, [Display(CheckingStatus, face), Restore(w.prevStatus, w.prevFace)], w.status)
  {
    var rev := Revision(true, false);
    var shown := [Display(CheckingStatus, CheckingFace(rev, w.pickLeft).value)];
    TryBlockDelivers(w, rev, versions);
    assert Deliver(w, rev, shown, Collect(Checks(w, versions), |Targets|).value) == Run(Failure(TypeError), shown);
  }

  /** With both lines corrected, a single update is announced with the
      motivated face once the check time is recorded. */
  lemma SingleUpdateAnnounced(w: World, versions: seq<string>)
    requires FacesConfig(w.config).Success? && w.ready && Throttled(w) == Success(false)
    requires LocalVersions(w) == Success(versions)
    requires Collect(Checks(w, versions), |Targets|).Success? && |Collect(Checks(w, versions), |Targets|).value| == 1
    requires "install" in w.options && !Truthy(w.options["install"])
    requires w.statusOpenError.None?
    ensures var r := Cycle(w, Corrected);
            && r.Finalized? && r.found == 1 && r.installed == 0 && !r.reboot
            && r.trace[|r.trace| - 1] == Display(UpdatesMessage(Corrected, 1).value, Motivated)
            && WriteStatus in r.trace
  {
    var shown := [Display(CheckingStatus, CheckingFace(Corrected, w.pickLeft).value)];
    TryBlockDelivers(w, Corrected, versions);
    var r := Cycle(w, Corrected);
    assert r.trace == shown + [WriteStatus] + [r.trace[|r.trace| - 1]];
  }

  /** A completed run writes the status file exactly once, after everything
      else the `try` block did and before the reboot announcement, and the
      restore is the last effect. */
  lemma CompletedRunShape(w: World, rev: Revision) returns (work: seq<Effect>, last: Effect)
    requires Cycle(w, rev).Finalized?
    ensures var r := Cycle(w, rev);
            && Harmless(work) && last.Display?
            && r.trace == work + Closing(r.installed) + [last]
  {
    var body := TryBlock(w, rev);
    var done := body.result.value;
    work := body.trace;
    last := Restore(done.restoreStatus, done.restoreFace);
  }

  /** When the `install` option is off, a completed run that found updates
      installs nothing, does not reboot, and leaves the announcement and the
      motivated face on the display. */
  lemma AnnounceInsteadOfInstall(w: World, rev: Revision)
    requires Cycle(w, rev).Finalized? && Cycle(w, rev).found > 0
    requires "install" in w.options && !Truthy(w.options["install"])
    ensures var r := Cycle(w, rev);
            && r.installed == 0 && !r.reboot
            && UpdatesMessage(rev, r.found).Success?
            && r.trace[|r.trace| - 1] == Display(UpdatesMessage(rev, r.found).value, Motivated)
  {
    var body := TryBlock(w, rev);
    var face := CheckingFace(rev, w.pickLeft).value;
    var versions := LocalVersions(w).value;
    var cands := Collect(Checks(w, versions), |Targets|).value;
    assert body == Deliver(w, rev, [Display(CheckingStatus, face)], cands);
  }

  /** A run that got as far as `STATUS.update()` records the check time,
      whether or not the file could be written, so with a positive interval
      a run from the state it leaves, at the instant `STATUS.update()` read,
      is throttled. */
  lemma RecordedCheckThrottlesNext(w: World, rev: Revision, h: int, next: Revision)
    requires TryBlock(w, rev).result.Success?
    requires FacesConfig(w.config).Success? && w.ready && Throttled(w) == Success(false)
    requires "interval" in w.options && w.options["interval"] == PInt(h) && h > 0
    ensures var r := Cycle(w, rev);
            && (r.Aborted? || r.Finalized?) && r.status == Stamped(w)
            && Cycle(w.(status := r.status, now := w.updatedAt), next) == NoOp
  {
    var r := Cycle(w, rev);
    JustUpdatedIsNewer(w.status, w.updatedAt, PNone, w.statusOpenError, w.encode, w.stamp, h);
    assert Throttled(w.(status := r.status, now := w.updatedAt)) == Success(true);
  }

  /** The next cool-down counts from the time `STATUS.update()` read, not
      from the time the run started: within a day of it, a later run is
      throttled exactly when fewer than `h` hours have passed since then. */
  lemma CooldownCountsFromStamp(w: World, rev: Revision, h: int, later: Instant)
    requires TryBlock(w, rev).result.Success?
    requires FacesConfig(w.config).Success? && w.ready && Throttled(w) == Success(false)
    requires "interval" in w.options && w.options["interval"] == PInt(h)
    requires w.updatedAt <= later < w.updatedAt + MicrosPerDay
    ensures var r := Cycle(w, rev);
            Throttled(w.(status := r.status, now := later)) ==
              Success(later - w.updatedAt < h * 3600 * MicrosPerSecond)
  {
    var r := Cycle(w, rev);
    assert r.status == Stamped(w);
    HoursWithinADay(Stamped(w), later, h);
  }

}
