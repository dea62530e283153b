/**
 * The decision functions of the auto-update plugin
 * (pwnagotchi/plugins/default/auto-update.py): `on_loaded`, `check` (which
 * release is available and where to download it), `verify` (the checksum
 * gate) and `install` (the steps it takes and whether it reports success).
 *
 * Everything the plugin asks of the outside world is a parameter: the
 * decoded GitHub release document, the version order, the contents of the
 * checksum files, the output of `sha256sum` and `which`, and whether paths
 * exist. What the plugin does to the world (display updates, shell commands,
 * directory removal and creation) is returned as a trace of effects.
 */
module AutoUpdate {
  import opened Wrappers
  import opened Python
  import opened Text
  import Versions

  // ---------------------------------------------------------------- effects

  /** The faces the plugin shows; `Shown` is whatever face the display held
      before the plugin took it over. */
  datatype Face = LookL | LookR | Motivated | Excited | Smart | Intense | Friend | Awake | Shown(glyph: string)

  /** What the plugin does to the world, in order. */
  datatype Effect =
    | Display(status: string, face: Face)   // display.update(force=True, new_data=...)
    | System(command: string)               // os.system(command)
    | RemoveTree(path: string)              // shutil.rmtree(path, ignore_errors=True)
    | MakeDirs(path: string)                // os.makedirs(path)
    | WriteStatus                           // STATUS.update()
    | Reboot                                // pwnagotchi.reboot()

  /** A computation's outcome together with the effects it had performed,
      which stand even when it raised. */
  datatype Run<T> = Run(result: PyResult<T>, trace: seq<Effect>)

  // ---------------------------------------------------------------- on_loaded

  /** The `interval` option is configured: present and not None. */
  predicate IntervalSet(options: map<string, PyValue>) {
    "interval" in options && options["interval"] != PNone
  }

  /** `on_loaded()`: READY becomes true when the interval is configured;
      otherwise the function returns early and READY keeps its value. */
  function OnLoaded(options: map<string, PyValue>, ready: bool): (r: bool)
    ensures IntervalSet(options) ==> r
    ensures !IntervalSet(options) ==> r == ready
  {
    if !("interval" in options) || ("interval" in options && options["interval"] == PNone) then ready
    else true
  }

  // ---------------------------------------------------------------- check

  /** The dictionary `check` returns. `available` is always set on return
      (the only way to leave `None` there is to raise). */
  datatype Info = Info(repo: string, current: string, available: string, url: Option<string>, native: bool, arch: string)

  /** `latest['tag_name']`, which must be a string for `.replace` to exist. */
  function Tag(latest: PyValue): (r: PyResult<string>)
    ensures r.Success? <==> latest.PDict? && "tag_name" in latest.entries && latest.entries["tag_name"].PStr?
    ensures r.Success? ==> r.value == latest.entries["tag_name"].s
  {
    var tag :- GetItem(latest, "tag_name");
    AsStr(tag)
  }

  /** The source archive GitHub serves for a tag. */
  function ArchiveUrl(repo: string, tag: string): string {
    "https://github.com/" + repo + "/archive/" + tag + ".zip"
  }

  /** An asset a device of architecture `arch` can use: a `.zip` whose URL
      names the architecture, or, on any ARM machine, names `armhf`. */
  predicate Compatible(url: string, arch: string) {
    EndsWith(url, ".zip") && (Contains(url, arch) || (StartsWith(arch, "arm") && Contains(url, "armhf")))
  }

  /** `asset['browser_download_url']`, which must be a string for
      `.endswith` to exist. */
  function AssetUrl(asset: PyValue): PyResult<string> {
    var url :- GetItem(asset, "browser_download_url");
    AsStr(url)
  }

  /** The loop reads this asset's URL and moves on to the next one. */
  predicate Passed(asset: PyValue, arch: string) {
    AssetUrl(asset).Success? && !Compatible(AssetUrl(asset).value, arch)
  }

  /** The asset loop over a list: the first compatible URL, None when no
      asset matches, or the exception reading an asset's URL raised. */
  function SelectAsset(assets: seq<PyValue>, arch: string): (r: PyResult<Option<string>>)
    ensures r.Success? && r.value.Some? ==> Compatible(r.value.value, arch)
    ensures r == Success(None) <==> forall i :: 0 <= i < |assets| ==> Passed(assets[i], arch)
  {
    if |assets| == 0 then Success(None)
    else
      var url :- AssetUrl(assets[0]);
      if Compatible(url, arch) then Success(Some(url)) else SelectAsset(assets[1..], arch)
  }

  /** The first asset the loop does not pass over decides its outcome. */
  lemma {:induction false} FirstDecisiveAsset(assets: seq<PyValue>, arch: string) returns (i: nat)
    ensures i <= |assets|
    ensures forall j :: 0 <= j < i ==> Passed(assets[j], arch)
    ensures i == |assets| ==> SelectAsset(assets, arch) == Success(None)
    ensures i < |assets| && AssetUrl(assets[i]).Failure? ==> SelectAsset(assets, arch) == Failure(AssetUrl(assets[i]).error)
    ensures i < |assets| && AssetUrl(assets[i]).Success? ==>
              Compatible(AssetUrl(assets[i]).value, arch) && SelectAsset(assets, arch) == Success(Some(AssetUrl(assets[i]).value))
  {
    if |assets| == 0 || !Passed(assets[0], arch) {
      i := 0;
    } else {
      var k := FirstDecisiveAsset(assets[1..], arch);
      i := k + 1;
      assert forall j :: 1 <= j < i ==> assets[j] == assets[1..][j - 1];
    }
  }

  /** `for asset in latest['assets']`. Iterating a string gives one-character
      strings and iterating a dictionary gives its string keys; indexing
      either with a string raises TypeError, so for them only emptiness
      matters. None, booleans and integers are not iterable. */
  function AssetsUrl(assets: PyValue, arch: string): (r: PyResult<Option<string>>)
    ensures assets.PList? ==> r == SelectAsset(assets.items, arch)
    ensures assets.PStr? ==> r == if |assets.s| == 0 then Success(None) else Failure(TypeError)
    ensures assets.PDict? ==> r == if |assets.entries| == 0 then Success(None) else Failure(TypeError)
    ensures assets.PNone? || assets.PBool? || assets.PInt? ==> r == Failure(TypeError)
  {
    match assets
    case PList(items) => SelectAsset(items, arch)
    case PStr(s) => if |s| == 0 then Success(None) else Failure(TypeError)
    case PDict(m) => if |m| == 0 then Success(None) else Failure(TypeError)
    case _ => Failure(TypeError)
  }

  /** Where the update is downloaded from, once the remote version is known
      to be newer: the tag's source archive for a non-native repository,
      the first compatible asset for a native one. */
  function DownloadUrl(latest: PyValue, repo: string, tag: string, native: bool, arch: string): (r: PyResult<Option<string>>)
    ensures !native ==> r == Success(Some(ArchiveUrl(repo, tag)))
    ensures native && latest.PDict? && "assets" !in latest.entries ==> r == Failure(KeyError)
    ensures native && latest.PDict? && "assets" in latest.entries ==> r == AssetsUrl(latest.entries["assets"], arch)
  {
    if !native then Success(Some(ArchiveUrl(repo, tag)))
    else
      var assets :- GetItem(latest, "assets");
      AssetsUrl(assets, arch)
  }

  /** `check(version, repo, native)`. `response` is what fetching and
      decoding the latest release gave (or raised); `newer(remote, local)`
      is `parse_version(remote) > parse_version(local)`. */
  function Check(current: string, repo: string, native: bool, arch: string,
                 response: PyResult<PyValue>, newer: (string, string) -> bool): (r: PyResult<Info>)
    ensures response.Failure? ==> r == Failure(response.error)
    ensures response.Success? && Tag(response.value).Failure? ==> r == Failure(Tag(response.value).error)
    ensures r.Success? ==>
              && response.Success? && Tag(response.value).Success?
              && r.value.repo == repo && r.value.current == current
              && r.value.native == native && r.value.arch == arch
              && r.value.available == RemoveAll(Tag(response.value).value, 'v')
              && 'v' !in r.value.available
    ensures r.Success? && r.value.url.Some? ==> newer(r.value.available, current)
    ensures r.Success? && !native && newer(r.value.available, current) ==>
              r.value.url == Some(ArchiveUrl(repo, Tag(response.value).value))
    ensures r.Success? && native && r.value.url.Some? ==> Compatible(r.value.url.value, arch)
    ensures response.Success? && Tag(response.value).Success? && !native ==> r.Success?
    ensures response.Success? && Tag(response.value).Success? &&
            !newer(RemoveAll(Tag(response.value).value, 'v'), current) ==>
              r == Success(Info(repo, current, RemoveAll(Tag(response.value).value, 'v'), None, native, arch))
  {
    var latest :- response;
    var tag :- Tag(latest);
    var available := RemoveAll(tag, 'v');
    var url :- if newer(available, current) then DownloadUrl(latest, repo, tag, native, arch) else Success(None);
    Success(Info(repo, current, available, url, native, arch))
  }

  /** For a native repository with a newer release, `check` reads
      `latest['assets']`: a missing key raises KeyError, and otherwise the
      URL is what the asset loop finds over it (see `AssetsUrl` and
      `FirstDecisiveAsset`), and an error the loop raises is raised by
      `check`. */
  lemma CheckNativeUsesAssets(current: string, repo: string, arch: string, latest: PyValue,
                              newer: (string, string) -> bool)
    requires Tag(latest).Success? && newer(RemoveAll(Tag(latest).value, 'v'), current)
    ensures var r := Check(current, repo, true, arch, Success(latest), newer);
            && ("assets" !in latest.entries ==> r == Failure(KeyError))
            && ("assets" in latest.entries && AssetsUrl(latest.entries["assets"], arch).Failure? ==>
                  r == Failure(AssetsUrl(latest.entries["assets"], arch).error))
            && ("assets" in latest.entries && AssetsUrl(latest.entries["assets"], arch).Success? ==>
                  r == Success(Info(repo, current, RemoveAll(Tag(latest).value, 'v'),
                                    AssetsUrl(latest.entries["assets"], arch).value, true, arch)))
  {
  }

  /** For a newer native release, `assets` that are not a list raise
      TypeError unless they are an empty string or dictionary, in which case
      the loop runs zero times and no update is offered. */
  lemma CheckNativeNonListAssets(current: string, repo: string, arch: string, latest: PyValue,
                                 newer: (string, string) -> bool)
    requires Tag(latest).Success? && newer(RemoveAll(Tag(latest).value, 'v'), current)
    requires "assets" in latest.entries && !latest.entries["assets"].PList?
    ensures var assets := latest.entries["assets"];
            var empty := (assets.PStr? && |assets.s| == 0) || (assets.PDict? && |assets.entries| == 0);
            var r := Check(current, repo, true, arch, Success(latest), newer);
            && (empty ==> r == Success(Info(repo, current, RemoveAll(Tag(latest).value, 'v'), None, true, arch)))
            && (!empty ==> r == Failure(TypeError))
  {
    CheckNativeUsesAssets(current, repo, arch, latest, newer);
  }


  /** With dotted versions, a release whose tag is the installed version
      with a `v` in front offers no update. */
  lemma SameReleaseNoUpdate(current: string, repo: string, native: bool, arch: string, latest: PyValue)
    requires 'v' !in current
    requires Tag(latest) == Success("v" + current)
    ensures Check(current, repo, native, arch, Success(latest), Versions.Newer) ==
              Success(Info(repo, current, current, None, native, arch))
  {
    StripLeadingV(current);
    Versions.NewerIrreflexive(current);
  }

  /** A tag `v<version>` offers `<version>` as the available release, but a
      non-native download still names the tag itself, `v` included. */
  lemma CheckKeepsTagInArchiveUrl(current: string, repo: string, arch: string, latest: PyValue,
                                  version: string, newer: (string, string) -> bool)
    requires 'v' !in version && Tag(latest) == Success("v" + version) && newer(version, current)
    ensures Check(current, repo, false, arch, Success(latest), newer) ==
              Success(Info(repo, current, version, Some(ArchiveUrl(repo, "v" + version)), false, arch))
  {
    StripLeadingV(version);
  }

  lemma StripLeadingV(version: string)
    requires 'v' !in version
    ensures RemoveAll("v" + version, 'v') == version
  {
    RemoveAllAppend("v", version, 'v');
    assert RemoveAll("v", 'v') == "" by {
      assert "v"[1..] == "";
    }
    RemoveAbsent(version, 'v');
  }

  // ---------------------------------------------------------------- verify

  /** The expected digest in a checksum file: the text between its first and
      second `=`, stripped and lower-cased. */
  function ExpectedDigest(checksumText: string): (r: PyResult<string>)
    ensures r.Success? <==> '=' in checksumText
    ensures r.Failure? ==> r.error == IndexError
  {
    var parts := Split(checksumText, '=');
    if |parts| < 2 then
      assert '=' !in checksumText by { SplitNoSeparator(checksumText, '='); }
      Failure(IndexError)
    else
      assert '=' in checksumText by { SplitSeparator(checksumText, '='); }
      Success(Lower(Strip(parts[1])))
  }

  /** The expected digest is the text between the first `=` and the second
      one, or the end of the file, stripped and lower-cased; whatever
      follows a second `=` is ignored. */
  lemma ExpectedDigestField(head: string, digest: string, rest: string)
    requires '=' !in head && '=' !in digest
    ensures ExpectedDigest(head + "=" + digest) == Success(Lower(Strip(digest)))
    ensures ExpectedDigest(head + "=" + digest + "=" + rest) == Success(Lower(Strip(digest)))
  {
    assert head + "=" + digest == head + ['='] + digest;
    SplitAfterFirst(head, '=', digest);
    SplitWhole(digest, '=');
    assert head + "=" + digest + "=" + rest == head + ['='] + (digest + ['='] + rest);
    SplitAfterFirst(head, '=', digest + ['='] + rest);
    SplitAfterFirst(digest, '=', rest);
  }

  /** The digest `sha256sum` printed: its output up to the first space,
      stripped and lower-cased. */
  function ActualDigest(sha256Output: string): string {
    Lower(Strip(Split(sha256Output, ' ')[0]))
  }

  /** The actual digest is the output's first space-separated piece, or the
      whole output when it has no space, stripped and lower-cased. */
  lemma ActualDigestField(digest: string, rest: string)
    requires ' ' !in digest
    ensures ActualDigest(digest) == Lower(Strip(digest))
    ensures ActualDigest(digest + " " + rest) == Lower(Strip(digest))
  {
    SplitWhole(digest, ' ');
    assert digest + " " + rest == digest + [' '] + rest;
    SplitAfterFirst(digest, ' ', rest);
  }

  /** `verify(...)` after its display update. `checksums` are the contents of
      the `*.sha256` files found, in the order `glob` lists them. Without
      such a file a native update is refused and any other one accepted
      unchecked. */
  function Verify(native: bool, checksums: seq<string>, sha256Output: string): (r: PyResult<bool>)
    ensures |checksums| == 0 ==> r == Success(!native)
    ensures |checksums| > 0 ==> (r.Failure? <==> '=' !in checksums[0])
    ensures |checksums| > 0 && r.Success? ==>
              r.value == (ActualDigest(sha256Output) == ExpectedDigest(checksums[0]).value)
    ensures r.Failure? ==> r.error == IndexError
  {
    if |checksums| == 0 then Success(!native)
    else
      var expected :- ExpectedDigest(checksums[0]);
      Success(ActualDigest(sha256Output) == expected)
  }

  /** With a checksum file of the usual `label = digest` shape and a
      `sha256sum` line `digest  path`, the gate compares the two digests,
      ignoring case. */
  lemma VerifyComparesDigests(native: bool, head: string, expected: string, others: seq<string>, actual: string, path: string)
    requires '=' !in head && Word(expected) && '=' !in expected
    requires Word(actual) && ' ' !in actual
    ensures Verify(native, [head + "= " + expected + "\n"] + others, actual + "  " + path) == Success(Lower(actual) == Lower(expected))
  {
    var text := head + "= " + expected + "\n";
    assert ExpectedDigest(text) == Success(Lower(expected)) by {
      ExpectedOfTagged(head, expected);
    }
    assert ActualDigest(actual + "  " + path) == Lower(actual) by {
      ActualOfListing(actual, path);
    }
    assert ([text] + others)[0] == text;
  }

  lemma ExpectedOfTagged(head: string, expected: string)
    requires '=' !in head && Word(expected) && '=' !in expected
    ensures ExpectedDigest(head + "= " + expected + "\n") == Success(Lower(expected))
  {
    var body := " " + expected + "\n";
    assert head + "= " + expected + "\n" == head + ['='] + body;
    SplitAfterFirst(head, '=', body);
    assert '=' !in body;
    assert Split(body, '=') == [body];
    StripPadded(" ", expected, "\n");
  }

  lemma ActualOfListing(actual: string, path: string)
    requires Word(actual) && ' ' !in actual
    ensures ActualDigest(actual + "  " + path) == Lower(actual)
  {
    assert actual + "  " + path == actual + [' '] + (" " + path);
    SplitAfterFirst(actual, ' ', " " + path);
    StripPadded("", actual, "");
    assert "" + actual + "" == actual;
  }

  // ---------------------------------------------------------------- install

  /** An update about to be installed: a `check` result with a download URL,
      plus the service it runs as. */
  datatype Candidate = Candidate(repo: string, current: string, available: string, url: string, native: bool, service: string)

  /** What `install` finds in the world for one candidate. */
  datatype InstallEnv = InstallEnv(
    pathExists: bool,        // /tmp/updates/<name> exists beforehand
    survivesRemoval: bool,   // and is still there after the forgiving rmtree
    checksums: seq<string>,  // contents of <path>/*.sha256 after unzipping, in glob order
    sha256Output: string,    // output of `sha256sum "<source_path>"`
    whichOutput: string,     // output of `which <name>`, trailing newline removed
    sourceExists: bool)      // <source_path> exists (consulted for non-native updates)

  const UpdatesDir: string := "/tmp/updates/"

  /** `os.path.join(a, b)` on POSIX: an absolute `b` replaces `a`. */
  function PathJoin(a: string, b: string): string {
    if StartsWith(b, "/") then b
    else if |a| == 0 || EndsWith(a, "/") then a + b
    else a + "/" + b
  }

  /** The name of the archive an update is downloaded to. */
  function TargetName(name: string, available: string): string {
    name + "_" + available + ".zip"
  }

  function Wget(url: string, target: string): string {
    "wget -q \"" + url + "\" -O \"" + target + "\""
  }

  function Unzip(target: string, path: string): string {
    "unzip \"" + target + "\" -d \"" + path + "\""
  }

  /** A command that changes the installed software: stopping, replacing or
      starting a service, or running the Python installer. */
  predicate InstallCommand(e: Effect) {
    e.System? && (StartsWith(e.command, "service ") || StartsWith(e.command, "mv ") || StartsWith(e.command, "cd "))
  }

  /** No effect of `t` changes the installed software. */
  predicate Inert(t: seq<Effect>) {
    forall i :: 0 <= i < |t| ==> !InstallCommand(t[i])
  }

  /** No effect of `t` writes the status file or reboots. */
  predicate Harmless(t: seq<Effect>) {
    forall i :: 0 <= i < |t| ==> t[i] != Reboot && t[i] != WriteStatus
  }

  /** A command whose first character differs from that of each installing
      command's first word is not one of them. */
  lemma NotInstallCommand(command: string)
    requires |command| > 0 && command[0] !in "smc"
    ensures !InstallCommand(System(command))
  {
    assert !StartsWith(command, "service ") by { assert "service "[0] == 's'; }
    assert !StartsWith(command, "mv ") by { assert "mv "[0] == 'm'; }
    assert !StartsWith(command, "cd ") by { assert "cd "[0] == 'c'; }
  }

  /** `make_path_for`, `download_and_unzip` and the display update of
      `verify`: the effects up to the checksum decision. */
  function Preparation(name: string, c: Candidate, pathExists: bool): (t: seq<Effect>)
    ensures Inert(t) && Harmless(t)
  {
    var path := PathJoin(UpdatesDir, name);
    var target := PathJoin(path, TargetName(name, c.available));
    NotInstallCommand(Wget(c.url, target));
    NotInstallCommand(Unzip(target, path));
    (if pathExists then [RemoveTree(path)] else [])
    + [ MakeDirs(path),
        Display("Downloading " + name + " " + c.available + " ...", Motivated),
        System(Wget(c.url, target)),
        Display("Extracting " + name + " " + c.available + " ...", Excited),
        System(Unzip(target, path)),
        Display("Verifying " + name + " " + c.available + " ...", Smart) ]
  }

  /** The commands that put a verified update in place. */
  function Placement(name: string, source: string, c: Candidate, env: InstallEnv): (t: seq<Effect>)
    ensures forall i :: 0 <= i < |t| ==> t[i].System?
  {
    if c.native then
      [ System("service " + c.service + " stop"),
        System("mv " + source + " " + env.whichOutput),
        System("service " + c.service + " start") ]
    else
      var from := if env.sourceExists then source else source + "-" + c.available;
      [ System("cd " + from + " && pip3 install .") ]
  }

  /** The update has a name and its staging directory could be recreated:
      `install` gets as far as downloading. */
  predicate Staged(c: Candidate, env: InstallEnv) {
    |Split(c.repo, '/')| >= 2 && !(env.pathExists && env.survivesRemoval)
  }

  /** `install(display, update)`. The repository's second `/`-separated
      segment names the update; a repository without one raises IndexError
      before anything happens. `os.makedirs` raises when the removal left
      the directory in place. The result is False when verification fails or
      a native program is not on the path, True otherwise, whatever the
      commands' exit codes. */
  function Install(c: Candidate, env: InstallEnv): (r: Run<bool>)
    ensures |Split(c.repo, '/')| < 2 ==> r == Run(Failure(IndexError), [])
    ensures |Split(c.repo, '/')| >= 2 && env.pathExists && env.survivesRemoval ==>
              r.result == Failure(FileExistsError)
    ensures Staged(c, env) && Verify(c.native, env.checksums, env.sha256Output).Failure? ==>
              r.result == Failure(IndexError)
    ensures Staged(c, env) && Verify(c.native, env.checksums, env.sha256Output) == Success(false) ==>
              r.result == Success(false)
    ensures Staged(c, env) && Verify(c.native, env.checksums, env.sha256Output) == Success(true) ==>
              r.result == Success(!c.native || env.whichOutput != "")
    ensures r.result != Success(true) ==> Inert(r.trace)
    ensures Harmless(r.trace)
  {
    var parts := Split(c.repo, '/');
    if |parts| < 2 then Run(Failure(IndexError), [])
    else if env.pathExists && env.survivesRemoval then
      Run(Failure(FileExistsError), [RemoveTree(PathJoin(UpdatesDir, parts[1]))])
    else
      InstallSteps(parts[1], c, env, Verify(c.native, env.checksums, env.sha256Output))
  }

  /** `install` once the target directory is in place, given what `verify`
      decides. */
  function InstallSteps(name: string, c: Candidate, env: InstallEnv, verdict: PyResult<bool>): (r: Run<bool>)
    ensures r.result == Success(true) <==> verdict == Success(true) && (c.native ==> env.whichOutput != "")
    ensures verdict.Failure? ==> r.result == verdict
    ensures verdict == Success(false) ==> r.result == Success(false)
    ensures verdict == Success(true) && c.native && env.whichOutput == "" ==> r.result == Success(false)
    ensures r.result != Success(true) ==> Inert(r.trace)
    ensures Harmless(r.trace)
    ensures Preparation(name, c, env.pathExists) <= r.trace
  {
    var checked := Preparation(name, c, env.pathExists);
    match verdict
    case Failure(e) => Run(Failure(e), checked)
    case Success(ok) =>
      if !ok then Run(Success(false), checked)
      else
        var installing := checked + [Display("Installing " + name + " " + c.available + " ...", Intense)];
        if c.native && env.whichOutput == "" then Run(Success(false), installing)
        else
          var path := PathJoin(UpdatesDir, name);
          Run(Success(true), installing + Placement(name, PathJoin(path, name), c, env))
  }

  /** Once preparation succeeds, the archive is fetched from the candidate's
      URL into `<name>_<available>.zip` under `/tmp/updates/<name>`. */
  lemma InstallDownloadsTarget(c: Candidate, env: InstallEnv)
    requires |Split(c.repo, '/')| >= 2 && !(env.pathExists && env.survivesRemoval)
    ensures var name := Split(c.repo, '/')[1];
            var path := PathJoin(UpdatesDir, name);
            System(Wget(c.url, PathJoin(path, TargetName(name, c.available)))) in Install(c, env).trace
  {
    var name := Split(c.repo, '/')[1];
    var t := Preparation(name, c, env.pathExists);
    assert System(Wget(c.url, PathJoin(PathJoin(UpdatesDir, name), TargetName(name, c.available)))) in t;
    var r := Install(c, env);
    assert t <= r.trace;
  }

  /** A successful native install ends by stopping the service, moving the
      new binary over the one `which` found, and starting the service; a
      non-native one ends by running the installer in the unpacked source,
      or in `<source>-<available>` when the unpacked directory is not named
      after the repository. */
  lemma InstallSucceedsByPlacement(c: Candidate, env: InstallEnv)
    requires Install(c, env).result == Success(true)
    ensures var name := Split(c.repo, '/')[1];
            var source := PathJoin(PathJoin(UpdatesDir, name), name);
            var t := Install(c, env).trace;
            && |t| >= 3
            && (c.native ==>
                  t[|t| - 3..] == [ System("service " + c.service + " stop"),
                                    System("mv " + source + " " + env.whichOutput),
                                    System("service " + c.service + " start") ])
            && (!c.native ==>
                  t[|t| - 1] == System("cd " + (if env.sourceExists then source else source + "-" + c.available) + " && pip3 install ."))
  {
  }
}
