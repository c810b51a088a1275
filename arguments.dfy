/**
 * The command-line scan at the start of handle_arguments. argv[0] is the
 * program name; the flags are -c/--config (the next argument is the config
 * path), -d/--debug, -h/--help and -v/--version. Usage and version text,
 * which only go to stdout, are not modelled, nor is the search for a default
 * config file that follows when no path was given.
 */
module Arguments {
  import opened Wrappers
  import CStrings

  /** What handle_arguments returns, or that it goes on to look for a config file. */
  datatype Status = NoError | ErrorQuit | NoErrorQuit | SearchConfig

  predicate IsConfigFlag(a: string) { a == "-c" || a == "--config" }
  predicate IsDebugFlag(a: string) { a == "-d" || a == "--debug" }
  predicate IsHelpFlag(a: string) { a == "-h" || a == "--help" }
  predicate IsVersionFlag(a: string) { a == "-v" || a == "--version" }

  predicate IsFlag(a: string) {
    IsConfigFlag(a) || IsDebugFlag(a) || IsHelpFlag(a) || IsVersionFlag(a)
  }

  /** Argument i directly follows a -c or --config: it is the config path. */
  predicate Marked(argv: seq<string>, i: int)
    requires i <= |argv|
  {
    2 <= i && IsConfigFlag(argv[i - 1])
  }

  /** Argument i is neither a flag nor a config path: the scan stops on it. */
  predicate Rejected(argv: seq<string>, i: int)
    requires 1 <= i < |argv|
  {
    !IsFlag(argv[i]) && !Marked(argv, i)
  }

  /** The first rejected argument at or after i, or |argv| when there is none. */
  function FirstRejected(argv: seq<string>, i: nat): (e: nat)
    requires 1 <= i <= |argv|
    ensures i <= e <= |argv|
    ensures e < |argv| ==> Rejected(argv, e)
    ensures forall k :: i <= k < e ==> !Rejected(argv, k)
    decreases |argv| - i
  {
    if i == |argv| then i
    else if Rejected(argv, i) then i
    else FirstRejected(argv, i + 1)
  }

  /**
   * The config path after the arguments before `upto` have been scanned:
   * the caller's path if it had one, otherwise a copy of a marked argument
   * taken while the path was still NULL (copying "" leaves it NULL).
   */
  function PathAfter(argv: seq<string>, path0: Option<string>, upto: nat): Option<string>
    requires upto <= |argv|
  {
    if upto <= 1 then path0
    else
      var p := PathAfter(argv, path0, upto - 1);
      if p.None? && Marked(argv, upto - 1) then CStrings.CopyString(argv[upto - 1]) else p
  }

  /** Some argument in [1, upto) satisfies the flag test. */
  predicate SeenDebug(argv: seq<string>, upto: nat)
    requires upto <= |argv|
  {
    exists k :: 1 <= k < upto && IsDebugFlag(argv[k])
  }

  predicate SeenHelp(argv: seq<string>, upto: nat)
    requires upto <= |argv|
  {
    exists k :: 1 <= k < upto && IsHelpFlag(argv[k])
  }

  predicate SeenVersion(argv: seq<string>, upto: nat)
    requires upto <= |argv|
  {
    exists k :: 1 <= k < upto && IsVersionFlag(argv[k])
  }

  /**
   * The argv loop of handle_arguments and the checks after it. `path0` is
   * *config_file_path on entry, `debug0` is config.debug.
   */
  method ScanArguments(argv: seq<string>, path0: Option<string>, debug0: bool)
    returns (status: Status, path: Option<string>, debug: bool)
    ensures |argv| <= 1 ==> status == SearchConfig && path == path0 && debug == debug0
    ensures |argv| > 1 ==>
      var e := FirstRejected(argv, 1);
      && path == PathAfter(argv, path0, e)
      && debug == (debug0 || SeenDebug(argv, e))
      && status == (if e < |argv| then ErrorQuit
                    else if (SeenVersion(argv, e) || SeenHelp(argv, e)) && path.None? then NoErrorQuit
                    else if path.Some? then NoError
                    else SearchConfig)
  {
    path, debug := path0, debug0;
    if |argv| <= 1 {
      return SearchConfig, path, debug;
    }
    var version := false;
    var help := false;
    var configFileIndex := -1;
    var i := 1;
    while i < |argv|
      invariant 1 <= i <= |argv|
      invariant forall k :: 1 <= k < i ==> !Rejected(argv, k)
      invariant configFileIndex <= i && (configFileIndex == i <==> Marked(argv, i))
      invariant path == PathAfter(argv, path0, i)
      invariant debug == (debug0 || SeenDebug(argv, i))
      invariant help == SeenHelp(argv, i)
      invariant version == SeenVersion(argv, i)
    {
      SeenStep(argv, i);
      if path.None? && i == configFileIndex {
        path := CStrings.CopyString(argv[i]);
      }
      if IsConfigFlag(argv[i]) {
        configFileIndex := i + 1;
      } else if IsDebugFlag(argv[i]) {
        debug := true;
      } else if IsHelpFlag(argv[i]) {
        help := true;
      } else if IsVersionFlag(argv[i]) {
        version := true;
      } else if i != configFileIndex {
        RejectedStops(argv, i);
        return ErrorQuit, path, debug;
      }
      i := i + 1;
    }
    assert FirstRejected(argv, 1) == |argv|;

    if version && path.None? {
      return NoErrorQuit, path, debug;
    }
    if help && path.None? {
      return NoErrorQuit, path, debug;
    }
    if path.Some? {
      return NoError, path, debug;
    }
    return SearchConfig, path, debug;
  }

  /** One more argument scanned: each flag has been seen before it, or is it. */
  lemma SeenStep(argv: seq<string>, i: nat)
    requires i < |argv|
    ensures SeenDebug(argv, i + 1) == (SeenDebug(argv, i) || (1 <= i && IsDebugFlag(argv[i])))
    ensures SeenHelp(argv, i + 1) == (SeenHelp(argv, i) || (1 <= i && IsHelpFlag(argv[i])))
    ensures SeenVersion(argv, i + 1) == (SeenVersion(argv, i) || (1 <= i && IsVersionFlag(argv[i])))
  {
    if SeenDebug(argv, i + 1) && !(1 <= i && IsDebugFlag(argv[i])) {
      var k :| 1 <= k < i + 1 && IsDebugFlag(argv[k]);
      assert k < i;
    }
    if SeenHelp(argv, i + 1) && !(1 <= i && IsHelpFlag(argv[i])) {
      var k :| 1 <= k < i + 1 && IsHelpFlag(argv[k]);
      assert k < i;
    }
    if SeenVersion(argv, i + 1) && !(1 <= i && IsVersionFlag(argv[i])) {
      var k :| 1 <= k < i + 1 && IsVersionFlag(argv[k]);
      assert k < i;
    }
  }

  /** When every argument before i is accepted and i is rejected, the scan stops at i. */
  lemma {:induction false} RejectedStops(argv: seq<string>, i: nat)
    requires 1 <= i < |argv| && Rejected(argv, i)
    requires forall k :: 1 <= k < i ==> !Rejected(argv, k)
    ensures FirstRejected(argv, 1) == i
  {
    FirstRejectedFrom(argv, 1, i);
  }

  lemma {:induction false} FirstRejectedFrom(argv: seq<string>, j: nat, i: nat)
    requires 1 <= j <= i < |argv| && Rejected(argv, i)
    requires forall k :: j <= k < i ==> !Rejected(argv, k)
    ensures FirstRejected(argv, j) == i
    decreases i - j
  {
    if j < i {
      FirstRejectedFrom(argv, j + 1, i);
    }
  }

  /**
   * Only the first usable config path is copied: with no path on entry, the
   * path is the first non-empty argument that follows a -c or --config.
   */
  lemma {:induction false} PathIsFirstMarked(argv: seq<string>, upto: nat)
    requires upto <= |argv|
    ensures PathAfter(argv, None, upto).Some? <==>
      exists k :: 1 <= k < upto && Marked(argv, k) && argv[k] != ""
    ensures forall k ::
      (1 <= k < upto && Marked(argv, k) && argv[k] != "" &&
       forall k' :: 1 <= k' < k && Marked(argv, k') ==> argv[k'] == "")
      ==> PathAfter(argv, None, upto) == Some(argv[k])
    decreases upto
  {
    if upto > 1 {
      PathIsFirstMarked(argv, upto - 1);
    }
  }

  /** A path given by the caller is never replaced. */
  lemma {:induction false} CallerPathKept(argv: seq<string>, p: string, upto: nat)
    requires upto <= |argv|
    ensures PathAfter(argv, Some(p), upto) == Some(p)
    decreases upto
  {
    if upto > 1 {
      CallerPathKept(argv, p, upto - 1);
    }
  }

  /** "prog -c file": the path is taken and the launcher goes on. */
  lemma ConfigOnly()
    ensures var argv := ["prog", "-c", "file.ini"];
      FirstRejected(argv, 1) == 3 && PathAfter(argv, None, 3) == Some("file.ini")
  {
    var argv := ["prog", "-c", "file.ini"];
    assert !Rejected(argv, 1) && !Rejected(argv, 2);
  }

  /** "prog -x": an unknown option stops the scan with an error. */
  lemma UnknownOption()
    ensures FirstRejected(["prog", "-x"], 1) == 1
  {
    assert Rejected(["prog", "-x"], 1);
  }
}
