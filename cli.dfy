/** The command-line front end of `VideoStreamer` (`main` in src/main.cpp):
    a loop over the arguments that sets flags and values, then a decision
    tree that exits with -1 or 0 or starts one of three components. The
    arguments are `argv[1..]` (so `argc == |args| + 1`); `std::stoi` is an
    oracle that either yields a number or throws, and a throw escapes
    `main` uncaught. */
module Cli {
  import Wire

  /** The locals `main` sets while it scans the arguments. */
  datatype Options = Options(
    isServer: bool,
    isClient: bool,
    ip: string,
    port: int,
    videoSource: string,
    cameraIndex: int,
    useCamera: bool)

  /** Their initial values. */
  const Defaults := Options(false, false, "", 0, "", -1, false)

  /** How the scan ends: every argument consumed, an argument it does not
      recognise (including a value flag with nothing after it), or a
      `std::stoi` that throws on the given value. */
  datatype Scan = Scanned(opts: Options) | Unknown(arg: string) | StoiThrows(value: string)

  /** What `main` does. The started components run until they return, after
      which `main` returns 0; `Terminated` is the uncaught exception. */
  datatype Outcome =
    | Exit(code: int)
    | StartServer(port: nat)
    | StartCameraClient(ip: string, port: nat, cameraIndex: nat)
    | StartFileClient(ip: string, port: nat, file: string)
    | Terminated(value: string)

  predicate IsValueFlag(a: string)
  {
    a == "--ip" || a == "--port" || a == "--file" || a == "--camera"
  }

  /** The flags the scan accepts. */
  predicate IsKnownFlag(a: string)
  {
    a == "--server" || a == "--client" || IsValueFlag(a)
  }

  /** The conversion of an `int` to the components' `unsigned short`
      parameters: reduction modulo 2^16. */
  function Ushort(n: int): (r: nat)
    ensures r < 65536
    ensures (r - n) % 65536 == 0
  {
    n % 65536
  }

  /** The argument loop, from position `i` with the locals at `o`. It
      stops early only on an argument that is no flag, or on a value flag
      in last position, and throws only on a value, taken from the
      arguments, that `std::stoi` rejects. */
  function ScanArgs(args: seq<string>, i: nat, o: Options, stoi: string -> Wire.Option<int>): (r: Scan)
    requires i <= |args|
    ensures r.Unknown? ==> i < |args| && (!IsKnownFlag(r.arg) || (IsValueFlag(r.arg) && r.arg == args[|args| - 1]))
    ensures r.StoiThrows? ==> stoi(r.value).None? && r.value in args
    decreases |args| - i
  {
    if i == |args| then Scanned(o)
    else
      var a := args[i];
      if a == "--server" then ScanArgs(args, i + 1, o.(isServer := true), stoi)
      else if a == "--client" then ScanArgs(args, i + 1, o.(isClient := true), stoi)
      else if a == "--ip" && i + 1 < |args| then ScanArgs(args, i + 2, o.(ip := args[i + 1]), stoi)
      else if a == "--port" && i + 1 < |args| then
        match stoi(args[i + 1])
        case None => StoiThrows(args[i + 1])
        case Some(n) => ScanArgs(args, i + 2, o.(port := n), stoi)
      else if a == "--file" && i + 1 < |args| then ScanArgs(args, i + 2, o.(videoSource := args[i + 1]), stoi)
      else if a == "--camera" && i + 1 < |args| then
        match stoi(args[i + 1])
        case None => StoiThrows(args[i + 1])
        case Some(n) => ScanArgs(args, i + 2, o.(cameraIndex := n, useCamera := true), stoi)
      else Unknown(a)
  }

  /** The decision tree after the scan. */
  function Dispatch(o: Options): (r: Outcome)
    ensures r.Exit? ==> r.code == -1
    ensures r.StartServer? <==> o.isServer && o.port != 0
    ensures r.StartCameraClient? || r.StartFileClient? ==> !o.isServer && o.isClient && o.ip != "" && o.port != 0
    ensures r.StartCameraClient? <==> !o.isServer && o.isClient && o.ip != "" && o.port != 0 && o.useCamera && o.cameraIndex >= 0
    ensures !r.Terminated?
  {
    if o.isServer then
      if o.port == 0 then Exit(-1) else StartServer(Ushort(o.port))
    else if o.isClient then
      if o.ip == "" || o.port == 0 then Exit(-1)
      else if o.useCamera then
        if o.cameraIndex < 0 then Exit(-1)
        else StartCameraClient(o.ip, Ushort(o.port), Ushort(o.cameraIndex))
      else if o.videoSource != "" then StartFileClient(o.ip, Ushort(o.port), o.videoSource)
      else Exit(-1)
    else Exit(-1)
  }

  /** The whole of `main`'s decision. */
  function Decide(args: seq<string>, stoi: string -> Wire.Option<int>): (r: Outcome)
    ensures r.Terminated? ==> stoi(r.value).None? && r.value in args
  {
    if |args| == 1 && args[0] == "--help" then Exit(0)
    else if |args| < 2 then Exit(-1)
    else match ScanArgs(args, 0, Defaults, stoi)
      case Scanned(o) => Dispatch(o)
      case Unknown(_) => Exit(-1)
      case StoiThrows(v) => Terminated(v)
  }

  /** `main` itself: the early checks, the loop that updates the locals one
      argument at a time, and the decision tree with its early returns. */
  method MainDecision(args: seq<string>, stoi: string -> Wire.Option<int>) returns (outcome: Outcome)
    ensures outcome == Decide(args, stoi)
  {
    if |args| == 1 && args[0] == "--help" {
      return Exit(0);
    }
    if |args| < 2 {
      return Exit(-1);
    }
    var ip := "";
    var port := 0;
    var videoSource := "";
    var cameraIndex := -1;
    var isServer := false;
    var isClient := false;
    var useCamera := false;
    var i := 0;
    while i < |args|
      invariant i <= |args|
      invariant ScanArgs(args, 0, Defaults, stoi) ==
                ScanArgs(args, i, Options(isServer, isClient, ip, port, videoSource, cameraIndex, useCamera), stoi)
      decreases |args| - i
    {
      var arg := args[i];
      if arg == "--server" {
        isServer := true;
      } else if arg == "--client" {
        isClient := true;
      } else if arg == "--ip" && i + 1 < |args| {
        i := i + 1;
        ip := args[i];
      } else if arg == "--port" && i + 1 < |args| {
        i := i + 1;
        var n := stoi(args[i]);
        if n.None? {
          return Terminated(args[i]);
        }
        port := n.value;
      } else if arg == "--file" && i + 1 < |args| {
        i := i + 1;
        videoSource := args[i];
      } else if arg == "--camera" && i + 1 < |args| {
        i := i + 1;
        var n := stoi(args[i]);
        if n.None? {
          return Terminated(args[i]);
        }
        cameraIndex := n.value;
        useCamera := true;
      } else {
        return Exit(-1);
      }
      i := i + 1;
    }
    if isServer {
      if port == 0 {
        return Exit(-1);
      }
      return StartServer(Ushort(port));
    } else if isClient {
      if ip == "" || port == 0 {
        return Exit(-1);
      }
      if useCamera {
        if cameraIndex < 0 {
          return Exit(-1);
        }
        return StartCameraClient(ip, Ushort(port), Ushort(cameraIndex));
      } else if videoSource != "" {
        return StartFileClient(ip, Ushort(port), videoSource);
      } else {
        return Exit(-1);
      }
    } else {
      return Exit(-1);
    }
  }

  /** Exactly one argument, `--help`, exits with 0; any other single
      argument, or none, exits with -1. */
  lemma ShortCommandLines(args: seq<string>, stoi: string -> Wire.Option<int>)
    requires |args| < 2
    ensures Decide(args, stoi) == (if |args| == 1 && args[0] == "--help" then Exit(0) else Exit(-1))
  {
  }

  /** `main` exits with 0 on its own only for `--help`; every other exit
      code is -1. */
  lemma ExitCodes(args: seq<string>, stoi: string -> Wire.Option<int>)
    ensures Decide(args, stoi) == Exit(0) <==> |args| == 1 && args[0] == "--help"
    ensures Decide(args, stoi).Exit? ==> Decide(args, stoi).code in {0, -1}
  {
  }

  /** A scan that consumed `p` completely carries on over what follows with
      the locals it reached. */
  lemma {:induction false} ScanAppend(p: seq<string>, q: seq<string>, i: nat, o: Options, o': Options,
                                      stoi: string -> Wire.Option<int>)
    requires i <= |p|
    requires ScanArgs(p, i, o, stoi) == Scanned(o')
    ensures ScanArgs(p + q, i, o, stoi) == ScanArgs(p + q, |p|, o', stoi)
    decreases |p| - i
  {
    if i < |p| {
      var a := p[i];
      assert (p + q)[i] == a;
      if a == "--server" {
        ScanAppend(p, q, i + 1, o.(isServer := true), o', stoi);
      } else if a == "--client" {
        ScanAppend(p, q, i + 1, o.(isClient := true), o', stoi);
      } else {
        assert IsValueFlag(a) && i + 1 < |p|;
        assert (p + q)[i + 1] == p[i + 1];
        var v := p[i + 1];
        if a == "--ip" {
          ScanAppend(p, q, i + 2, o.(ip := v), o', stoi);
        } else if a == "--port" {
          ScanAppend(p, q, i + 2, o.(port := stoi(v).value), o', stoi);
        } else if a == "--file" {
          ScanAppend(p, q, i + 2, o.(videoSource := v), o', stoi);
        } else {
          ScanAppend(p, q, i + 2, o.(cameraIndex := stoi(v).value, useCamera := true), o', stoi);
        }
      }
    }
  }

  /** An argument the loop does not recognise, reached by the scan, makes
      `main` exit with -1, whatever follows it. */
  lemma UnknownArgumentFails(p: seq<string>, x: string, q: seq<string>, o': Options,
                             stoi: string -> Wire.Option<int>)
    requires ScanArgs(p, 0, Defaults, stoi) == Scanned(o')
    requires !IsKnownFlag(x)
    requires |p + [x] + q| >= 2
    ensures Decide(p + [x] + q, stoi) == Exit(-1)
  {
    assert p + [x] + q == p + ([x] + q);
    ScanAppend(p, [x] + q, 0, Defaults, o', stoi);
    assert (p + ([x] + q))[|p|] == x;
  }

  /** So does a value-taking flag in last position, left without a value. */
  lemma DanglingValueFlagFails(p: seq<string>, x: string, o': Options, stoi: string -> Wire.Option<int>)
    requires ScanArgs(p, 0, Defaults, stoi) == Scanned(o')
    requires IsValueFlag(x)
    requires |p| >= 1
    ensures Decide(p + [x], stoi) == Exit(-1)
  {
    ScanAppend(p, [x], 0, Defaults, o', stoi);
    assert (p + [x])[|p|] == x;
  }

  /** The value flags whose value goes through `std::stoi`. */
  predicate IsNumericFlag(a: string)
  {
    a == "--port" || a == "--camera"
  }

  /** The update the loop makes for value flag `flag` with value `v`. */
  function Assign(o: Options, flag: string, v: string, stoi: string -> Wire.Option<int>): Options
    requires IsValueFlag(flag) && (IsNumericFlag(flag) ==> stoi(v).Some?)
  {
    if flag == "--ip" then o.(ip := v)
    else if flag == "--port" then o.(port := stoi(v).value)
    else if flag == "--file" then o.(videoSource := v)
    else o.(cameraIndex := stoi(v).value, useCamera := true)
  }

  /** The locals with those that `flag` sets put back to their initial
      values: what is left of `o` once `flag` is given again. */
  function Clear(o: Options, flag: string): Options
    requires IsValueFlag(flag)
  {
    if flag == "--ip" then o.(ip := "")
    else if flag == "--port" then o.(port := 0)
    else if flag == "--file" then o.(videoSource := "")
    else o.(cameraIndex := -1, useCamera := false)
  }

  /** One value flag with its value, read by the loop. */
  lemma ScanValueFlag(args: seq<string>, i: nat, o: Options, stoi: string -> Wire.Option<int>)
    requires i + 1 < |args| && IsValueFlag(args[i])
    ensures IsNumericFlag(args[i]) && stoi(args[i + 1]).None? ==> ScanArgs(args, i, o, stoi) == StoiThrows(args[i + 1])
    ensures !(IsNumericFlag(args[i]) && stoi(args[i + 1]).None?) ==>
      ScanArgs(args, i, o, stoi) == ScanArgs(args, i + 2, Assign(o, args[i], args[i + 1], stoi), stoi)
  {
  }

  /** The scan of a suffix does not depend on what comes before it. */
  lemma {:induction false} ScanShift(x: seq<string>, q: seq<string>, j: nat, o: Options,
                                     stoi: string -> Wire.Option<int>)
    requires j <= |q|
    ensures ScanArgs(x + q, |x| + j, o, stoi) == ScanArgs(q, j, o, stoi)
    decreases |q| - j
  {
    if j < |q| {
      var a := q[j];
      assert (x + q)[|x| + j] == a;
      if a == "--server" {
        ScanShift(x, q, j + 1, o.(isServer := true), stoi);
      } else if a == "--client" {
        ScanShift(x, q, j + 1, o.(isClient := true), stoi);
      } else if IsValueFlag(a) && j + 1 < |q| {
        var v := q[j + 1];
        assert (x + q)[|x| + j + 1] == v;
        ScanValueFlag(x + q, |x| + j, o, stoi);
        ScanValueFlag(q, j, o, stoi);
        if !(IsNumericFlag(a) && stoi(v).None?) {
          ScanShift(x, q, j + 2, Assign(o, a, v, stoi), stoi);
        }
      }
    }
  }

  /** Scanning from two sets of locals that differ at most in what `flag`
      sets ends the same way, again differing at most there. */
  lemma {:induction false} ScanAgree(args: seq<string>, i: nat, x: Options, y: Options, flag: string,
                                     stoi: string -> Wire.Option<int>)
    requires i <= |args| && IsValueFlag(flag)
    requires Clear(x, flag) == Clear(y, flag)
    ensures ScanArgs(args, i, x, stoi).Scanned? <==> ScanArgs(args, i, y, stoi).Scanned?
    ensures ScanArgs(args, i, x, stoi).Scanned? ==>
      Clear(ScanArgs(args, i, x, stoi).opts, flag) == Clear(ScanArgs(args, i, y, stoi).opts, flag)
    ensures !ScanArgs(args, i, x, stoi).Scanned? ==> ScanArgs(args, i, x, stoi) == ScanArgs(args, i, y, stoi)
    decreases |args| - i
  {
    if i < |args| {
      var a := args[i];
      if a == "--server" {
        ScanAgree(args, i + 1, x.(isServer := true), y.(isServer := true), flag, stoi);
      } else if a == "--client" {
        ScanAgree(args, i + 1, x.(isClient := true), y.(isClient := true), flag, stoi);
      } else if IsValueFlag(a) && i + 1 < |args| {
        var v := args[i + 1];
        ScanValueFlag(args, i, x, stoi);
        ScanValueFlag(args, i, y, stoi);
        if !(IsNumericFlag(a) && stoi(v).None?) {
          ScanAgree(args, i + 2, Assign(x, a, v, stoi), Assign(y, a, v, stoi), flag, stoi);
        }
      }
    }
  }

  /** Once a prefix has been scanned completely, the rest is scanned from
      the locals it left. */
  lemma ScanAfterPrefix(p: seq<string>, t: seq<string>, o: Options, stoi: string -> Wire.Option<int>)
    requires ScanArgs(p, 0, Defaults, stoi) == Scanned(o)
    ensures ScanArgs(p + t, 0, Defaults, stoi) == ScanArgs(t, 0, o, stoi)
  {
    ScanAppend(p, t, 0, Defaults, o, stoi);
    ScanShift(p, t, 0, o, stoi);
  }

  /** Locals that differ at most in what `flag` sets are no longer told
      apart once complete arguments `mid` and `flag w` have been read. */
  lemma SecondOccurrenceOverwrites(mid: seq<string>, flag: string, w: string, rest: seq<string>,
                                   x: Options, y: Options, stoi: string -> Wire.Option<int>)
    requires IsValueFlag(flag) && Clear(x, flag) == Clear(y, flag)
    requires ScanArgs(mid, 0, y, stoi).Scanned?
    ensures ScanArgs(mid + ([flag, w] + rest), 0, x, stoi) == ScanArgs(mid + ([flag, w] + rest), 0, y, stoi)
  {
    var t := mid + ([flag, w] + rest);
    ScanAgree(mid, 0, x, y, flag, stoi);
    var mx := ScanArgs(mid, 0, x, stoi).opts;
    var my := ScanArgs(mid, 0, y, stoi).opts;
    ScanAppend(mid, [flag, w] + rest, 0, x, mx, stoi);
    ScanAppend(mid, [flag, w] + rest, 0, y, my, stoi);
    assert t[|mid|] == flag && t[|mid| + 1] == w;
    ScanValueFlag(t, |mid|, mx, stoi);
    ScanValueFlag(t, |mid|, my, stoi);
    if !(IsNumericFlag(flag) && stoi(w).None?) {
      assert Assign(mx, flag, w, stoi) == Assign(my, flag, w, stoi);
    }
  }

  /** A value flag given twice keeps the second value: with any complete
      arguments between the two, the first occurrence and its value can be
      dropped without changing what `main` does, once its `std::stoi`, if
      any, has returned. */
  lemma RepeatedValueFlagKeepsLast(p: seq<string>, flag: string, v: string, mid: seq<string>, w: string,
                                   rest: seq<string>, o: Options, stoi: string -> Wire.Option<int>)
    requires ScanArgs(p, 0, Defaults, stoi) == Scanned(o)
    requires IsValueFlag(flag) && (IsNumericFlag(flag) ==> stoi(v).Some?)
    requires ScanArgs(mid, 0, o, stoi).Scanned?
    ensures Decide(p + [flag, v] + mid + [flag, w] + rest, stoi) == Decide(p + mid + [flag, w] + rest, stoi)
  {
    var t := mid + ([flag, w] + rest);
    var pv := p + [flag, v];
    assert p + [flag, v] + mid + [flag, w] + rest == pv + t;
    assert p + mid + [flag, w] + rest == p + t;
    var a := Assign(o, flag, v, stoi);
    ScanAppend(p, [flag, v], 0, Defaults, o, stoi);
    assert pv[|p|] == flag && pv[|p| + 1] == v;
    ScanValueFlag(pv, |p|, o, stoi);
    ScanAfterPrefix(pv, t, a, stoi);
    ScanAfterPrefix(p, t, o, stoi);
    SecondOccurrenceOverwrites(mid, flag, w, rest, a, o, stoi);
  }

  /** With both `--server` and `--client`, server mode wins: the client
      settings play no part. */
  lemma ServerWins(o: Options)
    requires o.isServer
    ensures Dispatch(o) == (if o.port == 0 then Exit(-1) else StartServer(Ushort(o.port)))
  {
  }

  /** Client mode needs a non-empty address and a non-zero port. */
  lemma ClientNeedsAddress(o: Options)
    requires !o.isServer && o.isClient
    requires o.ip == "" || o.port == 0
    ensures Dispatch(o) == Exit(-1)
  {
  }

  /** In client mode a camera given with `--camera` takes precedence over a
      file; a negative camera index, or no source at all, exits with -1. */
  lemma ClientSource(o: Options)
    requires !o.isServer && o.isClient && o.ip != "" && o.port != 0
    ensures o.useCamera ==>
      Dispatch(o) == (if o.cameraIndex < 0 then Exit(-1)
                      else StartCameraClient(o.ip, Ushort(o.port), Ushort(o.cameraIndex)))
    ensures !o.useCamera && o.videoSource == "" ==> Dispatch(o) == Exit(-1)
    ensures !o.useCamera && o.videoSource != "" ==> Dispatch(o) == StartFileClient(o.ip, Ushort(o.port), o.videoSource)
  {
  }

  /** `--server --port s`: the zero check sees the `int` before it is
      narrowed to `unsigned short`, so 65536 passes the check and reaches
      the receiver as port 0, and -1 reaches it as 65535. */
  lemma ServerPort(s: string, stoi: string -> Wire.Option<int>)
    ensures stoi(s).None? ==> Decide(["--server", "--port", s], stoi) == Terminated(s)
    ensures stoi(s) == Wire.Some(0) ==> Decide(["--server", "--port", s], stoi) == Exit(-1)
    ensures stoi(s).Some? && stoi(s).value != 0 ==>
      Decide(["--server", "--port", s], stoi) == StartServer(stoi(s).value % 65536)
    ensures stoi(s) == Wire.Some(65536) ==> Decide(["--server", "--port", s], stoi) == StartServer(0)
    ensures stoi(s) == Wire.Some(-1) ==> Decide(["--server", "--port", s], stoi) == StartServer(65535)
  {
    var args := ["--server", "--port", s];
    var o := Defaults.(isServer := true);
    assert ScanArgs(args, 0, Defaults, stoi) == ScanArgs(args, 1, o, stoi);
    if stoi(s).Some? {
      assert ScanArgs(args, 1, o, stoi) == Scanned(o.(port := stoi(s).value));
    }
  }
}
