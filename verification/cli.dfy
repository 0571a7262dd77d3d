/** The command line: the name of the mode variable, the flag loop, the
    lone `@@` pass that takes the mode from the wrapped arguments, and the
    composition of these with `loadEnv` and placeholder substitution.
    Errors that end the process are returned as values. */
module Cli {
  import opened Wrappers
  import opened Text
  import opened Env
  import Loader
  import opened Placeholder

  datatype CliError =
    | UnrecognizedArg(arg: string)              // "arg not recognized"
    | MissingModeValue                          // "-m arg specified but no mode"
    | MissingModeEnvName                        // "-n arg specified but no env var name"
    | NoCommand                                 // "no command specified"
    | MissingTrailingMode(modeEnvName: string)  // "expect to be provided a mode ... as last argument"
    | EmptyMode                                 // "mode has been specified as argument, but it is empty"
    | BadPlaceholder(cause: PlaceholderError)

  const LoneMarker := "@@"

  /** The mode variable the command line reads: `ENV_MODE` from the
      environment, else `ENV_MODE` from `.env.local`, else from `.env` (both
      in the current directory, not searched upwards), else "MODE". An empty
      value in the file that is read last also falls back to "MODE". */
  function CliModeEnvName(host: Loader.Host): (r: string)
    ensures r != ""
    ensures Truthy(Lookup(host.env, "ENV_MODE")) ==> r == host.env["ENV_MODE"]
    ensures !Truthy(Lookup(host.env, "ENV_MODE")) ==>
              var local := Loader.CwdValue(host, ".env.local", "ENV_MODE");
              var base := Loader.CwdValue(host, ".env", "ENV_MODE");
              r == if local.Some? then Or(local, "MODE") else Or(base, "MODE")
  {
    var name := Lookup(host.env, "ENV_MODE");
    var name :=
      if Truthy(name) then name
      else
        var n1 := Loader.CwdEntry(host, ".env", "ENV_MODE", name);
        Loader.CwdEntry(host, ".env.local", "ENV_MODE", n1);
    Or(name, "MODE")
  }

  /** The variables the flag loop updates. */
  datatype Flags = Flags(
    modeEnvName: string,
    mode: Option<string>,
    parse: bool,
    command: Option<string>,
    commandArgs: seq<string>)

  /** The token after `args[0]`, `undefined` past the end. */
  function Next(args: seq<string>): Option<string>
    requires |args| > 0
  {
    if |args| > 1 then Some(args[1]) else None
  }

  /** When the loop found a command, `args` ends with the command
      followed by exactly the tokens passed on to it. */
  predicate CommandFrom(args: seq<string>, r: Result<Flags, CliError>) {
    r.Success? && r.value.command.Some? ==>
      var rest := r.value.commandArgs;
      |rest| < |args| && args[|args| - |rest| - 1..] == [r.value.command.value] + rest
  }

  /** Skipping `k` flag tokens keeps the command at the same distance from
      the end. */
  lemma {:induction false} SkipKeepsCommand(args: seq<string>, k: nat, r: Result<Flags, CliError>)
    requires k <= |args|
    ensures CommandFrom(args[k..], r) ==> CommandFrom(args, r)
  {
    if r.Success? && r.value.command.Some? && CommandFrom(args[k..], r) {
      var n := |r.value.commandArgs|;
      assert args[k..][|args| - k - n - 1..] == args[|args| - n - 1..];
    }
  }

  /** The flag loop. The first token not starting with '-' is the command
      and every later token is passed on as it is; `-m` and `-n` take the
      next token; `-P` clears a flag nothing reads; any other dash token is
      an error. The `-m` guard tests the variable name rather than the
      mode, so it never fires once the name is set. */
  function ParseFlags(args: seq<string>, st: Flags): (r: Result<Flags, CliError>)
    requires st.command.None?
    ensures CommandFrom(args, r)
    ensures r.Success? && r.value.command.Some? ==> !StartsWith(r.value.command.value, "-")
    ensures r.Success? && r.value.command.None? ==> r.value.commandArgs == st.commandArgs
    ensures st.modeEnvName != "" ==> r.Success? ==> r.value.modeEnvName != ""
    ensures st.modeEnvName != "" ==> r != Failure(MissingModeValue)
    ensures r.Success? && r.value.parse ==> st.parse
    decreases |args|
  {
    if |args| == 0 then Success(st)
    else if !StartsWith(args[0], "-") then
      assert args[|args| - |args[1..]| - 1..] == [args[0]] + args[1..];
      Success(st.(command := Some(args[0]), commandArgs := args[1..]))
    else if args[0] == "-m" then
      if st.modeEnvName == "" then Failure(MissingModeValue)
      else
        var k := if |args| > 1 then 2 else 1;
        var r := ParseFlags(args[k..], st.(mode := Next(args)));
        SkipKeepsCommand(args, k, r);
        r
    else if args[0] == "-n" then
      if !Truthy(Next(args)) then Failure(MissingModeEnvName)
      else
        var r := ParseFlags(args[2..], st.(modeEnvName := args[1]));
        SkipKeepsCommand(args, 2, r);
        r
    else if args[0] == "-P" then
      var r := ParseFlags(args[1..], st.(parse := false));
      SkipKeepsCommand(args, 1, r);
      r
    else Failure(UnrecognizedArg(args[0]))
  }

  /** `a` is `b` with some elements left out, the rest in order. */
  predicate IsSubsequence(a: seq<string>, b: seq<string>)
    decreases |b|
  {
    && |a| <= |b|
    && (|a| == 0 || (a[0] == b[0] && IsSubsequence(a[1..], b[1..])) || IsSubsequence(a, b[1..]))
  }

  datatype Extracted = Extracted(args: seq<string>, mode: Option<string>)

  /** The lone `@@` pass: each `@@` token is removed together with the
      token after it, which becomes the mode. A final `@@` is an error only
      when no mode is set yet; otherwise it resets the mode to `undefined`. */
  function ExtractMode(args: seq<string>, mode: Option<string>, modeEnvName: string): (r: Result<Extracted, CliError>)
    ensures r.Success? ==> LoneMarker !in r.value.args
    ensures r.Success? ==> IsSubsequence(r.value.args, args)
    ensures r.Success? && r.value.mode != mode ==> LoneMarker in args
    ensures r.Failure? ==> r.error == MissingTrailingMode(modeEnvName) && LoneMarker in args
    ensures LoneMarker !in args ==> r == Success(Extracted(args, mode))
    decreases |args|
  {
    if |args| == 0 then Success(Extracted([], mode))
    else if args[0] == LoneMarker then
      if |args| == 1 then
        if !Truthy(mode) then Failure(MissingTrailingMode(modeEnvName)) else Success(Extracted([], None))
      else
        var r := ExtractMode(args[2..], Some(args[1]), modeEnvName);
        assert r.Success? ==> IsSubsequence(r.value.args, args[1..]);
        r
    else
      var rest :- ExtractMode(args[1..], mode, modeEnvName);
      assert ([args[0]] + rest.args)[1..] == rest.args;
      assert args == [args[0]] + args[1..];
      Success(Extracted([args[0]] + rest.args, rest.mode))
  }

  /** The wrapped command as the flag and `@@` passes leave it. */
  datatype Invocation = Invocation(
    command: string,
    args: seq<string>,
    mode: Option<string>,
    modeEnvName: string,
    parse: bool)

  /** Everything before the environment is loaded. The mode is read from
      the environment under the name `CliModeEnvName` gives, before `-n` is
      seen; `-m` and a lone `@@` override it; an empty command and an empty
      mode are errors. */
  function Prepare(args: seq<string>, host: Loader.Host): (r: Result<Invocation, CliError>)
    ensures r.Success? ==> && r.value.command != ""
                           && !StartsWith(r.value.command, "-")
                           && LoneMarker !in r.value.args
                           && r.value.mode != Some("")
                           && r.value.modeEnvName != ""
    ensures r.Failure? ==> r.error != MissingModeValue
  {
    var flags :- ParseFlags(args, InitialFlags(host));
    Finish(flags)
  }

  /** The loop's variables before the first token: the mode as read from
      the environment, parsing on, no command yet. */
  function InitialFlags(host: Loader.Host): (st: Flags)
    ensures st.command.None? && st.commandArgs == [] && st.parse
    ensures st.modeEnvName == CliModeEnvName(host) && st.modeEnvName != ""
    ensures st.mode == Lookup(host.env, st.modeEnvName)
  {
    var name := CliModeEnvName(host);
    Flags(name, Lookup(host.env, name), true, None, [])
  }

  /** After the flag loop: the command check, the lone `@@` pass and the
      empty-mode check. */
  function Finish(flags: Flags): (r: Result<Invocation, CliError>)
    ensures var e := ExtractMode(flags.commandArgs, flags.mode, flags.modeEnvName);
            r.Success? <==> && flags.command.Some? && flags.command.value != ""
                            && e.Success? && e.value.mode != Some("")
    ensures r.Success? ==> && flags.command == Some(r.value.command)
                           && ExtractMode(flags.commandArgs, flags.mode, flags.modeEnvName)
                              == Success(Extracted(r.value.args, r.value.mode))
                           && r.value.modeEnvName == flags.modeEnvName
                           && r.value.parse == flags.parse
    ensures r.Success? ==> r.value.command != "" && LoneMarker !in r.value.args && r.value.mode != Some("")
    ensures flags.command.None? || flags.command.value == "" ==> r == Failure(NoCommand)
    ensures var e := ExtractMode(flags.commandArgs, flags.mode, flags.modeEnvName);
            flags.command.Some? && flags.command.value != "" && e.Failure? ==> r == Failure(e.error)
    ensures var e := ExtractMode(flags.commandArgs, flags.mode, flags.modeEnvName);
            e.Success? && e.value.mode == Some("") ==> r == Failure(if flags.command.None? || flags.command.value == "" then NoCommand else EmptyMode)
    ensures r.Failure? ==> r.error in {NoCommand, EmptyMode, MissingTrailingMode(flags.modeEnvName)}
  {
    if flags.command.None? || flags.command.value == "" then Failure(NoCommand)
    else
      var extracted :- ExtractMode(flags.commandArgs, flags.mode, flags.modeEnvName);
      if extracted.mode == Some("") then Failure(EmptyMode)
      else Success(Invocation(flags.command.value, extracted.args, extracted.mode, flags.modeEnvName, flags.parse))
  }

  /** What an assignment to `process.env` stores: Node turns `undefined`
      into the string "undefined". */
  function ModeText(mode: Option<string>): (r: string)
    ensures mode.Some? ==> r == mode.value
    ensures mode.None? ==> r == "undefined"
  {
    if mode.Some? then mode.value else "undefined"
  }

  /** The command to launch, its arguments, and the environment it gets. */
  datatype Exec = Exec(command: string, args: seq<string>, env: Environment)

  /** The whole run up to the launch: prepare, load the env files with the
      mode found, write the mode under the command line's variable name,
      then substitute the placeholders of every argument. */
  function Run(args: seq<string>, host: Loader.Host): (r: Result<Exec, CliError>)
    ensures Prepare(args, host).Failure? ==> r == Failure(Prepare(args, host).error)
    ensures r.Success? ==> && Prepare(args, host).Success?
                           && r.value.command == Prepare(args, host).value.command
                           && r.value.command != "" && !StartsWith(r.value.command, "-")
    ensures r.Failure? ==> r.error != MissingModeValue
    ensures Prepare(args, host).Success? && r.Failure? ==> r.error.BadPlaceholder?
    ensures Prepare(args, host).Success? ==>
              var inv := Prepare(args, host).value;
              var env := LaunchEnv(inv, Loaded(inv, host), host);
              && (r.Success? <==> forall i :: 0 <= i < |inv.args| ==> SubstituteArg(inv.args[i], env).Success?)
              && (r.Success? ==> && r.value.env == env
                                 && |r.value.args| == |inv.args|
                                 && forall i :: 0 <= i < |inv.args| ==> SubstituteArg(inv.args[i], env) == Success(r.value.args[i]))
  {
    var inv :- Prepare(args, host);
    Launch(inv, LaunchEnv(inv, Loaded(inv, host), host))
  }

  /** The environment the command runs in: the process environment, with
      the loaded entries on top, and the mode (or "undefined") under the
      command line's variable name. */
  function LaunchEnv(inv: Invocation, loaded: Environment, host: Loader.Host): (env: Environment)
    ensures inv.modeEnvName in env && env[inv.modeEnvName] == ModeText(inv.mode)
    ensures forall k | k in loaded && k != inv.modeEnvName :: k in env && env[k] == loaded[k]
    ensures forall k | k in host.env && k !in loaded && k != inv.modeEnvName :: k in env && env[k] == host.env[k]
    ensures forall k | k in env :: k in host.env || k in loaded || k == inv.modeEnvName
  {
    (host.env + loaded)[inv.modeEnvName := ModeText(inv.mode)]
  }

  /** The `loadEnv` call of the command line: only the mode is passed. */
  function Loaded(inv: Invocation, host: Loader.Host): (r: Environment)
    ensures Truthy(inv.mode) ==>
              var p := Loader.PlanFor(Loader.Config(inv.mode, None, None, None, None), host);
              forall k | k in Loader.ModeEnvNames(p.modeEnv) :: k in r && r[k] == inv.mode.value
  {
    Loader.LoadEnv(Loader.Config(inv.mode, None, None, None, None), host)
  }

  /** Placeholder substitution of every argument, in the environment the
      command is launched with. */
  function Launch(inv: Invocation, env: Environment): (r: Result<Exec, CliError>)
    ensures r.Success? ==>
              && r.value.command == inv.command
              && r.value.env == env
              && |r.value.args| == |inv.args|
              && forall i :: 0 <= i < |inv.args| ==> SubstituteArg(inv.args[i], env) == Success(r.value.args[i])
    ensures r.Success? <==> forall i :: 0 <= i < |inv.args| ==> SubstituteArg(inv.args[i], env).Success?
    ensures r.Failure? ==> r.error.BadPlaceholder?
    ensures r.Failure? && r.error.BadPlaceholder? ==>
              exists i :: && 0 <= i < |inv.args|
                          && SubstituteArg(inv.args[i], env) == Failure(r.error.cause)
                          && forall j :: 0 <= j < i ==> SubstituteArg(inv.args[j], env).Success?
    ensures (forall i :: 0 <= i < |inv.args| ==> !Contains(inv.args[i], Marker)) ==> r.Success? && r.value.args == inv.args
  {
    match SubstituteAll(inv.args, env)
    case Success(newArgs) => Success(Exec(inv.command, newArgs, env))
    case Failure(cause) => Failure(BadPlaceholder(cause))
  }

  // ---------------------------------------------------------------------
  // The lone `@@` pass

  function Prepend(pre: seq<string>, r: Result<Extracted, CliError>): Result<Extracted, CliError>
  {
    match r
    case Success(e) => Success(Extracted(pre + e.args, e.mode))
    case Failure(err) => Failure(err)
  }

  /** A token other than `@@` is kept in front of what the rest yields. */
  lemma {:induction false} ExtractKeep(x: string, rest: seq<string>, mode: Option<string>, name: string)
    requires x != LoneMarker
    ensures ExtractMode([x] + rest, mode, name) == Prepend([x], ExtractMode(rest, mode, name))
  {
    assert ([x] + rest)[1..] == rest;
  }

  /** An `@@` with a following token sets the mode to that token. */
  lemma {:induction false} ExtractPair(v: string, rest: seq<string>, mode: Option<string>, name: string)
    ensures ExtractMode([LoneMarker, v] + rest, mode, name) == ExtractMode(rest, Some(v), name)
  {
    assert ([LoneMarker, v] + rest)[2..] == rest;
  }

  lemma {:induction false} PrependTwice(x: seq<string>, y: seq<string>, r: Result<Extracted, CliError>)
    ensures Prepend(x, Prepend(y, r)) == Prepend(x + y, r)
  {
    if r.Success? {
      assert x + (y + r.value.args) == (x + y) + r.value.args;
    }
  }

  /** Tokens before the first `@@` are kept as they are; the pass then
      resumes after the `@@` and its value, with that value as the mode. */
  lemma {:induction false} ExtractStep(pre: seq<string>, v: string, post: seq<string>, mode: Option<string>, name: string)
    requires LoneMarker !in pre
    ensures ExtractMode(pre + [LoneMarker, v] + post, mode, name) == Prepend(pre, ExtractMode(post, Some(v), name))
  {
    var tail := ExtractMode(post, Some(v), name);
    if |pre| == 0 {
      assert pre + [LoneMarker, v] + post == [LoneMarker, v] + post;
      ExtractPair(v, post, mode, name);
      PrependTwice([], [], tail);
      assert Prepend([], tail) == tail by {
        if tail.Success? {
          assert [] + tail.value.args == tail.value.args;
        }
      }
    } else {
      var x := pre[0];
      var more := pre[1..] + [LoneMarker, v] + post;
      assert x in pre;
      assert pre + [LoneMarker, v] + post == [x] + more;
      calc {
        ExtractMode([x] + more, mode, name);
        { ExtractKeep(x, more, mode, name); }
        Prepend([x], ExtractMode(more, mode, name));
        { ExtractStep(pre[1..], v, post, mode, name); }
        Prepend([x], Prepend(pre[1..], tail));
        { PrependTwice([x], pre[1..], tail); assert [x] + pre[1..] == pre; }
        Prepend(pre, tail);
      }
    }
  }

  /** With one `@@` pair, the mode is its value and the other tokens stay,
      in order. */
  lemma {:induction false} LastMarkerSetsMode(pre: seq<string>, v: string, post: seq<string>, mode: Option<string>, name: string)
    requires LoneMarker !in pre && LoneMarker !in post
    ensures ExtractMode(pre + [LoneMarker, v] + post, mode, name) == Success(Extracted(pre + post, Some(v)))
  {
    ExtractStep(pre, v, post, mode, name);
  }

  /** A final `@@` fails when no mode is set and otherwise clears the mode. */
  lemma {:induction false} TrailingMarker(pre: seq<string>, mode: Option<string>, name: string)
    requires LoneMarker !in pre
    ensures ExtractMode(pre + [LoneMarker], mode, name)
         == if Truthy(mode) then Success(Extracted(pre, None)) else Failure(MissingTrailingMode(name))
  {
    var args := pre + [LoneMarker];
    if |pre| > 0 {
      assert args[0] == pre[0];
      assert args[1..] == pre[1..] + [LoneMarker];
      TrailingMarker(pre[1..], mode, name);
      assert [pre[0]] + pre[1..] == pre;
    } else {
      assert args == [LoneMarker];
    }
  }

  // ---------------------------------------------------------------------
  // The flag loop

  /** Where `-P` sits does not change anything but the unread flag. */
  lemma {:induction false} ParseFlagIgnored(args: seq<string>, st: Flags, b: bool)
    requires st.command.None?
    ensures var r1 := ParseFlags(args, st);
            var r2 := ParseFlags(args, st.(parse := b));
            && r1.Success? == r2.Success?
            && (r1.Failure? ==> r1.error == r2.error)
            && (r1.Success? ==> r2.value == r1.value.(parse := r2.value.parse))
    decreases |args|
  {
    if |args| == 0 || !StartsWith(args[0], "-") {
    } else if args[0] == "-m" {
      if st.modeEnvName != "" {
        ParseFlagIgnored(args[if |args| > 1 then 2 else 1..], st.(mode := Next(args)), b);
        assert st.(parse := b).(mode := Next(args)) == st.(mode := Next(args)).(parse := b);
      }
    } else if args[0] == "-n" {
      if Truthy(Next(args)) {
        ParseFlagIgnored(args[2..], st.(modeEnvName := args[1]), b);
        assert st.(parse := b).(modeEnvName := args[1]) == st.(modeEnvName := args[1]).(parse := b);
      }
    } else if args[0] == "-P" {
      assert st.(parse := b).(parse := false) == st.(parse := false);
    }
  }

  /** The launch environment never reads the `-P` flag. */
  lemma {:induction false} LaunchEnvIgnoresParse(inv: Invocation, b: bool, host: Loader.Host)
    ensures LaunchEnv(inv.(parse := b), Loaded(inv.(parse := b), host), host) == LaunchEnv(inv, Loaded(inv, host), host)
  {
    var inv2 := inv.(parse := b);
    assert inv2.mode == inv.mode && inv2.modeEnvName == inv.modeEnvName;
  }

  /** A leading `-P` only clears the unread flag. */
  lemma {:induction false} PrepareWithNoParseFlag(args: seq<string>, host: Loader.Host)
    ensures var p1 := Prepare(args, host);
            var p2 := Prepare(["-P"] + args, host);
            && p1.Success? == p2.Success?
            && (p1.Failure? ==> p2.error == p1.error)
            && (p1.Success? ==> p2.value == p1.value.(parse := false))
  {
    var st := InitialFlags(host);
    assert StartsWith("-P", "-");
    assert (["-P"] + args)[1..] == args;
    assert ParseFlags(["-P"] + args, st) == ParseFlags(args, st.(parse := false));
    ParseFlagIgnored(args, st, false);
    var r1 := ParseFlags(args, st);
    var r2 := ParseFlags(args, st.(parse := false));
    if r1.Success? {
      assert r2.value == r1.value.(parse := false);
      FinishIgnoresParse(r1.value);
    }
  }

  lemma {:induction false} FinishIgnoresParse(flags: Flags)
    ensures var f1 := Finish(flags);
            var f2 := Finish(flags.(parse := false));
            && f1.Success? == f2.Success?
            && (f1.Failure? ==> f2.error == f1.error)
            && (f1.Success? ==> f2.value == f1.value.(parse := false))
  {
  }

  /** `-P` before the command has no effect on what is launched. */
  lemma {:induction false} RunIgnoresNoParseFlag(args: seq<string>, host: Loader.Host)
    ensures Run(["-P"] + args, host) == Run(args, host)
  {
    PrepareWithNoParseFlag(args, host);
    var p1 := Prepare(args, host);
    var p2 := Prepare(["-P"] + args, host);
    if p1.Success? {
      var inv := p1.value;
      LaunchEnvIgnoresParse(inv, false, host);
      var env := LaunchEnv(inv, Loaded(inv, host), host);
      assert Run(args, host) == Launch(inv, env);
      assert Run(["-P"] + args, host) == Launch(p2.value, env);
      assert p2.value.args == inv.args && p2.value.command == inv.command;
    }
  }

  /** The `-n` value does not take part in reading the mode: two states
      that differ only in a non-empty variable name parse alike. */
  lemma {:induction false} NameFlagKeepsParse(args: seq<string>, st: Flags, x: string)
    requires st.command.None? && st.modeEnvName != "" && x != ""
    ensures var r1 := ParseFlags(args, st);
            var r2 := ParseFlags(args, st.(modeEnvName := x));
            && r1.Success? == r2.Success?
            && (r1.Failure? ==> r1.error == r2.error)
            && (r1.Success? ==> r2.value == r1.value.(modeEnvName := r2.value.modeEnvName))
    decreases |args|
  {
    if |args| == 0 || !StartsWith(args[0], "-") {
    } else if args[0] == "-m" {
      NameFlagKeepsParse(args[if |args| > 1 then 2 else 1..], st.(mode := Next(args)), x);
      assert st.(modeEnvName := x).(mode := Next(args)) == st.(mode := Next(args)).(modeEnvName := x);
    } else if args[0] == "-n" {
      if Truthy(Next(args)) {
        assert st.(modeEnvName := x).(modeEnvName := args[1]) == st.(modeEnvName := args[1]);
      }
    } else if args[0] == "-P" {
      NameFlagKeepsParse(args[1..], st.(parse := false), x);
      assert st.(modeEnvName := x).(parse := false) == st.(parse := false).(modeEnvName := x);
    }
  }

  /** `-n` only renames the variable the mode is written to: the mode is
      read under the name found before the flags are parsed. */
  lemma {:induction false} ModeReadBeforeNameFlag(x: string, command: string, host: Loader.Host)
    requires x != "" && command != "" && !StartsWith(command, "-")
    requires Lookup(host.env, CliModeEnvName(host)) != Some("")
    ensures Prepare(["-n", x, command], host)
         == Success(Invocation(command, [], Lookup(host.env, CliModeEnvName(host)), x, true))
  {
    var st := InitialFlags(host);
    var pre := ["-n", x];
    assert pre[2..] == [];
    assert ["-n", x, command] == pre + [command] + [];
    PrepareAfterFlags(pre, command, [], host);
    assert Applied(pre, st) == st.(modeEnvName := x) by {
      assert LastValue(pre[2..], "-m") == None && LastValue(pre[2..], "-n") == None;
      assert LastValue(pre, "-m") == None && LastValue(pre, "-n") == Some(x);
      assert !ClearsParse(pre[2..]) && !ClearsParse(pre);
    }
  }

  /** The command line and `loadEnv` read different variables for the
      name of the mode variable (`ENV_MODE` and `MODE_ENV`). When only
      `ENV_MODE` is set and no mode is given, the launched command sees
      the string "undefined" under the `ENV_MODE` name, while `loadEnv`
      writes its own resolved mode under "MODE". */
  lemma {:induction false} ModeVariablesDiverge(inv: Invocation, host: Loader.Host)
    requires host.fs == map[] && Loader.ModeEnvKey !in host.env
    requires inv.mode.None? && inv.modeEnvName != "MODE"
    requires forall i :: 0 <= i < |inv.args| ==> !Contains(inv.args[i], Marker)
    ensures var env := LaunchEnv(inv, Loaded(inv, host), host);
            && Launch(inv, env).Success?
            && env[inv.modeEnvName] == "undefined"
            && "MODE" in env
            && env["MODE"] == Or(Lookup(host.env, "MODE"), "local")
  {
    Loader.NoFilesModeVariable(Loader.Config(inv.mode, None, None, None, None), host);
  }

  /** An unknown dash token is rejected. */
  lemma {:induction false} UnknownFlagRejected(t: string, rest: seq<string>, st: Flags)
    requires StartsWith(t, "-") && t != "-m" && t != "-n" && t != "-P"
    requires st.command.None?
    ensures ParseFlags([t] + rest, st) == Failure(UnrecognizedArg(t))
  {
  }

  /** An empty first non-dash token is taken as the command and then
      rejected as no command. */
  lemma {:induction false} EmptyCommandRejected(rest: seq<string>, host: Loader.Host)
    ensures Prepare([""] + rest, host) == Failure(NoCommand)
  {
    assert !StartsWith("", "-");
  }

  // ---------------------------------------------------------------------
  // Flags in front of the command

  /** A run of well-formed flag groups: `-P`, `-m` with its value, `-n`
      with a non-empty value. */
  predicate FlagPrefix(pre: seq<string>)
    decreases |pre|
  {
    if |pre| == 0 then true
    else if pre[0] == "-P" then FlagPrefix(pre[1..])
    else if pre[0] == "-m" then |pre| >= 2 && FlagPrefix(pre[2..])
    else if pre[0] == "-n" then |pre| >= 2 && pre[1] != "" && FlagPrefix(pre[2..])
    else false
  }

  /** The value of the last `flag` group of `pre`, if there is one. */
  function LastValue(pre: seq<string>, flag: string): Option<string>
    requires FlagPrefix(pre)
    decreases |pre|
  {
    if |pre| == 0 then None
    else if pre[0] == "-P" then LastValue(pre[1..], flag)
    else
      var later := LastValue(pre[2..], flag);
      if later.Some? then later
      else if pre[0] == flag then Some(pre[1])
      else None
  }

  /** Whether `pre` holds a `-P` group. */
  predicate ClearsParse(pre: seq<string>)
    requires FlagPrefix(pre)
    decreases |pre|
  {
    if |pre| == 0 then false
    else if pre[0] == "-P" then true
    else ClearsParse(pre[2..])
  }

  /** The loop's variables after the flag groups of `pre`: the last `-m`
      gives the mode, the last `-n` the variable name, any `-P` clears
      the parse flag. */
  function Applied(pre: seq<string>, st: Flags): Flags
    requires FlagPrefix(pre)
  {
    var m := LastValue(pre, "-m");
    var n := LastValue(pre, "-n");
    st.(mode := if m.Some? then m else st.mode,
        modeEnvName := if n.Some? then n.value else st.modeEnvName,
        parse := st.parse && !ClearsParse(pre))
  }

  /** The flag loop consumes a run of flag groups and continues with the
      variables those groups set. */
  lemma {:induction false} FlagsApplied(pre: seq<string>, tail: seq<string>, st: Flags)
    requires st.command.None? && st.modeEnvName != "" && FlagPrefix(pre)
    ensures ParseFlags(pre + tail, st) == ParseFlags(tail, Applied(pre, st))
    decreases |pre|
  {
    if |pre| == 0 {
      assert pre + tail == tail;
      assert Applied(pre, st) == st;
    } else {
      var w := GroupWidth(pre);
      ParseGroup(pre, tail, st);
      FlagsApplied(pre[w..], tail, GroupEffect(pre, st));
      AppliedGroup(pre, st);
    }
  }

  /** How many tokens the first flag group of `pre` takes. */
  function GroupWidth(pre: seq<string>): (w: nat)
    requires FlagPrefix(pre) && |pre| > 0
    ensures 0 < w <= |pre| && FlagPrefix(pre[w..])
  {
    if pre[0] == "-P" then 1 else 2
  }

  /** The loop's variables after the first flag group of `pre`. */
  function GroupEffect(pre: seq<string>, st: Flags): Flags
    requires FlagPrefix(pre) && |pre| > 0
  {
    if pre[0] == "-P" then st.(parse := false)
    else if pre[0] == "-m" then st.(mode := Some(pre[1]))
    else st.(modeEnvName := pre[1])
  }

  /** One pass of the flag loop consumes the first flag group. */
  lemma {:induction false} ParseGroup(pre: seq<string>, tail: seq<string>, st: Flags)
    requires st.command.None? && st.modeEnvName != "" && FlagPrefix(pre) && |pre| > 0
    ensures var e := GroupEffect(pre, st);
            && e.command.None? && e.modeEnvName != ""
            && ParseFlags(pre + tail, st) == ParseFlags(pre[GroupWidth(pre)..] + tail, e)
  {
    var args := pre + tail;
    assert args[0] == pre[0];
    assert StartsWith(pre[0], "-") by { assert pre[0][0] == '-'; }
    if pre[0] == "-P" {
      assert args[1..] == pre[1..] + tail;
    } else {
      assert |args| > 1 && args[1] == pre[1];
      assert args[2..] == pre[2..] + tail;
    }
  }

  /** Applying the first flag group and then the rest is applying all. */
  lemma {:induction false} AppliedGroup(pre: seq<string>, st: Flags)
    requires FlagPrefix(pre) && |pre| > 0
    ensures Applied(pre[GroupWidth(pre)..], GroupEffect(pre, st)) == Applied(pre, st)
  {
  }

  /** After a run of flag groups, the first token not starting with '-'
      is the command and every later token is passed on unchanged. */
  lemma {:induction false} CommandAfterFlags(pre: seq<string>, c: string, rest: seq<string>, st: Flags)
    requires st.command.None? && st.modeEnvName != "" && FlagPrefix(pre)
    requires !StartsWith(c, "-")
    ensures ParseFlags(pre + [c] + rest, st) == Success(Applied(pre, st).(command := Some(c), commandArgs := rest))
  {
    assert pre + [c] + rest == pre + ([c] + rest);
    FlagsApplied(pre, [c] + rest, st);
    assert ([c] + rest)[1..] == rest;
  }

  /** Flags without a command: the loop ends with no command. */
  lemma {:induction false} OnlyFlags(pre: seq<string>, st: Flags)
    requires st.command.None? && st.modeEnvName != "" && FlagPrefix(pre)
    ensures ParseFlags(pre, st) == Success(Applied(pre, st))
  {
    assert pre + [] == pre;
    FlagsApplied(pre, [], st);
  }

  /** Flags and no command end in "no command specified". */
  lemma {:induction false} PrepareNoCommand(pre: seq<string>, host: Loader.Host)
    requires FlagPrefix(pre)
    ensures Prepare(pre, host) == Failure(NoCommand)
  {
    OnlyFlags(pre, InitialFlags(host));
  }

  /** Flags, a command and its arguments: the command is kept, the
      arguments and the mode are what the lone `@@` pass yields, starting
      from the last `-m` value or else the mode read from the environment;
      the pass's error and an empty mode end the run. */
  lemma {:induction false} PrepareAfterFlags(pre: seq<string>, c: string, rest: seq<string>, host: Loader.Host)
    requires FlagPrefix(pre) && !StartsWith(c, "-")
    ensures var f := Applied(pre, InitialFlags(host));
            var e := ExtractMode(rest, f.mode, f.modeEnvName);
            Prepare(pre + [c] + rest, host)
              == if c == "" then Failure(NoCommand)
                 else if e.Failure? then Failure(e.error)
                 else if e.value.mode == Some("") then Failure(EmptyMode)
                 else Success(Invocation(c, e.value.args, e.value.mode, f.modeEnvName, f.parse))
  {
    CommandAfterFlags(pre, c, rest, InitialFlags(host));
  }

  /** A marker-free token is never a lone `@@`. */
  lemma {:induction false} NoMarkerNoLone(rest: seq<string>)
    requires forall i :: 0 <= i < |rest| ==> !Contains(rest[i], Marker)
    ensures LoneMarker !in rest
  {
    if LoneMarker in rest {
      var i :| 0 <= i < |rest| && rest[i] == LoneMarker;
      assert MatchAt(rest[i], Marker, 0);
    }
  }

  /** End to end: flags, a command, and arguments without placeholders.
      The command runs with its arguments unchanged, in the process
      environment with the loaded files on top and the mode under the
      name the command line reads. */
  lemma {:induction false} RunPlain(pre: seq<string>, c: string, rest: seq<string>, host: Loader.Host)
    requires FlagPrefix(pre) && c != "" && !StartsWith(c, "-")
    requires forall i :: 0 <= i < |rest| ==> !Contains(rest[i], Marker)
    ensures var f := Applied(pre, InitialFlags(host));
            var inv := Invocation(c, rest, f.mode, f.modeEnvName, f.parse);
            Run(pre + [c] + rest, host)
              == if f.mode == Some("") then Failure(EmptyMode)
                 else Success(Exec(c, rest, LaunchEnv(inv, Loaded(inv, host), host)))
  {
    NoMarkerNoLone(rest);
    PrepareAfterFlags(pre, c, rest, host);
    var f := Applied(pre, InitialFlags(host));
    assert ExtractMode(rest, f.mode, f.modeEnvName) == Success(Extracted(rest, f.mode));
    if f.mode != Some("") {
      var inv := Invocation(c, rest, f.mode, f.modeEnvName, f.parse);
      assert Prepare(pre + [c] + rest, host) == Success(inv);
      var env := LaunchEnv(inv, Loaded(inv, host), host);
      assert Run(pre + [c] + rest, host) == Launch(inv, env);
      assert Launch(inv, env) == Success(Exec(c, rest, env));
    }
  }

  /** With no flags, the mode is the value of the variable whose name
      `CliModeEnvName` gives. */
  lemma {:induction false} RunWithoutFlags(c: string, rest: seq<string>, host: Loader.Host)
    requires c != "" && !StartsWith(c, "-")
    requires forall i :: 0 <= i < |rest| ==> !Contains(rest[i], Marker)
    requires Lookup(host.env, CliModeEnvName(host)) != Some("")
    ensures var inv := Invocation(c, rest, Lookup(host.env, CliModeEnvName(host)), CliModeEnvName(host), true);
            Run([c] + rest, host) == Success(Exec(c, rest, LaunchEnv(inv, Loaded(inv, host), host)))
  {
    RunPlain([], c, rest, host);
    assert [] + [c] + rest == [c] + rest;
    assert Applied([], InitialFlags(host)) == InitialFlags(host);
  }

  /** End to end, whatever the arguments hold: once preparation succeeds,
      the run is the substitution of the prepared arguments in the launch
      environment. */
  lemma {:induction false} RunAfterFlags(pre: seq<string>, c: string, rest: seq<string>, host: Loader.Host)
    requires FlagPrefix(pre) && c != "" && !StartsWith(c, "-")
    ensures var f := Applied(pre, InitialFlags(host));
            var e := ExtractMode(rest, f.mode, f.modeEnvName);
            e.Success? && e.value.mode != Some("") ==>
              var inv := Invocation(c, e.value.args, e.value.mode, f.modeEnvName, f.parse);
              Run(pre + [c] + rest, host) == Launch(inv, LaunchEnv(inv, Loaded(inv, host), host))
  {
    PrepareAfterFlags(pre, c, rest, host);
  }

  /** A lone `@@ v` among the arguments overrides the mode read from the
      environment: the pair is removed, `loadEnv` runs with mode `v`, and
      the other arguments are substituted in order. */
  lemma {:induction false} RunModeMarker(c: string, a: seq<string>, v: string, b: seq<string>, host: Loader.Host)
    requires c != "" && !StartsWith(c, "-") && v != ""
    requires LoneMarker !in a && LoneMarker !in b
    ensures var inv := Invocation(c, a + b, Some(v), CliModeEnvName(host), true);
            Run([c] + a + [LoneMarker, v] + b, host) == Launch(inv, LaunchEnv(inv, Loaded(inv, host), host))
  {
    var st := InitialFlags(host);
    var rest := a + [LoneMarker, v] + b;
    assert [c] + a + [LoneMarker, v] + b == [] + [c] + rest;
    assert Applied([], st) == st;
    LastMarkerSetsMode(a, v, b, st.mode, st.modeEnvName);
    RunAfterFlags([], c, rest, host);
  }

  /** `-n` without a value, or with an empty one, is rejected wherever it
      follows a run of flag groups. */
  lemma {:induction false} NameFlagNeedsValue(pre: seq<string>, rest: seq<string>, st: Flags)
    requires st.command.None? && st.modeEnvName != "" && FlagPrefix(pre)
    ensures ParseFlags(pre + ["-n"], st) == Failure(MissingModeEnvName)
    ensures ParseFlags(pre + ["-n", ""] + rest, st) == Failure(MissingModeEnvName)
  {
    assert StartsWith("-n", "-");
    FlagsApplied(pre, ["-n"], st);
    assert pre + ["-n", ""] + rest == pre + (["-n", ""] + rest);
    FlagsApplied(pre, ["-n", ""] + rest, st);
  }
}
