/** The adapter in front of the external TOTP tool (`authorize` in
    auth-oathd/main.go): the empty-password guard, the oathtool command
    line, and the run of the tool itself, which is abstract here. */
module Verifier {
  import opened Wrappers

  /** Options fixed once at startup and applied to every verification. */
  datatype OathFlags = OathFlags(base32: bool)

  /** What the daemon cannot see into. `accepts(argv)` is whether running
      oathtool with the argument vector `argv` exits with status 0;
      `rfc3339(t)` is the RFC 3339 UTC rendering of the clock reading `t`
      (nanoseconds); the program takes it from the wall clock, while the
      cache window uses the monotonic clock, and one reading stands for
      both here. `runs` records, in order, every command line the
      daemon actually executed. */
  class Host {
    const accepts: seq<string> -> bool
    const rfc3339: int -> string
    ghost var runs: seq<seq<string>>

    constructor (accepts: seq<string> -> bool, rfc3339: int -> string)
      ensures this.accepts == accepts && this.rfc3339 == rfc3339
      ensures runs == []
    {
      this.accepts := accepts;
      this.rfc3339 := rfc3339;
      runs := [];
    }
  }

  /** The argument vector handed to exec, program name first. */
  function Argv(flags: OathFlags, time: string, key: string, password: string): (argv: seq<string>)
    ensures |argv| == if flags.base32 then 9 else 8
    ensures argv[0] == "oathtool" && argv[1] == "--totp=sha512"
    ensures argv[2] == "-b" <==> flags.base32
    ensures argv[|argv| - 2] == key && argv[|argv| - 1] == password
  {
    ["oathtool", "--totp=sha512"]
      + (if flags.base32 then ["-b"] else [])
      + ["-d", "8", "-N", time, key, password]
  }

  /** The inputs a command line was built from. */
  datatype Invocation = Invocation(flags: OathFlags, time: string, key: string, password: string)

  /** Reads a command line of the shape `Argv` builds back into its inputs. */
  function ParseArgv(argv: seq<string>): (r: Option<Invocation>)
    ensures r.Some? ==> |argv| == 8 || |argv| == 9
  {
    if |argv| == 8 && argv[..5] == ["oathtool", "--totp=sha512", "-d", "8", "-N"] then
      Some(Invocation(OathFlags(false), argv[5], argv[6], argv[7]))
    else if |argv| == 9 && argv[..6] == ["oathtool", "--totp=sha512", "-b", "-d", "8", "-N"] then
      Some(Invocation(OathFlags(true), argv[6], argv[7], argv[8]))
    else
      None
  }

  /** Every command line decodes back to the flags, time, key and password
      it was built from. */
  lemma ArgvRoundTrip(flags: OathFlags, time: string, key: string, password: string)
    ensures ParseArgv(Argv(flags, time, key, password)) == Some(Invocation(flags, time, key, password))
  {
  }

  /** Different inputs give different command lines. */
  lemma ArgvInjective(a: Invocation, b: Invocation)
    requires Argv(a.flags, a.time, a.key, a.password) == Argv(b.flags, b.time, b.key, b.password)
    ensures a == b
  {
    ArgvRoundTrip(a.flags, a.time, a.key, a.password);
    ArgvRoundTrip(b.flags, b.time, b.key, b.password);
  }

  /** The command lines one `Authorize` call runs: none for an empty
      password, otherwise exactly the one built from its inputs. */
  function Launched(host: Host, key: string, password: string, now: int, flags: OathFlags): (cmds: seq<seq<string>>)
    ensures |cmds| <= 1
    ensures cmds == [] <==> password == ""
    ensures forall argv :: argv in cmds ==> ParseArgv(argv) == Some(Invocation(flags, host.rfc3339(now), key, password))
  {
    if password == "" then []
    else
      ArgvRoundTrip(flags, host.rfc3339(now), key, password);
      [Argv(flags, host.rfc3339(now), key, password)]
  }

  /** The verdict `Authorize` returns. */
  function Verdict(host: Host, key: string, password: string, now: int, flags: OathFlags): (ok: bool)
    ensures ok ==> password != ""
    ensures ok <==> exists argv :: argv in Launched(host, key, password, now, flags) && host.accepts(argv)
  {
    password != "" && host.accepts(Argv(flags, host.rfc3339(now), key, password))
  }

  /** `authorize`: refuses an empty password before anything runs,
      otherwise runs oathtool once and reports whether it succeeded. */
  method Authorize(host: Host, key: string, password: string, now: int, flags: OathFlags) returns (ok: bool)
    modifies host`runs
    ensures ok == Verdict(host, key, password, now, flags)
    ensures host.runs == old(host.runs) + Launched(host, key, password, now, flags)
  {
    if password == "" {
      return false;
    }

    var time := host.rfc3339(now);

    var command := ["oathtool"];
    command := command + ["--totp=sha512"];
    if flags.base32 {
      command := command + ["-b"];
    }
    command := command + ["-d", "8", "-N", time, key, password];
    assert command == Argv(flags, time, key, password);

    host.runs := host.runs + [command];
    ok := host.accepts(command);
  }
}
