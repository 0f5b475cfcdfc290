/**
 * The microADSB initialisation dialogue: reset the device, wait for it to
 * come back, check its firmware version and switch it to the output mode
 * the decoder reads (all squitters, with time code and frame number).
 */
module MicroAdsb {
  import opened CStrings
  import opened Octets
  import opened Options
  import opened Posix

  /** microADS-B v1, SPRUT firmware 5. */
  const KnownVersion5 := "#00-00-05-04"
  /** microADS-B v1, SPRUT firmware 6. */
  const KnownVersion6 := "#00-00-06-04"
  /** microADS-B v2, SPRUT firmware 8. */
  const KnownVersion8 := "#00-00-08-04"

  const CmdReadVersion: byte := 0x00
  const CmdSetMode: byte := 0x43
  const CmdReset: byte := 0xff

  const ModeAll: bv8 := 0x02
  const ModeTimecode: bv8 := 0x10
  const ModeFramenumber: bv8 := 0x20

  /** The output mode requested: every squitter, with time code and frame number. */
  const OutputMode: byte := (ModeAll | ModeTimecode | ModeFramenumber) as int as byte

  /** The reset command, written as a literal. */
  const ResetCommand := "#FF\n"

  /** The acknowledgement of SET_MODE starts with the command echoed. */
  const ModeAck := "#43"

  /** How many times the device is re-opened after the reset. */
  const Retries := 10

  /** A command without argument: "#%02X\n". */
  function Command(cmd: byte): string
  {
    "#" + Hex2(cmd) + "\n"
  }

  /** A command with a one-byte argument: "#%02X-%02X\n". */
  function CommandWithArg(cmd: byte, arg: byte): string
  {
    "#" + Hex2(cmd) + "-" + Hex2(arg) + "\n"
  }

  /** The commands on the wire: the reset literal is the RESET command, the others are as formatted. */
  lemma CommandText()
    ensures ResetCommand == Command(CmdReset) && |ResetCommand| == 4
    ensures Command(CmdReadVersion) == "#00\n"
    ensures OutputMode == 0x32 && CommandWithArg(CmdSetMode, OutputMode) == "#43-32\n"
    ensures ModeAck == CommandWithArg(CmdSetMode, OutputMode)[..3]
  {
  }

  /**
   * Oracles for ma_init: the reset descriptor's open, fcntl, setbaud and
   * write results; the successive re-open results (missing ones fail); the
   * re-opened descriptor's fcntl and setbaud; the two command writes and
   * the lines readln returns (None for a read error).
   */
  datatype MaInitEnv = MaInitEnv(
    resetOpen: int, resetFcntl: bool, resetBaud: bool, resetWrite: int,
    reopens: seq<int>,
    fcntl: bool, baud: bool,
    versionWrite: int, versionLine: Option<string>,
    modeWrite: int, modeLine: Option<string>)

  /** The result of the k-th re-open. */
  function Reopen(env: MaInitEnv, k: nat): int
  {
    if k < |env.reopens| then env.reopens[k] else -1
  }

  /** The first re-open from attempt k on that succeeds, within the retry bound. */
  function FirstReopenFrom(env: MaInitEnv, k: nat): (r: Option<nat>)
    requires k <= Retries
    ensures r.Some? ==> k <= r.value < Retries && Reopen(env, r.value) != -1
                        && forall j :: k <= j < r.value ==> Reopen(env, j) == -1
    ensures r.None? <==> forall j :: k <= j < Retries ==> Reopen(env, j) == -1
    decreases Retries - k
  {
    if k == Retries then None
    else if Reopen(env, k) != -1 then Some(k)
    else FirstReopenFrom(env, k + 1)
  }

  function FirstReopen(env: MaInitEnv): Option<nat>
  {
    FirstReopenFrom(env, 0)
  }

  /** The reset step: open write-only, fcntl, setbaud, and the whole 4-byte reset command written. */
  predicate ResetOk(env: MaInitEnv)
  {
    env.resetOpen != -1 && env.resetFcntl && env.resetBaud && env.resetWrite == |ResetCommand|
  }

  /** A version line from firmware this program knows. */
  predicate KnownVersion(line: string)
  {
    var v := CStr(line);
    HasPrefix(v, KnownVersion5) || HasPrefix(v, KnownVersion6) || HasPrefix(v, KnownVersion8)
  }

  predicate Acknowledged(line: string)
  {
    HasPrefix(CStr(line), ModeAck)
  }

  /** The dialogue on the re-opened descriptor succeeds: fcntl, setbaud, the version check and the mode acknowledgement. */
  predicate HandshakeOk(env: MaInitEnv)
  {
    && env.fcntl && env.baud
    && env.versionWrite == |Command(CmdReadVersion)| && env.versionLine.Some? && KnownVersion(env.versionLine.value)
    && env.modeWrite == |CommandWithArg(CmdSetMode, OutputMode)| && env.modeLine.Some? && Acknowledged(env.modeLine.value)
  }

  /**
   * ma_init: success returns the re-opened descriptor, still open, after
   * exactly the three commands were written; every failure leaves nothing
   * open. The device is opened once for the reset and at most ten times
   * after it.
   */
  method Init(env: MaInitEnv) returns (fd: int, log: seq<Effect>)
    ensures fd != -1 <==> ResetOk(env) && FirstReopen(env).Some? && HandshakeOk(env)
    ensures fd != -1 ==> && fd == Reopen(env, FirstReopen(env).value) && OpenAfter(log) == {fd}
                         && Written(log) == [ResetCommand, Command(CmdReadVersion), CommandWithArg(CmdSetMode, OutputMode)]
    ensures fd == -1 ==> OpenAfter(log) == {}
    ensures Opens(log, WriteOnly) == 1
    ensures Opens(log, ReadWrite) == if !ResetOk(env) then 0
                                     else if FirstReopen(env).Some? then FirstReopen(env).value + 1
                                     else Retries
  {
    var reset;
    reset, log := ResetDevice(env);
    if !reset {
      return -1, log;
    }
    fd, log := AwaitDevice(env, log);
    if fd == -1 {
      return -1, log;
    }
    fd, log := Handshake(env, fd, log);
  }

  /** The reset: open write-only, configure, write the reset command, close, whatever happens. */
  method ResetDevice(env: MaInitEnv) returns (ok: bool, log: seq<Effect>)
    ensures ok <==> ResetOk(env)
    ensures OpenAfter(log) == {} && Opens(log, WriteOnly) == 1 && Opens(log, ReadWrite) == 0
    ensures ok ==> Written(log) == [ResetCommand]
  {
    log := [Opened(WriteOnly, env.resetOpen)];
    Extend([], log[0]);
    assert [] + [log[0]] == log;
    if env.resetOpen == -1 {
      return false, log;
    }
    var fd := env.resetOpen;
    if !env.resetFcntl || !env.resetBaud {
      Extend(log, Closed(fd));
      return false, log + [Closed(fd)];
    }
    Extend(log, Wrote(fd, ResetCommand));
    log := log + [Wrote(fd, ResetCommand)];
    Extend(log, Closed(fd));
    log := log + [Closed(fd)];
    ok := env.resetWrite == |ResetCommand|;
  }

  /** The wait for the device: up to ten re-opens, each after a second's sleep. */
  method AwaitDevice(env: MaInitEnv, log0: seq<Effect>) returns (fd: int, log: seq<Effect>)
    requires OpenAfter(log0) == {}
    ensures fd != -1 <==> FirstReopen(env).Some?
    ensures fd != -1 ==> fd == Reopen(env, FirstReopen(env).value) && OpenAfter(log) == {fd}
    ensures fd == -1 ==> OpenAfter(log) == {}
    ensures Written(log) == Written(log0) && Opens(log, WriteOnly) == Opens(log0, WriteOnly)
    ensures Opens(log, ReadWrite) == Opens(log0, ReadWrite) + if FirstReopen(env).Some? then FirstReopen(env).value + 1 else Retries
  {
    log := log0;
    fd := -1;
    var i := 0;
    while i < Retries
      invariant 0 <= i <= Retries
      invariant forall j :: 0 <= j < i ==> Reopen(env, j) == -1
      invariant fd == -1
      invariant OpenAfter(log) == {} && Written(log) == Written(log0) && Opens(log, WriteOnly) == Opens(log0, WriteOnly)
      invariant Opens(log, ReadWrite) == Opens(log0, ReadWrite) + i
    {
      Extend(log, Slept(1));
      log := log + [Slept(1)];
      fd := Reopen(env, i);
      Extend(log, Opened(ReadWrite, fd));
      log := log + [Opened(ReadWrite, fd)];
      if fd != -1 {
        FirstReopenSkips(env, 0, i);
        return;
      }
      i := i + 1;
    }
  }

  /** The dialogue on the open descriptor; any failure closes it. */
  method Handshake(env: MaInitEnv, fd: int, log0: seq<Effect>) returns (r: int, log: seq<Effect>)
    requires fd != -1 && OpenAfter(log0) == {fd}
    ensures r != -1 <==> HandshakeOk(env)
    ensures r != -1 ==> r == fd && OpenAfter(log) == {fd}
                        && Written(log) == Written(log0) + [Command(CmdReadVersion), CommandWithArg(CmdSetMode, OutputMode)]
    ensures r == -1 ==> OpenAfter(log) == {}
    ensures forall mode :: Opens(log, mode) == Opens(log0, mode)
  {
    var ok;
    ok, log := CheckVersion(env, fd, log0);
    if !ok {
      return -1, log;
    }
    ok, log := SetMode(env, fd, log);
    if !ok {
      return -1, log;
    }
    return fd, log;
  }

  /** Configure the descriptor, then ask for the firmware version and check it. */
  method CheckVersion(env: MaInitEnv, fd: int, log0: seq<Effect>) returns (ok: bool, log: seq<Effect>)
    requires fd != -1 && OpenAfter(log0) == {fd}
    ensures ok <==> env.fcntl && env.baud && env.versionWrite == |Command(CmdReadVersion)|
                    && env.versionLine.Some? && KnownVersion(env.versionLine.value)
    ensures ok ==> OpenAfter(log) == {fd} && Written(log) == Written(log0) + [Command(CmdReadVersion)]
    ensures !ok ==> OpenAfter(log) == {}
    ensures forall mode :: Opens(log, mode) == Opens(log0, mode)
  {
    log := log0;
    if !env.fcntl || !env.baud {
      Extend(log, Closed(fd));
      return false, log + [Closed(fd)];
    }
    var verstr := Command(CmdReadVersion);
    Extend(log, Wrote(fd, verstr));
    log := log + [Wrote(fd, verstr)];
    if env.versionWrite != |verstr| || env.versionLine.None? {
      Extend(log, Closed(fd));
      return false, log + [Closed(fd)];
    }
    verstr := env.versionLine.value;
    var v := CStr(verstr);
    if !HasPrefix(v, KnownVersion5) && !HasPrefix(v, KnownVersion6) && !HasPrefix(v, KnownVersion8) {
      Extend(log, Closed(fd));
      return false, log + [Closed(fd)];
    }
    return true, log;
  }

  /** Ask for the output mode and check the acknowledgement. */
  method SetMode(env: MaInitEnv, fd: int, log0: seq<Effect>) returns (ok: bool, log: seq<Effect>)
    requires fd != -1 && OpenAfter(log0) == {fd}
    ensures ok <==> env.modeWrite == |CommandWithArg(CmdSetMode, OutputMode)| && env.modeLine.Some?
                    && Acknowledged(env.modeLine.value)
    ensures ok ==> OpenAfter(log) == {fd} && Written(log) == Written(log0) + [CommandWithArg(CmdSetMode, OutputMode)]
    ensures !ok ==> OpenAfter(log) == {}
    ensures forall mode :: Opens(log, mode) == Opens(log0, mode)
  {
    log := log0;
    var modestr := CommandWithArg(CmdSetMode, OutputMode);
    Extend(log, Wrote(fd, modestr));
    log := log + [Wrote(fd, modestr)];
    if env.modeWrite != |modestr| || env.modeLine.None? {
      Extend(log, Closed(fd));
      return false, log + [Closed(fd)];
    }
    modestr := env.modeLine.value;
    if !HasPrefix(CStr(modestr), ModeAck) {
      Extend(log, Closed(fd));
      return false, log + [Closed(fd)];
    }
    return true, log;
  }

  /** Attempts that fail do not change which attempt is the first to succeed. */
  lemma {:induction false} FirstReopenSkips(env: MaInitEnv, k: nat, i: nat)
    requires k <= i <= Retries && forall j :: k <= j < i ==> Reopen(env, j) == -1
    ensures FirstReopenFrom(env, k) == FirstReopenFrom(env, i)
    decreases i - k
  {
    if k < i {
      FirstReopenSkips(env, k + 1, i);
    }
  }
}
