/**
 * The device descriptor as the decoders see it: read(2) on an already
 * configured serial line. The bytes the device will deliver are a script;
 * once the script is used up, read(2) returns `endCode` (0 at end of file,
 * -1 on an error or an interrupted read).
 */
module Serial {
  import opened Numbers

  class Port<T> {
    /** The bytes the device will still deliver, in order. */
    var rest: seq<T>
    /** What read(2) returns once `rest` is empty: 0 or -1. */
    const endCode: int

    ghost predicate Valid()
      reads this
    {
      endCode == 0 || endCode == -1
    }

    constructor (script: seq<T>, endCode: int)
      requires endCode == 0 || endCode == -1
      ensures Valid() && rest == script && this.endCode == endCode
    {
      rest := script;
      this.endCode := endCode;
    }

    /**
     * read(fd, buf + off, max): hands over whatever is available, up to
     * `max` bytes, or reports the end code when nothing is left.
     */
    method Read(buf: array<T>, off: nat, max: nat) returns (k: int)
      requires Valid() && 0 < max && off + max <= buf.Length
      modifies this, buf
      ensures Valid()
      ensures old(rest) == [] ==> k == endCode && rest == [] && buf[..] == old(buf[..])
      ensures old(rest) != [] ==>
                && k == Min(max, |old(rest)|)
                && rest == old(rest)[k..]
                && buf[off..off + k] == old(rest)[..k]
                && (forall j :: 0 <= j < buf.Length && !(off <= j < off + k) ==> buf[j] == old(buf[j]))
    {
      if rest == [] {
        return endCode;
      }
      k := Min(max, |rest|);
      forall j | 0 <= j < k {
        buf[off + j] := rest[j];
      }
      rest := rest[k..];
    }
  }
}

/**
 * The system calls of the initialisation dialogues, as outcome oracles, and
 * the trace of what a dialogue did to the device.
 */
module Posix {

  datatype OpenMode = WriteOnly | ReadWrite | ReadOnly

  /** One observable action on the device. `Opened` records the result of open(2), -1 included. */
  datatype Effect =
    | Opened(mode: OpenMode, fd: int)
    | Wrote(fd: int, bytes: string)
    | Closed(fd: int)
    | Slept(seconds: nat)

  /** Outcome of the termios set-up (setbaud): success, or failure with errno ENOTTY or another errno. */
  datatype BaudResult = BaudOk | BaudFailed(notTty: bool)

  /** Oracles for open-for-reading: open(2)'s result, setbaud's outcome, fcntl's success. */
  datatype OpenEnv = OpenEnv(open: int, baud: BaudResult, fcntl: bool)

  /** The descriptors open after `e`, given those open before it. */
  function Track(before: set<int>, e: Effect): set<int>
  {
    match e
    case Opened(_, fd) => if fd == -1 then before else before + {fd}
    case Closed(fd) => before - {fd}
    case _ => before
  }

  /** The descriptors a trace leaves open. */
  function OpenAfter(log: seq<Effect>): set<int>
  {
    if log == [] then {} else Track(OpenAfter(log[..|log| - 1]), log[|log| - 1])
  }

  /** The byte strings handed to write(2), in order. */
  function Written(log: seq<Effect>): seq<string>
  {
    if log == [] then []
    else Written(log[..|log| - 1]) + (if log[|log| - 1].Wrote? then [log[|log| - 1].bytes] else [])
  }

  /** 1 when `e` is an open(2) call in `mode`. */
  function OpenIn(e: Effect, mode: OpenMode): nat
  {
    if e.Opened? && e.mode == mode then 1 else 0
  }

  /** The number of open(2) calls in `mode`. */
  function Opens(log: seq<Effect>, mode: OpenMode): nat
  {
    if log == [] then 0 else Opens(log[..|log| - 1], mode) + OpenIn(log[|log| - 1], mode)
  }

  /** One more effect at the end of a trace. */
  lemma Extend(log: seq<Effect>, e: Effect)
    ensures OpenAfter(log + [e]) == Track(OpenAfter(log), e)
    ensures Written(log + [e]) == Written(log) + (if e.Wrote? then [e.bytes] else [])
    ensures forall mode :: Opens(log + [e], mode) == Opens(log, mode) + OpenIn(e, mode)
  {
    assert (log + [e])[..|log|] == log;
  }

  /**
   * Open for reading as ma_open does, and aurora_open when it does not
   * initialise: a failed terminal set-up is tolerated only when the
   * descriptor is not a terminal (ENOTTY); every other failure after the
   * open closes the descriptor.
   */
  method OpenReadOnly(env: OpenEnv) returns (fd: int, log: seq<Effect>)
    ensures fd != -1 <==> env.open != -1 && (env.baud.BaudOk? || env.baud.notTty) && env.fcntl
    ensures fd != -1 ==> fd == env.open
    ensures OpenAfter(log) == (if fd != -1 then {fd} else {})
    ensures Written(log) == [] && Opens(log, ReadOnly) == 1 && Opens(log, ReadWrite) == 0
  {
    log := [Opened(ReadOnly, env.open)];
    Extend([], log[0]);
    assert [] + [log[0]] == log;
    if env.open == -1 {
      return -1, log;
    }
    fd := env.open;
    if env.baud.BaudFailed? && !env.baud.notTty {
      Extend(log, Closed(fd));
      return -1, log + [Closed(fd)];
    }
    if !env.fcntl {
      Extend(log, Closed(fd));
      return -1, log + [Closed(fd)];
    }
  }
}
