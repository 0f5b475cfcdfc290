/**
 * The microADSB text decoder of the daemon's main loop: frames of the form
 * "@<12 timecode><14 or 28 squitter>;#<8 frame counter>;\n\r" (the line
 * terminator is the reversed "\n\r"), resynchronisation on garbage, and
 * the -U host:port[:protocol] argument.
 */
module ModesD {
  import opened CStrings
  import opened Options
  import opened Serial
  import opened Udp

  // ---------------------------------------------------------------------
  // Reading the device

  /**
   * readn: read `count` characters into buf[off..], or, when the device
   * runs dry first, return read(2)'s 0 or -1 and drop the partial count.
   */
  method ReadN(port: Port<char>, buf: array<char>, off: nat, count: nat) returns (n: int)
    requires port.Valid() && off + count <= buf.Length
    modifies port, buf
    ensures port.Valid()
    ensures count <= |old(port.rest)| ==>
              n == count && port.rest == old(port.rest)[count..] && buf[off..off + count] == old(port.rest)[..count]
    ensures |old(port.rest)| < count ==>
              n == port.endCode && port.rest == [] && buf[off..off + |old(port.rest)|] == old(port.rest)
    ensures forall j :: 0 <= j < buf.Length && !(off <= j < off + count) ==> buf[j] == old(buf[j])
  {
    ghost var s := port.rest;
    var c := count;
    var i := count;
    var at := off;
    while i > 0
      invariant port.Valid() && 0 <= i <= count && at == off + (count - i)
      invariant count - i <= |s| && port.rest == s[count - i..]
      invariant buf[off..at] == s[..count - i]
      invariant forall j :: 0 <= j < buf.Length && !(off <= j < at) ==> buf[j] == old(buf[j])
      decreases i
    {
      ghost var pre := buf[..];
      var got := port.Read(buf, at, i);
      if got <= 0 {
        return got;
      }
      assert buf[off..at] == pre[off..at];
      assert buf[off..at + got] == buf[off..at] + buf[at..at + got];
      assert s[..count - i + got] == s[..count - i] + s[count - i..][..got];
      i, at := i - got, at + got;
    }
    return c;
  }

  /**
   * Where resync stops, reading `s` from `i`: just after the first ';'
   * that is followed by "\n\r", where after every other ';' the two
   * characters that follow are consumed without being looked at again.
   */
  function ResyncFrom(s: string, i: nat): (r: Option<nat>)
    requires i <= |s|
    ensures r.Some? ==> i + 3 <= r.value <= |s| && s[r.value - 3..r.value] == ";\n\r"
    decreases |s| - i
  {
    if i == |s| then None
    else if s[i] != ';' then ResyncFrom(s, i + 1)
    else if |s| < i + 3 then None
    else if s[i + 1] == '\n' && s[i + 2] == '\r' then Some(i + 3)
    else ResyncFrom(s, i + 3)
  }

  /** resync: the number of characters consumed through the next ";\n\r", or -1 when the device runs dry. */
  method Resync(port: Port<char>) returns (r: int)
    requires port.Valid()
    modifies port
    ensures port.Valid()
    ensures match ResyncFrom(old(port.rest), 0)
            case None => r == -1 && port.rest == []
            case Some(k) => r == k && port.rest == old(port.rest)[k..]
  {
    ghost var s := port.rest;
    var c := new char[1];
    var b := new char[2];
    var i := 0;
    while true
      invariant port.Valid() && 0 <= i <= |s| && port.rest == s[i..]
      invariant ResyncFrom(s, 0) == ResyncFrom(s, i)
      decreases |s| - i
    {
      var n := ReadN(port, c, 0, 1);
      if n != 1 {
        return -1;
      }
      assert c[0] == c[0..1][0] == s[i];
      i := i + 1;
      if c[0] != ';' {
        continue;
      }
      n := ReadN(port, b, 0, 2);
      if n != 2 {
        return -1;
      }
      assert b[0] == b[0..2][0] == s[i] && b[1] == b[0..2][1] == s[i + 1];
      i := i + 2;
      if b[0] == '\n' && b[1] == '\r' {
        break;
      }
    }
    return i;
  }

  // ---------------------------------------------------------------------
  // One pass of the main loop

  const TcLen := 12
  const SqLen := 14
  const EsLen := 28
  const FcLen := 8
  /** A frame carrying a short squitter. */
  const SqLenTotal := 1 + TcLen + SqLen + 2 + FcLen + 3
  /** A frame carrying an extended squitter. */
  const EsLenTotal := 1 + TcLen + EsLen + 2 + FcLen + 3

  /**
   * The outcome of one pass: the loop ends (device dry or interrupted),
   * the stream was resynchronised with `skipped` charged, the frame was
   * dropped for a bad terminator, or a frame was decoded. The time code
   * and the frame counter are the text extractTC and extractFC read.
   */
  datatype Step =
    | Stopped
    | Resynced(skipped: nat)
    | Dropped
    | Decoded(timecode: string, counter: string, payload: string)

  datatype Take = Take(step: Step, used: nat)

  /** The pass the main loop makes over the stream `s`, and how many characters it consumes. */
  function Next(s: string): (t: Take)
    ensures t.used <= |s|
    ensures t.step.Stopped? ==> t.used == |s|
    ensures !t.step.Stopped? ==> SqLenTotal <= t.used
    ensures t.step.Resynced? ==> t.used == SqLenTotal + t.step.skipped
    ensures t.step.Dropped? || t.step.Decoded? ==>
              s[0] == '@' && (t.used == EsLenTotal <==> s[SqLenTotal - 1] != '\r')
              && (t.used == SqLenTotal || t.used == EsLenTotal)
    ensures t.step.Decoded? ==>
              && |t.step.timecode| == TcLen && |t.step.counter| == FcLen
              && |t.step.payload| == t.used - 26 && s[t.used - 2..t.used] == "\n\r"
  {
    if |s| < SqLenTotal then Take(Stopped, |s|)
    else if s[0] != '@' then
      match ResyncFrom(s[SqLenTotal..], 0)
      case None => Take(Stopped, |s|)
      case Some(k) => Take(Resynced(k), SqLenTotal + k)
    else
      var len := if s[SqLenTotal - 1] != '\r' then EsLenTotal else SqLenTotal;
      if |s| < len then Take(Stopped, |s|) else Take(Classify(s[..len]), len)
  }

  /**
   * A span of 40 or 54 characters that starts with '@': dropped unless it
   * ends in "\n\r"; otherwise the time code at offset 1, the frame counter
   * 9 characters before the stripped end, and the squitter between them.
   */
  function Classify(f: string): (step: Step)
    requires |f| == SqLenTotal || |f| == EsLenTotal
    ensures step.Decoded? ==> f[|f| - 2..] == "\n\r"
  {
    if f[|f| - 2] != '\n' || f[|f| - 1] != '\r' then Dropped
    else Decoded(f[1..1 + TcLen], f[|f| - 11..|f| - 3], f[1 + TcLen..|f| - 13])
  }

  /** One pass of the main loop over the device, as Next describes it. */
  method ReadFrame(port: Port<char>) returns (step: Step)
    requires port.Valid()
    modifies port
    ensures port.Valid()
    ensures step == Next(old(port.rest)).step && port.rest == old(port.rest)[Next(old(port.rest)).used..]
  {
    ghost var s := port.rest;
    var buf := new char[EsLenTotal + 1];
    var len := SqLenTotal;
    var n := ReadN(port, buf, 0, len);
    if n < len {
      // -1 (interrupted) or end of file: the loop ends
      return Stopped;
    }
    buf[len] := NUL;
    assert buf[..SqLenTotal] == s[..SqLenTotal];
    if buf[0] != '@' {
      assert s[0] != '@';
      var k := Resync(port);
      if k == -1 {
        return Stopped;
      }
      return Resynced(k);
    }
    assert s[0] == '@' && s[SqLenTotal - 1] == buf[SqLenTotal - 1];
    if buf[SqLenTotal - 1] != '\r' {
      len := EsLenTotal;
      var m := ReadN(port, buf, SqLenTotal, len - SqLenTotal);
      if m < len - SqLenTotal {
        return Stopped;
      }
      buf[len] := NUL;
      assert s[..EsLenTotal] == s[..SqLenTotal] + s[SqLenTotal..][..EsLenTotal - SqLenTotal];
      assert buf[..EsLenTotal] == buf[..SqLenTotal] + buf[SqLenTotal..EsLenTotal];
    }
    assert buf[..len] == s[..len];
    step := Judge(buf, len);
  }

  /** The rest of the pass once the whole span is in `buf`: the terminator check and the extraction of the fields. */
  method Judge(buf: array<char>, len: nat) returns (step: Step)
    requires (len == SqLenTotal || len == EsLenTotal) && len < buf.Length
    modifies buf
    ensures step == Classify(old(buf[..len]))
  {
    ghost var f := buf[..len];
    if buf[len - 2] != '\n' || buf[len - 1] != '\r' {
      return Dropped;  // the next pass resynchronises
    }
    buf[len - 2] := NUL;
    var n := len - 2;
    var timecode := buf[1..1 + TcLen];
    var counter := buf[n - FcLen - 1..n - 1];
    var es := new char[EsLen + 1];
    var plen := n - TcLen - 1 - 2 - FcLen - 1;
    forall j | 0 <= j < plen {
      es[j] := buf[1 + TcLen + j];
    }
    es[plen] := NUL;
    assert es[..plen] == f[1 + TcLen..len - 13];
    return Decoded(timecode, counter, es[..plen]);
  }

  // ---------------------------------------------------------------------
  // The loop as a whole

  /**
   * What the main loop accumulates over a stream: frames relayed, bytes
   * charged to resynchronisation, and the squitter text of every decoded
   * frame, each handed to udp_send followed by a NUL.
   */
  datatype Totals = Totals(frames: nat, skipped: nat, relayed: seq<string>)

  function RunOf(s: string): (r: Totals)
    ensures r.frames == |r.relayed|
    decreases |s|
  {
    var t := Next(s);
    if t.step.Stopped? then Totals(0, 0, []) else Account(t.step, RunOf(s[t.used..]))
  }

  /** A pass's contribution put in front of the totals of the rest of the stream. */
  function Account(step: Step, more: Totals): (r: Totals)
    ensures more.frames == |more.relayed| ==> r.frames == |r.relayed|
  {
    match step
    case Resynced(k) => Totals(more.frames, more.skipped + k, more.relayed)
    case Decoded(_, _, p) => Totals(more.frames + 1, more.skipped, [p] + more.relayed)
    case _ => more
  }

  /** The main loop, until the device runs dry: frame and skip counters and the squitters relayed. */
  method Run(port: Port<char>) returns (frames: nat, skipped: nat, relayed: seq<string>)
    requires port.Valid()
    modifies port
    ensures port.Valid() && port.rest == []
    ensures var t := RunOf(old(port.rest)); frames == t.frames && skipped == t.skipped && relayed == t.relayed
  {
    ghost var s := port.rest;
    frames, skipped, relayed := 0, 0, [];
    assert [] + RunOf(s).relayed == RunOf(s).relayed;
    while true
      invariant port.Valid()
      invariant RunOf(s).frames == frames + RunOf(port.rest).frames
      invariant RunOf(s).skipped == skipped + RunOf(port.rest).skipped
      invariant RunOf(s).relayed == relayed + RunOf(port.rest).relayed
      decreases |port.rest|
    {
      ghost var before := port.rest;
      var step := ReadFrame(port);
      RunOfPass(before);
      if step.Stopped? {
        assert |port.rest| == 0;
        assert relayed + [] == relayed;
        return;
      }
      ghost var more := RunOf(port.rest);
      match step {
        case Resynced(k) =>
          skipped := skipped + k;
        case Dropped =>
        case Decoded(_, _, payload) =>
          // the result of udp_send is only logged
          assert relayed + ([payload] + more.relayed) == (relayed + [payload]) + more.relayed;
          relayed := relayed + [payload];
          frames := frames + 1;
      }
    }
  }

  /** The totals of a stream are those of its first pass put in front of those of the rest. */
  lemma RunOfPass(s: string)
    ensures Next(s).step.Stopped? ==> RunOf(s) == Totals(0, 0, [])
    ensures !Next(s).step.Stopped? ==> RunOf(s) == Account(Next(s).step, RunOf(s[Next(s).used..]))
  {
  }

  // ---------------------------------------------------------------------
  // Properties of the decoder

  /** A frame as the device sends it. */
  function FrameText(timecode: string, payload: string, counter: string): string
  {
    "@" + timecode + payload + ";#" + counter + ";\n\r"
  }

  /** A frame as it appears on the wire: its three fields. */
  datatype WireFrame = WireFrame(timecode: string, payload: string, counter: string)

  /**
   * The field widths, and, in an extended squitter, no '\r' at character 39
   * of the frame, the one the length test looks at.
   */
  predicate WellFormed(f: WireFrame)
  {
    |f.timecode| == TcLen && (|f.payload| == SqLen || |f.payload| == EsLen) && |f.counter| == FcLen
    && (|f.payload| == EsLen ==> f.payload[SqLenTotal - 2 - TcLen] != '\r')
  }

  /** Round trip: a well-formed frame decodes to its own fields, consuming exactly the frame. */
  lemma FrameDecodes(f: WireFrame, rest: string)
    requires WellFormed(f)
    ensures var w := FrameText(f.timecode, f.payload, f.counter);
            Next(w + rest) == Take(Decoded(f.timecode, f.counter, f.payload), |w|)
  {
    var w := FrameText(f.timecode, f.payload, f.counter);
    var s := w + rest;
    var len := |w|;
    assert s[..len] == w;
    assert s[0] == '@';
    assert s[len - 2] == '\n' && s[len - 1] == '\r';
    if |f.payload| == EsLen {
      assert s[SqLenTotal - 1] == f.payload[SqLenTotal - 1 - 1 - TcLen];
    }
    assert s[1..1 + TcLen] == f.timecode;
    assert s[1 + TcLen..len - 13] == f.payload;
    assert s[len - 11..len - 3] == f.counter;
  }

  function Stream(fs: seq<WireFrame>): string
  {
    if fs == [] then [] else FrameText(fs[0].timecode, fs[0].payload, fs[0].counter) + Stream(fs[1..])
  }

  function Payloads(fs: seq<WireFrame>): seq<string>
  {
    if fs == [] then [] else [fs[0].payload] + Payloads(fs[1..])
  }

  /** A clean stream of well-formed frames is relayed in full, in order, with nothing skipped. */
  lemma {:induction false} CleanStream(fs: seq<WireFrame>)
    requires forall k :: 0 <= k < |fs| ==> WellFormed(fs[k])
    ensures RunOf(Stream(fs)) == Totals(|fs|, 0, Payloads(fs))
  {
    if fs != [] {
      var w := FrameText(fs[0].timecode, fs[0].payload, fs[0].counter);
      FrameDecodes(fs[0], Stream(fs[1..]));
      assert (w + Stream(fs[1..]))[|w|..] == Stream(fs[1..]);
      CleanStream(fs[1..]);
    }
  }

  /** resync passes over characters other than ';' without stopping. */
  lemma {:induction false} ResyncPassesPlain(s: string, i: nat, j: nat)
    requires i <= j <= |s| && forall k :: i <= k < j ==> s[k] != ';'
    ensures ResyncFrom(s, i) == ResyncFrom(s, j)
    decreases j - i
  {
    if i < j {
      ResyncPassesPlain(s, i + 1, j);
    }
  }

  /**
   * Bad marker: a span not starting with '@' is followed by resync, and
   * only resync's count is charged, not the 40 characters read first.
   */
  lemma JunkResynced(junk: string, rest: string)
    requires |junk| >= SqLenTotal && junk[0] != '@' && forall k :: SqLenTotal <= k < |junk| ==> junk[k] != ';'
    ensures Next(junk + ";\n\r" + rest) == Take(Resynced(|junk| + 3 - SqLenTotal), |junk| + 3)
  {
    var s := junk + ";\n\r" + rest;
    var tail := s[SqLenTotal..];
    var g := |junk| - SqLenTotal;
    assert tail == junk[SqLenTotal..] + ";\n\r" + rest;
    ResyncPassesPlain(tail, 0, g);
    assert tail[g] == ';' && tail[g + 1] == '\n' && tail[g + 2] == '\r';
  }

  /**
   * Recovery: behind such garbage and its terminator, every frame of a
   * clean stream is relayed; the skip count is 40 short of the garbage.
   */
  lemma JunkThenFrames(junk: string, fs: seq<WireFrame>)
    requires |junk| >= SqLenTotal && junk[0] != '@' && forall k :: SqLenTotal <= k < |junk| ==> junk[k] != ';'
    requires forall k :: 0 <= k < |fs| ==> WellFormed(fs[k])
    ensures RunOf(junk + ";\n\r" + Stream(fs)) == Totals(|fs|, |junk| + 3 - SqLenTotal, Payloads(fs))
  {
    var s := junk + ";\n\r" + Stream(fs);
    JunkResynced(junk, Stream(fs));
    assert s[|junk| + 3..] == Stream(fs);
    CleanStream(fs);
  }

  /**
   * resync does not rescan: after a ';' that is not followed by "\n\r" the
   * two characters after it are consumed unexamined, and the scan goes on
   * behind them.
   */
  lemma ResyncSkipsTwo(s: string, i: nat)
    requires i + 3 <= |s| && s[i] == ';' && !(s[i + 1] == '\n' && s[i + 2] == '\r')
    ensures ResyncFrom(s, i) == ResyncFrom(s, i + 3)
  {
  }

  /** So a terminator whose ';' directly follows another ';' is missed. */
  lemma MissedTerminator(s: string, i: nat)
    requires i + 4 <= |s| && s[i..i + 4] == ";;\n\r"
    ensures ResyncFrom(s, i) != Some(i + 4)
  {
    assert s[i] == ';' && s[i + 1] == ';';
    ResyncSkipsTwo(s, i);
  }

  /**
   * An instance: after ";;" the second ';' is consumed with the character
   * after it, so the terminator starting at index 1 is missed and resync
   * reads on to the next one.
   */
  lemma NoRescan()
    ensures ";;\n\r;\n\r"[1..4] == ";\n\r"
    ensures ResyncFrom(";;\n\r;\n\r", 0) == Some(7)
  {
    var s := ";;\n\r;\n\r";
    assert s[0] == ';' && s[1] == ';' && s[3] == '\r' && s[4] == ';' && s[5] == '\n' && s[6] == '\r';
    assert ResyncFrom(s, 3) == ResyncFrom(s, 4);
  }

  /**
   * Bad terminator: a span that starts with '@' but does not end in "\n\r"
   * is dropped, and neither the frame count nor the skip count changes.
   */
  lemma BadTerminatorUncounted(s: string)
    requires |s| >= SqLenTotal && s[0] == '@'
    requires var len := if s[SqLenTotal - 1] != '\r' then EsLenTotal else SqLenTotal;
             |s| >= len && !(s[len - 2] == '\n' && s[len - 1] == '\r')
    ensures var len := if s[SqLenTotal - 1] != '\r' then EsLenTotal else SqLenTotal;
            Next(s) == Take(Dropped, len) && RunOf(s) == RunOf(s[len..])
  {
    RunOfPass(s);
  }

  // ---------------------------------------------------------------------
  // The -U host:port[:protocol] argument

  predicate IsSpace(c: char)
  {
    c == ' ' || ('\t' <= c <= '\r')
  }

  predicate IsDigit(c: char)
  {
    '0' <= c <= '9'
  }

  function SpaceRun(s: string): (n: nat)
    ensures n <= |s|
  {
    if s != [] && IsSpace(s[0]) then 1 + SpaceRun(s[1..]) else 0
  }

  /** The length of the run of digits `s` starts with. */
  function DigitRun(s: string): (n: nat)
    ensures n <= |s| && (forall k :: 0 <= k < n ==> IsDigit(s[k])) && (n < |s| ==> !IsDigit(s[n]))
  {
    if s != [] && IsDigit(s[0]) then 1 + DigitRun(s[1..]) else 0
  }

  function ValueOf(ds: string): nat
    requires forall k :: 0 <= k < |ds| ==> IsDigit(ds[k])
  {
    if ds == [] then 0
    else
      assert IsDigit(ds[|ds| - 1]);
      ValueOf(ds[..|ds| - 1]) * 10 + (ds[|ds| - 1] as int - '0' as int)
  }

  /** atoi: white space, an optional sign, then the longest run of decimal digits (0 when there is none). */
  function Atoi(s: string): int
  {
    var t := s[SpaceRun(s)..];
    if t != [] && (t[0] == '-' || t[0] == '+') then
      var v := ValueOf(t[1..][..DigitRun(t[1..])]);
      if t[0] == '-' then -(v as int) else v
    else ValueOf(t[..DigitRun(t)])
  }

  /** A number written in decimal, as a user would type it. */
  function Decimal(n: nat): (d: string)
    ensures d != [] && forall k :: 0 <= k < |d| ==> IsDigit(d[k])
  {
    if n < 10 then [('0' as int + n) as char] else Decimal(n / 10) + [('0' as int + n % 10) as char]
  }

  lemma {:induction false} ValueOfDecimal(n: nat)
    ensures ValueOf(Decimal(n)) == n
  {
    if n >= 10 {
      ValueOfDecimal(n / 10);
      var d := Decimal(n);
      assert d[..|d| - 1] == Decimal(n / 10);
    }
  }

  /** atoi reads back a decimal number. */
  lemma AtoiDecimal(n: nat)
    ensures Atoi(Decimal(n)) == n
  {
    var d := Decimal(n);
    assert !IsSpace(d[0]);
    assert d[SpaceRun(d)..] == d;
    assert DigitRun(d) == |d|;
    assert d[..|d|] == d;
    ValueOfDecimal(n);
  }

  /** index(3): the first position of `c` in `s`. */
  function Find(s: string, c: char): (r: Option<nat>)
    ensures r.Some? ==> r.value < |s| && s[r.value] == c && c !in s[..r.value]
    ensures r.None? ==> c !in s
  {
    if s == [] then None
    else if s[0] == c then Some(0)
    else match Find(s[1..], c)
      case None => None
      case Some(k) => (assert s[..k + 1] == [s[0]] + s[1..][..k]; Some(k + 1))
  }

  /** What parseudparg hands to udp_addport: the host, the port as atoi read it, the protocol. */
  datatype UdpArg = UdpArg(host: string, port: int, variant: Variant)

  /** The protocol names -U accepts. */
  function VariantOf(name: string): Option<Variant>
  {
    if name == "raw" then Some(Raw) else if name == "planeplotter" then Some(PlanePlotter) else None
  }

  /**
   * parseudparg's checks, in its order: an argument that is neither NULL
   * nor empty, a ':', then the checks on what follows the host.
   */
  function ParseTarget(arg: Option<string>): (r: Option<UdpArg>)
    ensures arg.None? || StrLen(arg.value) == 0 || ':' !in CStr(arg.value) ==> r == None
    ensures r.Some? ==> r.value.host != [] && ':' !in r.value.host && r.value.port > 0
  {
    if arg.None? || StrLen(arg.value) <= 0 then None
    else
      var t := CStr(arg.value);
      match Find(t, ':')
      case None => None
      case Some(c) => ParseAfterHost(t[..c], t[c + 1..])
  }

  /**
   * The text after the first ':' is the port, up to a second ':' and the
   * protocol after it. The host and the port must be non-empty, the port
   * positive as atoi reads it, and a protocol given must be known; the
   * default is RAW.
   */
  function ParseAfterHost(host: string, after: string): (r: Option<UdpArg>)
    ensures r.Some? ==> r.value.host == host != [] && r.value.port > 0
    ensures var pstr := PortText(after); r.Some? ==> r.value.port == Atoi(pstr)
    ensures var pstr := PortText(after); Atoi(pstr) <= 0 ==> r == None
  {
    var second := Find(after, ':');
    var pstr := PortText(after);
    if |host| <= 0 || |pstr| <= 0 || Atoi(pstr) <= 0 then None
    else if second.None? then Some(UdpArg(host, Atoi(pstr), Raw))
    else match VariantOf(after[second.value + 1..])
      case None => None
      case Some(v) => Some(UdpArg(host, Atoi(pstr), v))
  }

  /** The port text: what follows the host, up to a second ':' if there is one. */
  function PortText(after: string): (p: string)
    ensures p == after || (p <= after && ':' !in p && after[|p|] == ':')
  {
    var second := Find(after, ':');
    if second.Some? then after[..second.value] else after
  }

  /** The cast to unsigned short made when the port is handed to udp_addport. */
  function PortCast(port: int): ushort
  {
    (port % 0x1_0000) as ushort
  }

  /** The argument a user writes for a target, with the protocol named or left to its default. */
  function Render(host: string, port: nat, name: Option<string>): string
  {
    host + ":" + Decimal(port) + (if name.Some? then ":" + name.value else "")
  }

  lemma {:induction false} FindAfter(a: string, b: string)
    requires ':' !in a
    ensures Find(a + ":" + b, ':') == Some(|a|)
  {
    if a != [] {
      assert a[0] in a;
      assert (a + ":" + b)[1..] == a[1..] + ":" + b;
      FindAfter(a[1..], b);
    }
  }

  lemma DecimalHasNoColon(port: nat)
    ensures ':' !in Decimal(port)
  {
    var d := Decimal(port);
    assert forall k :: 0 <= k < |d| ==> d[k] != ':';
  }

  /** The part after the host reads back to the port, with the RAW default. */
  lemma ParsePortOnly(host: string, port: nat)
    requires host != [] && port > 0
    ensures ParseAfterHost(host, Decimal(port)) == Some(UdpArg(host, port, Raw))
  {
    DecimalHasNoColon(port);
    AtoiDecimal(port);
  }

  /** The part after the host reads back to the port and the protocol named. */
  lemma ParsePortAndProtocol(host: string, port: nat, name: string)
    requires host != [] && port > 0 && VariantOf(name).Some?
    ensures ParseAfterHost(host, Decimal(port) + ":" + name) == Some(UdpArg(host, port, VariantOf(name).value))
  {
    var d := Decimal(port);
    DecimalHasNoColon(port);
    AtoiDecimal(port);
    FindAfter(d, name);
    var after := d + ":" + name;
    assert after[..|d|] == d && after[|d| + 1..] == name;
  }

  /** A protocol other than raw or planeplotter is rejected. */
  lemma UnknownProtocolRejected(host: string, pstr: string, name: string)
    requires ':' !in pstr && VariantOf(name).None?
    ensures ParseAfterHost(host, pstr + ":" + name) == None
  {
    FindAfter(pstr, name);
    var after := pstr + ":" + name;
    assert after[..|pstr|] == pstr && after[|pstr| + 1..] == name;
  }

  /** A NUL-free argument with a ':' is split at its first ':'. */
  lemma ParseSplitsHost(host: string, after: string)
    requires ':' !in host && NUL !in host + ":" + after
    ensures ParseTarget(Some(host + ":" + after)) == ParseAfterHost(host, after)
  {
    var s := host + ":" + after;
    CStrOfUnterminated(s);
    assert s[|host|] == ':';
    FindAfter(host, after);
    assert s[..|host|] == host && s[|host| + 1..] == after;
  }

  lemma NoNulInArg(host: string, after: string)
    requires NUL !in host && forall k :: 0 <= k < |after| ==> after[k] != NUL
    ensures NUL !in host + ":" + after
  {
    var s := host + ":" + after;
    forall k | 0 <= k < |s|
      ensures s[k] != NUL
    {
      if k < |host| {
        assert s[k] == host[k] && host[k] in host;
      } else if k > |host| {
        assert s[k] == after[k - |host| - 1];
      }
    }
  }

  /**
   * Round trip: a host without ':' and a positive port, written as
   * host:port or host:port:protocol, parse back to the same host, port and
   * protocol; without a protocol the default is RAW.
   */
  lemma {:induction false} ParseRender(host: string, port: nat, name: Option<string>)
    requires host != [] && ':' !in host && NUL !in host && port > 0
    requires name.Some? ==> VariantOf(name.value).Some?
    ensures ParseTarget(Some(Render(host, port, name)))
            == Some(UdpArg(host, port, if name.Some? then VariantOf(name.value).value else Raw))
  {
    var d := Decimal(port);
    if name.Some? {
      var after := d + ":" + name.value;
      assert Render(host, port, name) == host + ":" + after;
      assert name.value == "raw" || name.value == "planeplotter";
      assert forall k :: 0 <= k < |after| ==> after[k] != NUL;
      NoNulInArg(host, after);
      ParseSplitsHost(host, after);
      ParsePortAndProtocol(host, port, name.value);
    } else {
      assert Render(host, port, name) == host + ":" + d;
      NoNulInArg(host, d);
      ParseSplitsHost(host, d);
      ParsePortOnly(host, port);
    }
  }

  /**
   * The unchecked cast: a port atoi reads as 65536 becomes 0, which
   * udp_addport rejects, while 65537 becomes 1 and is accepted.
   */
  lemma PortWraps(host: string)
    requires host != [] && ':' !in host && NUL !in host
    ensures ParseTarget(Some(Render(host, 65536, None))) == Some(UdpArg(host, 65536, Raw))
    ensures !Acceptable(Some(host), PortCast(65536))
    ensures ParseTarget(Some(Render(host, 65537, None))) == Some(UdpArg(host, 65537, Raw))
    ensures PortCast(65537) == 1
  {
    ParseRender(host, 65536, None);
    ParseRender(host, 65537, None);
  }

  /**
   * parseudparg's reading of the argument: strdup, the ':' that ends the
   * host, a second ':' before the protocol name, and atoi of the port.
   */
  method ReadTarget(arg: Option<string>) returns (u: Option<UdpArg>)
    ensures u == ParseTarget(arg)
    ensures u.Some? ==> StrLen(u.value.host) == |u.value.host| > 0 && CStr(u.value.host) == u.value.host
  {
    if arg.None? || StrLen(arg.value) <= 0 {
      return None;
    }
    var hstr := CStr(arg.value);  // strdup
    var colon := Find(hstr, ':');
    if colon.None? {
      return None;
    }
    var pstr := hstr[colon.value + 1..];
    hstr := hstr[..colon.value];
    ghost var parsed := ParseAfterHost(hstr, pstr);
    assert ParseTarget(arg) == parsed;
    ghost var after := pstr;
    var vstr: Option<string> := None;
    var second := Find(pstr, ':');
    if second.Some? {
      vstr := Some(pstr[second.value + 1..]);
      pstr := pstr[..second.value];
    }
    assert pstr == PortText(after);
    if |hstr| <= 0 || |pstr| <= 0 {
      return None;
    }
    var port := Atoi(pstr);
    if port <= 0 {
      return None;
    }
    var variant := Raw;
    if vstr.Some? {
      if vstr.value == "raw" {
        variant := Raw;
      } else if vstr.value == "planeplotter" {
        variant := PlanePlotter;
      } else {
        return None;
      }
    }
    CStrPrefix(arg.value, |hstr|);
    u := Some(UdpArg(hstr, port, variant));
  }

  /**
   * parseudparg: adds the target the argument names to the relay, and
   * returns -1 if the argument is rejected or udp_addport fails.
   */
  method ParseUdpArg(relay: Relay, arg: Option<string>, env: AddEnv) returns (err: int)
    requires relay.Valid()
    modifies relay
    ensures relay.Valid()
    ensures ParseTarget(arg).None? ==> err == -1 && unchanged(relay)
    ensures ParseTarget(arg).Some? ==>
              var u := ParseTarget(arg).value;
              && (err == 0 <==> PortCast(u.port) != 0 && env.allocates && env.socket != -1 && env.resolves && env.connects)
              && (err == 0 ==> relay.targets == [Target(u.host, PortCast(u.port), u.variant, env.socket, old(relay.nextNode))] + old(relay.targets))
              && (err != 0 ==> err == -1 && relay.targets == old(relay.targets))
  {
    var parsed := ReadTarget(arg);
    if parsed.None? {
      return -1;
    }
    var u := parsed.value;
    err := relay.AddPort(Some(u.host), PortCast(u.port), u.variant, env);
  }
}
