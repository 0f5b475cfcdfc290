/**
 * The Aurora receiver: RAW-mode frames framed as DLE STX ... DLE ETX with
 * every DLE inside the frame doubled, the validation of the unstuffed body,
 * the rendering of its Mode-S bytes as hex, and the reset/heartbeat dialogue
 * that puts the device into RAW mode.
 */
module Aurora {
  import opened CStrings
  import opened Octets
  import opened Options
  import opened Serial
  import opened Posix

  const DLE: byte := 0x10
  const STX: byte := 0x02
  const ETX: byte := 0x03

  /** Size of aurora_read's buffer; the index into it never reaches this. */
  const BufSize := 255

  const FrameTypeStandard: byte := 0x02
  const SubtypeModeS: byte := 0x00
  /** The length parseframe insists on for a Mode-S frame. */
  const ModeSLengthField := 36
  /** Offset of the Mode-S bytes: reserved, type, subtype, time status, 2 unknown, 8 time code, 7 unknown. */
  const ModeSOffset := 21
  /** Size of the Mode-S region (an extended squitter). */
  const ModeSBytes := 14

  /** The fields of `struct frame` that the decoder fills. */
  class Frame {
    /** Bytes skipped to resynchronise; accumulates across reads. */
    var skipped: int
    /** Hex text of the squitter: 28 characters and a NUL at most. */
    const data: array<char>

    ghost predicate Valid()
      reads this
    {
      data.Length == 28 + 1
    }

    /** The string in `data`. */
    function Payload(): string
      reads this, data
    {
      CStr(data[..])
    }

    constructor ()
      ensures Valid() && fresh(data) && skipped == 0 && Payload() == ""
    {
      skipped := 0;
      data := new char[28 + 1](_ => NUL);
    }
  }

  /** The downlink format: (b >> 3) & 0x1f for an unsigned char. */
  function Df(b: byte): int
  {
    (b as int / 8) % 32
  }

  /** How many squitter bytes sprintmodes renders: all 14 for DF 16 and up, else 7. */
  function PayloadLength(first: byte): nat
  {
    if Df(first) >= 16 then 14 else 7
  }

  // ---------------------------------------------------------------------
  // The wire encoding and the reference decoder

  /** Doubles every DLE of a frame body. */
  function Stuff(body: seq<byte>): seq<byte>
  {
    if body == [] then []
    else (if body[0] == DLE then [DLE, DLE] else [body[0]]) + Stuff(body[1..])
  }

  /** A whole frame on the wire. */
  function Encode(body: seq<byte>): seq<byte>
  {
    [DLE, STX] + Stuff(body) + [DLE, ETX]
  }

  /**
   * What one attempt to find a frame comes to, over the bytes it reads:
   * the device ran dry, the attempt was abandoned with `skip` bytes
   * charged to `frame->skipped`, or a closing DLE ETX ended the body (Framed).
   * `used` is the number of bytes read.
   */
  datatype Scan = ReadFailed | Abandoned(skip: nat, used: nat) | Framed(body: seq<byte>, used: nat)

  /** The framing state machine over the stream `s`, written on the unstuffed body. */
  function Decode(s: seq<byte>): (r: Scan)
    ensures !r.ReadFailed? ==> 0 < r.used <= |s|
    ensures r.Abandoned? ==> r.skip <= BufSize
  {
    if |s| == 0 then ReadFailed
    else if s[0] != DLE then Abandoned(0, 1)
    else if |s| == 1 then ReadFailed
    else if s[1] != STX then Abandoned(1, 2)
    else ScanBody(s, 2, [])
  }

  /**
   * Inside a frame, `i` bytes read and `body` unstuffed so far; the buffer
   * index is |body| + 2. The byte read at index 254 is the last the buffer
   * takes: whatever it is, the attempt is abandoned with 255 skipped.
   */
  function ScanBody(s: seq<byte>, i: nat, body: seq<byte>): (r: Scan)
    requires 2 <= i <= |s| && |body| + 2 < BufSize
    ensures !r.ReadFailed? ==> i < r.used <= |s|
    ensures r.Abandoned? ==> |body| + 3 <= r.skip <= BufSize
    decreases |s| - i
  {
    if i == |s| then ReadFailed
    else if |body| + 3 == BufSize then Abandoned(BufSize, i + 1)
    else if s[i] != DLE then ScanBody(s, i + 1, body + [s[i]])
    else if i + 1 == |s| then ReadFailed
    else if s[i + 1] == DLE then ScanBody(s, i + 2, body + [DLE])
    else if s[i + 1] == ETX then Framed(body, i + 2)
    else Abandoned(|body| + 3, i + 2)
  }

  /**
   * parseframe on a buffer that starts at the body, handed the length `buflen`.
   * The result is the Mode-S region sprintmodes renders, or None when the
   * frame is not a Mode-S frame (which is not an error). Byte 0 is only logged.
   */
  function ParseFrame(buf: seq<byte>, buflen: int): (r: Option<seq<byte>>)
    requires |buf| >= 2
    requires buf[1] == FrameTypeStandard ==> |buf| >= 3
    requires buf[1] == FrameTypeStandard && buf[2] == SubtypeModeS && buflen == ModeSLengthField ==>
               |buf| >= ModeSOffset + ModeSBytes
    ensures r.Some? <==> buf[1] == FrameTypeStandard && buf[2] == SubtypeModeS && buflen == ModeSLengthField
    ensures r.Some? ==> |r.value| == ModeSBytes && r.value == buf[ModeSOffset .. ModeSOffset + ModeSBytes]
  {
    if buf[1] != FrameTypeStandard then None
    else if buf[2] != SubtypeModeS then None
    else if buflen != ModeSLengthField then None
    else Some(buf[ModeSOffset .. ModeSOffset + ModeSBytes])
  }

  /** What aurora_read does with the stream `s`. */
  datatype Outcome = Failed | NoFrame(skip: nat, used: nat) | Decoded(modeS: seq<byte>, used: nat)

  function Receive(s: seq<byte>): (r: Outcome)
    ensures !r.Failed? ==> r.used <= |s|
    ensures r.Decoded? ==> |r.modeS| == ModeSBytes
  {
    match Decode(s)
    case ReadFailed => Failed
    case Abandoned(k, u) => NoFrame(k, u)
    case Framed(body, u) =>
      // the buffer still holds the closing DLE ETX after the body
      match ParseFrame(body + [DLE, ETX], |body| - 1)
      case None => NoFrame(0, u)
      case Some(m) => Decoded(m, u)
  }

  /** aurora_read's return value. */
  function Code(o: Outcome): int
  {
    match o
    case Failed => -1
    case NoFrame(_, _) => 0
    case Decoded(_, _) => 1
  }

  // ---------------------------------------------------------------------
  // The decoder as the source runs it

  datatype DecoderState = OutOfFrame | InDle | InFrame | InDleInFrame | EndOfFrame

  /** sprintmodes: renders 7 or 14 bytes of `src`, chosen by the DF of its first byte, into `dest`. */
  method SprintModes(dest: array<char>, src: seq<byte>)
    requires dest.Length == 28 + 1 && |src| >= ModeSBytes
    modifies dest
    ensures CStr(dest[..]) == Hex(src[..PayloadLength(src[0])])
  {
    var df := (src[0] as int / 8) % 32;
    var len := if df >= 16 then 14 else 7;
    var i, j := 0, 0;
    ghost var text: string := [];
    while i < len
      invariant 0 <= i <= len && j == 2 * i
      invariant text == Hex(src[..i]) && dest[..j] == text
      invariant i > 0 ==> dest[j] == NUL
    {
      var h := Hex2(src[i]);
      ghost var before := dest[..];
      dest[j], dest[j + 1], dest[j + 2] := h[0], h[1], NUL;
      Rendered(before, dest[..], j, text, h);
      HexSnoc(src, i);
      text := text + h;
      j := j + |h|;
      i := i + 1;
    }
    HexShape(src[..len]);
    assert forall k :: 0 <= k < |text| ==> IsHexDigit(text[k]);
    assert dest[..] == text + [NUL] + dest[j + 1..];
    CStrOfTerminated(text, dest[j + 1..]);
  }

  /** sprintf of two digits and a NUL at index j keeps what is before it. */
  lemma Rendered(before: string, after: string, j: nat, text: string, h: string)
    requires |h| == 2 && j + 3 <= |before| == |after| && before[..j] == text
    requires forall k :: 0 <= k < |after| && !(j <= k < j + 3) ==> after[k] == before[k]
    requires after[j] == h[0] && after[j + 1] == h[1]
    ensures after[..j + 2] == text + h
  {
  }

  /** Rendering one more byte of `src` appends its two digits. */
  lemma HexSnoc(src: seq<byte>, i: nat)
    requires i < |src|
    ensures Hex(src[..i + 1]) == Hex(src[..i]) + Hex2(src[i])
  {
    assert src[..i + 1][..i] == src[..i];
  }

  /**
   * aurora_read: returns -1 when the device runs dry, 0 when no Mode-S
   * frame was found (charging the skip to `frame.skipped`), 1 when
   * `frame.data` holds a new squitter.
   */
  method Read(port: Port<byte>, frame: Frame) returns (r: int)
    requires port.Valid() && frame.Valid()
    modifies port, frame, frame.data
    ensures port.Valid() && frame.Valid()
    ensures r == Code(Receive(old(port.rest)))
    ensures match Receive(old(port.rest))
            case Failed =>
              port.rest == [] && frame.skipped == old(frame.skipped) && frame.data[..] == old(frame.data[..])
            case NoFrame(k, u) =>
              port.rest == old(port.rest)[u..] && frame.skipped == old(frame.skipped) + k
              && frame.data[..] == old(frame.data[..])
            case Decoded(m, u) =>
              port.rest == old(port.rest)[u..] && frame.skipped == old(frame.skipped)
              && frame.Payload() == Hex(m[..PayloadLength(m[0])])
  {
    var buf := new byte[BufSize];
    var end := Collect(port, buf);
    match end {
      case Dry =>
        return -1;
      case Abandon(k) =>
        frame.skipped := frame.skipped + k;
        return 0;
      case Closing(n) =>
        // pass along without the DLE STX and DLE ETX
        var modeS := ParseFrame(buf[2..n + 1], n - 4);
        if modeS.None? {
          return 0;
        }
        SprintModes(frame.data, modeS.value);
        return 1;
    }
  }

  /** How the framing loop of aurora_read ends. */
  datatype LoopEnd =
    | Dry                 // read(2) returned less than one byte
    | Abandon(skip: nat)  // no frame here; `skip` bytes are charged
    | Closing(n: nat)     // DLE ETX at buffer index n - 1 and n

  /** The framing loop of aurora_read: the state machine over the bytes read one at a time into `buf`. */
  method Collect(port: Port<byte>, buf: array<byte>) returns (end: LoopEnd)
    requires port.Valid() && buf.Length == BufSize
    modifies port, buf
    ensures port.Valid()
    ensures match Decode(old(port.rest))
            case ReadFailed => end == Dry && port.rest == []
            case Abandoned(k, u) => end == Abandon(k) && port.rest == old(port.rest)[u..]
            case Framed(body, u) =>
              && end.Closing? && 3 <= end.n < BufSize && port.rest == old(port.rest)[u..]
              && buf[2..end.n + 1] == body + [DLE, ETX]
  {
    var state := OutOfFrame;
    var n := 0;
    ghost var s := port.rest;
    ghost var i := 0;
    ghost var body: seq<byte> := [];
    while n < BufSize
      invariant port.Valid() && 0 <= i <= |s| && port.rest == s[i..]
      invariant Scanning(s, state, n, i, body)
      invariant state == InFrame && n < BufSize ==> buf[2..n] == body
      invariant state == InDleInFrame && n < BufSize ==> buf[2..n] == body + [DLE]
      decreases 2 * (BufSize - n) + (if state == InDleInFrame then 1 else 0)
    {
      ghost var pre := buf[..];
      ghost var ahead := port.rest;
      var got := port.Read(buf, n, 1);
      if got < 1 {
        return Dry;
      }
      assert ahead[0] == s[i];
      assert buf[n] == buf[n..n + 1][0] == ahead[..1][0];
      assert buf[..n] == pre[..n];
      Advance(s, state, n, i, body);
      i := i + 1;
      if state == OutOfFrame {
        if buf[n] != DLE {
          return Abandon(n);
        }
        state := InDle;
      } else if state == InDle {
        if buf[n] != STX {
          return Abandon(n);
        }
        assert buf[2..n + 1] == [];
        state := InFrame;
      } else if state == InFrame {
        Appended(pre, buf[..], n);
        if buf[n] == DLE {
          state := InDleInFrame;
        } else {
          body := body + [buf[n]];
        }
      } else if state == InDleInFrame {
        Appended(pre, buf[..], n);
        if buf[n] == DLE {
          body := body + [DLE];
          state := InFrame;
          n := n - 1;  // the second DLE is overwritten by the next byte
        } else if buf[n] == ETX {
          state := EndOfFrame;
          break;
        } else {
          return Abandon(n);
        }
      }
      n := n + 1;
    }
    if state != EndOfFrame {
      return Abandon(n);
    }
    assert buf[2..n + 1] == body + [DLE, ETX];
    return Closing(n);
  }

  /** The buffer after one more byte is stored at index n. */
  lemma Appended(pre: seq<byte>, post: seq<byte>, n: nat)
    requires 2 <= n < |post| == |pre| && post[..n] == pre[..n]
    ensures post[2..n] == pre[2..n] && post[2..n + 1] == pre[2..n] + [post[n]]
  {
    assert post[2..n] == post[..n][2..];
    assert pre[2..n] == pre[..n][2..];
  }

  /**
   * What the loop of aurora_read knows before it reads the next byte: `i`
   * bytes of `s` read, buffer index `n`, and the body unstuffed so far.
   */
  ghost predicate Scanning(s: seq<byte>, state: DecoderState, n: int, i: int, body: seq<byte>)
  {
    && 0 <= i <= |s| && 0 <= n <= BufSize && state != EndOfFrame
    && (state == OutOfFrame ==> n == 0 && i == 0 && body == [])
    && (state == InDle ==> n == 1 && i == 1 && s[0] == DLE && body == [])
    && (state == InFrame && n < BufSize ==>
          2 <= n && 2 <= i && |body| == n - 2 && Decode(s) == ScanBody(s, i, body))
    && (state == InDleInFrame && n < BufSize ==>
          3 <= n && 3 <= i && s[i - 1] == DLE && |body| == n - 3 && Decode(s) == ScanBody(s, i - 1, body))
    && (n == BufSize ==> Decode(s) == Abandoned(BufSize, i))
  }

  /**
   * Each transition of aurora_read's state machine on the byte s[i] agrees
   * with the reference decoder: the new state is again Scanning, or the
   * attempt ends with the verdict Decode gives.
   */
  lemma Advance(s: seq<byte>, state: DecoderState, n: int, i: int, body: seq<byte>)
    requires Scanning(s, state, n, i, body) && n < BufSize && i < |s|
    ensures state == OutOfFrame ==>
              if s[i] == DLE then Scanning(s, InDle, n + 1, i + 1, body) else Decode(s) == Abandoned(n, i + 1)
    ensures state == InDle ==>
              if s[i] == STX then Scanning(s, InFrame, n + 1, i + 1, body) else Decode(s) == Abandoned(n, i + 1)
    ensures state == InFrame ==>
              if s[i] == DLE then Scanning(s, InDleInFrame, n + 1, i + 1, body)
              else Scanning(s, InFrame, n + 1, i + 1, body + [s[i]])
    ensures state == InDleInFrame ==>
              if s[i] == DLE then Scanning(s, InFrame, n, i + 1, body + [DLE])
              else if s[i] == ETX then Decode(s) == Framed(body, i + 1)
              else Decode(s) == Abandoned(n, i + 1)
  {
    if state == InFrame {
      InFrameStep(s, i, body);
    } else if state == InDleInFrame {
      DleStep(s, i - 1, body);
    }
  }

  /** One byte read inside the frame, at buffer index |body| + 2. */
  lemma InFrameStep(s: seq<byte>, i: nat, body: seq<byte>)
    requires 2 <= i < |s| && |body| + 2 < BufSize
    ensures |body| + 3 == BufSize ==> ScanBody(s, i, body) == Abandoned(BufSize, i + 1)
    ensures |body| + 3 < BufSize && s[i] != DLE ==> ScanBody(s, i, body) == ScanBody(s, i + 1, body + [s[i]])
  {
  }

  /** The byte after a DLE inside the frame: a doubled DLE, the closing ETX, or a broken frame. */
  lemma DleStep(s: seq<byte>, i: nat, body: seq<byte>)
    requires 2 <= i && i + 1 < |s| && s[i] == DLE && |body| + 3 < BufSize
    ensures s[i + 1] == DLE ==> ScanBody(s, i, body) == ScanBody(s, i + 2, body + [DLE])
    ensures s[i + 1] == ETX ==> ScanBody(s, i, body) == Framed(body, i + 2)
    ensures s[i + 1] != DLE && s[i + 1] != ETX ==> ScanBody(s, i, body) == Abandoned(|body| + 3, i + 2)
  {
  }

  // ---------------------------------------------------------------------
  // Properties of the framing

  lemma {:induction false} ScanStuffed(s: seq<byte>, i: nat, prefix: seq<byte>, tail: seq<byte>)
    requires 2 <= i && |prefix| + |tail| <= 251
    requires i + |Stuff(tail)| + 2 <= |s|
    requires s[i .. i + |Stuff(tail)| + 2] == Stuff(tail) + [DLE, ETX]
    ensures ScanBody(s, i, prefix) == Framed(prefix + tail, i + |Stuff(tail)| + 2)
    decreases |tail|
  {
    if tail == [] {
      Window(s, i, [DLE, ETX], 2);
      DleStep(s, i, prefix);
      assert prefix + tail == prefix;
    } else {
      var k := StuffedHead(s, i, tail);
      ScanStuffed(s, i + k, prefix + [tail[0]], tail[1..]);
      if tail[0] == DLE {
        DleStep(s, i, prefix);
      } else {
        InFrameStep(s, i, prefix);
      }
      assert prefix + [tail[0]] + tail[1..] == prefix + tail;
    }
  }

  /**
   * The stuffed form of the first byte of a body: DLE DLE for a DLE, the
   * byte itself otherwise; the stuffed rest follows it in the window.
   */
  lemma StuffedHead(s: seq<byte>, i: nat, tail: seq<byte>) returns (k: nat)
    requires tail != [] && i + |Stuff(tail)| + 2 <= |s|
    requires s[i .. i + |Stuff(tail)| + 2] == Stuff(tail) + [DLE, ETX]
    ensures k == (if tail[0] == DLE then 2 else 1) && |Stuff(tail)| == k + |Stuff(tail[1..])|
    ensures tail[0] == DLE ==> s[i] == DLE && s[i + 1] == DLE
    ensures tail[0] != DLE ==> s[i] == tail[0]
    ensures s[i + k .. i + k + |Stuff(tail[1..])| + 2] == Stuff(tail[1..]) + [DLE, ETX]
  {
    var w := Stuff(tail) + [DLE, ETX];
    if tail[0] == DLE {
      k := 2;
      assert w == [DLE, DLE] + (Stuff(tail[1..]) + [DLE, ETX]);
    } else {
      k := 1;
      assert w == [tail[0]] + (Stuff(tail[1..]) + [DLE, ETX]);
    }
    Window(s, i, w, k);
  }

  /** The bytes of a window of `s`, and the window that follows its first j bytes. */
  lemma Window(s: seq<byte>, i: nat, w: seq<byte>, j: nat)
    requires i + |w| <= |s| && s[i .. i + |w|] == w && j <= |w|
    ensures forall m :: 0 <= m < j ==> s[i + m] == w[m]
    ensures s[i + j .. i + |w|] == w[j..]
  {
    forall m | 0 <= m < j
      ensures s[i + m] == w[m]
    {
      assert w[m] == s[i .. i + |w|][m];
    }
  }

  /** Round trip: an encoded body of at most 251 bytes decodes to itself, reading exactly the frame. */
  lemma DecodeEncode(body: seq<byte>, rest: seq<byte>)
    requires |body| <= 251
    ensures Decode(Encode(body) + rest) == Framed(body, |Encode(body)|)
  {
    var s := Encode(body) + rest;
    assert s[0] == DLE && s[1] == STX;
    assert s[2 .. 2 + |Stuff(body)| + 2] == Stuff(body) + [DLE, ETX];
    ScanStuffed(s, 2, [], body);
    assert [] + body == body;
  }

  lemma {:induction false} FramedScan(s: seq<byte>, i: nat, prefix: seq<byte>) returns (tail: seq<byte>)
    requires 2 <= i <= |s| && |prefix| + 2 < BufSize
    requires ScanBody(s, i, prefix).Framed?
    ensures var c := ScanBody(s, i, prefix);
              && c.body == prefix + tail && |c.body| <= 251
              && s[i .. c.used] == Stuff(tail) + [DLE, ETX]
    decreases |s| - i
  {
    var c := ScanBody(s, i, prefix);
    if s[i] != DLE {
      var more := FramedScan(s, i + 1, prefix + [s[i]]);
      tail := [s[i]] + more;
      assert tail[1..] == more;
      assert prefix + [s[i]] + more == prefix + tail;
      assert s[i .. c.used] == [s[i]] + s[i + 1 .. c.used];
    } else if s[i + 1] == DLE {
      var more := FramedScan(s, i + 2, prefix + [DLE]);
      tail := [DLE] + more;
      assert tail[1..] == more;
      assert prefix + [DLE] + more == prefix + tail;
      assert s[i .. c.used] == [DLE, DLE] + s[i + 2 .. c.used];
    } else {
      tail := [];
      assert prefix + tail == prefix;
    }
  }

  /** The converse of the round trip: a closed frame is the encoding of its body. */
  lemma FramedIsEncoded(s: seq<byte>)
    requires Decode(s).Framed?
    ensures |Decode(s).body| <= 251 && s[..Decode(s).used] == Encode(Decode(s).body)
  {
    var c := Decode(s);
    var tail := FramedScan(s, 2, []);
    assert [] + tail == tail;
    assert s[..c.used] == [s[0], s[1]] + s[2 .. c.used];
  }

  lemma {:induction false} ScanAccounting(s: seq<byte>, i: nat, body: seq<byte>)
    requires 2 <= i <= |s| && |body| + 2 < BufSize && |body| + 2 <= i <= 2 * |body| + 2
    ensures var r := ScanBody(s, i, body);
              && (r.Abandoned? ==> r.skip <= r.used && (r.skip < BufSize ==> r.skip < r.used))
              && (!r.ReadFailed? ==> r.used <= 2 * BufSize)
    decreases |s| - i
  {
    if i < |s| && |body| + 3 != BufSize {
      if s[i] != DLE {
        ScanAccounting(s, i + 1, body + [s[i]]);
      } else if i + 1 < |s| && s[i + 1] == DLE {
        ScanAccounting(s, i + 2, body + [DLE]);
      }
    }
  }

  /**
   * Skip accounting: an abandoned attempt charges at most the bytes it read,
   * and strictly fewer unless the 255-byte bound was hit; no attempt reads
   * more than 2 x 255 bytes. A bad first byte charges 0 for the 1 byte
   * read, a bad second byte 1 for the 2 bytes read.
   */
  lemma AbandonedAccounting(s: seq<byte>)
    ensures 1 <= |s| && s[0] != DLE ==> Decode(s) == Abandoned(0, 1)
    ensures 2 <= |s| && s[0] == DLE && s[1] != STX ==> Decode(s) == Abandoned(1, 2)
    ensures Decode(s).Abandoned? ==>
              Decode(s).skip <= Decode(s).used && (Decode(s).skip < BufSize ==> Decode(s).skip < Decode(s).used)
    ensures !Decode(s).ReadFailed? ==> Decode(s).used <= 2 * BufSize
  {
    if 2 <= |s| && s[0] == DLE && s[1] == STX {
      ScanAccounting(s, 2, []);
    }
  }

  lemma {:induction false} ScanExtends(s: seq<byte>, t: seq<byte>, i: nat, body: seq<byte>)
    requires 2 <= i <= |s| && |body| + 2 < BufSize
    requires !ScanBody(s, i, body).ReadFailed?
    ensures ScanBody(s + t, i, body) == ScanBody(s, i, body)
    decreases |s| - i
  {
    var st := s + t;
    assert st[i] == s[i];
    if |body| + 3 != BufSize {
      if s[i] != DLE {
        ScanExtends(s, t, i + 1, body + [s[i]]);
      } else {
        assert st[i + 1] == s[i + 1];
        if s[i + 1] == DLE {
          ScanExtends(s, t, i + 2, body + [DLE]);
        }
      }
    }
  }

  /** The decoder reads only what it decides on: more bytes behind a decided attempt change nothing. */
  lemma DecidedOnPrefix(s: seq<byte>, t: seq<byte>)
    requires !Receive(s).Failed?
    ensures Receive(s + t) == Receive(s)
  {
    var st := s + t;
    assert st[0] == s[0];
    if s[0] == DLE {
      assert st[1] == s[1];
      if s[1] == STX {
        ScanExtends(s, t, 2, []);
      }
    }
  }

  /**
   * parseframe as aurora_read calls it, on the unstuffed body: it is handed
   * one less than the body length, so it accepts exactly the 37-byte bodies
   * of type standard and subtype Mode-S, whatever byte 0 holds.
   */
  lemma BodyVerdict(body: seq<byte>)
    ensures var m := ParseFrame(body + [DLE, ETX], |body| - 1);
              && (m.Some? <==> |body| == 37 && body[1] == FrameTypeStandard && body[2] == SubtypeModeS)
              && (m.Some? ==> m.value == body[ModeSOffset .. ModeSOffset + ModeSBytes])
  {
    var buf := body + [DLE, ETX];
    if |body| < 3 {
      assert buf[|body|] == DLE && buf[|body| + 1] == ETX;
    } else {
      assert buf[1] == body[1] && buf[2] == body[2];
      if |body| == 37 {
        assert buf[ModeSOffset .. ModeSOffset + ModeSBytes] == body[ModeSOffset .. ModeSOffset + ModeSBytes];
      }
    }
  }

  /**
   * Round trip of a whole Mode-S frame: encoding a 37-byte standard Mode-S
   * body and reading it back yields its squitter bytes, rendered as 14 or
   * 28 hex digits that read back to exactly the designated bytes.
   */
  lemma FrameRoundTrip(body: seq<byte>, rest: seq<byte>)
    requires |body| == 37 && body[1] == FrameTypeStandard && body[2] == SubtypeModeS
    ensures Receive(Encode(body) + rest) == Decoded(body[ModeSOffset .. ModeSOffset + ModeSBytes], |Encode(body)|)
    ensures var len := PayloadLength(body[ModeSOffset]);
            var text := Hex(body[ModeSOffset .. ModeSOffset + len]);
            && |text| == 2 * len && (|text| == 14 || |text| == 28) && IsHex(text)
            && Unhex(text) == body[ModeSOffset .. ModeSOffset + len]
  {
    var s := Encode(body) + rest;
    DecodeEncode(body, rest);
    assert Decode(s) == Framed(body, |Encode(body)|);
    BodyVerdict(body);
    assert ParseFrame(body + [DLE, ETX], |body| - 1) == Some(body[ModeSOffset .. ModeSOffset + ModeSBytes]);
    var len := PayloadLength(body[ModeSOffset]);
    var bytes := body[ModeSOffset .. ModeSOffset + len];
    HexShape(bytes);
    UnhexHex(bytes);
  }

  /** Every decoded frame carries 14 or 28 upper-case hex digits. */
  lemma DecodedPayloadShape(s: seq<byte>)
    requires Receive(s).Decoded?
    ensures var m := Receive(s).modeS;
            var text := Hex(m[..PayloadLength(m[0])]);
            (|text| == 14 || |text| == 28) && IsHex(text)
  {
    var m := Receive(s).modeS;
    HexShape(m[..PayloadLength(m[0])]);
  }

  /**
   * A well-framed 36-byte body of type standard and subtype Mode-S is not
   * a frame: parseframe sees length 35. The attempt ends with nothing
   * skipped.
   */
  lemma ThirtySixByteBodyRejected(body: seq<byte>, rest: seq<byte>)
    requires |body| == 36
    ensures Receive(Encode(body) + rest) == NoFrame(0, |Encode(body)|)
  {
    DecodeEncode(body, rest);
    BodyVerdict(body);
  }

  // ---------------------------------------------------------------------
  // Opening the device

  const Heartbeat := "$!MSRAHB"
  const ModeRaw := "$!MSRARAW,*00"

  /**
   * Oracles for aurora_init: open(2), fcntl, setbaud, the two DTR ioctls,
   * the lines readln returns (a read error follows the last one) and
   * write(2)'s result for the RAW-mode command.
   */
  datatype InitEnv = InitEnv(
    open: int, fcntl: bool, baud: BaudResult, dtrSet: bool, dtrClear: bool,
    lines: seq<string>, rawWrite: int)

  /** The steps before the heartbeat wait all succeed. */
  predicate SetupOk(env: InitEnv)
  {
    env.open != -1 && env.fcntl && env.baud.BaudOk? && env.dtrSet && env.dtrClear
  }

  predicate IsHeartbeat(line: string)
  {
    StrLen(line) != 0 && HasPrefix(CStr(line), Heartbeat)
  }

  /** The index of the first heartbeat line. */
  function HeartbeatAt(lines: seq<string>): (r: Option<nat>)
    ensures r.Some? ==> r.value < |lines| && IsHeartbeat(lines[r.value])
    ensures r.Some? ==> forall j :: 0 <= j < r.value ==> !IsHeartbeat(lines[j])
    ensures r.None? ==> forall j :: 0 <= j < |lines| ==> !IsHeartbeat(lines[j])
  {
    if lines == [] then None
    else if IsHeartbeat(lines[0]) then Some(0)
    else match HeartbeatAt(lines[1..])
      case None => None
      case Some(k) => Some(k + 1)
  }

  /** The size_t value of a ssize_t, as the usual arithmetic conversions make it. */
  function SizeT(w: int): int
  {
    if w < 0 then w + 0x1_0000_0000_0000_0000 else w
  }

  /** The RAW-mode write check as written: write(...) < strlen(...) compares as size_t. */
  predicate RawWriteFailedAsWritten(w: int)
  {
    SizeT(w) < |ModeRaw|
  }

  /** The RAW-mode write check as intended: anything short of the whole command, -1 included. */
  predicate RawWriteFailed(w: int)
  {
    w < |ModeRaw|
  }

  /** A write(2) error slips through the check as written; for every other result the two agree. */
  lemma RawWriteErrorAccepted(w: int)
    requires -1 <= w
    ensures RawWriteFailed(-1) && !RawWriteFailedAsWritten(-1)
    ensures w != -1 ==> (RawWriteFailedAsWritten(w) <==> RawWriteFailed(w))
  {
  }

  /**
   * aurora_init: reset the device, wait for its first heartbeat, switch it
   * to RAW mode. Success returns the open descriptor.
   */
  method Init(env: InitEnv) returns (fd: int, log: seq<Effect>)
    ensures fd != -1 <==> SetupOk(env) && HeartbeatAt(env.lines).Some? && !RawWriteFailed(env.rawWrite)
    ensures fd != -1 ==> fd == env.open && OpenAfter(log) == {fd} && Written(log) == [ModeRaw]
    ensures fd == -1 && SetupOk(env) && HeartbeatAt(env.lines).None? ==> OpenAfter(log) == {env.open}
    ensures fd == -1 && !(SetupOk(env) && HeartbeatAt(env.lines).None?) ==> OpenAfter(log) == {}
  {
    log := [Opened(ReadWrite, env.open)];
    if env.open == -1 {
      return -1, log;
    }
    fd := env.open;
    Extend([], log[0]);
    assert [] + [log[0]] == log;
    if !env.fcntl || !env.baud.BaudOk? || !env.dtrSet {
      Extend(log, Closed(fd));
      return -1, log + [Closed(fd)];
    }
    Extend(log, Slept(1));
    log := log + [Slept(1)];
    if !env.dtrClear {
      Extend(log, Closed(fd));
      return -1, log + [Closed(fd)];
    }
    var k := 0;
    while true
      invariant 0 <= k <= |env.lines|
      invariant forall j :: 0 <= j < k ==> !IsHeartbeat(env.lines[j])
      decreases |env.lines| - k
    {
      if k == |env.lines| {
        // readln failed: returns without closing the descriptor
        return -1, log;
      }
      var line := env.lines[k];
      k := k + 1;
      if StrLen(line) == 0 {
        continue;
      }
      if HasPrefix(CStr(line), Heartbeat) {
        break;
      }
      if line[0] == '#' {
        continue;  // device information, logged
      }
      // any other line is logged as unrecognised
    }
    assert HeartbeatAt(env.lines) == Some(k - 1);
    Extend(log, Wrote(fd, ModeRaw));
    log := log + [Wrote(fd, ModeRaw)];
    if RawWriteFailed(env.rawWrite) {
      Extend(log, Closed(fd));
      return -1, log + [Closed(fd)];
    }
  }

  /** aurora_open: initialise when asked to; otherwise open for reading, tolerating a non-terminal. */
  method Open(init: bool, initEnv: InitEnv, env: OpenEnv) returns (fd: int, log: seq<Effect>)
    ensures init ==> (fd != -1 <==> SetupOk(initEnv) && HeartbeatAt(initEnv.lines).Some? && !RawWriteFailed(initEnv.rawWrite))
    ensures !init ==> (fd != -1 <==> env.open != -1 && (env.baud.BaudOk? || env.baud.notTty) && env.fcntl)
    ensures !init ==> OpenAfter(log) == (if fd != -1 then {fd} else {}) && Written(log) == []
    ensures fd != -1 ==> OpenAfter(log) == {fd}
  {
    if init {
      fd, log := Init(initEnv);
    } else {
      fd, log := OpenReadOnly(env);
    }
  }
}
