/**
 * The UDP fan-out: the list of relay targets that udp_addport prepends to
 * and udp_clearports walks, and udp_send, which hands every target one
 * datagram carrying the squitter text.
 */
module Udp {
  import opened CStrings
  import opened Options
  import opened Numbers

  /** An unsigned short. */
  newtype ushort = x: int | 0 <= x < 0x1_0000

  datatype Variant = Raw | PlanePlotter

  /**
   * One node of the target list: its copy of the host name, the port, the
   * datagram variant, the socket, and `node`, which stands for the node's
   * address (allocations are numbered and never reused).
   */
  datatype Target = Target(host: string, port: ushort, variant: Variant, fd: int, node: nat)

  /**
   * Outcomes of the calls udp_addport makes: the two allocations of
   * udp_target_alloc (malloc and strdup), socket(2), gethostbyname and
   * connect(2).
   */
  datatype AddEnv = AddEnv(allocates: bool, socket: int, resolves: bool, connects: bool)

  /** What happened for one target in udp_send: malloc failed, send(2) failed, or the datagram went out. */
  datatype Attempt = NoBuffer | SendFails | Sent

  /** The argument check of udp_addport and udp_target_alloc: a host that is not NULL or empty, and a port that is not 0. */
  predicate Acceptable(host: Option<string>, port: ushort)
  {
    host.Some? && StrLen(host.value) > 0 && port > 0
  }

  // ---------------------------------------------------------------------
  // Datagrams

  function Prefix(v: Variant): string
  {
    if v == PlanePlotter then "AV" else ""
  }

  /** The buffer length udp_send computes: the prefix, '*', the squitter and ';'. */
  function BufLen(v: Variant, text: string): nat
  {
    |Prefix(v)| + 1 + |text| + 1
  }

  /** The datagram a receiver expects: "*XXXX;" or "AV*XXXX;". */
  function Datagram(v: Variant, text: string): string
  {
    Prefix(v) + "*" + text + ";"
  }

  /** Reads a datagram back into its variant and squitter text. */
  function ParseDatagram(d: string): Option<(Variant, string)>
  {
    if |d| >= 4 && d[..3] == "AV*" && d[|d| - 1] == ';' then Some((PlanePlotter, d[3..|d| - 1]))
    else if |d| >= 2 && d[0] == '*' && d[|d| - 1] == ';' then Some((Raw, d[1..|d| - 1]))
    else None
  }

  /**
   * snprintf(b + at, size, "%s", out): as much of `out` as fits in size - 1
   * characters, then a NUL; the result is |out| however much was written.
   */
  function SnprintfAt(b: string, at: nat, size: nat, out: string): (r: (string, int))
    requires at + size <= |b|
    ensures |r.0| == |b| && r.1 == |out|
  {
    if size == 0 then (b, |out|)
    else
      var w := Min(|out|, size - 1);
      (b[..at] + out[..w] + [NUL] + b[at + w + 1..], |out|)
  }

  /**
   * The bytes udp_send hands to send(2) for one target, starting from the
   * buffer's initial content `b0` (malloc'd, so arbitrary). Every snprintf
   * gets the room left before `buflen` plus `slack`: 0 as written, 1 as
   * intended.
   */
  function Built(v: Variant, text: string, b0: string, slack: nat): string
    requires slack <= 1 && |b0| == BufLen(v, text) + 1
  {
    var buflen := BufLen(v, text);
    var first := if v == PlanePlotter then SnprintfAt(b0, 0, buflen + slack, "AV") else (b0, 0);
    var i := first.1;
    var second := SnprintfAt(first.0, i, buflen + slack - i, "*" + text + ";");
    second.0[..i + second.1]
  }

  /** The bytes sent as the source is written: the room given to snprintf excludes the NUL it always writes. */
  function SentAsWritten(v: Variant, text: string, b0: string): (sent: string)
    requires |b0| == BufLen(v, text) + 1
    ensures |sent| == BufLen(v, text)
  {
    Built(v, text, b0, 0)
  }

  /** Finding: the trailing ';' is truncated and a NUL goes out in its place, so no receiver reads the datagram back. */
  lemma SemicolonTruncated(v: Variant, text: string, b0: string)
    requires |b0| == BufLen(v, text) + 1
    ensures SentAsWritten(v, text, b0) == Prefix(v) + "*" + text + [NUL]
    ensures |SentAsWritten(v, text, b0)| == |Datagram(v, text)|
    ensures ParseDatagram(SentAsWritten(v, text, b0)) == None
  {
    var out := "*" + text + ";";
    var buflen := BufLen(v, text);
    var first := if v == PlanePlotter then SnprintfAt(b0, 0, buflen, "AV") else (b0, 0);
    var i := first.1;
    assert first.0[..i] == Prefix(v);
    var second := SnprintfAt(first.0, i, buflen - i, out);
    assert second.0[..i + second.1] == first.0[..i] + out[..|out| - 1] + [NUL];
    assert out[..|out| - 1] == "*" + text;
  }

  /** Corrected: with the room for the NUL, the datagram sent is exactly the one receivers expect, whatever the buffer held. */
  lemma BuiltIsDatagram(v: Variant, text: string, b0: string)
    requires |b0| == BufLen(v, text) + 1
    ensures Built(v, text, b0, 1) == Datagram(v, text)
  {
    var out := "*" + text + ";";
    var buflen := BufLen(v, text);
    var first := if v == PlanePlotter then SnprintfAt(b0, 0, buflen + 1, "AV") else (b0, 0);
    var i := first.1;
    assert first.0[..i] == Prefix(v);
    var second := SnprintfAt(first.0, i, buflen + 1 - i, out);
    assert second.0[..i + second.1] == first.0[..i] + out;
  }

  /** Round trip: a receiver reads back the variant and the squitter from a datagram. */
  lemma ParseDatagramRoundTrip(v: Variant, text: string)
    ensures ParseDatagram(Datagram(v, text)) == Some((v, text))
  {
    var d := Datagram(v, text);
    if v == PlanePlotter {
      assert d[..3] == "AV*" && d[3..|d| - 1] == text;
    } else {
      assert d[0] == '*' && d[1..|d| - 1] == text;
    }
  }

  // ---------------------------------------------------------------------
  // What udp_send promises

  /** The squitter lengths udp_send relays: a short (14) or an extended (28) squitter. */
  predicate Relayable(raw: Option<string>)
  {
    raw.Some? && (StrLen(raw.value) == 14 || StrLen(raw.value) == 28)
  }

  /** The number of targets for which udp_send counts an error. */
  function Failures(net: seq<Attempt>): (n: nat)
    ensures n <= |net|
    ensures n == 0 <==> forall k :: 0 <= k < |net| ==> net[k] == Sent
  {
    if net == [] then 0
    else Failures(net[..|net| - 1]) + (if net[|net| - 1] == Sent then 0 else 1)
  }

  /** The (socket, datagram) pairs handed to send(2), target by target from the head of the list. */
  function Transmissions(ts: seq<Target>, net: seq<Attempt>, text: string): (out: seq<(int, string)>)
    requires |net| == |ts|
    ensures |out| <= |ts|
    ensures (forall k :: 0 <= k < |net| ==> net[k] != NoBuffer) ==> |out| == |ts|
  {
    if ts == [] then []
    else
      var last := ts[|ts| - 1];
      Transmissions(ts[..|ts| - 1], net[..|net| - 1], text)
        + (if net[|net| - 1] == NoBuffer then [] else [(last.fd, Datagram(last.variant, text))])
  }

  /** The failures and transmissions of the first k + 1 targets extend those of the first k. */
  lemma SendStep(ts: seq<Target>, net: seq<Attempt>, text: string, k: nat)
    requires |net| == |ts| && k < |ts|
    ensures Failures(net[..k + 1]) == Failures(net[..k]) + (if net[k] == Sent then 0 else 1)
    ensures Transmissions(ts[..k + 1], net[..k + 1], text)
            == Transmissions(ts[..k], net[..k], text)
               + (if net[k] == NoBuffer then [] else [(ts[k].fd, Datagram(ts[k].variant, text))])
  {
    assert ts[..k + 1][..k] == ts[..k] && net[..k + 1][..k] == net[..k];
  }

  /**
   * When every buffer is allocated, target k of the list receives exactly
   * one datagram, the k-th sent, in its own variant.
   */
  lemma {:induction false} OneDatagramPerTarget(ts: seq<Target>, net: seq<Attempt>, text: string)
    requires |net| == |ts| && forall k :: 0 <= k < |net| ==> net[k] != NoBuffer
    ensures var out := Transmissions(ts, net, text);
            |out| == |ts| && forall k :: 0 <= k < |ts| ==> out[k] == (ts[k].fd, Datagram(ts[k].variant, text))
  {
    if ts != [] {
      OneDatagramPerTarget(ts[..|ts| - 1], net[..|net| - 1], text);
    }
  }

  /** Every datagram sent carries the squitter text, readable by the receiver. */
  lemma {:induction false} TransmissionsReadable(ts: seq<Target>, net: seq<Attempt>, text: string)
    requires |net| == |ts|
    ensures var out := Transmissions(ts, net, text);
            |out| <= |ts| && forall k :: 0 <= k < |out| ==> ParseDatagram(out[k].1).Some? && ParseDatagram(out[k].1).value.1 == text
  {
    if ts != [] {
      TransmissionsReadable(ts[..|ts| - 1], net[..|net| - 1], text);
      var last := ts[|ts| - 1];
      ParseDatagramRoundTrip(last.variant, text);
    }
  }

  /** snprintf into a buffer, as SnprintfAt describes it. */
  method Snprintf(buf: array<char>, at: nat, size: nat, out: string) returns (ret: int)
    requires at + size <= buf.Length
    modifies buf
    ensures buf[..] == SnprintfAt(old(buf[..]), at, size, out).0 && ret == |out|
  {
    ret := |out|;
    if size == 0 {
      return;
    }
    var w := Min(|out|, size - 1);
    ghost var b := buf[..];
    forall j | 0 <= j < w {
      buf[at + j] := out[j];
    }
    buf[at + w] := NUL;
    assert buf[..] == b[..at] + out[..w] + [NUL] + b[at + w + 1..];
  }

  /**
   * One target's datagram as udp_send builds it in a malloc'd buffer of
   * buflen + 1 characters, with the room passed to each snprintf corrected
   * to include the NUL (see SemicolonTruncated).
   */
  method Compose(v: Variant, raw: string) returns (d: string)
    ensures d == Datagram(v, CStr(raw))
  {
    var buflen := 1 + StrLen(raw) + 1;
    if v == PlanePlotter {
      buflen := buflen + |"AV"|;
    }
    var buf := new char[buflen + 1];
    ghost var b0 := buf[..];
    var i := 0;
    if v == PlanePlotter {
      var w := Snprintf(buf, i, buflen + 1 - i, "AV");
      i := i + w;
    }
    var w := Snprintf(buf, i, buflen + 1 - i, "*" + CStr(raw) + ";");
    i := i + w;
    assert buf[..i] == Built(v, CStr(raw), b0, 1);
    BuiltIsDatagram(v, CStr(raw), b0);
    d := buf[..i];
  }

  /**
   * The target list (udp_targets) with the allocator's and the socket
   * layer's view of it: the nodes not yet freed and the sockets opened.
   */
  class Relay {
    /** The targets, from the head of the list. */
    var targets: seq<Target>
    /** Nodes allocated and not yet freed. */
    var live: set<nat>
    /** Sockets opened; this code never closes one. */
    var sockets: set<int>
    /** The number of nodes allocated so far. */
    var nextNode: nat

    ghost predicate Valid()
      reads this
    {
      && (forall n :: n in live ==> n < nextNode)
      && (forall k :: 0 <= k < |targets| ==>
            targets[k].node < nextNode && targets[k].fd in sockets && targets[k].port > 0 && targets[k].host != [])
    }

    constructor ()
      ensures Valid() && targets == [] && live == {} && sockets == {} && nextNode == 0
    {
      targets := [];
      live := {};
      sockets := {};
      nextNode := 0;
    }

    /** udp_target_alloc: a fresh node holding a copy of the host, or nothing. */
    method Alloc(host: Option<string>, port: ushort, variant: Variant, allocates: bool) returns (t: Option<Target>)
      requires Valid()
      modifies this
      ensures Valid() && targets == old(targets) && sockets == old(sockets)
      ensures t.Some? <==> Acceptable(host, port) && allocates
      ensures t.Some? ==> t.value == Target(CStr(host.value), port, variant, -1, old(nextNode))
                          && live == old(live) + {old(nextNode)} && nextNode == old(nextNode) + 1
      ensures t.None? ==> live == old(live) && nextNode == old(nextNode)
    {
      if host.None? || StrLen(host.value) <= 0 || port <= 0 {
        return None;
      }
      if !allocates {
        return None;
      }
      t := Some(Target(CStr(host.value), port, variant, -1, nextNode));
      live := live + {nextNode};
      nextNode := nextNode + 1;
    }

    /** udp_target_free: releases the node, not its socket. */
    method Free(t: Target)
      modifies this
      ensures live == old(live) - {t.node}
      ensures targets == old(targets) && sockets == old(sockets) && nextNode == old(nextNode)
    {
      live := live - {t.node};
    }

    /**
     * udp_addport: on success a new target, connected to its own socket,
     * goes to the head of the list; on failure the list is unchanged, but a
     * socket opened before a failed lookup or connect stays open.
     */
    method AddPort(host: Option<string>, port: ushort, variant: Variant, env: AddEnv) returns (r: int)
      requires Valid()
      modifies this
      ensures Valid()
      ensures r == 0 || r == -1
      ensures r == 0 <==> Acceptable(host, port) && env.allocates && env.socket != -1 && env.resolves && env.connects
      ensures r == 0 ==> targets == [Target(CStr(host.value), port, variant, env.socket, old(nextNode))] + old(targets)
                         && live == old(live) + {old(nextNode)}
      ensures r == -1 ==> targets == old(targets) && live == old(live)
      ensures nextNode == if Acceptable(host, port) && env.allocates then old(nextNode) + 1 else old(nextNode)
      ensures sockets == if Acceptable(host, port) && env.allocates && env.socket != -1
                         then old(sockets) + {env.socket} else old(sockets)
      ensures forall k :: 0 <= k < |old(targets)| ==> old(targets)[k].node != old(nextNode)
    {
      if host.None? || StrLen(host.value) <= 0 || port <= 0 {
        return -1;
      }
      var t := Alloc(host, port, variant, env.allocates);
      if t.None? {
        return -1;
      }
      var ut := t.value;
      if env.socket == -1 {
        Free(ut);
        return -1;
      }
      ut := ut.(fd := env.socket);
      sockets := sockets + {env.socket};
      if !env.resolves {
        Free(ut);
        return -1;
      }
      if !env.connects {
        Free(ut);
        return -1;
      }
      targets := [ut] + targets;
      return 0;
    }

    /**
     * udp_clearports: frees every node of the list but leaves the list
     * itself pointing at them and every socket open.
     */
    method ClearPorts()
      requires Valid()
      modifies this
      ensures Valid()
      ensures targets == old(targets) && sockets == old(sockets) && nextNode == old(nextNode)
      ensures live == old(live) - set k | 0 <= k < |targets| :: targets[k].node
      ensures forall k :: 0 <= k < |targets| ==> targets[k].node !in live
    {
      var k := 0;
      while k < |targets|
        invariant 0 <= k <= |targets|
        invariant targets == old(targets) && sockets == old(sockets) && nextNode == old(nextNode)
        invariant live == old(live) - set j | 0 <= j < k :: targets[j].node
      {
        var next := k + 1;
        Free(targets[k]);
        k := next;
      }
    }

    /**
     * udp_send: nothing is sent for a missing squitter or one whose length
     * is not 14 or 28; otherwise every target whose buffer could be
     * allocated gets one datagram, and the result is minus the number of
     * targets that failed.
     */
    method Send(raw: Option<string>, net: seq<Attempt>) returns (r: int, sent: seq<(int, string)>)
      requires |net| == |targets|
      ensures !Relayable(raw) ==> r == -1 && sent == []
      ensures Relayable(raw) ==> r == -(Failures(net) as int) && sent == Transmissions(targets, net, CStr(raw.value))
    {
      if raw.None? || (StrLen(raw.value) != 14 && StrLen(raw.value) != 28) {
        return -1, [];
      }
      ghost var text := CStr(raw.value);
      var err := 0;
      sent := [];
      var k := 0;
      while k < |targets|
        invariant 0 <= k <= |targets|
        invariant err == Failures(net[..k])
        invariant sent == Transmissions(targets[..k], net[..k], text)
      {
        SendStep(targets, net, text, k);
        var ut := targets[k];
        if net[k] == NoBuffer {
          err := err + 1;
          k := k + 1;
          continue;
        }
        var d := Compose(ut.variant, raw.value);
        sent := sent + [(ut.fd, d)];
        if net[k] == SendFails {
          err := err + 1;
        }
        k := k + 1;
      }
      assert targets[..k] == targets && net[..k] == net;
      return -err, sent;
    }
  }
}
