/**
 * The per-device reassembly buffer: the `packet_buffer` field of
 * `IoTUDPServer`, filled by the receive loop of `start` and drained by
 * `process_complete_dataset` when a device sends its end marker.
 */
module Reassembly {
  import opened Wrappers
  import opened Merge
  import opened Protocol

  /** One completed transmission, as handed to the database and CSV sinks. */
  datatype Reading = Reading(serial: string, channels: Channels, raws: seq<string>)

  /**
   * `packet_buffer`: each pending serial's fragments in arrival order (the
   * source's inner dict, keyed `0..n-1` by insertion, is this sequence).
   */
  type Buffer = map<string, seq<Fragment>>

  /** Every pending serial holds at least one fragment, all of its own and none an end marker. */
  predicate Consistent(buf: Buffer) {
    forall d :: d in buf ==>
      buf[d] != [] && forall i :: 0 <= i < |buf[d]| ==> buf[d][i].serial == d && !buf[d][i].isEnd
  }

  /** `packet_buffer[serial]` as the defaultdict reads it: nothing pending is the empty sequence. */
  function Pending(buf: Buffer, serial: string): seq<Fragment> {
    if serial in buf then buf[serial] else []
  }

  function ChannelMaps(frags: seq<Fragment>): seq<Channels> {
    seq(|frags|, i requires 0 <= i < |frags| => frags[i].channels)
  }

  function RawPackets(frags: seq<Fragment>): seq<string> {
    seq(|frags|, i requires 0 <= i < |frags| => frags[i].raw)
  }

  /** The reading `process_complete_dataset` builds from a serial's fragments. */
  function Assemble(serial: string, frags: seq<Fragment>): Reading {
    Reading(serial, Overlay(ChannelMaps(frags)), RawPackets(frags))
  }

  /**
   * One parsed fragment through the receive loop: a data fragment is appended
   * to its serial's fragments; an end marker for a pending serial completes
   * and removes it; an end marker for any other serial changes nothing.
   */
  function Step(buf: Buffer, f: Fragment): (Buffer, Option<Reading>) {
    if !f.isEnd then (buf[f.serial := Pending(buf, f.serial) + [f]], None)
    else if f.serial in buf then (buf - {f.serial}, Some(Assemble(f.serial, buf[f.serial])))
    else (buf, None)
  }

  /** The buffer after a stream of parsed fragments. */
  function Run(buf: Buffer, stream: seq<Fragment>): Buffer {
    if stream == [] then buf
    else Step(Run(buf, stream[..|stream| - 1]), stream[|stream| - 1]).0
  }

  /** The fragments of `stream` sent by `serial`, in order. */
  function Own(stream: seq<Fragment>, serial: string): (own: seq<Fragment>)
    ensures forall f :: f in own <==> f in stream && f.serial == serial
  {
    if stream == [] then []
    else
      var last := stream[|stream| - 1];
      Own(stream[..|stream| - 1], serial) + (if last.serial == serial then [last] else [])
  }

  // ---------------------------------------------------------------------
  // One step

  /** Each step keeps the buffer consistent. */
  lemma StepConsistent(buf: Buffer, f: Fragment)
    requires Consistent(buf)
    ensures Consistent(Step(buf, f).0)
  {
  }

  /** A step touches only the fragment's own serial. */
  lemma StepIsolated(buf: Buffer, f: Fragment, d: string)
    requires d != f.serial
    ensures d in Step(buf, f).0 <==> d in buf
    ensures Pending(Step(buf, f).0, d) == Pending(buf, d)
  {
  }

  /** An end marker for a serial with nothing pending yields nothing and changes nothing. */
  lemma UnknownEndMarkerIgnored(buf: Buffer, f: Fragment)
    requires f.isEnd && f.serial !in buf
    ensures Step(buf, f) == (buf, None)
  {
  }

  // ---------------------------------------------------------------------
  // Streams

  lemma {:induction false} RunConsistent(buf: Buffer, stream: seq<Fragment>)
    requires Consistent(buf)
    ensures Consistent(Run(buf, stream))
  {
    if stream != [] {
      RunConsistent(buf, stream[..|stream| - 1]);
      StepConsistent(Run(buf, stream[..|stream| - 1]), stream[|stream| - 1]);
    }
  }

  /**
   * While a serial sends no end marker, its pending fragments are the ones it
   * had plus its own fragments of the stream, in arrival order; other
   * serials' fragments never join them.
   */
  lemma {:induction false} RunCollects(buf: Buffer, stream: seq<Fragment>, d: string)
    requires forall i :: 0 <= i < |stream| && stream[i].serial == d ==> !stream[i].isEnd
    ensures Pending(Run(buf, stream), d) == Pending(buf, d) + Own(stream, d)
  {
    if stream != [] {
      var init, last := stream[..|stream| - 1], stream[|stream| - 1];
      RunCollects(buf, init, d);
      if last.serial != d {
        StepIsolated(Run(buf, init), last, d);
      }
    }
  }

  /**
   * A transmission interleaved with other devices' traffic, then closed by the
   * device's end marker, yields exactly one reading, built from the device's
   * own fragments in arrival order, and leaves nothing pending for it; with
   * no fragment to complete, the end marker yields nothing.
   */
  lemma Transmission(buf: Buffer, stream: seq<Fragment>, term: Fragment)
    requires Consistent(buf) && term.serial !in buf && term.isEnd
    requires forall i :: 0 <= i < |stream| && stream[i].serial == term.serial ==> !stream[i].isEnd
    ensures var (after, reading) := Step(Run(buf, stream), term);
      && term.serial !in after
      && reading == if Own(stream, term.serial) == [] then None
                    else Some(Assemble(term.serial, Own(stream, term.serial)))
  {
    var d := term.serial;
    var mid := Run(buf, stream);
    RunCollects(buf, stream, d);
    assert Pending(mid, d) == Own(stream, d);
    if d in mid {
      RunConsistent(buf, stream);
      PendingNonEmpty(mid, d);
      assert Step(mid, term) == (mid - {d}, Some(Assemble(d, Own(stream, d))));
    } else {
      assert Step(mid, term) == (mid, None);
    }
  }

  lemma PendingNonEmpty(buf: Buffer, d: string)
    requires Consistent(buf) && d in buf
    ensures buf[d] != []
  {
  }

  // ---------------------------------------------------------------------
  // The reading

  /**
   * The reading keeps every raw packet in arrival order; a channel is present
   * exactly when some fragment carries it.
   */
  lemma ReadingContents(serial: string, frags: seq<Fragment>, k: string)
    ensures var r := Assemble(serial, frags);
      && r.serial == serial
      && |r.raws| == |frags|
      && (forall i :: 0 <= i < |frags| ==> r.raws[i] == frags[i].raw)
      && (k in r.channels <==> exists i :: 0 <= i < |frags| && k in frags[i].channels)
  {
    var ms := ChannelMaps(frags);
    OverlayKeys(ms, k);
    if exists i :: 0 <= i < |ms| && k in ms[i] {
      var i :| 0 <= i < |ms| && k in ms[i];
      assert k in frags[i].channels;
    }
    if exists i :: 0 <= i < |frags| && k in frags[i].channels {
      var i :| 0 <= i < |frags| && k in frags[i].channels;
      assert k in ms[i];
    }
  }

  /** A channel of the reading holds the value of the last fragment that carries it. */
  lemma ReadingLastWriteWins(serial: string, frags: seq<Fragment>, i: nat, k: string)
    requires i < |frags| && k in frags[i].channels
    requires forall j :: i < j < |frags| ==> k !in frags[j].channels
    ensures var r := Assemble(serial, frags);
      k in r.channels && r.channels[k] == frags[i].channels[k]
  {
    OverlayLastWrite(ChannelMaps(frags), i, k);
  }

  // ---------------------------------------------------------------------
  // The server's state

  class Reassembler {
    var packetBuffer: Buffer

    ghost predicate Valid()
      reads this
    {
      Consistent(packetBuffer)
    }

    constructor ()
      ensures Valid() && packetBuffer == map[]
    {
      packetBuffer := map[];
    }

    /**
     * `process_complete_dataset`: merge the serial's fragments in order,
     * collect their raw packets, hand the reading on and drop the entry.
     */
    method ProcessCompleteDataset(serial: string) returns (reading: Reading)
      requires Valid() && serial in packetBuffer
      modifies this
      ensures Valid()
      ensures reading == Assemble(serial, old(packetBuffer)[serial])
      ensures |reading.raws| > 0
      ensures packetBuffer == old(packetBuffer) - {serial}
    {
      var fragments := packetBuffer[serial];
      var combined: Channels := map[];
      var rawPackets: seq<string> := [];
      var i := 0;
      while i < |fragments|
        invariant 0 <= i <= |fragments|
        invariant combined == Overlay(ChannelMaps(fragments[..i]))
        invariant rawPackets == RawPackets(fragments[..i])
      {
        assert ChannelMaps(fragments[..i + 1])[..i] == ChannelMaps(fragments[..i]);
        combined := combined + fragments[i].channels;
        rawPackets := rawPackets + [fragments[i].raw];
        i := i + 1;
      }
      assert fragments[..i] == fragments;
      packetBuffer := packetBuffer - {serial};
      reading := Reading(serial, combined, rawPackets);
    }

    /** The receive loop's branch on one parsed fragment. */
    method Ingest(f: Fragment) returns (r: Option<Reading>)
      requires Valid()
      modifies this
      ensures Valid()
      ensures (packetBuffer, r) == Step(old(packetBuffer), f)
      ensures r.Some? ==> r.value.serial == f.serial && |r.value.raws| > 0
    {
      var serial := f.serial;
      if f.isEnd {
        if serial in packetBuffer {
          var reading := ProcessCompleteDataset(serial);
          return Some(reading);
        }
        return None;
      } else {
        packetBuffer := packetBuffer[serial := Pending(packetBuffer, serial) + [f]];
        return None;
      }
    }

    /** One pass of the receive loop on a decoded payload: parse, then ingest. */
    method Receive(payload: string, num: NumParser) returns (r: Option<Reading>)
      requires Valid()
      modifies this
      ensures Valid()
      ensures Parse(payload, num).None? ==> r == None && packetBuffer == old(packetBuffer)
      ensures Parse(payload, num).Some? ==>
        (packetBuffer, r) == Step(old(packetBuffer), Parse(payload, num).value)
    {
      var parsed := ParsePacket(payload, num);
      if parsed.Some? {
        r := Ingest(parsed.value);
      } else {
        r := None;
      }
    }
  }
}
