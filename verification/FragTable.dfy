/** The pending-fragment table of src/core/fragment.c: 512 slots, each holding one first half. */
module FragTable {
  import opened Bytes
  import opened Checksum
  import opened Layer4

  const TableSize := 512
  const DataSize := 1600
  const JoinLimit := 4096
  const TimeoutNs := 200_000_000
  const MaxJoined := 74 + 120 + JoinLimit  // room that suffices for every join

  /** struct frag_entry; the fixed-size buffers keep whatever an earlier, longer store left behind. */
  datatype Entry = Entry(pktId: u16, data: seq<byte>, dataLen: nat, eth: seq<byte>, ip: seq<byte>, ihl: nat,
                         proto: byte, stamp: u64, valid: bool)
  {
    predicate Ok() {
      && |data| == DataSize && |eth| == 14 && |ip| == 60 && dataLen <= DataSize
      && (valid ==> 20 <= ihl <= 60)
    }

    /** The stored first plaintext. */
    function Plain(): seq<byte>
      requires Ok()
    {
      data[..dataLen]
    }

    function Drop(): Entry { this.(valid := false) }
  }

  const Empty := Entry(0, seq(DataSize, _ => 0), 0, seq(14, _ => 0), seq(60, _ => 0), 0, 0, 0, false)

  function Elapsed(now: u64, stamp: u64): u64 {
    (now - stamp) % 0x1_0000_0000_0000_0000
  }

  predicate Expired(e: Entry, now: u64) {
    Elapsed(now, e.stamp) > TimeoutNs
  }

  /** now is at most 200 ms after stamp, on a clock of 64 bits that may have wrapped in between. */
  predicate InTime(stamp: u64, now: u64) {
    if stamp <= now then now - stamp <= 200_000_000
    else now + 0x1_0000_0000_0000_0000 - stamp <= 200_000_000
  }

  /** The unsigned difference measures time forward, and the timeout is 200 ms. */
  lemma InTimeExactly(stamp: u64, now: u64)
    ensures Elapsed(now, stamp) == if stamp <= now then now - stamp else now + 0x1_0000_0000_0000_0000 - stamp
    ensures Elapsed(now, stamp) <= TimeoutNs <==> InTime(stamp, now)
  {
  }

  /** frag_store_pending: None when the data does not fit the slot. */
  function Store(e: Entry, id: u16, eth: seq<byte>, ip: seq<byte>, proto: byte, data: seq<byte>,
                 now: u64): (r: Option<Entry>)
    requires e.Ok() && |eth| == 14 && 20 <= |ip| <= 60
    ensures r.Some? <==> |data| <= DataSize
    ensures r.Some? ==> r.value.Ok() && r.value.Plain() == data && r.value.ip[..|ip|] == ip
  {
    if |data| > DataSize then None
    else Some(Entry(id, Splice(e.data, 0, data), |data|, eth, Splice(e.ip, 0, ip), |ip|, proto, now, true))
  }

  datatype Verdict = Rejected | Pending | Complete(pkt: seq<byte>)

  /** Transport header size re-read from the stored half, with the fallback guess. */
  function RestoredHdr(seg: seq<byte>, proto: byte): (n: nat)
    ensures n <= 60
  {
    match TransportHdrSize(seg, proto)
    case Some(n) => n
    case None => if proto == 6 then 20 else 8
  }

  /** How many stored octets the join copies: all of them, or a longer guessed header. */
  function Copied(e: Entry, hdr: nat): nat {
    if hdr > e.dataLen then hdr else e.dataLen
  }

  /** The stored Ethernet and IPv4 headers. */
  function Headers(e: Entry): (h: seq<byte>)
    requires e.Ok() && e.ihl <= 60
    ensures |h| == 14 + e.ihl
  {
    e.eth + e.ip[..e.ihl]
  }

  /** headers, then the stored octets, then the second half; length and checksum are patched. */
  function Joined(e: Entry, headers: seq<byte>, hdr: nat, second: seq<byte>): (r: seq<byte>)
    requires e.Ok() && e.valid && hdr <= 120 && 14 + e.ihl <= |headers| + Copied(e, hdr)
    ensures |r| == |headers| + Copied(e, hdr) + |second|
  {
    var out := headers + e.data[..Copied(e, hdr)] + second;
    PatchIpv4(out, 14, e.ihl, (|out| - 14) % 0x1_0000)
  }

  datatype Gate = NoMatch | Discard | Accept

  /** What happens to a second half: no first half waits, or it is stale or of bad size, or they fit. */
  function Admit(e: Entry, id: u16, halfLen: nat, least: nat, now: u64): Gate {
    if !e.valid || e.pktId != id then NoMatch
    else if Expired(e, now) || e.dataLen + halfLen < least || e.dataLen + halfLen > JoinLimit then Discard
    else Accept
  }

  /** Settles a second half for which the join would be joined. */
  function JoinStep(e: Entry, gate: Gate, joined: seq<byte>): (r: (Verdict, Entry))
    requires e.Ok()
    ensures r.1.Ok()
  {
    match gate
    case NoMatch => (Rejected, e)
    case Discard => (Rejected, e.Drop())
    case Accept => (Complete(joined), e.Drop())
  }

  function StoreStep(e: Entry, id: u16, eth: seq<byte>, ip: seq<byte>, proto: byte, data: seq<byte>,
                     now: u64): (r: (Verdict, Entry))
    requires e.Ok() && |eth| == 14 && 20 <= |ip| <= 60
    ensures r.1.Ok() && !r.0.Complete?
  {
    match Store(e, id, eth, ip, proto, data, now)
    case None => (Rejected, e)
    case Some(stored) => (Pending, stored)
  }

  /** The plaintext a decrypted L4 fragment carries behind its ports. */
  function HalfL4(pkt: seq<byte>): seq<byte>
    requires |pkt| >= 34 && 14 + Ihl(pkt, 14) <= |pkt|
  {
    if |pkt| - 14 - Ihl(pkt, 14) > PortLen then pkt[14 + Ihl(pkt, 14) + PortLen..] else []
  }

  function JoinedL4(e: Entry, half: seq<byte>): seq<byte>
    requires e.Ok()
  {
    if e.valid then Joined(e, Headers(e), RestoredHdr(e.Plain(), e.proto), half) else []
  }

  /** frag_try_reassemble_l4 on the slot of the packet id. */
  function ReassembleL4(e: Entry, pkt: seq<byte>, id: u16, index: byte, now: u64): (r: (Verdict, Entry))
    requires e.Ok()
    requires |pkt| >= 34 ==> Ihl(pkt, 14) >= 20 && 14 + Ihl(pkt, 14) <= |pkt|
    ensures r.1.Ok()
  {
    if |pkt| < 34 || EtherTypeAt(pkt, 12) != 0x0800 then (Rejected, e)
    else
      var half := HalfL4(pkt);
      if index == 0 then StoreStep(e, id, pkt[..14], pkt[14..14 + Ihl(pkt, 14)], pkt[14 + 9], half, now)
      else if index == 1 then JoinStep(e, Admit(e, id, |half|, 8, now), JoinedL4(e, half))
      else (Rejected, e)
  }

  /** frag_table_gc on one slot. */
  function Collected(e: Entry, now: u64): (r: Entry)
    requires e.Ok()
    ensures r.Ok()
  {
    if e.valid && Expired(e, now) then e.Drop() else e
  }

  /** A patched copy of pkt's headers, joined with pkt's own payload, is pkt in canonical form. */
  lemma JoinedHeaders(pkt: seq<byte>, t1: u16, ihl: nat)
    requires 34 <= |pkt| && Ihl(pkt, 14) == ihl >= 20 && 14 + ihl <= |pkt|
    ensures PatchIpv4(PatchIpv4(pkt[..14 + ihl], 14, ihl, t1) + pkt[14 + ihl..], 14, ihl, (|pkt| - 14) % 0x1_0000)
         == Canonical(pkt, 14)
  {
    hide PatchIpv4;
    var h, body, t := pkt[..14 + ihl], pkt[14 + ihl..], (|pkt| - 14) % 0x1_0000;
    PatchPrefix(PatchIpv4(h, 14, ihl, t1), body, 14, ihl, t);
    PatchTwice(h, 14, ihl, t1, t);
    PatchPrefix(h, body, 14, ihl, t);
    assert pkt == h + body;
  }

  class Table {
    const entries: array<Entry>

    predicate Valid()
      reads this, entries
    {
      entries.Length == TableSize && forall i :: 0 <= i < TableSize ==> entries[i].Ok()
    }

    constructor ()
      ensures Valid() && fresh(entries)
      ensures forall i :: 0 <= i < TableSize ==> !entries[i].valid
    {
      entries := new Entry[TableSize](_ => Empty);
    }

    /** frag_table_gc. */
    method Gc(now: u64)
      requires Valid()
      modifies entries
      ensures Valid()
      ensures forall i :: 0 <= i < TableSize ==> entries[i] == Collected(old(entries[i]), now)
      ensures forall i :: 0 <= i < TableSize ==>
        && entries[i] == old(entries[i]).(valid := entries[i].valid)
        && (entries[i].valid <==> old(entries[i]).valid && InTime(old(entries[i]).stamp, now))
    {
      var i := 0;
      while i < TableSize
        invariant 0 <= i <= TableSize
        invariant forall j :: 0 <= j < i ==> entries[j] == Collected(old(entries[j]), now)
        invariant forall j :: i <= j < TableSize ==> entries[j] == old(entries[j])
      {
        if entries[i].valid && Elapsed(now, entries[i].stamp) > TimeoutNs {
          entries[i] := entries[i].(valid := false);
        }
        i := i + 1;
      }
    }

    /** Index 0: park the half in its slot. */
    method StoreHalf(slot: nat, id: u16, eth: seq<byte>, ip: seq<byte>, proto: byte, data: seq<byte>, now: u64)
      returns (r: int)
      requires Valid() && slot < TableSize && |eth| == 14 && 20 <= |ip| <= 60
      modifies entries
      ensures Valid()
      ensures var (v, e) := StoreStep(old(entries[slot]), id, eth, ip, proto, data, now);
              entries[..] == old(entries[..])[slot := e] && r == (if v.Pending? then 0 else -1)
    {
      hide Splice;
      var e := entries[slot];
      if |data| > DataSize {
        return -1;
      }
      var buffer := Splice(e.data, 0, data);
      var header := Splice(e.ip, 0, ip);
      entries[slot] := Entry(id, buffer, |data|, eth, header, |ip|, proto, now, true);
      r := 0;
    }

    /** Index 1: consult the slot, and discard what it holds if that is stale or does not fit. */
    method AdmitHalf(slot: nat, id: u16, halfLen: nat, least: nat, now: u64) returns (accept: bool)
      requires Valid() && slot < TableSize
      modifies entries
      ensures Valid()
      ensures var gate := Admit(old(entries[slot]), id, halfLen, least, now);
              && accept == gate.Accept?
              && entries[..] == old(entries[..])[slot := if gate.Discard? then old(entries[slot]).Drop()
                                                 else old(entries[slot])]
    {
      var e := entries[slot];
      if !e.valid || e.pktId != id {
        return false;
      }
      if Expired(e, now) {
        entries[slot] := e.(valid := false);
        return false;
      }
      var total := e.dataLen + halfLen;
      if total < least || total > JoinLimit {
        entries[slot] := e.(valid := false);
        return false;
      }
      accept := true;
    }

    /** What the caller sees and what the slot becomes. */
    ghost predicate Settled(outcome: (Verdict, Entry), slot: nat, before: seq<Entry>, r: int, len: nat,
                            out: array<byte>)
      requires Valid() && slot < |before| == TableSize
      reads this, entries, out
    {
      && entries[..] == before[slot := outcome.1]
      && match outcome.0
         case Rejected => r == -1
         case Pending => r == 0
         case Complete(pkt) => r == 1 && len == |pkt| && len <= out.Length && out[..len] == pkt
    }

    /** Index 1: join with what the slot holds, if it fits, and free the slot. */
    method JoinHalf(slot: nat, id: u16, headers: seq<byte>, hdr: nat, half: seq<byte>, least: nat, now: u64,
                    out: array<byte>)
      returns (r: int, len: nat)
      requires Valid() && slot < TableSize && out.Length >= MaxJoined && hdr <= 120 && |headers| <= 74
      requires entries[slot].valid ==> 14 + entries[slot].ihl <= |headers| + Copied(entries[slot], hdr)
      modifies entries, out
      ensures Valid()
      ensures var e := old(entries[slot]);
              var joined := if e.valid then Joined(e, headers, hdr, half) else [];
              Settled(JoinStep(e, Admit(e, id, |half|, least, now), joined), slot, old(entries[..]), r, len, out)
    {
      hide Joined;
      r, len := -1, 0;
      var e := entries[slot];
      var accept := AdmitHalf(slot, id, |half|, least, now);
      if accept {
        len := JoinInto(e, headers, hdr, half, out);
        entries[slot] := e.(valid := false);
        r := 1;
      }
    }

    /** frag_try_reassemble_l4: 0 pending, 1 complete in out[..len], -1 otherwise. */
    method TryReassembleL4(packet: array<byte>, n: nat, id: u16, index: byte, now: u64, out: array<byte>)
      returns (r: int, len: nat)
      requires Valid() && n <= packet.Length && out != packet && out.Length >= MaxJoined
      requires n >= 34 ==> Ihl(packet[..n], 14) >= 20 && 14 + Ihl(packet[..n], 14) <= n
      modifies entries, out
      ensures Valid()
      ensures Settled(ReassembleL4(old(entries[id % TableSize]), old(packet[..n]), id, index, now), id % TableSize,
                      old(entries[..]), r, len, out)
    {
      hide Joined;
      hide StoreStep;
      hide RestoredHdr;
      hide Headers;
      hide Ihl;
      r, len := -1, 0;
      var pkt := packet[..n];
      if n < 34 || EtherTypeAt(pkt, 12) != 0x0800 {
        return;
      }
      var head := 14 + Ihl(pkt, 14);
      var half := if n - head > PortLen then pkt[head + PortLen..] else [];
      var slot := id % TableSize;
      if index == 0 {
        r := StoreHalf(slot, id, pkt[..14], pkt[14..head], pkt[14 + 9], half, now);
      } else if index == 1 {
        var e := entries[slot];
        if e.valid {
          r, len := JoinHalf(slot, id, Headers(e), RestoredHdr(e.Plain(), e.proto), half, 8, now, out);
        }
      }
    }
  }

  /** The moving-offset copies that build the joined packet. */
  method JoinInto(e: Entry, headers: seq<byte>, hdr: nat, second: seq<byte>, out: array<byte>) returns (off: nat)
    requires e.Ok() && e.valid && hdr <= 120 && 14 + e.ihl <= |headers| + Copied(e, hdr)
    requires |headers| <= 74 && e.dataLen + |second| <= JoinLimit && out.Length >= MaxJoined
    modifies out
    ensures off <= out.Length && off == |Joined(e, headers, hdr, second)|
            && out[..off] == Joined(e, headers, hdr, second)
  {
    hide PatchIpv4;
    CopiedParts(e, hdr);
    var app := if e.dataLen > hdr then e.data[hdr..e.dataLen] else [];
    off := Assemble(out, headers, e.data[..hdr], app, second);
    ghost var flat := headers + e.data[..Copied(e, hdr)] + second;
    assert headers + e.data[..hdr] + app + second == flat;
    PatchPacket(out, off, e.ihl, flat);
  }

  method Assemble(out: array<byte>, headers: seq<byte>, transport: seq<byte>, app: seq<byte>, second: seq<byte>)
    returns (off: nat)
    requires |headers| + |transport| + |app| + |second| <= out.Length
    modifies out
    ensures off == |headers| + |transport| + |app| + |second|
    ensures out[..off] == headers + transport + app + second
  {
    off := Append(out, 0, headers, []);
    assert [] + headers == headers;
    off := Append(out, off, transport, headers);
    off := Append(out, off, app, headers + transport);
    off := Append(out, off, second, headers + transport + app);
  }

  lemma CopiedParts(e: Entry, hdr: nat)
    requires e.Ok() && hdr <= 120
    ensures e.data[..Copied(e, hdr)] == e.data[..hdr] + if e.dataLen > hdr then e.data[hdr..e.dataLen] else []
  {
  }

  /** memcpy at a moving offset; sofar is what the buffer holds before it. */
  method Append(out: array<byte>, off: nat, t: seq<byte>, ghost sofar: seq<byte>) returns (end: nat)
    requires off + |t| <= out.Length && out[..off] == sofar
    modifies out
    ensures end == off + |t| && out[..end] == sofar + t
  {
    ghost var b := out[..];
    Copy(out, off, t);
    end := off + |t|;
    SpliceSelf(b, off, t);
    assert out[..end] == out[..][..off] + out[..][off..end];
  }

  /** When the guessed header lies within the stored half the join is a plain concatenation. */
  lemma JoinOwn(e: Entry, headers: seq<byte>, hdr: nat, second: seq<byte>)
    requires e.Ok() && e.valid && hdr <= 120 && hdr <= e.dataLen && 14 + e.ihl <= |headers| + e.dataLen
    ensures Joined(e, headers, hdr, second)
         == PatchIpv4(headers + (e.Plain() + second), 14, e.ihl, (|headers| - 14 + e.dataLen + |second|) % 0x1_0000)
  {
    hide PatchIpv4;
    assert headers + e.data[..e.dataLen] + second == headers + (e.Plain() + second);
  }
}
