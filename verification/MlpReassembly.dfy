/** Reassembly of MLP access units from packets that cut them anywhere. */
module MlpReassembly {
  import opened Wrappers
  import opened Bytes
  import opened Sequences

  const MLP_HEADER_BIAS := 5

  datatype Packet = Packet(pointer: Option<nat>, payload: seq<Byte>)

  datatype MlpError = NoUsablePointer | PointerBeyondPayload | InvalidLength

  predicate AllZero(s: seq<Byte>) {
    forall k :: 0 <= k < |s| ==> s[k] == 0
  }

  /** The length of the access unit at the front, by the low twelve bits of its first two bytes. */
  function UnitLen(s: seq<Byte>): (len: Option<nat>)
    requires |s| >= 2
    ensures len.Some? ==> len.value >= 4
  {
    var high: int, low: int := s[0], s[1];
    var length := (high % 16 * 256 + low) * 2;
    if 4 <= length then Some(length) else None
  }

  /** A header's first two bytes are a check nibble and the length in words of two bytes; the nibble does not
      matter, and less than two words are refused. */
  lemma HeadersCarryTheLength(check: nat, words: nat, high: Byte, low: Byte, rest: seq<Byte>)
    requires check < 16 && words < 4096 && high as int == check * 16 + words / 256 && low as int == words % 256
    ensures UnitLen([high, low] + rest) == if words < 2 then None else Some(2 * words)
  {
    assert high as int % 16 == words / 256;
  }

  /** What a stretch of input turned out to be. */
  datatype Segment = Lead(bytes: seq<Byte>) | Padding(bytes: seq<Byte>) | Unit(bytes: seq<Byte>)

  function Max(a: nat, b: nat): nat { if a < b then b else a }

  /** The state between packets. `carry` is the most that was ever pending at once, and `trace` says what
      became of every byte so far. */
  datatype Framing = Framing(
    out: seq<Byte>, pending: seq<Byte>, leading: nat, padding: nat, units: nat, carry: nat, trace: seq<Segment>)
  {
    /** The most that was ever pending, with what is pending now. */
    function Peak(): nat { Max(carry, |pending|) }
  }

  const EMPTY := Framing([], [], 0, 0, 0, 0, [])

  /** Frame what is pending as far as it goes. Nothing but zeros is padding; a unit that is cut waits. */
  function Drain(f: Framing): Result<Framing, MlpError>
    decreases |f.pending|
  {
    if f.pending == [] then Ok(f)
    else if AllZero(f.pending) then
      Ok(f.(pending := [], padding := f.padding + |f.pending|, carry := f.Peak(),
            trace := f.trace + [Padding(f.pending)]))
    else if |f.pending| < 2 then Ok(f.(carry := f.Peak()))
    else
      var len := UnitLen(f.pending);
      if len.None? then Err(InvalidLength)
      else if |f.pending| < len.value then Ok(f.(carry := f.Peak()))
      else Drain(FrameOne(f, len.value))
  }

  function FrameOne(f: Framing, len: nat): Framing
    requires len <= |f.pending|
  {
    f.(out := f.out + f.pending[..len], pending := f.pending[len..], units := f.units + 1, carry := f.Peak(),
       trace := f.trace + [Unit(f.pending[..len])])
  }

  function Feed(f: Framing, payload: seq<Byte>): Result<Framing, MlpError> {
    Drain(f.(pending := f.pending + payload))
  }

  function FeedAll(f: Framing, payloads: seq<seq<Byte>>): Result<Framing, MlpError>
    decreases |payloads|
  {
    if payloads == [] then Ok(f)
    else
      var next := Feed(f, payloads[0]);
      if next.Err? then next else FeedAll(next.value, payloads[1..])
  }

  /** The bytes of the first packet before its first access unit. */
  function Skipped(first: Packet): Result<nat, MlpError> {
    if first.pointer.None? || first.pointer.value < MLP_HEADER_BIAS then Err(NoUsablePointer)
    else if first.pointer.value - MLP_HEADER_BIAS > |first.payload| then Err(PointerBeyondPayload)
    else Ok(first.pointer.value - MLP_HEADER_BIAS)
  }

  function Begin(skipped: seq<Byte>): Framing {
    if AllZero(skipped) then Framing([], [], 0, |skipped|, 0, 0, [Padding(skipped)])
    else Framing([], [], |skipped|, 0, 0, 0, [Lead(skipped)])
  }

  function Payloads(packets: seq<Packet>): seq<seq<Byte>> {
    if packets == [] then [] else [packets[0].payload] + Payloads(packets[1..])
  }

  function Run(packets: seq<Packet>): Result<Framing, MlpError> {
    if packets == [] then Ok(EMPTY)
    else
      var skip := Skipped(packets[0]);
      if skip.Err? then Err(skip.error)
      else FeedAll(Begin(packets[0].payload[..skip.value]), [packets[0].payload[skip.value..]] + Payloads(packets[1..]))
  }

  function Flatten(payloads: seq<seq<Byte>>): seq<Byte> {
    if payloads == [] then [] else payloads[0] + Flatten(payloads[1..])
  }

  // ---- The program's loops. ----

  datatype Stats = Stats(
    packetsSeen: nat, inputBytes: nat, leading: nat, units: nat, framed: nat, padding: nat, carry: nat)

  /** The inner loop, in the source's variables. */
  method DrainPending(pending0: seq<Byte>, out0: seq<Byte>, stats0: Stats, ghost f: Framing)
    returns (ok: bool, pending: seq<Byte>, out: seq<Byte>, stats: Stats, ghost after: Framing)
    requires f.pending == pending0 && f.out == out0 && Counts(stats0, f)
    ensures !ok ==> Drain(f) == Err(InvalidLength)
    ensures ok ==> Drain(f) == Ok(after) && after.pending == pending && after.out == out && Counts(stats, after)
    ensures ok ==> |pending| <= stats.carry
    ensures stats.packetsSeen == stats0.packetsSeen && stats.inputBytes == stats0.inputBytes
  {
    pending, out, stats, after := pending0, out0, stats0, f;
    while pending != []
      invariant after.pending == pending && after.out == out && Counts(stats, after) && Drain(after) == Drain(f)
      invariant stats.packetsSeen == stats0.packetsSeen && stats.inputBytes == stats0.inputBytes
      decreases |pending|
    {
      stats := stats.(carry := Max(stats.carry, |pending|));
      ghost var met := after;
      if AllZero(pending) {
        after := Drain(after).value;
        stats := stats.(padding := stats.padding + |pending|);
        pending := [];
        break;
      }
      if |pending| < 2 {
        after := Drain(met).value;
        break;
      }
      var length := UnitLen(pending);
      if length.None? {
        return false, pending, out, stats, after;
      }
      if |pending| < length.value {
        after := Drain(met).value;
        break;
      }
      after := FrameOne(after, length.value);
      out := out + pending[..length.value];
      pending := pending[length.value..];
      stats := stats.(units := stats.units + 1, framed := stats.framed + length.value);
    }
    ok := true;
  }

  predicate Counts(stats: Stats, f: Framing) {
    && stats.leading == f.leading && stats.padding == f.padding && stats.units == f.units
    && stats.framed == |f.out| && stats.carry == f.carry
  }

  function Total(packets: seq<Packet>): nat {
    if packets == [] then 0 else |packets[0].payload| + Total(packets[1..])
  }

  /** What the program returns says what the run came to. */
  predicate Reports(r: Result<(seq<Byte>, seq<Byte>, Stats), MlpError>, packets: seq<Packet>) {
    var run := Run(packets);
    if run.Err? then r == Err(run.error)
    else
      && r.Ok? && r.value.0 == run.value.out && r.value.1 == run.value.pending
      && Counts(r.value.2, run.value) && r.value.2.packetsSeen == |packets| && r.value.2.inputBytes == Total(packets)
  }

  /** Skip what precedes the first access unit of the first packet. */
  method TakeLead(packet: Packet, stats0: Stats)
    returns (error: Option<MlpError>, payload: seq<Byte>, stats: Stats, ghost f: Framing)
    requires Counts(stats0, EMPTY)
    ensures Skipped(packet).Err? ==> error == Some(Skipped(packet).error)
    ensures Skipped(packet).Ok? ==>
              && error.None? && f == Begin(packet.payload[..Skipped(packet).value])
              && payload == packet.payload[Skipped(packet).value..] && Counts(stats, f)
    ensures stats.packetsSeen == stats0.packetsSeen && stats.inputBytes == stats0.inputBytes
  {
    error, payload, stats, f := None, packet.payload, stats0, EMPTY;
    if packet.pointer.None? || packet.pointer.value < MLP_HEADER_BIAS {
      error := Some(NoUsablePointer);
      return;
    }
    var skip := packet.pointer.value - MLP_HEADER_BIAS;
    if skip > |payload| {
      error := Some(PointerBeyondPayload);
      return;
    }
    f := Begin(payload[..skip]);
    if !AllZero(payload[..skip]) {
      stats := stats.(leading := stats.leading + skip);
    } else {
      stats := stats.(padding := stats.padding + skip);
    }
    payload := payload[skip..];
  }

  method Reassemble(packets: seq<Packet>) returns (r: Result<(seq<Byte>, seq<Byte>, Stats), MlpError>)
    ensures Reports(r, packets)
  {
    var started := false;
    var pending, out: seq<Byte> := [], [];
    var stats := Stats(0, 0, 0, 0, 0, 0, 0);
    ghost var f := EMPTY;
    for n := 0 to |packets|
      invariant (started <==> n > 0) && (!started ==> f == EMPTY)
      invariant f.pending == pending && f.out == out && Counts(stats, f) && stats.packetsSeen == n
      invariant |pending| <= stats.carry
      invariant stats.inputBytes + Total(packets[n..]) == Total(packets)
      invariant Run(packets) == if started then FeedAll(f, Payloads(packets[n..])) else Run(packets)
    {
      var packet := packets[n];
      assert packets[n..][1..] == packets[n + 1..];
      stats := stats.(packetsSeen := stats.packetsSeen + 1, inputBytes := stats.inputBytes + |packet.payload|);
      var payload := packet.payload;
      if !started {
        var error;
        error, payload, stats, f := TakeLead(packet, stats);
        if error.Some? {
          return Err(error.value);
        }
        started := true;
        assert packets[0..] == packets;
        ghost var rest := [payload] + Payloads(packets[1..]);
        assert rest[0] == payload && rest[1..] == Payloads(packets[1..]);
      }
      pending := pending + payload;
      var ok;
      ok, pending, out, stats, f := DrainPending(pending, out, stats, f.(pending := pending));
      if !ok {
        return Err(InvalidLength);
      }
    }
    stats := stats.(carry := Max(stats.carry, |pending|));
    r := Ok((out, pending, stats));
  }

  // ---- Conservation. ----

  function InputOf(trace: seq<Segment>): seq<Byte> {
    if trace == [] then [] else InputOf(trace[..|trace| - 1]) + trace[|trace| - 1].bytes
  }

  function Kept(trace: seq<Segment>): seq<Byte> {
    if trace == [] then []
    else Kept(trace[..|trace| - 1]) + if trace[|trace| - 1].Unit? then trace[|trace| - 1].bytes else []
  }

  function PaddingIn(trace: seq<Segment>): nat {
    if trace == [] then 0
    else PaddingIn(trace[..|trace| - 1]) + if trace[|trace| - 1].Padding? then |trace[|trace| - 1].bytes| else 0
  }

  function LeadIn(trace: seq<Segment>): nat {
    if trace == [] then 0
    else LeadIn(trace[..|trace| - 1]) + if trace[|trace| - 1].Lead? then |trace[|trace| - 1].bytes| else 0
  }

  /** A segment is what it is called: padding is zeros, a unit is one whole unit. */
  predicate Genuine(s: Segment) {
    && (s.Padding? ==> AllZero(s.bytes))
    && (s.Unit? ==> |s.bytes| >= 2 && UnitLen(s.bytes) == Some(|s.bytes|))
  }

  /** The trace accounts for all input, in order, and the output and the counts follow from it. */
  predicate Accounts(f: Framing, input: seq<Byte>) {
    && InputOf(f.trace) + f.pending == input && Kept(f.trace) == f.out
    && PaddingIn(f.trace) == f.padding && LeadIn(f.trace) == f.leading
    && forall k :: 0 <= k < |f.trace| ==> Genuine(f.trace[k])
  }

  lemma {:induction false} DrainingKeepsTheTrace(f: Framing)
    requires Drain(f).Ok?
    ensures f.trace <= Drain(f).value.trace
    decreases |f.pending|
  {
    if f.pending != [] && !AllZero(f.pending) && |f.pending| >= 2 && UnitLen(f.pending).value <= |f.pending| {
      DrainingKeepsTheTrace(FrameOne(f, UnitLen(f.pending).value));
    }
  }

  lemma {:induction false} FeedingKeepsTheTrace(f: Framing, payloads: seq<seq<Byte>>)
    requires FeedAll(f, payloads).Ok?
    ensures f.trace <= FeedAll(f, payloads).value.trace
    decreases |payloads|
  {
    if payloads != [] {
      DrainingKeepsTheTrace(f.(pending := f.pending + payloads[0]));
      FeedingKeepsTheTrace(Feed(f, payloads[0]).value, payloads[1..]);
    }
  }

  /** The first packet's pointer counts five bytes of header that the payload does not have; what it skips is no
      unit, and a pointer that is short or leads past the payload is refused. */
  lemma TheFirstPointerLeads(packets: seq<Packet>)
    requires packets != []
    ensures var first, run := packets[0], Run(packets);
            if first.pointer.None? || first.pointer.value < 5 then run == Err(NoUsablePointer)
            else if first.pointer.value > |first.payload| + 5 then run == Err(PointerBeyondPayload)
            else
              run.Ok? ==>
                var skipped := first.payload[..first.pointer.value - 5];
                && run.value.trace != []
                && run.value.trace[0] ==
                   if exists k :: 0 <= k < |skipped| && skipped[k] != 0 then Lead(skipped) else Padding(skipped)
  {
    if Run(packets).Ok? {
      var first := packets[0];
      var f := Begin(first.payload[..Skipped(first).value]);
      var payloads := [first.payload[Skipped(first).value..]] + Payloads(packets[1..]);
      FeedingKeepsTheTrace(f, payloads);
      assert f.trace[0] == FeedAll(f, payloads).value.trace[0];
    }
  }

  lemma TraceGrows(trace: seq<Segment>, s: Segment)
    ensures InputOf(trace + [s]) == InputOf(trace) + s.bytes
    ensures Kept(trace + [s]) == Kept(trace) + if s.Unit? then s.bytes else []
    ensures PaddingIn(trace + [s]) == PaddingIn(trace) + if s.Padding? then |s.bytes| else 0
    ensures LeadIn(trace + [s]) == LeadIn(trace) + if s.Lead? then |s.bytes| else 0
  {
    assert (trace + [s])[..|trace|] == trace && (trace + [s])[|trace|] == s;
  }

  lemma UnitsKeepTheirLength(pending: seq<Byte>, len: nat)
    requires |pending| >= 2 && UnitLen(pending) == Some(len) && len <= |pending|
    ensures Genuine(Unit(pending[..len]))
  {
    assert pending[..len][0] == pending[0] && pending[..len][1] == pending[1];
  }

  lemma GenuineGrows(trace: seq<Segment>, s: Segment)
    requires (forall k :: 0 <= k < |trace| ==> Genuine(trace[k])) && Genuine(s)
    ensures forall k :: 0 <= k < |trace + [s]| ==> Genuine((trace + [s])[k])
  {}

  lemma FramingOneAccounts(f: Framing, len: nat, input: seq<Byte>)
    requires Accounts(f, input) && |f.pending| >= 2 && UnitLen(f.pending) == Some(len) && len <= |f.pending|
    ensures Accounts(FrameOne(f, len), input)
  {
    var unit := f.pending[..len];
    TraceGrows(f.trace, Unit(unit));
    UnitsKeepTheirLength(f.pending, len);
    GenuineGrows(f.trace, Unit(unit));
    CutOnce(f.pending, len);
    Regroup(InputOf(f.trace), unit, f.pending[len..]);
  }

  lemma PaddingAccounts(f: Framing, g: Framing, input: seq<Byte>)
    requires Accounts(f, input) && AllZero(f.pending) && g.pending == [] && g.out == f.out && g.leading == f.leading
    requires g.padding == f.padding + |f.pending| && g.trace == f.trace + [Padding(f.pending)]
    ensures Accounts(g, input)
  {
    TraceGrows(f.trace, Padding(f.pending));
    GenuineGrows(f.trace, Padding(f.pending));
    assert g.out + [] == g.out && input + [] == input;
  }

  lemma {:induction false} DrainAccounts(f: Framing, input: seq<Byte>)
    requires Accounts(f, input) && Drain(f).Ok?
    ensures Accounts(Drain(f).value, input)
    decreases |f.pending|
  {
    if f.pending == [] {
    } else if AllZero(f.pending) {
      PaddingAccounts(f, Drain(f).value, input);
    } else if |f.pending| >= 2 && |f.pending| >= UnitLen(f.pending).value {
      var len := UnitLen(f.pending).value;
      FramingOneAccounts(f, len, input);
      DrainAccounts(FrameOne(f, len), input);
    }
  }

  lemma FeedAccounts(f: Framing, input: seq<Byte>, payload: seq<Byte>)
    requires Accounts(f, input) && Feed(f, payload).Ok?
    ensures Accounts(Feed(f, payload).value, input + payload)
  {
    Regroup(InputOf(f.trace), f.pending, payload);
    DrainAccounts(f.(pending := f.pending + payload), input + payload);
  }

  lemma {:induction false} FeedAllAccounts(f: Framing, input: seq<Byte>, payloads: seq<seq<Byte>>)
    requires Accounts(f, input) && FeedAll(f, payloads).Ok?
    ensures Accounts(FeedAll(f, payloads).value, input + Flatten(payloads))
    decreases |payloads|
  {
    if payloads == [] {
      assert input + [] == input;
    } else {
      FeedAccounts(f, input, payloads[0]);
      FeedAllAccounts(Feed(f, payloads[0]).value, input + payloads[0], payloads[1..]);
      Regroup(input, payloads[0], Flatten(payloads[1..]));
    }
  }

  lemma BeginAccounts(skipped: seq<Byte>)
    ensures Accounts(Begin(skipped), skipped)
  {
    var s := if AllZero(skipped) then Padding(skipped) else Lead(skipped);
    TraceGrows([], s);
    assert [] + [s] == [s] && InputOf([]) + skipped == skipped && skipped + [] == skipped;
  }

  lemma CutPayload(first: seq<Byte>, skip: nat, rest: seq<seq<Byte>>)
    requires skip <= |first|
    ensures first[..skip] + Flatten([first[skip..]] + rest) == Flatten([first] + rest)
  {
    assert ([first[skip..]] + rest)[1..] == rest && ([first] + rest)[1..] == rest;
    Regroup(first[..skip], first[skip..], Flatten(rest));
    assert first[..skip] + first[skip..] == first;
  }

  /** Every byte that came in is, in order, leading fragment, zero padding, part of one framed unit, or
      still pending; the output is the units and nothing else. */
  lemma {:induction false} ReassemblyConservesBytes(packets: seq<Packet>)
    requires Run(packets).Ok?
    ensures var f := Run(packets).value;
            && Accounts(f, Flatten(Payloads(packets)))
            && f.leading + f.padding + |f.out| + |f.pending| == |Flatten(Payloads(packets))|
  {
    if packets != [] {
      var first := packets[0].payload;
      var skip := Skipped(packets[0]).value;
      BeginAccounts(first[..skip]);
      FeedAllAccounts(Begin(first[..skip]), first[..skip], [first[skip..]] + Payloads(packets[1..]));
      CutPayload(first, skip, Payloads(packets[1..]));
    }
    TraceCountsAddUp(Run(packets).value.trace);
  }

  lemma {:induction false} TraceCountsAddUp(trace: seq<Segment>)
    ensures |InputOf(trace)| == LeadIn(trace) + PaddingIn(trace) + |Kept(trace)|
    decreases |trace|
  {
    if trace != [] {
      TraceCountsAddUp(trace[..|trace| - 1]);
    }
  }

  // ---- Independence of the cuts. ----

  /** A stream of whole units. */
  predicate IsUnits(s: seq<Byte>) {
    s == [] || (|s| >= 2 && UnitLen(s).Some? && UnitLen(s).value <= |s| && IsUnits(s[UnitLen(s).value..]))
  }

  /** How much of a stream is whole units. */
  function Whole(s: seq<Byte>): (n: nat)
    ensures n <= |s|
  {
    if |s| >= 2 && UnitLen(s).Some? && UnitLen(s).value <= |s| then
      UnitLen(s).value + Whole(s[UnitLen(s).value..])
    else 0
  }

  /** What is left of a stream after its whole units. */
  function Rest(s: seq<Byte>): seq<Byte> { s[Whole(s)..] }

  lemma SameUnit(s: seq<Byte>, t: seq<Byte>)
    requires |s| >= 2
    ensures UnitLen(s + t) == UnitLen(s)
  {}

  lemma UnitsAreNotZero(s: seq<Byte>)
    requires |s| >= 2 && UnitLen(s).Some?
    ensures !AllZero(s)
  {}

  /** What a drain leaves of a stream, `n` bytes of which were whole units. */
  predicate Drained(f: Framing, g: Framing, n: nat)
    requires n <= |f.pending|
  {
    var rest := f.pending[n..];
    && g.out == f.out + f.pending[..n]
    && g.pending == (if rest == [0] then [] else rest)
    && g.padding == f.padding + (if rest == [0] then 1 else 0)
  }

  lemma DrainedThrough(f: Framing, len: nat, g: Framing, n: nat)
    requires len <= |f.pending| && n <= |f.pending| - len && Drained(FrameOne(f, len), g, n)
    ensures Drained(f, g, len + n)
  {
    CutTwice(f.pending, len, n);
    Regroup(f.out, f.pending[..len], f.pending[len..][..n]);
  }

  /** Draining the front of a stream of units frames its whole units, unless what is left is one zero
      byte, which is dropped. */
  lemma {:induction false} DrainFramesWholeUnits(f: Framing, t: seq<Byte>)
    requires IsUnits(f.pending + t)
    ensures Drain(f).Ok? && Drained(f, Drain(f).value, Whole(f.pending))
    decreases |f.pending|
  {
    hide Drain, Drained, Whole;
    var s := f.pending;
    if |s| >= 2 && FrontUnit(s, t) <= |s| {
      var len := FrontUnit(s, t);
      DrainFramesWholeUnits(FrameOne(f, len), t);
      DrainFramesOne(f, len);
      DrainedThrough(f, len, Drain(FrameOne(f, len)).value, Whole(s[len..]));
    } else {
      NothingIsDrained(f, t);
    }
  }

  lemma {:induction false} DrainFramesOne(f: Framing, len: nat)
    requires |f.pending| >= 2 && UnitLen(f.pending) == Some(len) && len <= |f.pending| && !AllZero(f.pending)
    ensures Drain(f) == Drain(FrameOne(f, len)) && Whole(f.pending) == len + Whole(f.pending[len..])
  {}

  /** The length of the unit that the front of a stream of units starts, all there or not. */
  function FrontUnit(s: seq<Byte>, t: seq<Byte>): (len: nat)
    requires |s| >= 2 && IsUnits(s + t)
    ensures UnitLen(s) == Some(len) && !AllZero(s) && (len <= |s| ==> IsUnits(s[len..] + t))
  {
    SameUnit(s, t);
    UnitsAreNotZero(s);
    var len := UnitLen(s).value;
    if len <= |s| then DropOfSum(s, t, len); len else len
  }

  lemma NothingIsDrained(f: Framing, t: seq<Byte>)
    requires IsUnits(f.pending + t) && (|f.pending| >= 2 ==> FrontUnit(f.pending, t) > |f.pending|)
    ensures Drain(f).Ok? && Drained(f, Drain(f).value, Whole(f.pending))
  {
    assert f.out + [] == f.out;
  }

  lemma {:induction false} RestIsStillUnits(s: seq<Byte>, t: seq<Byte>)
    requires IsUnits(s + t)
    ensures IsUnits(Rest(s) + t)
    decreases |s|
  {
    if |s| >= 2 {
      SameUnit(s, t);
      var len := UnitLen(s).value;
      if len <= |s| {
        DropOfSum(s, t, len);
        RestIsStillUnits(s[len..], t);
        CutTwice(s, len, Whole(s[len..]));
      }
    }
  }

  /** Whole units can be taken off before more arrives. */
  lemma {:induction false} WholeComposes(s: seq<Byte>, x: seq<Byte>)
    ensures Whole(s + x) == Whole(s) + Whole(Rest(s) + x)
    decreases |s|
  {
    if |s| >= 2 && UnitLen(s).Some? && UnitLen(s).value <= |s| {
      var len := UnitLen(s).value;
      UnitIsTakenOff(s, x, len);
      WholeComposes(s[len..], x);
      RestBehindUnit(s, len);
    }
  }

  lemma {:induction false} UnitIsTakenOff(s: seq<Byte>, x: seq<Byte>, len: nat)
    requires |s| >= 2 && UnitLen(s) == Some(len) && len <= |s|
    ensures Whole(s + x) == len + Whole(s[len..] + x) && Whole(s) == len + Whole(s[len..])
  {
    SameUnit(s, x);
    DropOfSum(s, x, len);
  }

  lemma {:induction false} RestBehindUnit(s: seq<Byte>, len: nat)
    requires |s| >= 2 && UnitLen(s) == Some(len) && len <= |s|
    ensures Rest(s) == Rest(s[len..])
  {
    CutTwice(s, len, Whole(s[len..]));
  }

  lemma {:induction false} UnitsLeaveNothing(s: seq<Byte>)
    requires IsUnits(s)
    ensures Whole(s) == |s|
    decreases |s|
  {
    if s != [] {
      UnitsLeaveNothing(s[UnitLen(s).value..]);
    }
  }

  /** No packet ends right after a unit's first byte, that byte being zero. `s` is what came before. */
  predicate CutsAreClean(s: seq<Byte>, payloads: seq<seq<Byte>>)
    decreases |payloads|
  {
    payloads == [] || (Rest(s + payloads[0]) != [0] && CutsAreClean(s + payloads[0], payloads[1..]))
  }

  /** Everything in `s` has been framed as far as it goes. */
  predicate KeptUpWith(f: Framing, s: seq<Byte>) {
    f.out == s[..Whole(s)] && f.pending == Rest(s) && f.padding == 0
  }

  lemma {:induction false} OneCleanPacket(f: Framing, s: seq<Byte>, p: seq<Byte>, t: seq<Byte>)
    requires KeptUpWith(f, s) && IsUnits(s + (p + t))
    ensures Feed(f, p).Ok?
    ensures if Rest(s + p) == [0] then Feed(f, p).value.padding > 0 else KeptUpWith(Feed(f, p).value, s + p)
  {
    hide Drain, Drained, Whole, IsUnits, KeptUpWith, Rest;
    FedIsFramed(f, s, p, t);
    FramedKeepsUp(f, s, p, Feed(f, p).value);
  }

  lemma {:induction false} FedIsFramed(f: Framing, s: seq<Byte>, p: seq<Byte>, t: seq<Byte>)
    requires KeptUpWith(f, s) && IsUnits(s + (p + t))
    ensures Feed(f, p).Ok? && Drained(f.(pending := f.pending + p), Feed(f, p).value, Whole(f.pending + p))
  {
    hide Drain, Drained, Whole, IsUnits;
    RestIsStillUnits(s, p + t);
    Regroup(Rest(s), p, t);
    DrainFramesWholeUnits(f.(pending := f.pending + p), t);
  }

  lemma {:induction false} FramedKeepsUp(f: Framing, s: seq<Byte>, p: seq<Byte>, g: Framing)
    requires KeptUpWith(f, s) && Drained(f.(pending := f.pending + p), g, Whole(f.pending + p))
    ensures if Rest(s + p) == [0] then g.padding > 0 else KeptUpWith(g, s + p)
  {
    hide Drained, Whole;
    WholeComposes(s, p);
    DrainedKeepsUp(f, s, p, g, Whole(s), Whole(f.pending + p));
  }

  /** The first `a` bytes of `s` had been framed; now `n` more have been. */
  lemma DrainedKeepsUp(f: Framing, s: seq<Byte>, p: seq<Byte>, g: Framing, a: nat, n: nat)
    requires a <= |s| && f.out == s[..a] && f.pending == s[a..] && f.padding == 0 && n <= |f.pending + p|
    requires Drained(f.(pending := f.pending + p), g, n)
    ensures g.out == (s + p)[..a + n]
    ensures if (s + p)[a + n..] == [0] then g.padding > 0 else g.pending == (s + p)[a + n..] && g.padding == 0
  {
    SliceOfSum(s, p, a, n);
  }

  lemma {:induction false} PaddingOnlyGrows(f: Framing)
    requires Drain(f).Ok?
    ensures Drain(f).value.padding >= f.padding
    decreases |f.pending|
  {
    if f.pending != [] && !AllZero(f.pending) && |f.pending| >= 2 && UnitLen(f.pending).value <= |f.pending| {
      PaddingOnlyGrows(FrameOne(f, UnitLen(f.pending).value));
    }
  }

  lemma {:induction false} PaddingStays(f: Framing, payloads: seq<seq<Byte>>)
    requires FeedAll(f, payloads).Ok?
    ensures FeedAll(f, payloads).value.padding >= f.padding
    decreases |payloads|
  {
    if payloads != [] {
      PaddingOnlyGrows(f.(pending := f.pending + payloads[0]));
      PaddingStays(Feed(f, payloads[0]).value, payloads[1..]);
    }
  }

  lemma {:induction false} CleanCutsExactly(f: Framing, s: seq<Byte>, payloads: seq<seq<Byte>>)
    requires KeptUpWith(f, s) && IsUnits(s + Flatten(payloads))
    ensures CutsAreClean(s, payloads) ==>
              FeedAll(f, payloads).Ok? && KeptUpWith(FeedAll(f, payloads).value, s + Flatten(payloads))
    ensures !CutsAreClean(s, payloads) && FeedAll(f, payloads).Ok? ==> FeedAll(f, payloads).value.padding > 0
    decreases |payloads|
  {
    if payloads == [] {
      assert s + [] == s;
    } else {
      var p, t := payloads[0], Flatten(payloads[1..]);
      OneCleanPacket(f, s, p, t);
      Regroup(s, p, t);
      if Rest(s + p) == [0] {
        if FeedAll(f, payloads).Ok? {
          PaddingStays(Feed(f, p).value, payloads[1..]);
        }
      } else {
        CleanCutsExactly(Feed(f, p).value, s + p, payloads[1..]);
      }
    }
  }

  /** A stream of whole units that starts with the first packet comes out unchanged, with nothing
      pending, exactly if no packet ends right after a unit's first byte when that byte is zero. */
  lemma {:induction false} FramingIsIndependentOfCuts(packets: seq<Packet>)
    requires packets != [] && packets[0].pointer == Some(MLP_HEADER_BIAS)
    requires IsUnits(Flatten(Payloads(packets)))
    ensures var stream := Flatten(Payloads(packets));
            (Run(packets).Ok? && Run(packets).value.out == stream && Run(packets).value.pending == [])
            <==> CutsAreClean([], Payloads(packets))
  {
    var payloads := Payloads(packets);
    var stream := Flatten(payloads);
    assert packets[0].payload[..0] == [] && packets[0].payload[0..] == packets[0].payload;
    assert [packets[0].payload] + Payloads(packets[1..]) == payloads;
    assert [] + stream == stream;
    CleanCutsExactly(Begin([]), [], payloads);
    UnitsLeaveNothing(stream);
    assert stream[..|stream|] == stream && stream[|stream|..] == [];
    if Run(packets).Ok? {
      ReassemblyConservesBytes(packets);
    }
  }

  /** The unit `0 2 7 9` on its own comes out whole. Cut after its zero first byte, that byte is lost as
      padding, and what is left waits for ever for a longer unit. */
  lemma UncleanCutLosesTheUnit()
    ensures var whole := Run([Packet(Some(MLP_HEADER_BIAS), [0, 2, 7, 9])]);
            var cut := Run([Packet(Some(MLP_HEADER_BIAS), [0]), Packet(None, [2, 7, 9])]);
            && whole.Ok? && whole.value.out == [0, 2, 7, 9] && whole.value.pending == [] && whole.value.padding == 0
            && cut.Ok? && cut.value.out == [] && cut.value.pending == [2, 7, 9] && cut.value.padding == 1
  {
    WholeUnitComesOut();
    LeftoverWaits();
    RunOfTwo([0, 2, 7, 9], []);
    RunOfTwo([0], [[2, 7, 9]]);
  }

  lemma WholeUnitComesOut()
    ensures var r := Feed(Begin([]), [0, 2, 7, 9]);
            r.Ok? && r.value.out == [0, 2, 7, 9] && r.value.pending == [] && r.value.padding == 0
  {
    var unit: seq<Byte> := [0, 2, 7, 9];
    var f := Begin([]).(pending := unit);
    assert Begin([]).pending + unit == unit;
    assert UnitLen(unit) == Some(4) && unit[1] != 0 && !AllZero(unit);
    DrainFramesOne(f, 4);
    assert unit[4..] == [] && [] + unit[..4] == unit;
  }

  lemma LeftoverWaits()
    ensures var r := Feed(Begin([]), [0]);
            && r.Ok? && var g := Feed(r.value, [2, 7, 9]);
            && g.Ok? && g.value.out == [] && g.value.pending == [2, 7, 9] && g.value.padding == 1
  {
    var zero: seq<Byte>, left: seq<Byte> := [0], [2, 7, 9];
    assert Begin([]).pending + zero == zero && AllZero(zero);
    var g := Feed(Begin([]), zero).value;
    assert g.pending + left == left;
    assert left[0] != 0 && !AllZero(left) && UnitLen(left) == Some(1038);
  }

  /** A run over one packet, or two. */
  lemma RunOfTwo(first: seq<Byte>, rest: seq<seq<Byte>>)
    requires |rest| <= 1
    ensures var one := Packet(Some(MLP_HEADER_BIAS), first);
            var packets := if rest == [] then [one] else [one, Packet(None, rest[0])];
            Run(packets) ==
              var next := Feed(Begin([]), first);
              if next.Err? || rest == [] then next else Feed(next.value, rest[0])
  {
    var one := Packet(Some(MLP_HEADER_BIAS), first);
    var packets := if rest == [] then [one] else [one, Packet(None, rest[0])];
    assert first[..0] == [] && first[0..] == first;
    assert Payloads(packets[1..]) == rest by {
      assert rest != [] ==> packets[1..] == [Packet(None, rest[0])] && packets[1..][1..] == [];
    }
    var payloads := [first] + rest;
    assert payloads[1..] == rest && (rest != [] ==> rest[1..] == []);
    assert FeedAll(Begin([]), payloads) ==
      if Feed(Begin([]), first).Err? then Feed(Begin([]), first) else FeedAll(Feed(Begin([]), first).value, rest);
  }

  /** Units one after the other, as a drain leaves them, are a stream of units. */
  lemma {:induction false} KeptIsUnits(trace: seq<Segment>, t: seq<Byte>)
    requires (forall k :: 0 <= k < |trace| ==> Genuine(trace[k])) && IsUnits(t)
    ensures IsUnits(Kept(trace) + t)
    decreases |trace|
  {
    if trace == [] {
      assert [] + t == t;
    } else {
      var before, last := trace[..|trace| - 1], trace[|trace| - 1];
      if last.Unit? {
        SameUnit(last.bytes, t);
        DropOfSum(last.bytes, t, |last.bytes|);
        assert last.bytes[|last.bytes|..] + t == t;
        KeptIsUnits(before, last.bytes + t);
        Regroup(Kept(before), last.bytes, t);
      } else {
        KeptIsUnits(before, t);
        assert Kept(before) + [] == Kept(before);
      }
    }
  }

  /** As one packet the bytes come out as they are, with nothing pending or dropped. */
  predicate ReframesToItself(bytes: seq<Byte>) {
    var again := Run([Packet(Some(MLP_HEADER_BIAS), bytes)]);
    again.Ok? && again.value.out == bytes && again.value.pending == [] && again.value.padding == 0
  }

  /** What comes out, put in again as one packet, comes out again. */
  lemma {:induction false} OutputReframesToItself(packets: seq<Packet>)
    requires Run(packets).Ok?
    ensures ReframesToItself(Run(packets).value.out)
  {
    var out := Run(packets).value.out;
    var again := [Packet(Some(MLP_HEADER_BIAS), out)];
    ReassemblyConservesBytes(packets);
    KeptIsUnits(Run(packets).value.trace, []);
    assert out + [] == out;
    UnitsLeaveNothing(out);
    assert again[1..] == [] && Payloads(again) == [out];
    assert Flatten([out]) == out + Flatten([out][1..]) == out;
    assert [] + out == out && Rest(out) == [];
    assert CutsAreClean([], [out]);
    FramingIsIndependentOfCuts(again);
    ReassemblyConservesBytes(again);
  }
}
