/**
 * The ZIP responder in app/zip/zip.c: dispatching ZIP and ATP packets to their handlers, learning
 * zones from ZIP replies, and answering a ZIP Query with extended replies packed into DDP
 * payloads of at most 586 bytes.
 */
module ZipApp {
  import opened Bytes
  import opened Buffers
  import opened Ddp
  import opened ZipProto
  import opened Outbox
  import opened ZoneView
  import Laps
  import Routes
  import RouteTable
  import Registry

  /** ZIP function codes. */
  const ZipQuery: byte := 1
  const ZipReply: byte := 2
  const ZipGetNetInfo: byte := 5
  const ZipExtendedReply: byte := 8

  // ---------------------------------------------------------------------------
  // Dispatch

  datatype Route = NonextendedReply | ExtendedReply | Query | GetNetInfo | GetZoneList | UnknownAtpCommand | Ignored

  /** `app_zip_handler` and `app_zip_handle_atp`: which handler a packet reaches. */
  function Dispatch(f: Fields, payload: seq<byte>): Route {
    var zip := f.ddpType == TypeZip && |payload| >= ZipHeaderLen;
    if zip && payload[0] == ZipReply then NonextendedReply
    else if zip && payload[0] == ZipExtendedReply then ExtendedReply
    else if zip && payload[0] == ZipQuery then Query
    else if zip && payload[0] == ZipGetNetInfo then GetNetInfo
    else if f.ddpType == TypeAtp && |payload| >= 8 then
      (if payload[4] == 7 || payload[4] == 8 || payload[4] == 9 then GetZoneList else UnknownAtpCommand)
    else Ignored
  }

  /** A ZIP packet reaches the handler its function names; other functions and other types go nowhere. */
  lemma DispatchZip(f: Fields, payload: seq<byte>)
    requires f.ddpType == TypeZip
    ensures Dispatch(f, payload) == NonextendedReply <==> |payload| >= 2 && payload[0] == ZipReply
    ensures Dispatch(f, payload) == ExtendedReply <==> |payload| >= 2 && payload[0] == ZipExtendedReply
    ensures Dispatch(f, payload) == Query <==> |payload| >= 2 && payload[0] == ZipQuery
    ensures Dispatch(f, payload) == GetNetInfo <==> |payload| >= 2 && payload[0] == ZipGetNetInfo
    ensures Dispatch(f, payload) != GetZoneList && Dispatch(f, payload) != UnknownAtpCommand
  {
  }

  /** An ATP packet with a whole header goes to GetZoneList exactly for commands 7, 8 and 9. */
  lemma DispatchAtp(f: Fields, payload: seq<byte>)
    requires f.ddpType == TypeAtp
    ensures Dispatch(f, payload) == GetZoneList <==> |payload| >= 8 && payload[4] in {7, 8, 9}
    ensures Dispatch(f, payload) == Ignored <==> |payload| < 8
  {
  }

  // ---------------------------------------------------------------------------
  // Learning zones from replies

  /** The ZIP table calls the reply handlers make, in order. */
  datatype TableOp =
    | SetExpectedZoneCount(network: u16, count: int)
    | PropagateZone(tuple: ZoneTuple)  // `propagate_zone_to_lap`: name a directly connected LAP's zone
    | AddZone(network: u16, zone: pstring)
    | CheckZoneCount(network: u16)
    | MarkComplete(network: u16)

  /** The tuples a handler visits in a reply: none unless the buffer is DDP-ready. */
  function ReplyTuples(ready: bool, data: seq<byte>, kind: HeaderKind): seq<ZoneTuple> {
    if ready then TuplesFrom(data, FirstTupleOffset(kind)) else []
  }

  function AddsFor(ts: seq<ZoneTuple>): (ops: seq<TableOp>)
    ensures |ops| == |ts| && forall k :: 0 <= k < |ts| ==> ops[k] == AddZone(ts[k].network, ts[k].zone)
  {
    if ts == [] then [] else AddsFor(ts[..|ts| - 1]) + [AddZone(ts[|ts| - 1].network, ts[|ts| - 1].zone)]
  }

  function MarksFor(ts: seq<ZoneTuple>): (ops: seq<TableOp>)
    ensures |ops| == |ts| && forall k :: 0 <= k < |ts| ==> ops[k] == MarkComplete(ts[k].network)
  {
    if ts == [] then [] else MarksFor(ts[..|ts| - 1]) + [MarkComplete(ts[|ts| - 1].network)]
  }

  /** `app_zip_handle_nonextended_reply`: the first tuple's zone goes to its LAP, every zone is added, then every network is marked complete. */
  function NonextendedOps(ts: seq<ZoneTuple>): seq<TableOp> {
    (if ts == [] then [] else [PropagateZone(ts[0])]) + AddsFor(ts) + MarksFor(ts)
  }

  /** `app_zip_handle_extended_reply`: an extended reply is about one network, the first tuple's. */
  function ExtendedOps(count: int, ts: seq<ZoneTuple>): seq<TableOp> {
    (if ts == [] then [] else [SetExpectedZoneCount(ts[0].network, count), PropagateZone(ts[0])]) +
    AddsFor(ts) + [CheckZoneCount(if ts == [] then 0 else ts[0].network)]
  }

  /** One step of a tuple walk: an accepted tuple, then the walk from the next offset. */
  lemma TuplesFromStep(data: seq<byte>, o: nat)
    requires TupleAt(true, data, o).Some?
    ensures TuplesFrom(data, o) == [TupleValue(data, o)] + TuplesFrom(data, NextOffset(data, o))
  {
  }

  /** The first loop of both reply handlers: every tuple of the reply, in order. */
  method VisitTuples(b: Buffer) returns (ts: seq<ZoneTuple>)
    requires b.Valid()
    ensures ts == ReplyTuples(b.ddpReady, b.DdpData(), b.kind)
  {
    var data := b.DdpData();
    ts := [];
    if !b.ddpReady {
      return;
    }
    var t := FirstTuple(b.ddpReady, data, b.kind);
    var o := FirstTupleOffset(b.kind);
    while t.Some?
      invariant t == TupleAt(true, data, o)
      invariant ts + TuplesFrom(data, o) == ReplyTuples(b.ddpReady, data, b.kind)
      decreases |data| - o
    {
      TuplesFromStep(data, o);
      ts := ts + [TupleValue(data, o)];
      t := NextTuple(true, data, o);
      o := NextOffset(data, o);
    }
  }

  /** The LAP a route leaves by, as a frame: none when there is no route or it has no LAP. */
  function RouteLap(route: Option<Routes.Route>): set<Laps.Lap> {
    if route.Some? && route.value.outboundLap != null then {route.value.outboundLap} else {}
  }

  /**
   * `propagate_zone_to_lap`: when the tuple's network is reached by a direct route whose LAP has no
   * zone yet, that LAP takes the tuple's zone (`lap_set_my_zone`) and the registry's zone cache is
   * refreshed. A LAP's zone, once set, is never changed again.
   */
  method PropagateZoneToLap(table: RouteTable.RoutingTable, registry: Registry.LapRegistry, t: ZoneTuple)
    requires table.Valid()
    modifies registry, RouteLap(RouteTable.FirstCovering(table.Entries(), t.network))
    ensures var route := RouteTable.FirstCovering(table.Entries(), t.network);
      if route.Some? && route.value.distance == 0 && route.value.outboundLap != null && old(route.value.outboundLap.myZone).None? then
        route.value.outboundLap.myZone == Some(t.zone) &&
        registry.laps == old(registry.laps) && registry.registeredLaps == old(registry.registeredLaps) &&
        registry.bestZoneCache == (if Registry.FirstZone(registry.laps).Some? then Registry.FirstZone(registry.laps) else old(registry.bestZoneCache)) &&
        (route.value.outboundLap in registry.laps ==> registry.bestZoneCache.Some?)
      else
        unchanged(registry) && unchanged(RouteLap(route))
  {
    ghost var covering := RouteTable.FirstCovering(table.Entries(), t.network);
    if covering.Some? {
      RouteTable.FirstCoveringIsEntry(table.Entries(), t.network);
    }
    assert covering.Some? && covering.value.outboundLap != null ==> allocated(covering.value.outboundLap);
    var route := table.Lookup(t.network);
    assert route == covering;
    if route.None? {
      return;
    }
    if route.value.distance == 0 {
      var lap := route.value.outboundLap;
      if lap != null && lap.myZone.None? {
        lap.myZone := Some(t.zone);
        registry.UpdateZoneCache();
        if lap in registry.laps {
          ZoneKnownOnceNamed(registry.laps, lap);
        }
      }
    }
  }

  /** Once a registered LAP has a zone, the registry knows a zone to cache. */
  lemma {:induction false} ZoneKnownOnceNamed(laps: seq<Laps.Lap>, lap: Laps.Lap)
    requires lap in laps && lap.myZone.Some?
    ensures Registry.FirstZone(laps).Some?
  {
    Registry.FirstZoneIsFirst(laps);
  }

  /** The first loop of the non-extended handler: a `PropagateZoneToLap` call for the first tuple, then every zone added. */
  method PropagateAndAdd(ts: seq<ZoneTuple>) returns (ops: seq<TableOp>)
    ensures ops == (if ts == [] then [] else [PropagateZone(ts[0])]) + AddsFor(ts)
  {
    ops := [];
    var i := 0;
    while i < |ts|
      invariant 0 <= i <= |ts|
      invariant ops == (if i == 0 then [] else [PropagateZone(ts[0])]) + AddsFor(ts[..i])
    {
      if i == 0 {
        ops := ops + [PropagateZone(ts[i])];
      }
      ops := ops + [AddZone(ts[i].network, ts[i].zone)];
      assert ts[..i + 1][..i] == ts[..i];
      i := i + 1;
    }
    assert ts[..i] == ts;
  }

  /** The second loop of the non-extended handler: every network marked complete. */
  method MarkAll(ts: seq<ZoneTuple>) returns (ops: seq<TableOp>)
    ensures ops == MarksFor(ts)
  {
    ops := [];
    var j := 0;
    while j < |ts|
      invariant 0 <= j <= |ts|
      invariant ops == MarksFor(ts[..j])
    {
      ops := ops + [MarkComplete(ts[j].network)];
      assert ts[..j + 1][..j] == ts[..j];
      j := j + 1;
    }
    assert ts[..j] == ts;
  }

  method HandleNonextendedReply(b: Buffer) returns (ops: seq<TableOp>)
    requires b.Valid()
    ensures ops == NonextendedOps(ReplyTuples(b.ddpReady, b.DdpData(), b.kind))
  {
    var ts := VisitTuples(b);
    ops := PropagateAndAdd(ts);
    // The second loop walks the same tuples again.
    var again := VisitTuples(b);
    var marks := MarkAll(again);
    ops := ops + marks;
  }

  method HandleExtendedReply(b: Buffer) returns (ops: seq<TableOp>)
    requires b.Valid() && |b.payload| >= ZipHeaderLen
    ensures ops == ExtendedOps(b.payload[1], ReplyTuples(b.ddpReady, b.DdpData(), b.kind))
  {
    var count: int := b.payload[1];
    var ts := VisitTuples(b);
    var relevantNetwork: u16 := 0;
    ops := [];
    var i := 0;
    while i < |ts|
      invariant 0 <= i <= |ts|
      invariant relevantNetwork == if i == 0 then 0 else ts[0].network
      invariant ops == (if i == 0 then [] else [SetExpectedZoneCount(ts[0].network, count), PropagateZone(ts[0])]) + AddsFor(ts[..i])
    {
      if i == 0 {
        ops := ops + [SetExpectedZoneCount(ts[i].network, count)];
        relevantNetwork := ts[i].network;
        ops := ops + [PropagateZone(ts[i])];
      }
      ops := ops + [AddZone(ts[i].network, ts[i].zone)];
      assert ts[..i + 1][..i] == ts[..i];
      i := i + 1;
    }
    assert ts[..i] == ts;
    ops := ops + [CheckZoneCount(relevantNetwork)];
  }

  /** Every zone of a non-extended reply is added before any network is marked complete, and each exactly once, in order. */
  lemma NonextendedAddsBeforeMarks(ts: seq<ZoneTuple>)
    ensures var ops := NonextendedOps(ts);
      var base := if ts == [] then 0 else 1;
      |ops| == base + 2 * |ts| &&
      (forall k :: 0 <= k < |ts| ==> ops[base + k] == AddZone(ts[k].network, ts[k].zone)) &&
      (forall k :: 0 <= k < |ts| ==> ops[base + |ts| + k] == MarkComplete(ts[k].network)) &&
      (forall i, j :: 0 <= i < j < |ops| && ops[j].AddZone? ==> !ops[i].MarkComplete?)
  {
    var ops := NonextendedOps(ts);
    var base := if ts == [] then 0 else 1;
    assert forall k :: 0 <= k < |ts| ==> ops[base + k] == AddsFor(ts)[k];
    assert forall k :: 0 <= k < |ts| ==> ops[base + |ts| + k] == MarksFor(ts)[k];
    assert forall i :: 0 <= i < base + |ts| ==> !ops[i].MarkComplete?;
    assert forall j :: base + |ts| <= j < |ops| ==> !ops[j].AddZone?;
  }

  /** An extended reply sets the expected count and is checked for completeness on the first tuple's network. */
  lemma ExtendedReplyIsAboutOneNetwork(count: int, ts: seq<ZoneTuple>)
    requires ts != []
    ensures var ops := ExtendedOps(count, ts);
      |ops| == |ts| + 3 &&
      ops[0] == SetExpectedZoneCount(ts[0].network, count) && ops[1] == PropagateZone(ts[0]) &&
      (forall k :: 0 <= k < |ts| ==> ops[2 + k] == AddZone(ts[k].network, ts[k].zone)) &&
      ops[|ops| - 1] == CheckZoneCount(ts[0].network)
  {
    var ops := ExtendedOps(count, ts);
    assert forall k :: 0 <= k < |ts| ==> ops[2 + k] == AddsFor(ts)[k];
  }

  // ---------------------------------------------------------------------------
  // Answering a query: the packing of tuples into replies

  /** An extended reply: function 8, the network's zone count (as a byte), then tuples. */
  function ReplyBytes(count: nat, chunk: seq<ZoneTuple>): seq<byte> {
    [ZipExtendedReply, count % 256] + EncodeTuples(chunk)
  }

  /** Whether a reply holding `chunk` still has room for `t`. */
  predicate Room(chunk: seq<ZoneTuple>, t: ZoneTuple) {
    ZipHeaderLen + TuplesLen(chunk) + TupleFixedLen + |t.zone| <= MaxPayload
  }

  /** The wire length of a run of tuples: 3 bytes and the name for each. */
  function TuplesLen(ts: seq<ZoneTuple>): nat {
    if ts == [] then 0 else TupleFixedLen + |ts[0].zone| + TuplesLen(ts[1..])
  }

  lemma {:induction false} EncodedLen(ts: seq<ZoneTuple>)
    ensures |EncodeTuples(ts)| == TuplesLen(ts)
    decreases |ts|
  {
    if ts != [] {
      EncodedLen(ts[1..]);
    }
  }

  lemma {:induction false} TuplesLenAppend(ts: seq<ZoneTuple>, t: ZoneTuple)
    ensures TuplesLen(ts + [t]) == TuplesLen(ts) + TupleFixedLen + |t.zone|
    decreases |ts|
  {
    if ts == [] {
      assert [] + [t] == [t] && [t][1..] == [];
    } else {
      assert (ts + [t])[1..] == ts[1..] + [t];
      TuplesLenAppend(ts[1..], t);
    }
  }

  /** A reply's length: the ZIP header and its tuples. */
  lemma ReplyLen(count: nat, chunk: seq<ZoneTuple>)
    ensures |ReplyBytes(count, chunk)| == ZipHeaderLen + TuplesLen(chunk)
  {
    EncodedLen(chunk);
  }

  /** Replies handed to DDP, and the one being filled (empty when there is none). */
  datatype Packing = Packing(done: seq<seq<ZoneTuple>>, current: seq<ZoneTuple>)

  /** `query_reply_iterator_loop` for one tuple: it goes in the current reply if it fits, else the reply is sent and a fresh one takes it. */
  function AddTuple(p: Packing, t: ZoneTuple): Packing {
    if p.current != [] && !Room(p.current, t) then Packing(p.done + [p.current], [t])
    else Packing(p.done, p.current + [t])
  }

  function Pack(ts: seq<ZoneTuple>): Packing {
    if ts == [] then Packing([], []) else AddTuple(Pack(ts[..|ts| - 1]), ts[|ts| - 1])
  }

  /** The tuple runs of the replies a query gets: the closed ones and, after the end callback, the last. */
  function Chunks(ts: seq<ZoneTuple>): seq<seq<ZoneTuple>> {
    var p := Pack(ts);
    p.done + if p.current == [] then [] else [p.current]
  }

  function Flatten(cs: seq<seq<ZoneTuple>>): seq<ZoneTuple> {
    if cs == [] then [] else Flatten(cs[..|cs| - 1]) + cs[|cs| - 1]
  }

  lemma {:induction false} EncodeAppend(a: seq<ZoneTuple>, b: seq<ZoneTuple>)
    ensures EncodeTuples(a + b) == EncodeTuples(a) + EncodeTuples(b)
    decreases |a|
  {
    if a != [] {
      assert (a + b)[1..] == a[1..] + b;
      EncodeAppend(a[1..], b);
    } else {
      assert a + b == b;
    }
  }

  /** A reply that is full is one the next tuple does not fit in. */
  predicate Fits(chunk: seq<ZoneTuple>) {
    ZipHeaderLen + TuplesLen(chunk) <= MaxPayload
  }

  /** What the packing keeps: nothing lost or reordered, every reply within 586 bytes and non-empty, each closed one full. */
  predicate PackingInvariant(p: Packing, ts: seq<ZoneTuple>) {
    Flatten(p.done) + p.current == ts &&
    (p.current == [] <==> ts == []) && Fits(p.current) &&
    (forall i :: 0 <= i < |p.done| ==> p.done[i] != [] && Fits(p.done[i])) &&
    (forall i :: 0 <= i < |p.done| - 1 ==> !Room(p.done[i], p.done[i + 1][0])) &&
    (p.done != [] ==> p.current != [] && !Room(p.done[|p.done| - 1], p.current[0]))
  }

  lemma {:induction false} PackKeepsInvariant(ts: seq<ZoneTuple>)
    ensures PackingInvariant(Pack(ts), ts)
    decreases |ts|
  {
    if ts != [] {
      var init, t := ts[..|ts| - 1], ts[|ts| - 1];
      assert ts == init + [t];
      PackKeepsInvariant(init);
      AddTupleKeepsInvariant(Pack(init), init, t);
      assert Pack(ts) == AddTuple(Pack(init), t);
    }
  }

  lemma AddTupleKeepsInvariant(p: Packing, ts: seq<ZoneTuple>, t: ZoneTuple)
    requires PackingInvariant(p, ts)
    ensures PackingInvariant(AddTuple(p, t), ts + [t])
  {
    if p.current != [] && !Room(p.current, t) {
      FlushKeepsInvariant(p, ts, t);
    } else {
      ExtendKeepsInvariant(p, ts, t);
    }
  }

  /** A full reply is closed and the tuple starts the next. */
  lemma FlushKeepsInvariant(p: Packing, ts: seq<ZoneTuple>, t: ZoneTuple)
    requires PackingInvariant(p, ts) && p.current != [] && !Room(p.current, t)
    ensures PackingInvariant(Packing(p.done + [p.current], [t]), ts + [t])
  {
    var q := Packing(p.done + [p.current], [t]);
    FlattenAppend(p.done, p.current);
    TuplesLenAppend([], t);
    assert [] + [t] == [t];
    forall i | 0 <= i < |q.done|
      ensures q.done[i] != [] && Fits(q.done[i])
    {
      if i < |p.done| {
        assert q.done[i] == p.done[i];
      } else {
        assert q.done[i] == p.current;
      }
    }
    forall i | 0 <= i < |q.done| - 1
      ensures !Room(q.done[i], q.done[i + 1][0])
    {
      assert q.done[i] == p.done[i];
      if i + 1 < |p.done| {
        assert q.done[i + 1] == p.done[i + 1];
      } else {
        assert q.done[i + 1] == p.current;
      }
    }
    assert q.done[|q.done| - 1] == p.current;
  }

  /** A tuple that fits joins the reply in progress. */
  lemma ExtendKeepsInvariant(p: Packing, ts: seq<ZoneTuple>, t: ZoneTuple)
    requires PackingInvariant(p, ts) && (p.current == [] || Room(p.current, t))
    ensures PackingInvariant(Packing(p.done, p.current + [t]), ts + [t])
  {
    var q := Packing(p.done, p.current + [t]);
    TuplesLenAppend(p.current, t);
    assert Flatten(q.done) + q.current == (Flatten(p.done) + p.current) + [t];
    if p.current != [] {
      assert q.current[0] == p.current[0];
    }
  }

  lemma FlattenAppend(cs: seq<seq<ZoneTuple>>, c: seq<ZoneTuple>)
    ensures Flatten(cs + [c]) == Flatten(cs) + c
  {
    assert (cs + [c])[..|cs|] == cs;
  }

  /** The replies carry every tuple once, in order. */
  lemma ChunksKeepOrder(ts: seq<ZoneTuple>)
    ensures Flatten(Chunks(ts)) == ts
  {
    PackKeepsInvariant(ts);
    var p := Pack(ts);
    if p.current != [] {
      FlattenAppend(p.done, p.current);
    }
  }

  /** Each reply holds at least one tuple and at most 586 bytes; a reply is sent early only when the next tuple would not fit. */
  lemma ChunksFitAndAreFull(ts: seq<ZoneTuple>)
    ensures var cs := Chunks(ts);
      (forall i :: 0 <= i < |cs| ==> cs[i] != [] && |ReplyBytes(0, cs[i])| <= MaxPayload) &&
      (forall i :: 0 <= i < |cs| - 1 ==> |ReplyBytes(0, cs[i])| + |TupleBytes(cs[i + 1][0])| > MaxPayload)
  {
    PackKeepsInvariant(ts);
    var p := Pack(ts);
    if p.current == [] {
      assert Chunks(ts) == [];
    } else {
      assert Chunks(ts) == p.done + [p.current];
      ChunksFit(p, ts);
      ChunksAreFull(p, ts);
    }
  }

  lemma ChunksFit(p: Packing, ts: seq<ZoneTuple>)
    requires PackingInvariant(p, ts) && p.current != []
    ensures var cs := p.done + [p.current];
      forall i :: 0 <= i < |cs| ==> cs[i] != [] && |ReplyBytes(0, cs[i])| <= MaxPayload
  {
    var cs := p.done + [p.current];
    forall i | 0 <= i < |cs|
      ensures cs[i] != [] && |ReplyBytes(0, cs[i])| <= MaxPayload
    {
      ReplyLen(0, cs[i]);
      if i < |p.done| {
        assert cs[i] == p.done[i];
      } else {
        assert cs[i] == p.current;
      }
    }
  }

  lemma ChunksAreFull(p: Packing, ts: seq<ZoneTuple>)
    requires PackingInvariant(p, ts) && p.current != []
    ensures var cs := p.done + [p.current];
      forall i :: 0 <= i < |cs| - 1 ==> |ReplyBytes(0, cs[i])| + |TupleBytes(cs[i + 1][0])| > MaxPayload
  {
    var cs := p.done + [p.current];
    forall i | 0 <= i < |cs| - 1
      ensures |ReplyBytes(0, cs[i])| + |TupleBytes(cs[i + 1][0])| > MaxPayload
    {
      ReplyLen(0, cs[i]);
      assert cs[i] == p.done[i];
      if i + 1 < |p.done| {
        assert cs[i + 1] == p.done[i + 1];
      } else {
        assert cs[i + 1] == p.current;
      }
    }
  }

  /** A reply, read with the tuple walker after any DDP header, gives back exactly its tuples. */
  lemma ReplyReadsBack(header: seq<byte>, count: nat, chunk: seq<ZoneTuple>)
    ensures TuplesFrom(header + ReplyBytes(count, chunk), |header| + ZipHeaderLen) == chunk
  {
    var prefix := header + [ZipExtendedReply, count % 256];
    ReplySplits(header, count, chunk);
    DecodeEncode(prefix, chunk);
  }

  lemma ReplySplits(header: seq<byte>, count: nat, chunk: seq<ZoneTuple>)
    ensures header + ReplyBytes(count, chunk) == (header + [ZipExtendedReply, count % 256]) + EncodeTuples(chunk)
  {
  }

  // ---------------------------------------------------------------------------
  // Answering a query: the iterator callbacks and their driver

  /** One extended reply handed to `ddp_send`: from the ZIP socket, as DDP type 6. */
  function ReplySend(count: nat, net: u16, node: byte, socket: byte, chunk: seq<ZoneTuple>): Sent {
    DdpSend(ReplyBytes(count, chunk), SocketZip, net, node, socket, TypeZip)
  }

  function Sends(count: nat, net: u16, node: byte, socket: byte, cs: seq<seq<ZoneTuple>>): (r: seq<Sent>) {
    seq(|cs|, i requires 0 <= i < |cs| => ReplySend(count, net, node, socket, cs[i]))
  }

  lemma SendsAppend(count: nat, net: u16, node: byte, socket: byte, cs: seq<seq<ZoneTuple>>, c: seq<ZoneTuple>)
    ensures Sends(count, net, node, socket, cs + [c]) == Sends(count, net, node, socket, cs) + [ReplySend(count, net, node, socket, c)]
  {
    SendsConcat(count, net, node, socket, cs, [c]);
  }

  /** The tuples `zt_iterate_net` hands the loop callback for `net`: its zones, with the network it reports. */
  function QueryTuples(v: View, net: u16): seq<ZoneTuple> {
    NetTuples(v.reported(net), v.zones(net))
  }

  /** Each zone paired with one network number. */
  function NetTuples(network: u16, zones: seq<pstring>): (ts: seq<ZoneTuple>)
    ensures |ts| == |zones| && forall k :: 0 <= k < |ts| ==> ts[k] == ZoneTuple(network, zones[k])
  {
    seq(|zones|, k requires 0 <= k < |zones| => ZoneTuple(network, zones[k]))
  }

  /** `query_reply_iterator_init` lets the iteration go on only for a known, complete network with zones. */
  predicate Answered(v: View, net: u16) {
    v.known(net) && v.complete(net) && |v.zones(net)| != 0
  }

  /** What a query for one network gets: nothing, or its tuples in as few replies as the greedy packing makes. */
  function QueryReplies(v: View, net: u16, f: Fields): seq<Sent> {
    if Answered(v, net) then Sends(|v.zones(net)|, f.srcNet, f.src, f.srcSock, Chunks(QueryTuples(v, net))) else []
  }

  /** `zip_ext_reply_setup_packet`: the extended-reply function and the zone count, as a byte. */
  method ExtReplySetupPacket(b: Buffer, count: nat)
    requires b.Valid() && |b.payload| >= ZipHeaderLen
    modifies b
    ensures b.Valid() && b.OnlyPayloadChanged()
    ensures b.payload == old(b.payload)[0 := ZipExtendedReply][1 := count % 256]
  {
    b.payload := b.payload[0 := ZipExtendedReply][1 := count % 256];
  }

  /** Appending a tuple's network and its zone string extends the reply by that tuple. */
  lemma ReplyBytesAppend(count: nat, chunk: seq<ZoneTuple>, t: ZoneTuple)
    ensures |ReplyBytes(count, chunk)| == ZipHeaderLen + TuplesLen(chunk)
    ensures ReplyBytes(count, chunk + [t]) == ReplyBytes(count, chunk) + Be16Bytes(t.network) + PStringBytes(t.zone)
  {
    ReplyLen(count, chunk);
    EncodeAppend(chunk, [t]);
    EncodeOne(t);
    Regroup([ZipExtendedReply, count % 256], EncodeTuples(chunk), Be16Bytes(t.network), PStringBytes(t.zone));
  }

  lemma EncodeOne(t: ZoneTuple)
    ensures EncodeTuples([t]) == Be16Bytes(t.network) + PStringBytes(t.zone)
  {
    assert [t][1..] == [];
  }

  lemma Regroup(h: seq<byte>, e: seq<byte>, b: seq<byte>, z: seq<byte>)
    ensures h + (e + (b + z)) == h + e + b + z
  {
  }

  /** `struct zip_query_response_state`, with the packing so far as ghost state. */
  class QueryReply {
    const toNode: byte
    const toNet: u16
    const toSocket: byte
    var zoneCount: nat
    var packetInProgress: Buffer?
    /** The replies handed to DDP so far and the tuples in the packet in progress. */
    ghost var packing: Packing

    ghost predicate Valid()
      reads this, packetInProgress
    {
      (packetInProgress == null <==> packing.current == []) &&
      (packetInProgress != null ==> Holds(packetInProgress))
    }

    /** The packet in progress is a reply buffer carrying the current tuples. */
    ghost predicate Holds(b: Buffer)
      reads this, b
    {
      b.Valid() && b.payloadCapacity == MaxPayload && b.payload == ReplyBytes(zoneCount, packing.current)
    }

    /** `app_zip_reply_to_query_for_net`'s initialiser: replies go back to the query's sender. */
    constructor (f: Fields)
      ensures Valid() && packetInProgress == null && packing == Packing([], []) && zoneCount == 0
      ensures toNode == f.src && toNet == f.srcNet && toSocket == f.srcSock
    {
      toNode, toNet, toSocket := f.src, f.srcNet, f.srcSock;
      zoneCount := 0;
      packetInProgress := null;
      packing := Packing([], []);
    }

    /** `query_reply_iterator_init`. */
    method Init(known: bool, count: nat, complete: bool) returns (ok: bool)
      requires Valid() && packetInProgress == null
      modifies this
      ensures Valid() && packetInProgress == old(packetInProgress) && packing == old(packing)
      ensures ok <==> known && complete && count != 0
      ensures zoneCount == if ok then count else old(zoneCount)
    {
      if !known {
        return false;
      }
      if !complete {
        return false;
      }
      if count == 0 {
        return false;
      }
      zoneCount := count;
      return true;
    }

    /** The reply this state sends for a run of tuples. */
    function Reply(chunk: seq<ZoneTuple>): Sent
      reads this
    {
      ReplySend(zoneCount, toNet, toNode, toSocket, chunk)
    }

    /** A fresh reply buffer: `newbuf_ddp`, room for the ZIP header, then the header itself. */
    method NewReplyBuffer() returns (b: Buffer)
      ensures fresh(b) && b.Valid() && b.payloadCapacity == MaxPayload && b.payload == ReplyBytes(zoneCount, [])
    {
      b := new Buffer(true, LongHeader, MaxPayload);
      b.ExpandPayload(ZipHeaderLen);
      ExtReplySetupPacket(b, zoneCount);
    }

    /** The success branch of the loop callback: the tuple appended to the packet in progress. */
    method AppendTuple(t: ZoneTuple)
      requires packetInProgress != null && Holds(packetInProgress) && Room(packing.current, t)
      modifies packetInProgress, this
      ensures Valid() && packetInProgress == old(packetInProgress) && zoneCount == old(zoneCount)
      ensures packing == Packing(old(packing).done, old(packing).current + [t])
    {
      var b := packetInProgress;
      ReplyBytesAppend(zoneCount, packing.current, t);
      var ok := b.AppendU16(t.network);
      ok := b.AppendPString(t.zone);
      packing := Packing(packing.done, packing.current + [t]);
    }

    /** `query_reply_iterator_loop`: the tuple goes in the packet in progress, or that packet is sent and the tuple goes in a fresh one. */
    method Loop(network: u16, zone: pstring, out: Outbox) returns (cont: bool)
      requires Valid()
      modifies this, packetInProgress, out
      ensures Valid() && cont && zoneCount == old(zoneCount)
      ensures packetInProgress == old(packetInProgress) || fresh(packetInProgress)
      ensures packing == AddTuple(old(packing), ZoneTuple(network, zone))
      ensures out.sent == old(out.sent) + Sends(zoneCount, toNet, toNode, toSocket, packing.done[|old(packing).done|..])
    {
      var t := ZoneTuple(network, zone);
      ghost var p0 := packing;
      ghost var sent0 := out.sent;
      var tryAgain := true;
      while tryAgain
        invariant Valid() && zoneCount == old(zoneCount)
        invariant packetInProgress == null || packetInProgress == old(packetInProgress) || fresh(packetInProgress)
        invariant tryAgain && packing == p0 ==> out.sent == sent0
        invariant tryAgain && packing != p0 ==>
          p0.current != [] && !Room(p0.current, t) && packetInProgress == null &&
          packing == Packing(p0.done + [p0.current], []) && out.sent == sent0 + [Reply(p0.current)]
        invariant !tryAgain ==>
          packetInProgress != null && packing == AddTuple(p0, t) &&
          out.sent == sent0 + Sends(zoneCount, toNet, toNode, toSocket, packing.done[|p0.done|..])
        decreases tryAgain, packetInProgress != null
      {
        ghost var fromStart := packing == p0;
        if packetInProgress == null {
          packetInProgress := NewReplyBuffer();
        }
        ReplyLen(zoneCount, packing.current);
        var payloadLen := |packetInProgress.payload|;
        var tupleLen := |zone| + TupleFixedLen;
        if payloadLen + tupleLen <= MaxPayload {
          AppendTuple(t);
          tryAgain := false;
          assert packing.done == p0.done || packing.done == p0.done + [p0.current];
          if fromStart {
            assert packing.done[|p0.done|..] == [];
          } else {
            assert packing.done[|p0.done|..] == [p0.current];
          }
        } else {
          var ok := out.HandToDdp(packetInProgress, SocketZip, toNet, toNode, toSocket, TypeZip);
          packing := Packing(packing.done + [packing.current], []);
          packetInProgress := null;
          tryAgain := true;
        }
      }
      cont := true;
    }

    /** `query_reply_iterator_end`: unless aborted, the packet in progress, if any, is sent. */
    method End(aborted: bool, out: Outbox) returns (ok: bool)
      requires Valid()
      modifies this, out
      ensures Valid() && ok == !aborted && zoneCount == old(zoneCount)
      ensures aborted ==> packing == old(packing) && packetInProgress == old(packetInProgress) && out.sent == old(out.sent)
      ensures !aborted ==>
        packetInProgress == null &&
        packing == Packing(old(packing).done + if old(packing).current == [] then [] else [old(packing).current], []) &&
        out.sent == old(out.sent) + if old(packing).current == [] then [] else [Reply(old(packing).current)]
    {
      if aborted {
        return false;
      }
      if packetInProgress != null {
        var sent := out.HandToDdp(packetInProgress, SocketZip, toNet, toNode, toSocket, TypeZip);
        packing := Packing(packing.done + [packing.current], []);
        packetInProgress := null;
      }
      return true;
    }
  }

  /** The packing only ever closes replies: the ones closed before stay as they were. */
  lemma AddTupleExtends(p: Packing, t: ZoneTuple)
    ensures |AddTuple(p, t).done| >= |p.done| && AddTuple(p, t).done == p.done + AddTuple(p, t).done[|p.done|..]
  {
  }

  lemma SendsConcat(count: nat, net: u16, node: byte, socket: byte, a: seq<seq<ZoneTuple>>, b: seq<seq<ZoneTuple>>)
    ensures Sends(count, net, node, socket, a + b) == Sends(count, net, node, socket, a) + Sends(count, net, node, socket, b)
  {
    var l := Sends(count, net, node, socket, a + b);
    var r := Sends(count, net, node, socket, a) + Sends(count, net, node, socket, b);
    assert |l| == |r|;
    forall i | 0 <= i < |l|
      ensures l[i] == r[i]
    {
      if i < |a| {
        assert (a + b)[i] == a[i];
      } else {
        assert (a + b)[i] == b[i - |a|];
      }
    }
  }

  lemma PackStep(ts: seq<ZoneTuple>, k: nat)
    requires k < |ts|
    ensures Pack(ts[..k + 1]) == AddTuple(Pack(ts[..k]), ts[k])
  {
    assert ts[..k + 1][..k] == ts[..k];
  }

  /** The replies sent after a tuple are those sent before, then any the tuple closed. */
  lemma SendsStep(count: nat, net: u16, node: byte, socket: byte, p: Packing, t: ZoneTuple)
    ensures Sends(count, net, node, socket, AddTuple(p, t).done) ==
            Sends(count, net, node, socket, p.done) + Sends(count, net, node, socket, AddTuple(p, t).done[|p.done|..])
  {
    AddTupleExtends(p, t);
    SendsConcat(count, net, node, socket, p.done, AddTuple(p, t).done[|p.done|..]);
  }

  /** `zt_iterate_net`'s walk over the zones of a network: the loop callback for each, in order. */
  method IterateZones(state: QueryReply, network: u16, zones: seq<pstring>, out: Outbox)
    requires state.Valid() && state.packing == Packing([], [])
    modifies state, state.packetInProgress, out
    ensures state.Valid() && state.zoneCount == old(state.zoneCount)
    ensures state.packing == Pack(NetTuples(network, zones))
    ensures out.sent == old(out.sent) + Sends(state.zoneCount, state.toNet, state.toNode, state.toSocket, state.packing.done)
  {
    var ts := NetTuples(network, zones);
    ghost var sent0 := out.sent;
    var k := 0;
    while k < |ts|
      invariant 0 <= k <= |ts| && state.Valid() && state.zoneCount == old(state.zoneCount)
      invariant state.packetInProgress == null || fresh(state.packetInProgress) || state.packetInProgress == old(state.packetInProgress)
      invariant state.packing == Pack(ts[..k])
      invariant out.sent == sent0 + Sends(state.zoneCount, state.toNet, state.toNode, state.toSocket, state.packing.done)
    {
      LoopStep(state, ts, k, out, sent0);
      k := k + 1;
    }
    assert ts[..k] == ts;
  }

  /** One call of the loop callback, for the `k`th tuple, keeps the walk's invariant. */
  method LoopStep(state: QueryReply, ts: seq<ZoneTuple>, k: nat, out: Outbox, ghost sent0: seq<Sent>)
    requires k < |ts| && state.Valid() && state.packing == Pack(ts[..k])
    requires out.sent == sent0 + Sends(state.zoneCount, state.toNet, state.toNode, state.toSocket, state.packing.done)
    modifies state, state.packetInProgress, out
    ensures state.Valid() && state.zoneCount == old(state.zoneCount)
    ensures state.packetInProgress == null || fresh(state.packetInProgress) || state.packetInProgress == old(state.packetInProgress)
    ensures state.packing == Pack(ts[..k + 1])
    ensures out.sent == sent0 + Sends(state.zoneCount, state.toNet, state.toNode, state.toSocket, state.packing.done)
  {
    ghost var before := state.packing;
    var cont := state.Loop(ts[k].network, ts[k].zone, out);
    PackStep(ts, k);
    SendsStep(state.zoneCount, state.toNet, state.toNode, state.toSocket, before, ts[k]);
  }

  /**
   * `app_zip_reply_to_query_for_net`, with `zt_iterate_net` over the view: the initialiser, the
   * loop callback for each zone of the network, then the finaliser (told the iteration was
   * aborted when the initialiser refused).
   */
  method ReplyToQueryForNet(f: Fields, net: u16, v: View, out: Outbox)
    modifies out
    ensures out.sent == old(out.sent) + QueryReplies(v, net, f)
  {
    var state := new QueryReply(f);
    var zones := v.zones(net);
    var go := state.Init(v.known(net), |zones|, v.complete(net));
    if !go {
      var _ := state.End(true, out);
      return;
    }
    IterateZones(state, v.reported(net), zones, out);
    ghost var last := state.packing;
    var _ := state.End(false, out);
    if last.current != [] {
      SendsAppend(|zones|, state.toNet, state.toNode, state.toSocket, last.done, last.current);
    }
  }

  /** The replies to the first `n` networks of a query, in order. */
  function AllQueried(v: View, f: Fields, p: seq<byte>, n: nat): seq<Sent>
    requires IsQuery(p) && n <= NetworkCount(p)
  {
    if n == 0 then [] else AllQueried(v, f, p, n - 1) + QueryReplies(v, QryNetwork(p, n - 1), f)
  }

  /** `app_zip_handle_query`: a query whose networks do not all fit in the payload is dropped. */
  method HandleQuery(packet: Buffer, v: View, out: Outbox)
    requires packet.Valid() && |packet.payload| >= ZipHeaderLen
    modifies out
    ensures out.sent == old(out.sent) + if IsQuery(packet.payload) then AllQueried(v, Header(packet), packet.payload, NetworkCount(packet.payload)) else []
  {
    var networkCount: int := packet.payload[1];
    var remaining: int := |packet.payload| - ZipHeaderLen;
    if remaining < networkCount * 2 {
      return;
    }
    ReplyToEach(Header(packet), packet.payload, v, out);
  }

  /** The loop of `app_zip_handle_query`: each network of the query in turn. */
  method ReplyToEach(f: Fields, p: seq<byte>, v: View, out: Outbox)
    requires IsQuery(p)
    modifies out
    ensures out.sent == old(out.sent) + AllQueried(v, f, p, NetworkCount(p))
  {
    var i := 0;
    ghost var sent0 := out.sent;
    while i < p[1]
      invariant 0 <= i <= p[1]
      invariant out.sent == sent0 + AllQueried(v, f, p, i)
    {
      QueryStep(f, p, v, i, out, sent0);
      i := i + 1;
    }
  }

  /** One pass of that loop: the replies for network `i`. */
  method QueryStep(f: Fields, p: seq<byte>, v: View, i: nat, out: Outbox, ghost sent0: seq<Sent>)
    requires IsQuery(p) && i < NetworkCount(p)
    requires out.sent == sent0 + AllQueried(v, f, p, i)
    modifies out
    ensures out.sent == sent0 + AllQueried(v, f, p, i + 1)
  {
    var net := QryNetwork(p, i);
    ReplyToQueryForNet(f, net, v, out);
    AllQueriedStep(v, f, p, i, sent0);
  }

  lemma AllQueriedStep(v: View, f: Fields, p: seq<byte>, i: nat, sent0: seq<Sent>)
    requires IsQuery(p) && i < NetworkCount(p)
    ensures sent0 + AllQueried(v, f, p, i) + QueryReplies(v, QryNetwork(p, i), f) == sent0 + AllQueried(v, f, p, i + 1)
  {
  }

  /** A network that is unknown, incomplete or zoneless gets no reply. */
  lemma UnansweredGetsNothing(v: View, net: u16, f: Fields)
    requires !v.known(net) || !v.complete(net) || |v.zones(net)| == 0
    ensures QueryReplies(v, net, f) == []
  {
  }

  /** A reply reads back as its tuples, after a two-byte ZIP header. */
  lemma ReplyChunkReadsBack(count: nat, chunk: seq<ZoneTuple>)
    ensures TuplesFrom(ReplyBytes(count, chunk), ZipHeaderLen) == chunk
  {
    DecodeEncode([ZipExtendedReply, count % 256], chunk);
  }

  /**
   * The replies to a run of tuples carry them, in order and each once, in replies of at most 586
   * bytes that each read back as their tuples after the ZIP header.
   */
  lemma RepliesCarryTuples(count: nat, net: u16, node: byte, socket: byte, ts: seq<ZoneTuple>)
    requires ts != []
    ensures var cs := Chunks(ts);
      var rs := Sends(count, net, node, socket, cs);
      |rs| == |cs| >= 1 && Flatten(cs) == ts &&
      forall i :: 0 <= i < |rs| ==>
        rs[i] == DdpSend(ReplyBytes(count, cs[i]), SocketZip, net, node, socket, TypeZip) &&
        |rs[i].payload| <= MaxPayload && TuplesFrom(rs[i].payload, ZipHeaderLen) == cs[i]
  {
    var cs := Chunks(ts);
    ChunksKeepOrder(ts);
    ChunksFitAndAreFull(ts);
    forall i | 0 <= i < |cs|
      ensures TuplesFrom(ReplyBytes(count, cs[i]), ZipHeaderLen) == cs[i]
      ensures |ReplyBytes(count, cs[i])| <= MaxPayload
    {
      ReplyLen(count, cs[i]);
      ReplyLen(0, cs[i]);
      ReplyChunkReadsBack(count, cs[i]);
    }
  }

  /** So an answered network's zones all go back to the querier, from the ZIP socket, in at least one reply. */
  lemma QueryRepliesCarryZones(v: View, net: u16, f: Fields)
    requires Answered(v, net)
    ensures var cs := Chunks(QueryTuples(v, net));
      var rs := QueryReplies(v, net, f);
      |rs| == |cs| >= 1 && Flatten(cs) == QueryTuples(v, net) &&
      forall i :: 0 <= i < |rs| ==>
        rs[i] == DdpSend(ReplyBytes(|v.zones(net)|, cs[i]), SocketZip, f.srcNet, f.src, f.srcSock, TypeZip) &&
        |rs[i].payload| <= MaxPayload && TuplesFrom(rs[i].payload, ZipHeaderLen) == cs[i]
  {
    RepliesCarryTuples(|v.zones(net)|, f.srcNet, f.src, f.srcSock, QueryTuples(v, net));
  }

  /** Tuples that all fit in one reply are kept together. */
  lemma {:induction false} PackAllFit(ts: seq<ZoneTuple>)
    requires Fits(ts)
    ensures Pack(ts) == Packing([], ts)
    decreases |ts|
  {
    if ts != [] {
      var init, t := ts[..|ts| - 1], ts[|ts| - 1];
      assert ts == init + [t];
      TuplesLenAppend(init, t);
      PackAllFit(init);
      assert Pack(ts) == AddTuple(Pack(init), t);
    }
  }

  /** A network whose zones fit in 584 bytes gets exactly one reply, holding all of them. */
  lemma SmallZoneListOneReply(v: View, net: u16, f: Fields)
    requires Answered(v, net) && Fits(QueryTuples(v, net))
    ensures QueryReplies(v, net, f) == [DdpSend(ReplyBytes(|v.zones(net)|, QueryTuples(v, net)), SocketZip, f.srcNet, f.src, f.srcSock, TypeZip)]
  {
    var ts := QueryTuples(v, net);
    PackAllFit(ts);
    assert Chunks(ts) == [ts];
    var rs := Sends(|v.zones(net)|, f.srcNet, f.src, f.srcSock, [ts]);
    assert |rs| == 1 && rs[0] == DdpSend(ReplyBytes(|v.zones(net)|, ts), SocketZip, f.srcNet, f.src, f.srcSock, TypeZip);
  }

  /** The query test: network 11 holds Zone1, Zone2 and Zone3, and gets one reply laid out byte for byte. */
  lemma ThreeZoneQuery(v: View, f: Fields)
    requires v.known(11) && v.complete(11) && v.reported(11) == 11
    requires v.zones(11) == [Zone1, Zone2, Zone3]
    ensures QueryReplies(v, 11, f) == [DdpSend(
      [8, 3] + [0, 11, 5] + Zone1 + [0, 11, 5] + Zone2 + [0, 11, 5] + Zone3,
      SocketZip, f.srcNet, f.src, f.srcSock, TypeZip)]
  {
    var ts := QueryTuples(v, 11);
    assert ts == [ZoneTuple(11, Zone1), ZoneTuple(11, Zone2), ZoneTuple(11, Zone3)];
    ReplyOfThree(3, ts[0], ts[1], ts[2]);
    assert TuplesLen(ts) == 24;
    assert Be16Bytes(11) == [0, 11];
    assert PStringBytes(Zone1) == [5] + Zone1 && PStringBytes(Zone2) == [5] + Zone2 && PStringBytes(Zone3) == [5] + Zone3;
    assert ReplyBytes(3, ts) == [8, 3] + [0, 11, 5] + Zone1 + [0, 11, 5] + Zone2 + [0, 11, 5] + Zone3;
    SmallZoneListOneReply(v, 11, f);
  }

  /** A reply carrying three tuples: the header, then each tuple's network and name. */
  lemma ReplyOfThree(count: nat, t1: ZoneTuple, t2: ZoneTuple, t3: ZoneTuple)
    ensures TuplesLen([t1, t2, t3]) == 3 * TupleFixedLen + |t1.zone| + |t2.zone| + |t3.zone|
    ensures ReplyBytes(count, [t1, t2, t3]) ==
      [ZipExtendedReply, (count % 256) as byte] + Be16Bytes(t1.network) + PStringBytes(t1.zone) +
      Be16Bytes(t2.network) + PStringBytes(t2.zone) + Be16Bytes(t3.network) + PStringBytes(t3.zone)
  {
    EncodeThree(t1, t2, t3);
    ReplyLen(count, [t1, t2, t3]);
    var h: seq<byte> := [ZipExtendedReply, (count % 256) as byte];
    var a, b, c := TupleBytes(t1), TupleBytes(t2), TupleBytes(t3);
    assert ReplyBytes(count, [t1, t2, t3]) == h + (a + b + c);
    assert h + (a + b + c) == h + a + b + c;
  }

  lemma EncodeThree(t1: ZoneTuple, t2: ZoneTuple, t3: ZoneTuple)
    ensures EncodeTuples([t1, t2, t3]) == TupleBytes(t1) + TupleBytes(t2) + TupleBytes(t3)
  {
    assert [t1, t2, t3][1..] == [t2, t3];
    assert [t2, t3][1..] == [t3];
    assert EncodeTuples([t3]) == TupleBytes(t3) + EncodeTuples([]);
  }

  /** "Zone1", "Zone2" and "Zone3", as the tests name them. */
  const Zone1: pstring := [90, 111, 110, 101, 49]
  const Zone2: pstring := [90, 111, 110, 101, 50]
  const Zone3: pstring := [90, 111, 110, 101, 51]
}
