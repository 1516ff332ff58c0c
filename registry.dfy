/**
 * The LAP registry: a bit set of registered LAP ids and a list of LAPs, behind a root node
 * embedded in the registry, kept in order of falling quality.
 */
module Registry {
  import opened Bytes
  import opened Laps

  /** The list after `lap_registry_register`: the LAP goes before the first LAP of lower quality, unless it is already met first. */
  function Registered(laps: seq<Lap>, lap: Lap): seq<Lap> {
    if |laps| == 0 then [lap]
    else if laps[0] == lap then laps
    else if laps[0].quality < lap.quality then [lap] + laps
    else [laps[0]] + Registered(laps[1..], lap)
  }

  /** The zone of the first LAP, in list order, that has one. */
  function FirstZone(laps: seq<Lap>): Option<pstring>
    reads laps
  {
    if |laps| == 0 then None
    else if laps[0].myZone.Some? then laps[0].myZone
    else FirstZone(laps[1..])
  }

  /** The network and node of the first LAP, in list order, whose address and network are both non-zero. */
  function FirstAddress(laps: seq<Lap>): Option<(u16, byte)>
    reads laps
  {
    if |laps| == 0 then None
    else if laps[0].myAddress != 0 && laps[0].myNetwork != 0 then Some((laps[0].myNetwork, laps[0].myAddress))
    else FirstAddress(laps[1..])
  }

  /** The bit of `registered_laps` for a LAP id. */
  function LapBit(id: int): bv32
    requires 0 <= id < 32
  {
    1 << id
  }

  class LapRegistry {
    /** `registered_laps`: bit `id` is set for each registered LAP. */
    var registeredLaps: bv32
    /** The LAPs of the nodes after the root. */
    var laps: seq<Lap>
    /** `best_zone_cache`, which the registry's functions use though the structure shown does not declare it. */
    var bestZoneCache: Option<pstring>

    /** `lap_registry_new`. */
    constructor ()
      ensures registeredLaps == 0 && laps == [] && bestZoneCache == None
    {
      registeredLaps, laps, bestZoneCache := 0, [], None;
    }

    /** `lap_registry_lap_count_unguarded`: the nodes that are not the root. */
    method LapCount() returns (count: int)
      ensures count == |laps|
    {
      count := 0;
      for i := 0 to |laps|
        invariant count == i
      {
        count := count + 1;
      }
    }

    /** `lap_registry_register`. */
    method Register(lap: Lap)
      requires 0 <= lap.id < 32
      modifies this
      ensures registeredLaps == old(registeredLaps) | LapBit(lap.id)
      ensures laps == Registered(old(laps), lap)
      ensures bestZoneCache == old(bestZoneCache)
    {
      registeredLaps := registeredLaps | LapBit(lap.id);
      var ls := laps;
      var lapExists, i := ScanForInsertion(ls, lap);
      if !lapExists {
        RegisteredInsertsAt(ls, lap, i);
        laps := ls[..i] + [lap] + ls[i..];
      } else {
        var k :| 0 <= k < i && ls[k] == lap;
        RegisteredWhenMetFirst(ls, lap, k);
      }
    }

    /** `lap_registry_highest_quality_lap`: the first LAP, or none. */
    method HighestQualityLap() returns (lap: Lap?)
      ensures lap == if |laps| == 0 then null else laps[0]
    {
      lap := null;
      if |laps| > 0 {
        lap := laps[0];
      }
    }

    /** `lap_registry_update_zone_cache`: the cache takes the first zone known, and keeps its value if no LAP knows one. */
    method UpdateZoneCache()
      modifies this
      ensures laps == old(laps) && registeredLaps == old(registeredLaps)
      ensures bestZoneCache == if FirstZone(laps).Some? then FirstZone(laps) else old(bestZoneCache)
    {
      var zone: Option<pstring> := None;
      for i := 0 to |laps|
        invariant FirstZone(laps) == if zone.Some? then zone else FirstZone(laps[i..])
      {
        assert laps[i..][0] == laps[i] && laps[i..][1..] == laps[i + 1..];
        if laps[i].myZone.Some? {
          zone := laps[i].myZone;
          break;
        }
      }
      if zone.Some? {
        bestZoneCache := zone;
      } else {
        assert FirstZone(laps) == FirstZone([]);
      }
    }

    /** `lap_registry_get_best_address`: the out-parameters are written only when an address is found. */
    method GetBestAddress(outNet: u16, outNode: byte) returns (found: bool, net: u16, node: byte)
      ensures found <==> FirstAddress(laps).Some?
      ensures (net, node) == if found then FirstAddress(laps).value else (outNet, outNode)
    {
      found, net, node := false, outNet, outNode;
      for i := 0 to |laps|
        invariant FirstAddress(laps) == FirstAddress(laps[i..])
      {
        assert laps[i..][0] == laps[i] && laps[i..][1..] == laps[i + 1..];
        if laps[i].myAddress != 0 && laps[i].myNetwork != 0 {
          found := true;
          net := laps[i].myNetwork;
          node := laps[i].myAddress;
          return;
        }
      }
      assert laps[|laps|..] == [];
    }
  }

  /** Falling (non-increasing) order of quality. */
  predicate ByQuality(laps: seq<Lap>) {
    forall i, j :: 0 <= i < j < |laps| ==> laps[i].quality >= laps[j].quality
  }

  /** Where a new LAP goes: before the first LAP of lower quality. */
  function InsertPoint(laps: seq<Lap>, lap: Lap): (k: nat)
    ensures k <= |laps|
  {
    if |laps| == 0 || laps[0].quality < lap.quality then 0 else 1 + InsertPoint(laps[1..], lap)
  }

  /**
   * The walk of `lap_registry_register`: past every LAP of at least the new one's quality, noting
   * whether the new one is among them, up to the first LAP of lower quality or the end.
   */
  method ScanForInsertion(ls: seq<Lap>, lap: Lap) returns (lapExists: bool, i: nat)
    ensures i <= |ls| && (i < |ls| ==> ls[i].quality < lap.quality)
    ensures lapExists <==> exists k :: 0 <= k < i && ls[k] == lap
    ensures forall k :: 0 <= k < i ==> ls[k].quality >= lap.quality
  {
    lapExists := false;
    i := 0;
    while i < |ls|
      invariant i <= |ls|
      invariant lapExists <==> exists k :: 0 <= k < i && ls[k] == lap
      invariant forall k :: 0 <= k < i ==> ls[k].quality >= lap.quality
      decreases |ls| - i
    {
      if ls[i] == lap {
        lapExists := true;
      }
      if ls[i].quality < lap.quality {
        return;
      }
      i := i + 1;
    }
  }

  /** A walk that passes LAPs of at least the new one's quality, none of them the new one, and stops at the end or at a LAP of lower quality, inserts there. */
  lemma {:induction false} RegisteredInsertsAt(ls: seq<Lap>, lap: Lap, i: nat)
    requires i <= |ls| && (i < |ls| ==> ls[i].quality < lap.quality)
    requires forall k :: 0 <= k < i ==> ls[k].quality >= lap.quality && ls[k] != lap
    ensures Registered(ls, lap) == ls[..i] + [lap] + ls[i..]
    decreases i
  {
    if i > 0 {
      RegisteredInsertsAt(ls[1..], lap, i - 1);
      assert ls[..i] == [ls[0]] + ls[1..][..i - 1];
      assert ls[i..] == ls[1..][i - 1..];
    }
  }

  /** The walk meets the LAP at `k`, or earlier, before any LAP of lower quality, so nothing is inserted. */
  lemma {:induction false} RegisteredWhenMetFirst(laps: seq<Lap>, lap: Lap, k: nat)
    requires k < |laps| && laps[k] == lap
    requires forall i :: 0 <= i < k ==> laps[i].quality >= lap.quality
    ensures Registered(laps, lap) == laps
  {
    if laps[0] != lap {
      assert laps[1..][k - 1] == lap;
      RegisteredWhenMetFirst(laps[1..], lap, k - 1);
      assert [laps[0]] + laps[1..] == laps;
    }
  }

  /** On a list in quality order, registering a LAP already present changes nothing. */
  lemma RegisterPresent(laps: seq<Lap>, lap: Lap)
    requires ByQuality(laps) && lap in laps
    ensures Registered(laps, lap) == laps
  {
    var k :| 0 <= k < |laps| && laps[k] == lap;
    RegisteredWhenMetFirst(laps, lap, k);
  }

  /** A LAP not in the list is inserted once, at the insertion point, after every LAP of at least its quality. */
  lemma {:induction false} RegisterNewAt(laps: seq<Lap>, lap: Lap)
    requires lap !in laps
    ensures Registered(laps, lap) == laps[..InsertPoint(laps, lap)] + [lap] + laps[InsertPoint(laps, lap)..]
    ensures forall i :: 0 <= i < InsertPoint(laps, lap) ==> laps[i].quality >= lap.quality
  {
    if |laps| > 0 && laps[0].quality >= lap.quality {
      RegisterNewAt(laps[1..], lap);
      var k := InsertPoint(laps[1..], lap);
      assert laps[..k + 1] == [laps[0]] + laps[1..][..k] && laps[k + 1..] == laps[1..][k..];
      assert forall i :: 0 < i < |laps| ==> laps[i] == laps[1..][i - 1];
    }
  }

  /**
   * On a list in quality order, a new LAP also goes before every LAP of lower quality, so
   * LAPs of equal quality keep their registration order.
   */
  lemma RegisterNew(laps: seq<Lap>, lap: Lap)
    requires ByQuality(laps) && lap !in laps
    ensures Registered(laps, lap) == laps[..InsertPoint(laps, lap)] + [lap] + laps[InsertPoint(laps, lap)..]
    ensures forall i :: 0 <= i < InsertPoint(laps, lap) ==> laps[i].quality >= lap.quality
    ensures forall i :: InsertPoint(laps, lap) <= i < |laps| ==> laps[i].quality < lap.quality
  {
    RegisterNewAt(laps, lap);
    InsertPointLower(laps, lap);
  }

  lemma {:induction false} InsertPointLower(laps: seq<Lap>, lap: Lap)
    requires ByQuality(laps)
    ensures InsertPoint(laps, lap) < |laps| ==> laps[InsertPoint(laps, lap)].quality < lap.quality
    ensures forall i :: InsertPoint(laps, lap) <= i < |laps| ==> laps[i].quality < lap.quality
  {
    if |laps| > 0 && laps[0].quality >= lap.quality {
      InsertPointLower(laps[1..], lap);
      assert forall i :: 0 < i < |laps| ==> laps[i] == laps[1..][i - 1];
    }
  }

  /** Registration keeps the list in quality order. */
  lemma RegisteredByQuality(laps: seq<Lap>, lap: Lap)
    requires ByQuality(laps)
    ensures ByQuality(Registered(laps, lap))
  {
    if lap in laps {
      RegisterPresent(laps, lap);
    } else {
      RegisterNew(laps, lap);
      var k := InsertPoint(laps, lap);
      var r := Registered(laps, lap);
      forall i, j | 0 <= i < j < |r|
        ensures r[i].quality >= r[j].quality
      {
        InsertedAt(laps, lap, k, i);
        InsertedAt(laps, lap, k, j);
      }
    }
  }

  /** Position `i` of a list with `lap` inserted at `k`. */
  lemma InsertedAt(laps: seq<Lap>, lap: Lap, k: nat, i: nat)
    requires k <= |laps| && i <= |laps|
    ensures (laps[..k] + [lap] + laps[k..])[i] == if i < k then laps[i] else if i == k then lap else laps[i - 1]
  {
  }

  /** The first LAP of a list in quality order has the highest quality. */
  lemma FirstIsBest(laps: seq<Lap>)
    requires ByQuality(laps) && |laps| > 0
    ensures forall l :: l in laps ==> l.quality <= laps[0].quality
  {
  }

  /** The registry tests: register qualities 2, 1 and 3; the best comes first, then the others in quality order. */
  lemma RegistrationScenario(better: Lap, good: Lap, best: Lap)
    requires better.quality == 2 && good.quality == 1 && best.quality == 3
    requires better != good && good != best && better != best
    ensures Registered([], better) == [better]
    ensures Registered([better], good) == [better, good]
    ensures Registered([better, good], best) == [best, better, good]
  {
    assert [better][1..] == [];
  }

  /** The zone cache source is the first LAP with a zone: none before it has one. */
  lemma {:induction false} FirstZoneIsFirst(laps: seq<Lap>)
    ensures FirstZone(laps).None? <==> forall k :: 0 <= k < |laps| ==> laps[k].myZone.None?
    ensures FirstZone(laps).Some? ==> exists k :: (0 <= k < |laps| && laps[k].myZone == FirstZone(laps) &&
      forall i :: 0 <= i < k ==> laps[i].myZone.None?)
  {
    if |laps| > 0 {
      FirstZoneIsFirst(laps[1..]);
      if laps[0].myZone.None? {
        assert forall k :: 0 < k < |laps| ==> laps[k] == laps[1..][k - 1];
        if FirstZone(laps).Some? {
          var k :| 0 <= k < |laps[1..]| && laps[1..][k].myZone == FirstZone(laps[1..]) &&
            forall i :: 0 <= i < k ==> laps[1..][i].myZone.None?;
          assert laps[k + 1].myZone == FirstZone(laps);
        }
      } else {
        assert laps[0].myZone == FirstZone(laps);
      }
    }
  }

  /** The best address is the first complete one: none before it has both a node and a network. */
  lemma {:induction false} FirstAddressIsFirst(laps: seq<Lap>)
    ensures FirstAddress(laps).None? <==> forall k :: 0 <= k < |laps| ==> laps[k].myAddress == 0 || laps[k].myNetwork == 0
    ensures FirstAddress(laps).Some? ==> exists k :: (0 <= k < |laps| &&
      FirstAddress(laps).value == (laps[k].myNetwork, laps[k].myAddress) && laps[k].myAddress != 0 && laps[k].myNetwork != 0 &&
      forall i :: 0 <= i < k ==> laps[i].myAddress == 0 || laps[i].myNetwork == 0)
  {
    if |laps| > 0 {
      FirstAddressIsFirst(laps[1..]);
      if laps[0].myAddress == 0 || laps[0].myNetwork == 0 {
        assert forall k :: 0 < k < |laps| ==> laps[k] == laps[1..][k - 1];
        if FirstAddress(laps).Some? {
          var k :| 0 <= k < |laps[1..]| && FirstAddress(laps[1..]).value == (laps[1..][k].myNetwork, laps[1..][k].myAddress) &&
            laps[1..][k].myAddress != 0 && laps[1..][k].myNetwork != 0 &&
            forall i :: 0 <= i < k ==> laps[1..][i].myAddress == 0 || laps[1..][i].myNetwork == 0;
          assert laps[k + 1] == laps[1..][k];
        }
      }
    }
  }
}
