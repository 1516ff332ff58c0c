/**
 * What the ZIP handlers learn from the ZIP table. The zone-level table functions (zone lists,
 * completeness, zone validity, the iterators) are only declared in table/zip/table.h, so the
 * handlers see the table through this view: for each network number, whether a range holding it
 * is known and complete, the zones recorded for it in order, and the network number the
 * iterator reports with them; and the zone list of the whole internet in order.
 */
module ZoneView {
  import opened Bytes

  datatype View = View(
    /** `exists`, as `zt_iterate_net` passes it to its first callback. */
    known: u16 -> bool,
    /** `zt_network_is_complete`, and `complete` as `zt_iterate_net` passes it. */
    complete: u16 -> bool,
    /** The zones `zt_iterate_net` and `zt_iterate_zone_names_for_net` visit, in order; `zt_count_zones_for` is their number. */
    zones: u16 -> seq<pstring>,
    /** The network number `zt_iterate_net` passes with each zone. */
    reported: u16 -> u16,
    /** `zt_zone_is_valid_for`. */
    zoneValid: (pstring, u16) -> bool,
    /** The zones `zt_iterate_zone_names` visits, in order. */
    allZones: seq<pstring>)

  /** The zones an index-based iterator visits from a 0-based index: the rest of the list, if any. */
  function ZonesFrom(zs: seq<pstring>, start: nat): (r: seq<pstring>)
    ensures |r| == if start < |zs| then |zs| - start else 0
    ensures forall k :: 0 <= k < |r| ==> r[k] == zs[start + k]
  {
    if start < |zs| then zs[start..] else []
  }
}
