/**
 * The AARP table: AppleTalk address to Ethernet address, hashed by node number into a fixed
 * number of buckets, each a linked list behind an invalid head node.
 */
module AarpTable {
  import opened Bytes

  type EthAddr = s: seq<byte> | |s| == 6 witness [0, 0, 0, 0, 0, 0]

  datatype AarpNode = AarpNode(valid: bool, network: u16, node: byte, hwaddr: EthAddr, timestamp: int)

  /** A bucket head: zero-filled, so not valid. */
  const Head: AarpNode := AarpNode(false, 0, 0, [0, 0, 0, 0, 0, 0], 0)

  predicate Matches(n: AarpNode, network: u16, node: byte) {
    n.valid && n.network == network && n.node == node
  }

  /** The number of valid nodes of a list. */
  function CountValid(l: seq<AarpNode>): nat
    decreases |l|
  {
    if |l| == 0 then 0 else CountValid(l[..|l| - 1]) + (if l[|l| - 1].valid then 1 else 0)
  }

  /** The total over every bucket. */
  function TotalCount(bs: seq<seq<AarpNode>>): nat
    decreases |bs|
  {
    if |bs| == 0 then 0 else TotalCount(bs[..|bs| - 1]) + CountValid(bs[|bs| - 1])
  }

  predicate HasEntry(l: seq<AarpNode>, network: u16, node: byte) {
    exists k :: 0 <= k < |l| && Matches(l[k], network, node)
  }

  function RefreshNode(n: AarpNode, network: u16, node: byte, hw: EthAddr, now: int): AarpNode {
    if Matches(n, network, node) then n.(hwaddr := hw, timestamp := now) else n
  }

  /** Every valid node for the address gets the new hardware address and timestamp. */
  function Refresh(l: seq<AarpNode>, network: u16, node: byte, hw: EthAddr, now: int): seq<AarpNode> {
    seq(|l|, i requires 0 <= i < |l| => RefreshNode(l[i], network, node, hw, now))
  }

  /** `touch_in_list_unguarded`: refresh the address if it is present, and otherwise append it at the tail. */
  function TouchList(l: seq<AarpNode>, network: u16, node: byte, hw: EthAddr, now: int): seq<AarpNode> {
    if HasEntry(l, network, node) then Refresh(l, network, node, hw, now)
    else l + [AarpNode(true, network, node, hw, now)]
  }

  /** `aarp_lookup_in_list_unguarded`: the hardware address of the last valid node for the address. */
  function LookupList(l: seq<AarpNode>, network: u16, node: byte): Option<EthAddr>
    decreases |l|
  {
    if |l| == 0 then None
    else if Matches(l[|l| - 1], network, node) then Some(l[|l| - 1].hwaddr)
    else LookupList(l[..|l| - 1], network, node)
  }

  /** No address has two valid nodes. */
  predicate UniqueKeys(l: seq<AarpNode>) {
    forall i, j :: 0 <= i < j < |l| && l[i].valid && l[j].valid ==>
      l[i].network != l[j].network || l[i].node != l[j].node
  }

  /** A bucket: an invalid head, every valid node hashed to this bucket, each address once. */
  predicate WellFormedBucket(l: seq<AarpNode>, b: nat, bucketCount: nat)
    requires bucketCount > 0
  {
    |l| >= 1 && !l[0].valid && UniqueKeys(l) &&
    forall k :: 0 <= k < |l| && l[k].valid ==> l[k].node % bucketCount == b
  }

  /** `count_list_entries_unguarded`. */
  method CountListEntries(l: seq<AarpNode>) returns (count: nat)
    ensures count == CountValid(l)
  {
    count := 0;
    for i := 0 to |l|
      invariant count == CountValid(l[..i])
    {
      assert l[..i + 1][..i] == l[..i];
      if l[i].valid {
        count := count + 1;
      }
    }
    assert l[..|l|] == l;
  }

  /** `touch_in_list_unguarded`, with `now` standing for the timer reading. */
  method TouchInList(l: seq<AarpNode>, network: u16, node: byte, hw: EthAddr, now: int) returns (r: seq<AarpNode>)
    ensures r == TouchList(l, network, node, hw, now)
  {
    var found := false;
    r := l;
    for i := 0 to |l|
      invariant |r| == |l|
      invariant forall k :: 0 <= k < i ==> r[k] == RefreshNode(l[k], network, node, hw, now)
      invariant forall k :: i <= k < |l| ==> r[k] == l[k]
      invariant found <==> exists k :: 0 <= k < i && Matches(l[k], network, node)
    {
      if !r[i].valid {
        continue;
      }
      if r[i].network == network && r[i].node == node {
        r := r[i := r[i].(hwaddr := hw, timestamp := now)];
        found := true;
      }
    }
    if !found {
      assert r == l;
      r := r + [AarpNode(true, network, node, hw, now)];
    } else {
      assert r == Refresh(l, network, node, hw, now);
    }
  }

  /** `aarp_lookup_in_list_unguarded`: `out` is written at each valid node for the address, and left alone otherwise. */
  method LookupInList(l: seq<AarpNode>, network: u16, node: byte, out: EthAddr) returns (found: bool, result: EthAddr)
    ensures found <==> LookupList(l, network, node).Some?
    ensures result == if found then LookupList(l, network, node).value else out
  {
    found, result := false, out;
    for i := 0 to |l|
      invariant found <==> LookupList(l[..i], network, node).Some?
      invariant result == if found then LookupList(l[..i], network, node).value else out
    {
      assert l[..i + 1][..i] == l[..i];
      if !l[i].valid {
        continue;
      }
      if l[i].network == network && l[i].node == node {
        result := l[i].hwaddr;
        found := true;
      }
    }
    assert l[..|l|] == l;
  }

  class AarpTable {
    /** `AARP_TABLE_BUCKETS`, whose value lives in a header that is not part of this model. */
    const bucketCount: nat
    const buckets: array<seq<AarpNode>>

    ghost predicate Valid()
      reads this, buckets
    {
      bucketCount > 0 && buckets.Length == bucketCount &&
      forall b :: 0 <= b < bucketCount ==> WellFormedBucket(buckets[b], b, bucketCount)
    }

    /** The bucket that holds a node's entries. */
    function Bucket(node: byte): (b: nat)
      requires bucketCount > 0
      ensures b < bucketCount && b == node % bucketCount
    {
      node % bucketCount
    }

    /** `aarp_new_table`: every bucket is a lone head. */
    constructor (bucketCount: nat)
      requires bucketCount > 0
      ensures Valid() && this.bucketCount == bucketCount && fresh(buckets)
      ensures buckets[..] == seq(bucketCount, _ => [Head])
    {
      this.bucketCount := bucketCount;
      buckets := new seq<AarpNode>[bucketCount](_ => [Head]);
    }

    /** `aarp_table_entry_count`. */
    method EntryCount() returns (count: nat)
      requires Valid()
      ensures count == TotalCount(buckets[..])
    {
      count := 0;
      for i := 0 to bucketCount
        invariant count == TotalCount(buckets[..i])
      {
        assert buckets[..i + 1][..i] == buckets[..i];
        var c := CountListEntries(buckets[i]);
        count := count + c;
      }
      assert buckets[..bucketCount] == buckets[..];
    }

    /** `aarp_touch_unguarded`: only the node's bucket changes. */
    method Touch(network: u16, node: byte, hw: EthAddr, now: int)
      requires Valid()
      modifies buckets
      ensures Valid()
      ensures buckets[..] == old(buckets[..])[Bucket(node) := TouchList(old(buckets[Bucket(node)]), network, node, hw, now)]
    {
      var b := node % bucketCount;
      var l := TouchInList(buckets[b], network, node, hw, now);
      TouchListWellFormed(buckets[b], b, bucketCount, network, node, hw, now);
      buckets[b] := l;
    }

    /** `aarp_lookup_unguarded`. */
    method Lookup(network: u16, node: byte, out: EthAddr) returns (found: bool, result: EthAddr)
      requires Valid()
      ensures found <==> LookupList(buckets[Bucket(node)], network, node).Some?
      ensures result == if found then LookupList(buckets[Bucket(node)], network, node).value else out
    {
      found, result := LookupInList(buckets[node % bucketCount], network, node, out);
    }
  }

  // ---------------------------------------------------------------------------
  // Properties of one bucket

  lemma {:induction false} CountValidSnoc(l: seq<AarpNode>, n: AarpNode)
    ensures CountValid(l + [n]) == CountValid(l) + (if n.valid then 1 else 0)
  {
    assert (l + [n])[..|l|] == l;
  }

  lemma {:induction false} CountValidSameFlags(a: seq<AarpNode>, b: seq<AarpNode>)
    requires |a| == |b| && forall k :: 0 <= k < |a| ==> a[k].valid == b[k].valid
    ensures CountValid(a) == CountValid(b)
    decreases |a|
  {
    if |a| > 0 {
      CountValidSameFlags(a[..|a| - 1], b[..|b| - 1]);
    }
  }

  lemma {:induction false} CountValidPositive(l: seq<AarpNode>, k: nat)
    requires k < |l| && l[k].valid
    ensures CountValid(l) > 0
    decreases |l|
  {
    if k < |l| - 1 {
      CountValidPositive(l[..|l| - 1], k);
    }
  }

  /** Touch adds one entry for an unseen address and keeps the count for a known one. */
  lemma TouchListCount(l: seq<AarpNode>, network: u16, node: byte, hw: EthAddr, now: int)
    ensures CountValid(TouchList(l, network, node, hw, now)) == CountValid(l) + (if HasEntry(l, network, node) then 0 else 1)
  {
    if HasEntry(l, network, node) {
      CountValidSameFlags(l, Refresh(l, network, node, hw, now));
    } else {
      CountValidSnoc(l, AarpNode(true, network, node, hw, now));
    }
  }

  lemma {:induction false} LookupListNoneIff(l: seq<AarpNode>, network: u16, node: byte)
    ensures LookupList(l, network, node).None? <==> !HasEntry(l, network, node)
    decreases |l|
  {
    if |l| > 0 {
      var init := l[..|l| - 1];
      LookupListNoneIff(init, network, node);
      if HasEntry(l, network, node) && !Matches(l[|l| - 1], network, node) {
        var k :| 0 <= k < |l| && Matches(l[k], network, node);
        assert init[k] == l[k];
      }
      if HasEntry(init, network, node) {
        var k :| 0 <= k < |init| && Matches(init[k], network, node);
        assert l[k] == init[k];
      }
    }
  }

  /** A lookup finds an address exactly when the list holds a valid node for it. */
  lemma LookupFindsExactlyPresent(l: seq<AarpNode>, network: u16, node: byte)
    ensures LookupList(l, network, node).Some? <==> HasEntry(l, network, node)
  {
    LookupListNoneIff(l, network, node);
  }

  lemma {:induction false} LookupRefreshed(l: seq<AarpNode>, network: u16, node: byte, hw: EthAddr, now: int)
    requires HasEntry(l, network, node)
    ensures LookupList(Refresh(l, network, node, hw, now), network, node) == Some(hw)
    decreases |l|
  {
    var r := Refresh(l, network, node, hw, now);
    var init := l[..|l| - 1];
    if !Matches(l[|l| - 1], network, node) {
      var k :| 0 <= k < |l| && Matches(l[k], network, node);
      assert init[k] == l[k];
      LookupRefreshed(init, network, node, hw, now);
      assert r[..|r| - 1] == Refresh(init, network, node, hw, now);
    }
  }

  /** After touching an address, looking it up yields the hardware address just given. */
  lemma TouchThenLookup(l: seq<AarpNode>, network: u16, node: byte, hw: EthAddr, now: int)
    ensures LookupList(TouchList(l, network, node, hw, now), network, node) == Some(hw)
  {
    if HasEntry(l, network, node) {
      LookupRefreshed(l, network, node, hw, now);
    }
  }

  lemma {:induction false} LookupRefreshedOther(l: seq<AarpNode>, network: u16, node: byte, hw: EthAddr, now: int, network': u16, node': byte)
    requires network != network' || node != node'
    ensures LookupList(Refresh(l, network, node, hw, now), network', node') == LookupList(l, network', node')
    decreases |l|
  {
    if |l| > 0 {
      var r := Refresh(l, network, node, hw, now);
      LookupRefreshedOther(l[..|l| - 1], network, node, hw, now, network', node');
      assert r[..|r| - 1] == Refresh(l[..|l| - 1], network, node, hw, now);
    }
  }

  /** Touching one address leaves every other address's lookup as it was. */
  lemma TouchLeavesOthers(l: seq<AarpNode>, network: u16, node: byte, hw: EthAddr, now: int, network': u16, node': byte)
    requires network != network' || node != node'
    ensures LookupList(TouchList(l, network, node, hw, now), network', node') == LookupList(l, network', node')
  {
    if HasEntry(l, network, node) {
      LookupRefreshedOther(l, network, node, hw, now, network', node');
    } else {
      var n := AarpNode(true, network, node, hw, now);
      assert (l + [n])[..|l|] == l;
    }
  }

  /** Touch keeps a well-formed bucket well formed: the head stays first and invalid, each address appears once. */
  lemma TouchListWellFormed(l: seq<AarpNode>, b: nat, bucketCount: nat, network: u16, node: byte, hw: EthAddr, now: int)
    requires bucketCount > 0 && WellFormedBucket(l, b, bucketCount) && node % bucketCount == b
    ensures WellFormedBucket(TouchList(l, network, node, hw, now), b, bucketCount)
  {
    var t := TouchList(l, network, node, hw, now);
    if HasEntry(l, network, node) {
      assert forall k :: 0 <= k < |l| ==> t[k].valid == l[k].valid && t[k].network == l[k].network && t[k].node == l[k].node;
    } else {
      forall i, j | 0 <= i < j < |t| && t[i].valid && t[j].valid
        ensures t[i].network != t[j].network || t[i].node != t[j].node
      {
        if j == |l| {
          assert !Matches(l[i], network, node);
        }
      }
    }
  }

  // ---------------------------------------------------------------------------
  // Properties of the whole table

  lemma {:induction false} TotalCountUpdate(bs: seq<seq<AarpNode>>, b: nat, x: seq<AarpNode>)
    requires b < |bs|
    ensures TotalCount(bs[b := x]) + CountValid(bs[b]) == TotalCount(bs) + CountValid(x)
    decreases |bs|
  {
    var u := bs[b := x];
    if b < |bs| - 1 {
      TotalCountUpdate(bs[..|bs| - 1], b, x);
      assert u[..|u| - 1] == bs[..|bs| - 1][b := x];
    } else {
      assert u[..|u| - 1] == bs[..|bs| - 1];
    }
  }

  /** Touching the table raises the entry count by one for an unseen address, and keeps it otherwise. */
  lemma TableTouchCount(bs: seq<seq<AarpNode>>, b: nat, network: u16, node: byte, hw: EthAddr, now: int)
    requires b < |bs|
    ensures TotalCount(bs[b := TouchList(bs[b], network, node, hw, now)]) ==
      TotalCount(bs) + (if HasEntry(bs[b], network, node) then 0 else 1)
  {
    TotalCountUpdate(bs, b, TouchList(bs[b], network, node, hw, now));
    TouchListCount(bs[b], network, node, hw, now);
  }

  /** A table of lone heads counts no entries. */
  lemma {:induction false} EmptyTableCount(n: nat)
    ensures TotalCount(seq(n, _ => [Head])) == 0
  {
    if n > 0 {
      assert CountValid([Head]) == 0 by { assert [Head][..0] == []; }
      assert seq(n, _ => [Head])[..n - 1] == seq(n - 1, _ => [Head]);
      EmptyTableCount(n - 1);
    }
  }

  /** With at least three buckets, nodes 1, 2 and 3 go to three different buckets, each then counting an entry. */
  lemma SmallNodesSpread(bucketCount: nat, network: u16, hw: EthAddr, now: int)
    requires bucketCount >= 3
    ensures 1 % bucketCount != 2 % bucketCount && 2 % bucketCount != 3 % bucketCount && 1 % bucketCount != 3 % bucketCount
    ensures forall l: seq<AarpNode>, d: byte :: CountValid(TouchList(l, network, d, hw, now)) > 0
  {
    forall l: seq<AarpNode>, d: byte
      ensures CountValid(TouchList(l, network, d, hw, now)) > 0
    {
      var t := TouchList(l, network, d, hw, now);
      TouchThenLookup(l, network, d, hw, now);
      LookupFindsExactlyPresent(t, network, d);
      var k :| 0 <= k < |t| && Matches(t[k], network, d);
      CountValidPositive(t, k);
    }
  }
}
