/**
 * The ZIP table's list of network ranges: a linked list behind a dummy root node, kept in order
 * of start network, each range added at most once.
 */
module ZipTable {
  import opened Bytes

  /** A network range and the zones learned for it; `zones` are the nodes after the embedded dummy zone root. */
  datatype NetNode = NetNode(dummy: bool, netStart: u16, netEnd: u16, zoneCount: int,
                             expectedZoneCount: int, complete: bool, zones: seq<pstring>)

  const Root: NetNode := NetNode(true, 0, 0, 0, 0, false, [])

  /** A freshly allocated range node: zero-filled apart from the range. */
  function NewNet(netStart: u16, netEnd: u16): (n: NetNode)
    ensures !n.dummy && n.netStart == netStart && n.netEnd == netEnd
    ensures n.zones == [] && n.zoneCount == 0 && n.expectedZoneCount == 0 && !n.complete
  {
    NetNode(false, netStart, netEnd, 0, 0, false, [])
  }

  predicate SameRange(n: NetNode, netStart: u16, netEnd: u16) {
    n.netStart == netStart && n.netEnd == netEnd
  }

  datatype AddResult = AddResult(added: bool, nets: seq<NetNode>)

  /** The walk of `zt_add_net_range_unguarded`: stop at the same range, or insert before the first larger start. */
  function AddRange(es: seq<NetNode>, netStart: u16, netEnd: u16): AddResult {
    if |es| == 0 then AddResult(true, [NewNet(netStart, netEnd)])
    else if SameRange(es[0], netStart, netEnd) then AddResult(false, es)
    else if es[0].netStart > netStart then AddResult(true, [NewNet(netStart, netEnd)] + es)
    else
      var r := AddRange(es[1..], netStart, netEnd);
      AddResult(r.added, [es[0]] + r.nets)
  }

  predicate NoDummies(es: seq<NetNode>) {
    forall k :: 0 <= k < |es| ==> !es[k].dummy
  }

  class ZipTable {
    var list: seq<NetNode>

    ghost predicate Valid()
      reads this
    {
      |list| >= 1 && list[0] == Root && NoDummies(list[1..])
    }

    /** The range nodes behind the root. */
    function Networks(): seq<NetNode>
      reads this
      requires Valid()
    {
      list[1..]
    }

    /** `zt_new`. */
    constructor ()
      ensures Valid() && Networks() == []
    {
      list := [Root];
    }

    /** `zt_count_net_ranges` as written: the walk starts at the root, so the root is counted too. */
    method CountNetRanges() returns (count: nat)
      requires Valid()
      ensures count == |Networks()| + 1
    {
      count := 0;
      for i := 0 to |list|
        invariant count == i
      {
        count := count + 1;
      }
    }

    /** The count the tests expect: only the nodes that are not dummies. */
    method CountNetRangesSkippingRoot() returns (count: nat)
      requires Valid()
      ensures count == |Networks()|
    {
      count := 0;
      for i := 0 to |list|
        invariant count == i - (if i == 0 then 0 else 1)
      {
        if !list[i].dummy {
          count := count + 1;
        }
      }
    }

    /** `zt_add_net_range_unguarded`. */
    method AddNetRange(netStart: u16, netEnd: u16) returns (added: bool)
      requires Valid()
      modifies this
      ensures Valid() && AddResult(added, Networks()) == AddRange(old(Networks()), netStart, netEnd)
    {
      var es := list[1..];
      var i := 0;
      while i < |es|
        invariant i <= |es| && Passed(es, i, netStart, netEnd)
        decreases |es| - i
      {
        if es[i].netStart == netStart && es[i].netEnd == netEnd {
          AddRangeFindsSame(es, i, netStart, netEnd);
          return false;
        }
        if es[i].netStart > netStart {
          break;
        }
        i := i + 1;
      }
      AddRangeInsertsAt(es, i, netStart, netEnd);
      var rest := es[..i] + [NewNet(netStart, netEnd)] + es[i..];
      AddRangeNoDummies(es, netStart, netEnd);
      list := [Root] + rest;
      assert list[1..] == rest;
      return true;
    }
  }

  /** The walk has gone past the first `i` ranges: none the same, none starting later. */
  predicate Passed(es: seq<NetNode>, i: nat, netStart: u16, netEnd: u16)
    requires i <= |es|
  {
    forall k :: 0 <= k < i ==> !SameRange(es[k], netStart, netEnd) && es[k].netStart <= netStart
  }

  /** Meeting the same range stops the walk with nothing added. */
  lemma {:induction false} AddRangeFindsSame(es: seq<NetNode>, i: nat, netStart: u16, netEnd: u16)
    requires i < |es| && Passed(es, i, netStart, netEnd) && SameRange(es[i], netStart, netEnd)
    ensures AddRange(es, netStart, netEnd) == AddResult(false, es)
    decreases i
  {
    if i > 0 {
      AddRangeFindsSame(es[1..], i - 1, netStart, netEnd);
      assert [es[0]] + es[1..] == es;
    }
  }

  /** A walk that ends, or stops before a larger start, inserts the new range there. */
  lemma {:induction false} AddRangeInsertsAt(es: seq<NetNode>, i: nat, netStart: u16, netEnd: u16)
    requires i <= |es| && Passed(es, i, netStart, netEnd)
    requires i < |es| ==> !SameRange(es[i], netStart, netEnd) && es[i].netStart > netStart
    ensures AddRange(es, netStart, netEnd) == AddResult(true, es[..i] + [NewNet(netStart, netEnd)] + es[i..])
    decreases i
  {
    if i > 0 {
      var tl := es[1..];
      assert Passed(tl, i - 1, netStart, netEnd) by {
        forall k | 0 <= k < i - 1
          ensures !SameRange(tl[k], netStart, netEnd) && tl[k].netStart <= netStart
        {
          assert tl[k] == es[k + 1];
        }
      }
      assert !SameRange(es[0], netStart, netEnd) && es[0].netStart <= netStart;
      AddRangeInsertsAt(tl, i - 1, netStart, netEnd);
      var n := [NewNet(netStart, netEnd)];
      assert AddRange(es, netStart, netEnd).nets == [es[0]] + (tl[..i - 1] + n + tl[i - 1..]);
      assert es[..i] == [es[0]] + tl[..i - 1];
      assert es[i..] == tl[i - 1..];
    } else {
      assert es[..0] == [] && es[0..] == es;
    }
  }

  /** A fresh table already counts one range: the root. */
  method CountOfNewTable() returns (count: nat)
    ensures count == 1
  {
    var t := new ZipTable();
    count := t.CountNetRanges();
  }

  /** The corrected count of a fresh table is zero. */
  method CorrectedCountOfNewTable() returns (count: nat)
    ensures count == 0
  {
    var t := new ZipTable();
    count := t.CountNetRangesSkippingRoot();
  }

  lemma {:induction false} AddRangeNoDummies(es: seq<NetNode>, netStart: u16, netEnd: u16)
    requires NoDummies(es)
    ensures NoDummies(AddRange(es, netStart, netEnd).nets)
  {
    if |es| > 0 && !SameRange(es[0], netStart, netEnd) && es[0].netStart <= netStart {
      AddRangeNoDummies(es[1..], netStart, netEnd);
    }
  }

  predicate SortedByStart(es: seq<NetNode>) {
    forall i, j :: 0 <= i < j < |es| ==> es[i].netStart <= es[j].netStart
  }

  predicate StartsFrom(es: seq<NetNode>, b: int) {
    forall k :: 0 <= k < |es| ==> es[k].netStart >= b
  }

  lemma {:induction false} AddRangeStartsFrom(es: seq<NetNode>, netStart: u16, netEnd: u16, b: int)
    requires StartsFrom(es, b) && netStart >= b
    ensures StartsFrom(AddRange(es, netStart, netEnd).nets, b)
  {
    if |es| > 0 && !SameRange(es[0], netStart, netEnd) && es[0].netStart <= netStart {
      AddRangeStartsFrom(es[1..], netStart, netEnd, b);
    }
  }

  /** Adding a range keeps the list in order of start network. */
  lemma {:induction false} AddRangeSorted(es: seq<NetNode>, netStart: u16, netEnd: u16)
    requires SortedByStart(es)
    ensures SortedByStart(AddRange(es, netStart, netEnd).nets)
  {
    if |es| > 0 && !SameRange(es[0], netStart, netEnd) && es[0].netStart <= netStart {
      AddRangeSorted(es[1..], netStart, netEnd);
      AddRangeStartsFrom(es[1..], netStart, netEnd, es[0].netStart);
    }
  }

  predicate HasRange(es: seq<NetNode>, netStart: u16, netEnd: u16) {
    exists k :: 0 <= k < |es| && SameRange(es[k], netStart, netEnd)
  }

  /** A refusal changes nothing and names a range already present; an addition adds one node holding the new range. */
  lemma {:induction false} AddRangeShape(es: seq<NetNode>, netStart: u16, netEnd: u16)
    ensures !AddRange(es, netStart, netEnd).added ==> AddRange(es, netStart, netEnd).nets == es && HasRange(es, netStart, netEnd)
    ensures AddRange(es, netStart, netEnd).added ==>
      |AddRange(es, netStart, netEnd).nets| == |es| + 1 && NewNet(netStart, netEnd) in AddRange(es, netStart, netEnd).nets
  {
    if |es| > 0 && !SameRange(es[0], netStart, netEnd) && es[0].netStart <= netStart {
      AddRangeShape(es[1..], netStart, netEnd);
      if !AddRange(es[1..], netStart, netEnd).added {
        assert [es[0]] + es[1..] == es;
        var k :| 0 <= k < |es[1..]| && SameRange(es[1..][k], netStart, netEnd);
        assert SameRange(es[k + 1], netStart, netEnd);
      }
    } else if |es| > 0 && SameRange(es[0], netStart, netEnd) {
      assert SameRange(es[0], netStart, netEnd);
    }
  }

  /** On a sorted list a range already present is always found before the walk stops. */
  lemma {:induction false} AddRangeFindsPresent(es: seq<NetNode>, netStart: u16, netEnd: u16)
    requires SortedByStart(es) && HasRange(es, netStart, netEnd)
    ensures !AddRange(es, netStart, netEnd).added
  {
    var k :| 0 <= k < |es| && SameRange(es[k], netStart, netEnd);
    if !SameRange(es[0], netStart, netEnd) {
      assert es[0].netStart <= es[k].netStart;
      assert es[1..][k - 1] == es[k];
      AddRangeFindsPresent(es[1..], netStart, netEnd);
    }
  }

  /** On a sorted list, adding is refused exactly when the range is already present. */
  lemma AddRangeRefusedIffPresent(es: seq<NetNode>, netStart: u16, netEnd: u16)
    requires SortedByStart(es)
    ensures !AddRange(es, netStart, netEnd).added <==> HasRange(es, netStart, netEnd)
  {
    AddRangeShape(es, netStart, netEnd);
    if HasRange(es, netStart, netEnd) {
      AddRangeFindsPresent(es, netStart, netEnd);
    }
  }

  /** No range appears twice. */
  predicate UniqueRanges(es: seq<NetNode>) {
    forall i, j :: 0 <= i < j < |es| ==> !SameRange(es[i], es[j].netStart, es[j].netEnd)
  }

  lemma {:induction false} AddRangeMembers(es: seq<NetNode>, netStart: u16, netEnd: u16)
    ensures forall m :: 0 <= m < |AddRange(es, netStart, netEnd).nets| ==>
      AddRange(es, netStart, netEnd).nets[m] == NewNet(netStart, netEnd) || AddRange(es, netStart, netEnd).nets[m] in es
  {
    if |es| > 0 && !SameRange(es[0], netStart, netEnd) && es[0].netStart <= netStart {
      AddRangeMembers(es[1..], netStart, netEnd);
    }
  }

  /** On a sorted list without repeated ranges, adding a range never repeats one. */
  lemma AddRangeUnique(es: seq<NetNode>, netStart: u16, netEnd: u16)
    requires SortedByStart(es) && UniqueRanges(es)
    ensures UniqueRanges(AddRange(es, netStart, netEnd).nets)
  {
    AddRangeShape(es, netStart, netEnd);
    AddRangeRefusedIffPresent(es, netStart, netEnd);
    var r := AddRange(es, netStart, netEnd);
    if r.added {
      AddRangeUniqueWhenAbsent(es, netStart, netEnd);
    }
  }

  lemma {:induction false} AddRangeUniqueWhenAbsent(es: seq<NetNode>, netStart: u16, netEnd: u16)
    requires UniqueRanges(es) && !HasRange(es, netStart, netEnd)
    ensures UniqueRanges(AddRange(es, netStart, netEnd).nets)
  {
    if |es| == 0 {
      return;
    }
    var n := NewNet(netStart, netEnd);
    if es[0].netStart > netStart {
      var s := [n] + es;
      forall i, j | 0 <= i < j < |s|
        ensures !SameRange(s[i], s[j].netStart, s[j].netEnd)
      {
        if i == 0 {
          assert s[j] == es[j - 1];
        } else {
          assert s[i] == es[i - 1] && s[j] == es[j - 1];
        }
      }
    } else {
      assert !HasRange(es[1..], netStart, netEnd) by {
        forall k | 0 <= k < |es[1..]|
          ensures !SameRange(es[1..][k], netStart, netEnd)
        {
          assert es[1..][k] == es[k + 1];
        }
      }
      AddRangeUniqueWhenAbsent(es[1..], netStart, netEnd);
      AddRangeMembers(es[1..], netStart, netEnd);
      var t := AddRange(es[1..], netStart, netEnd).nets;
      var s := [es[0]] + t;
      forall i, j | 0 <= i < j < |s|
        ensures !SameRange(s[i], s[j].netStart, s[j].netEnd)
      {
        if i == 0 {
          assert s[j] == t[j - 1];
          if t[j - 1] != n {
            var k :| 0 <= k < |es[1..]| && es[1..][k] == t[j - 1];
            assert es[k + 1] == s[j];
          }
        } else {
          assert s[i] == t[i - 1] && s[j] == t[j - 1];
        }
      }
    }
  }

  /** The sequence of additions in the table tests, with the outcomes and sizes they expect. */
  lemma AddRangeScenario()
    ensures var t1 := AddRange([], 5, 10);
            var t2 := AddRange(t1.nets, 5, 10);
            var t3 := AddRange(t2.nets, 20, 30);
            var t4 := AddRange(t3.nets, 5, 10);
            var t5 := AddRange(t4.nets, 1, 3);
            var t6 := AddRange(t5.nets, 5, 10);
            t1.added && |t1.nets| == 1 && !t2.added && |t2.nets| == 1 &&
            t3.added && |t3.nets| == 2 && !t4.added && |t4.nets| == 2 &&
            t5.added && |t5.nets| == 3 && !t6.added && |t6.nets| == 3 &&
            [t6.nets[0].netStart, t6.nets[1].netStart, t6.nets[2].netStart] == [1, 5, 20]
  {
    var t1 := AddRange([], 5, 10);
    assert t1.nets == [NewNet(5, 10)];
    var t2 := AddRange(t1.nets, 5, 10);
    var t3 := AddRange(t2.nets, 20, 30);
    assert t3.nets == [NewNet(5, 10), NewNet(20, 30)];
    var t4 := AddRange(t3.nets, 5, 10);
    var t5 := AddRange(t4.nets, 1, 3);
    assert t5.nets == [NewNet(1, 3), NewNet(5, 10), NewNet(20, 30)];
    var t6 := AddRange(t5.nets, 5, 10);
    assert t6.nets == t5.nets;
  }
}
