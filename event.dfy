/** An event: a bounded list of callbacks, fired in the order they were added. */
module Event {
  /** `EVENT_MAX_CALLBACKS`. */
  const MaxCallbacks: nat := 5

  /**
   * The effect of calling `calls` in order on a parameter, where `apply` is what one callback
   * does to what the parameter points at.
   */
  function FoldCalls<P, C>(apply: (P, C) -> P, param: P, calls: seq<C>): P
    decreases |calls|
  {
    if |calls| == 0 then param else FoldCalls(apply, apply(param, calls[0]), calls[1..])
  }

  /** Running one more callback after a sequence of them. */
  lemma {:induction false} FoldCallsSnoc<P, C>(apply: (P, C) -> P, param: P, calls: seq<C>, c: C)
    ensures FoldCalls(apply, param, calls + [c]) == apply(FoldCalls(apply, param, calls), c)
    decreases |calls|
  {
    if |calls| > 0 {
      assert (calls + [c])[1..] == calls[1..] + [c];
      FoldCallsSnoc(apply, apply(param, calls[0]), calls[1..], c);
    } else {
      assert (calls + [c])[1..] == [];
    }
  }

  class Event<C(0)> {
    var callbackCount: int
    const callbacks: array<C>

    ghost predicate Valid()
      reads this
    {
      callbacks.Length == MaxCallbacks && 0 <= callbackCount <= MaxCallbacks
    }

    /** The callbacks added so far, in order. */
    function Registered(): seq<C>
      reads this, callbacks
      requires Valid()
    {
      callbacks[..callbackCount]
    }

    /** A zero-initialised event. */
    constructor ()
      ensures Valid() && Registered() == [] && fresh(callbacks)
    {
      callbackCount := 0;
      callbacks := new C[MaxCallbacks];
    }

    /** `event_add_callback`: refused once the list is full, and then nothing changes. */
    method AddCallback(callback: C) returns (added: bool)
      requires Valid()
      modifies this, callbacks
      ensures Valid()
      ensures added <==> |old(Registered())| < MaxCallbacks
      ensures Registered() == if added then old(Registered()) + [callback] else old(Registered())
    {
      if callbackCount == MaxCallbacks {
        return false;
      }
      callbacks[callbackCount] := callback;
      callbackCount := callbackCount + 1;
      return true;
    }

    /** `event_fire`: every callback added, once each, in the order they were added. */
    method Fire<P>(param: P, apply: (P, C) -> P) returns (result: P)
      requires Valid()
      ensures result == FoldCalls(apply, param, Registered())
    {
      result := param;
      for i := 0 to callbackCount
        invariant result == FoldCalls(apply, param, callbacks[..i])
      {
        assert callbacks[..i + 1] == callbacks[..i] + [callbacks[i]];
        FoldCallsSnoc(apply, param, callbacks[..i], callbacks[i]);
        result := apply(result, callbacks[i]);
      }
    }
  }

  /** The first test: a fresh event takes exactly five callbacks. */
  method FillFreshEvent() returns (outcomes: seq<bool>)
    ensures outcomes == [true, true, true, true, true, false]
  {
    var e := new Event<int>();
    outcomes := [];
    for i := 0 to MaxCallbacks + 1
      invariant e.Valid() && |e.Registered()| == (if i <= MaxCallbacks then i else MaxCallbacks)
      invariant outcomes == seq(i, k => k < MaxCallbacks)
    {
      var ok := e.AddCallback(1);
      outcomes := outcomes + [ok];
    }
  }

  /** The second test: callbacks that set bits 1, 2, 4 and 8 of the parameter, fired on 0, leave 15. */
  method FireFourBits() returns (result: bv32)
    ensures result == 15
  {
    var e := new Event<bv32>();
    var _ := e.AddCallback(1);
    var _ := e.AddCallback(2);
    var _ := e.AddCallback(4);
    var _ := e.AddCallback(8);
    var s: seq<bv32> := [1, 2, 4, 8];
    assert e.Registered() == s;
    var setBits := (p: bv32, c: bv32) => p | c;
    assert s[1..][1..][1..][1..] == [];
    assert FoldCalls(setBits, 0, s) == 15;
    result := e.Fire(0, setBits);
  }
}
