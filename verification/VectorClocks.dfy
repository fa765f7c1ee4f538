/** The vector clocks of wallet/src/addressbook_sync.rs. */
module VectorClocks {
  import opened Arithmetic

  type Device = string

  /** A counter per device; an absent device counts as 0. */
  datatype VectorClock = VectorClock(clocks: map<Device, nat>) {
    function Get(device: Device): nat {
      if device in clocks then clocks[device] else 0
    }

    function Increment(device: Device): (r: VectorClock)
      ensures forall d :: r.Get(d) == Get(d) + if d == device then 1 else 0
    {
      VectorClock(clocks[device := Get(device) + 1])
    }

    /** Componentwise maximum. */
    function Join(other: VectorClock): (r: VectorClock)
      ensures forall d :: r.Get(d) == Max(Get(d), other.Get(d))
    {
      VectorClock(map d | d in clocks.Keys + other.clocks.Keys :: Max(Get(d), other.Get(d)))
    }

    /** Every component of `other` is at most the component here. */
    ghost predicate Dominates(other: VectorClock) {
      forall d :: other.Get(d) <= Get(d)
    }

    /** Neither clock dominates the other. */
    ghost predicate Concurrent(other: VectorClock) {
      !Dominates(other) && !other.Dominates(this)
    }
  }

  const EMPTY := VectorClock(map[])

  /** The clocks agree on every device; they may differ in which zero counters they spell out. */
  ghost predicate SameClock(c: VectorClock, c': VectorClock) {
    forall d :: c.Get(d) == c'.Get(d)
  }

  /** `Join` is the least upper bound of the domination order. */
  lemma JoinIsLeastUpperBound(c: VectorClock, c': VectorClock, upper: VectorClock)
    ensures c.Join(c').Dominates(c) && c.Join(c').Dominates(c')
    ensures upper.Dominates(c.Join(c')) <==> upper.Dominates(c) && upper.Dominates(c')
  {
    assert forall d :: c.Join(c').Get(d) == Max(c.Get(d), c'.Get(d));
    if upper.Dominates(c.Join(c')) {
      forall d
        ensures c.Get(d) <= upper.Get(d) && c'.Get(d) <= upper.Get(d)
      {
        assert c.Join(c').Get(d) <= upper.Get(d);
      }
    }
  }

  lemma JoinSelf(c: VectorClock)
    ensures c.Join(c) == c
  {
    assert c.Join(c).clocks == c.clocks;
  }

  /** A map with the entries of a join is that join's map. */
  lemma JoinByEntries(c: VectorClock, c': VectorClock, clocks: map<Device, nat>)
    requires clocks.Keys == c.clocks.Keys + c'.clocks.Keys
    requires forall d :: d in clocks ==> clocks[d] == Max(c.Get(d), c'.Get(d))
    ensures VectorClock(clocks) == c.Join(c')
  {
    assert clocks == c.Join(c').clocks;
  }

  /** The loop of `VectorClock::merge`, over the other clock's entries in any order. */
  method MergeClocks(self: VectorClock, other: VectorClock) returns (r: VectorClock)
    ensures r == self.Join(other)
  {
    var clocks := self.clocks;
    var todo := other.clocks.Keys;
    ghost var done: set<Device> := {};
    while todo != {}
      invariant done !! todo && forall d :: d in other.clocks <==> d in done || d in todo
      invariant clocks.Keys == self.clocks.Keys + done
      invariant forall d :: d in done ==> clocks[d] == Max(self.Get(d), other.Get(d))
      invariant forall d :: d in clocks && d !in done ==> clocks[d] == self.Get(d)
      decreases todo
    {
      var device :| device in todo;
      var entry := if device in clocks then clocks[device] else 0;
      assert entry == self.Get(device);
      clocks := clocks[device := Max(entry, other.clocks[device])];
      todo, done := todo - {device}, done + {device};
    }
    JoinByEntries(self, other, clocks);
    r := VectorClock(clocks);
  }

  /** The early-exit loop of `VectorClock::dominates`. */
  method CheckDominates(self: VectorClock, other: VectorClock) returns (r: bool)
    ensures r <==> self.Dominates(other)
  {
    var todo := other.clocks.Keys;
    while todo != {}
      invariant todo <= other.clocks.Keys
      invariant forall d :: d in other.clocks && d !in todo ==> other.Get(d) <= self.Get(d)
      decreases todo
    {
      var device :| device in todo;
      if self.Get(device) < other.clocks[device] {
        assert other.Get(device) == other.clocks[device];
        return false;
      }
      todo := todo - {device};
    }
    return true;
  }
}
