/** The beaconing phase of beaconing.c: from the identifiers that it hears a node counts the group
    and its own rank in it. */
module Beaconing {
  import opened Common

  const MAGIC := 0x1701
  const BEACON_LENGTH := 6

  /** A received packet: its length and the fields that a beacon has. */
  datatype Packet = Packet(length: nat, magic: nat, id: nat)

  predicate IsBeacon(p: Packet) { p.length == BEACON_LENGTH && p.magic == MAGIC }

  ghost function Heard(ps: seq<Packet>): set<nat> { set p | p in ps && IsBeacon(p) :: p.id }

  /** What counts as heard: packets of six bytes with the key 0x1701 before the identifier. */
  lemma HeardIff(ps: seq<Packet>, id: nat)
    ensures id in Heard(ps) <==> Packet(6, 0x1701, id) in ps
  {
    if id in Heard(ps) {
      var p :| p in ps && IsBeacon(p) && p.id == id;
      assert p == Packet(6, 0x1701, id);
    } else {
      var p := Packet(6, 0x1701, id);
      assert p in ps && IsBeacon(p) ==> p.id in Heard(ps);
    }
  }

  /** How many identifiers of a set are smaller. */
  ghost function Rank(ids: set<nat>, id: nat): nat { |set x | x in ids && x < id| }

  class Node {
    const myId: nat
    var neighbors: set<nat>
    var size: nat
    var position: nat

    ghost predicate Valid()
      reads this
    {
      size == (1 + |neighbors|) % TWO16 && position == Rank(neighbors, myId) % TWO16
    }

    constructor (id: nat)
      ensures Valid() && myId == id && neighbors == {}
    {
      myId := id;
      neighbors := {};
      size := 1;
      position := 0;
      NobodyBelow(id);
    }

    /** `_handle_beacon`, with the neighbour filter as an exact set. */
    method HandleBeacon(p: Packet)
      requires Valid()
      modifies this`neighbors, this`size, this`position
      ensures Valid() && neighbors == old(neighbors) + Heard([p])
      ensures p != Packet(6, 0x1701, p.id) || p.id in old(neighbors) ==>
        neighbors == old(neighbors) && size == old(size) && position == old(position)
    {
      hide Heard, Rank;
      HeardOne(p);
      if p.length != BEACON_LENGTH || p.magic != MAGIC {
        return;
      }
      if p.id in neighbors {
        assert neighbors + {p.id} == neighbors;
      } else {
        RankGrows(neighbors, p.id, myId);
        ModAdd16(1 + |neighbors|, 1);
        ModAdd16(Rank(neighbors, myId), 1);
        neighbors := neighbors + {p.id};
        size := (size + 1) % TWO16;
        if p.id < myId {
          position := (position + 1) % TWO16;
        }
      }
    }

    /** The packets of the whole phase. */
    method Listen(ps: seq<Packet>)
      requires Valid()
      modifies this`neighbors, this`size, this`position
      ensures Valid() && neighbors == old(neighbors) + Heard(ps)
    {
      hide Heard, Rank, Valid;
      NothingHeard();
      assert ps[..0] == [];
      for i := 0 to |ps|
        invariant Valid() && neighbors == old(neighbors) + Heard(ps[..i])
      {
        HandleBeacon(ps[i]);
        HeardSteps(ps[..i], ps[i]);
        assert ps[..i + 1] == ps[..i] + [ps[i]];
      }
      assert ps[..|ps|] == ps;
    }

    /** The counters have 16 bits: a group of 2^16 nodes counts as none. */
    lemma CountsWrap()
      requires Valid()
      ensures |neighbors| + 1 < TWO16 ==> size == |neighbors| + 1
      ensures |neighbors| + 1 == TWO16 ==> size == 0
    {}

    /** A node that has heard all others of its group, in any order and any number of times, knows
        the size of the group and its rank in it. */
    lemma KnowsRank(group: set<nat>)
      requires Valid() && myId in group && neighbors == group - {myId} && |group| < TWO16
      ensures size == |group| && position == Rank(group, myId) < |group|
    {
      assert (set x | x in neighbors && x < myId) == (set x | x in group && x < myId);
      RankBelow(group, myId);
    }
  }

  lemma NobodyBelow(id: nat)
    ensures Rank({}, id) == 0
  {}

  lemma NothingHeard()
    ensures Heard([]) == {}
  {}

  lemma HeardOne(p: Packet)
    ensures Heard([p]) == if IsBeacon(p) then {p.id} else {}
  {
    assert forall q :: q in [p] <==> q == p;
  }

  lemma HeardSteps(ps: seq<Packet>, p: Packet)
    ensures Heard(ps + [p]) == Heard(ps) + Heard([p])
  {
    assert forall q :: q in ps + [p] <==> q in ps || q in [p];
  }

  lemma RankGrows(ids: set<nat>, id: nat, me: nat)
    requires id !in ids
    ensures Rank(ids + {id}, me) == Rank(ids, me) + if id < me then 1 else 0
  {
    var a := set x | x in ids && x < me;
    var b := set x | x in ids + {id} && x < me;
    assert b == if id < me then a + {id} else a;
  }

  lemma RankBelow(group: set<nat>, id: nat)
    requires id in group
    ensures Rank(group, id) < |group|
  {
    SubsetSize((set x | x in group && x < id), group - {id});
  }

  lemma RankIsMonotone(group: set<nat>, a: nat, b: nat)
    requires a in group && b in group && a < b
    ensures Rank(group, a) < Rank(group, b)
  {
    var low := set x | x in group && x < a;
    var high := set x | x in group && x < b;
    SubsetSize(low, high - {a});
  }

  ghost predicate Taken(group: set<nat>, r: nat) { exists a :: a in group && Rank(group, a) == r }

  /** The ranks of a group are 0 to n-1, each of them once, in the order of the identifiers. */
  lemma RanksAreAPermutation(group: set<nat>)
    ensures forall a, b :: a in group && b in group && Rank(group, a) == Rank(group, b) ==> a == b
    ensures forall r: nat :: r < |group| ==> Taken(group, r)
    ensures forall a, b :: a in group && b in group && a < b ==> Rank(group, a) < Rank(group, b)
  {
    forall a, b | a in group && b in group && a < b ensures Rank(group, a) < Rank(group, b) {
      RankIsMonotone(group, a, b);
    }
    forall a, b | a in group && b in group && Rank(group, a) == Rank(group, b) ensures a == b {
      if a < b {
        RankIsMonotone(group, a, b);
      } else if b < a {
        RankIsMonotone(group, b, a);
      }
    }
    forall r: nat | r < |group| ensures Taken(group, r) {
      var a := OfRank(group, r);
    }
  }

  lemma {:induction false} OfRank(group: set<nat>, r: nat) returns (a: nat)
    requires r < |group|
    ensures a in group && Rank(group, a) == r
    decreases |group|
  {
    var top := Largest(group);
    var rest := group - {top};
    if r == |group| - 1 {
      a := top;
      assert (set x | x in group && x < top) == rest;
    } else {
      a := OfRank(rest, r);
      assert a < top;
      assert (set x | x in group && x < a) == (set x | x in rest && x < a);
    }
  }

  lemma {:induction false} Largest(group: set<nat>) returns (top: nat)
    requires group != {}
    ensures top in group && forall x :: x in group ==> x <= top
    decreases |group|
  {
    var x :| x in group;
    var rest := group - {x};
    assert group == rest + {x};
    if rest == {} {
      top := x;
    } else {
      top := Largest(rest);
      if top < x {
        top := x;
      }
    }
  }
}
