/** next_id: node ids are handed out by a 32-bit counter that skips 0, FUSE_UNKNOWN_INO and ids in
    use; a generation number counts the laps. */
module NodeIds {

  const WRAP: nat := 0x1_0000_0000
  const FUSE_UNKNOWN_INO: nat := 0xffff_ffff

  predicate Usable(id: nat, live: set<nat>) {
    id != 0 && id != FUSE_UNKNOWN_INO && id !in live
  }

  /** The (nodeid, generation) pair at position `p` of the never-wrapping count. */
  function Pair(p: nat): (nat, nat) {
    (p % WRAP, p / WRAP % WRAP)
  }

  lemma StepOf(p: nat)
    ensures (p + 1) % WRAP == if p % WRAP == WRAP - 1 then 0 else p % WRAP + 1
    ensures (p + 1) / WRAP == if p % WRAP == WRAP - 1 then p / WRAP + 1 else p / WRAP
  {
  }

  /** How a pair changes from one position to the next. */
  lemma PairStep(p: nat)
    ensures Pair(p).0 < WRAP && Pair(p).1 < WRAP
    ensures var (id, gen) := Pair(p);
      Pair(p + 1) == if id == WRAP - 1 then (0, if gen == WRAP - 1 then 0 else gen + 1) else (id + 1, gen)
  {
    StepOf(p);
    StepOf(p / WRAP);
  }

  /** Positions below 2^64 have different pairs: there are 2^32 generations of ids. */
  lemma PairsDistinct(p: nat, q: nat)
    requires p < q < WRAP * WRAP
    ensures Pair(p) != Pair(q)
  {
    assert p == p / WRAP * WRAP + p % WRAP && q == q / WRAP * WRAP + q % WRAP;
    assert p / WRAP < WRAP && q / WRAP < WRAP;
  }

  /** How many steps the counter is away from id `x`. */
  function Distance(p: nat, x: nat): nat
    requires x < WRAP
  {
    (x - p % WRAP) % WRAP
  }

  lemma DistanceShrinks(p: nat, x: nat)
    requires x < WRAP && p % WRAP != x
    ensures Distance(p + 1, x) == Distance(p, x) - 1
  {
    StepOf(p);
  }

  class IdGenerator {
    var ctr: nat
    var generation: nat
    ghost var pos: nat            // the count without wrap-around
    ghost var issued: seq<nat>    // the positions handed out so far

    ghost predicate Valid()
      reads this
    {
      && (ctr, generation) == Pair(pos)
      && (forall i :: 0 <= i < |issued| ==> issued[i] <= pos)
      && (forall i, j :: 0 <= i < j < |issued| ==> issued[i] < issued[j])
    }

    constructor ()
      ensures Valid() && issued == [] && pos == 0 && ctr == 0 && generation == 0
    {
      ctr, generation, pos, issued := 0, 0, 0, [];
    }

    /** One step of the counter. */
    method Step()
      requires Valid()
      modifies this`ctr, this`generation, this`pos
      ensures (ctr, generation) == Pair(pos) && pos == old(pos) + 1
    {
      PairStep(pos);
      ctr := (ctr + 1) % WRAP;
      if ctr == 0 {
        generation := (generation + 1) % WRAP;
      }
      pos := pos + 1;
    }

    /** next_id. Ids in use never come back, the search stops at the first usable one, and until the
        generation number itself wraps no pair is handed out twice. */
    method NextId(live: set<nat>, ghost free: nat) returns (id: nat)
      requires Valid() && free < WRAP && Usable(free, live)
      modifies this
      ensures Valid() && id == ctr && Usable(id, live) && id < WRAP
      ensures pos > old(pos) && issued == old(issued) + [pos]
      ensures forall p :: old(pos) < p < pos ==> !Usable(p % WRAP, live)
      ensures pos < WRAP * WRAP ==>
        forall i :: 0 <= i < |old(issued)| ==> Pair(old(issued)[i]) != (id, generation)
    {
      Step();
      while !(ctr != 0 && ctr != FUSE_UNKNOWN_INO && ctr !in live)
        invariant Valid() && issued == old(issued) && pos > old(pos)
        invariant forall p :: old(pos) < p < pos ==> !Usable(p % WRAP, live)
        decreases Distance(pos, free)
      {
        DistanceShrinks(pos, free);
        Step();
      }
      id := ctr;
      issued := issued + [pos];
      if pos < WRAP * WRAP {
        forall i | 0 <= i < |old(issued)| ensures Pair(old(issued)[i]) != (id, generation) {
          PairsDistinct(old(issued)[i], pos);
        }
      }
    }
  }

  /** There is a free id as long as fewer than 2^32 - 2 nodes are live. */
  lemma FreeIdExists(live: set<nat>) returns (free: nat)
    requires |live| < WRAP - 2
    ensures free < WRAP && Usable(free, live)
  {
    if forall x :: 1 <= x < WRAP - 1 ==> x in live {
      AllIdsIn(live, WRAP - 2);
    }
    free :| 1 <= free < WRAP - 1 && free !in live;
  }

  lemma {:induction false} AllIdsIn(live: set<nat>, n: nat)
    requires forall x :: 1 <= x <= n ==> x in live
    ensures |live| >= n
    decreases n
  {
    if n > 0 {
      AllIdsIn(live - {n}, n - 1);
    }
  }
}
