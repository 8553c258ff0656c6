/**
 Taking in along references, cycles included: who is in at first, and who takes in whom.
 */
module Closure {
  /** An edge (x, y) says that x takes in whatever y does. */
  datatype Graph = Graph(base: set<string>, edges: set<(string, string)>)

  /** In the base, or an edge away from what is in within a round less. */
  ghost predicate Within(g: Graph, x: string, rounds: nat)
    decreases rounds
  {
    x in g.base || (rounds > 0 && exists next | (x, next) in g.edges :: Within(g, next, rounds - 1))
  }

  ghost predicate TakenIn(g: Graph, x: string) {
    exists rounds: nat :: Within(g, x, rounds)
  }

  lemma {:induction false} WithinLater(g: Graph, x: string, rounds: nat, later: nat)
    requires Within(g, x, rounds) && rounds <= later
    ensures Within(g, x, later)
    decreases rounds
  {
    if x in g.base {
    } else {
      var next :| (x, next) in g.edges && Within(g, next, rounds - 1);
      WithinLater(g, next, rounds - 1, later - 1);
    }
  }

  lemma {:induction false} WithinLarger(g: Graph, h: Graph, x: string, rounds: nat)
    requires g.base <= h.base && g.edges <= h.edges && Within(g, x, rounds)
    ensures Within(h, x, rounds)
    decreases rounds
  {
    if x in g.base {
    } else {
      var next :| (x, next) in g.edges && Within(g, next, rounds - 1);
      WithinLarger(g, h, next, rounds - 1);
    }
  }

  lemma LargerTakesIn(g: Graph, h: Graph, x: string)
    requires g.base <= h.base && g.edges <= h.edges && TakenIn(g, x)
    ensures TakenIn(h, x)
  {
    var rounds: nat :| Within(g, x, rounds);
    WithinLarger(g, h, x, rounds);
  }

  lemma EdgeTakesIn(g: Graph, x: string, next: string)
    requires (x, next) in g.edges && TakenIn(g, next)
    ensures TakenIn(g, x)
  {
    var rounds: nat :| Within(g, next, rounds);
    assert Within(g, x, rounds + 1);
  }

  // ----- the least closed set -----

  ghost predicate Closed(g: Graph, P: set<string>) {
    g.base <= P && forall x, y | (x, y) in g.edges && y in P :: x in P
  }

  /** The graph is about these nodes: an edge may lead out of them, to where there is nothing. */
  ghost predicate On(g: Graph, nodes: set<string>) {
    g.base <= nodes && forall x, y | (x, y) in g.edges :: x in nodes
  }

  lemma {:induction false} WithinClosed(g: Graph, P: set<string>, x: string, rounds: nat)
    requires Closed(g, P) && Within(g, x, rounds)
    ensures x in P
    decreases rounds
  {
    if x in g.base {
    } else {
      var next :| (x, next) in g.edges && Within(g, next, rounds - 1);
      WithinClosed(g, P, next, rounds - 1);
    }
  }

  /** What is taken in is the least set that holds the base and is closed under the edges. */
  lemma IsLeastClosed(g: Graph, nodes: set<string>, P: set<string>)
    requires On(g, nodes)
    ensures var held := set x | x in nodes && TakenIn(g, x); Closed(g, held) && (Closed(g, P) ==> held <= P)
  {
    var held := set x | x in nodes && TakenIn(g, x);
    forall x | x in g.base
      ensures x in held
    {
      assert Within(g, x, 0);
    }
    forall x, y | (x, y) in g.edges && y in held
      ensures x in held
    {
      EdgeTakesIn(g, x, y);
    }
    if Closed(g, P) {
      forall x | x in held
        ensures x in P
      {
        var rounds: nat :| Within(g, x, rounds);
        WithinClosed(g, P, x, rounds);
      }
    }
  }

  // ----- paths -----

  /** A path of at most so many steps. */
  ghost predicate Leads(edges: set<(string, string)>, from: string, to: string, steps: nat)
    decreases steps
  {
    from == to || (steps > 0 && exists next | (from, next) in edges :: Leads(edges, next, to, steps - 1))
  }

  lemma {:induction false} PathTakesIn(g: Graph, from: string, to: string, steps: nat)
    requires Leads(g.edges, from, to, steps) && TakenIn(g, to)
    ensures TakenIn(g, from)
    decreases steps
  {
    if from == to {
    } else {
      var next :| (from, next) in g.edges && Leads(g.edges, next, to, steps - 1);
      PathTakesIn(g, next, to, steps - 1);
      EdgeTakesIn(g, from, next);
    }
  }

  lemma {:induction false} PathOf(g: Graph, from: string, rounds: nat) returns (to: string)
    requires Within(g, from, rounds)
    ensures Leads(g.edges, from, to, rounds) && to in g.base
    decreases rounds
  {
    if from in g.base {
      to := from;
    } else {
      var next :| (from, next) in g.edges && Within(g, next, rounds - 1);
      to := PathOf(g, next, rounds - 1);
    }
  }

  lemma PathsExactly(g: Graph, x: string)
    ensures TakenIn(g, x) <==> exists to: string, steps: nat :: Leads(g.edges, x, to, steps) && to in g.base
  {
    if rounds: nat :| Within(g, x, rounds) {
      var to := PathOf(g, x, rounds);
      assert Leads(g.edges, x, to, rounds) && to in g.base;
    }
    if to: string, steps: nat :| Leads(g.edges, x, to, steps) && to in g.base {
      assert Within(g, to, 0);
      PathTakesIn(g, x, to, steps);
    }
  }

  lemma {:induction false} LeadsAlongMore(edges: set<(string, string)>, more: set<(string, string)>, from: string,
                                          to: string, steps: nat)
    requires edges <= more && Leads(edges, from, to, steps)
    ensures Leads(more, from, to, steps)
    decreases steps
  {
    if from == to {
    } else {
      var next :| (from, next) in edges && Leads(edges, next, to, steps - 1);
      LeadsAlongMore(edges, more, next, to, steps - 1);
    }
  }

  // ----- leaving one node out -----

  function Without(g: Graph, at: string): Graph {
    Graph(g.base - {at}, set e | e in g.edges && e.0 != at)
  }

  lemma WithoutTakesInLess(g: Graph, at: string, x: string)
    requires TakenIn(Without(g, at), x)
    ensures TakenIn(g, x)
  {
    LargerTakesIn(Without(g, at), g, x);
  }

  /** What is taken in is so without one node, or through it. */
  lemma {:induction false} WithoutOrThrough(g: Graph, at: string, x: string, rounds: nat)
    requires Within(g, x, rounds)
    ensures Within(Without(g, at), x, rounds) || (Within(g, at, rounds) && Leads(g.edges, x, at, rounds))
    decreases rounds
  {
    if x in g.base || x == at {
    } else {
      var next :| (x, next) in g.edges && Within(g, next, rounds - 1);
      WithoutOrThrough(g, at, next, rounds - 1);
      if Within(g, at, rounds - 1) {
        WithinLater(g, at, rounds - 1, rounds);
      }
      assert (x, next) in Without(g, at).edges;
    }
  }

  /** A node that is taken in by an edge is so by one whose end needs no coming back. */
  lemma {:induction false} NoComingBack(g: Graph, x: string, rounds: nat) returns (next: string, fewer: nat)
    requires Within(g, x, rounds) && x !in g.base
    ensures (x, next) in g.edges && fewer < rounds && Within(Without(g, x), next, fewer)
    decreases rounds
  {
    fewer := rounds - 1;
    next :| (x, next) in g.edges && Within(g, next, fewer);
    WithoutOrThrough(g, x, next, fewer);
    if !Within(Without(g, x), next, fewer) {
      next, fewer := NoComingBack(g, x, fewer);
    }
  }

  lemma NoComingBackExactly(g: Graph, x: string)
    ensures TakenIn(g, x) <==> x in g.base || exists next | (x, next) in g.edges :: TakenIn(Without(g, x), next)
  {
    if x in g.base {
      assert Within(g, x, 0);
    } else {
      if rounds: nat :| Within(g, x, rounds) {
        var next, fewer := NoComingBack(g, x, rounds);
        assert TakenIn(Without(g, x), next);
      }
      if next :| (x, next) in g.edges && TakenIn(Without(g, x), next) {
        WithoutTakesInLess(g, x, next);
        EdgeTakesIn(g, x, next);
      }
    }
  }

  /** Cycles or not, everything is taken in after as many rounds as there are nodes. */
  lemma {:induction false} Saturates(g: Graph, nodes: set<string>, x: string)
    requires On(g, nodes) && TakenIn(g, x)
    ensures x in nodes && Within(g, x, |nodes|)
    decreases |nodes|
  {
    NoComingBackExactly(g, x);
    if x in g.base {
    } else {
      var next :| (x, next) in g.edges && TakenIn(Without(g, x), next);
      Saturates(Without(g, x), nodes - {x}, next);
      WithinLarger(Without(g, x), g, next, |nodes| - 1);
    }
  }

  // ----- fewer edges -----

  /** A node outside the base with an edge that h has and g has not, whose end h takes in without coming back. */
  ghost predicate Gap(g: Graph, h: Graph, to: string) {
    to !in h.base && exists next | (to, next) in h.edges && (to, next) !in g.edges :: TakenIn(Without(h, to), next)
  }

  lemma {:induction false} WithinOrGap(g: Graph, h: Graph, x: string, rounds: nat)
    requires g.base == h.base && Within(h, x, rounds)
    ensures TakenIn(g, x) || exists to: string, steps: nat :: Leads(g.edges, x, to, steps) && Gap(g, h, to)
    decreases rounds
  {
    if x in h.base {
      assert Within(g, x, 0);
    } else {
      var next, fewer := NoComingBack(h, x, rounds);
      if (x, next) in g.edges {
        WithinLarger(Without(h, x), h, next, fewer);
        WithinOrGap(g, h, next, fewer);
        if TakenIn(g, next) {
          EdgeTakesIn(g, x, next);
        } else {
          var to: string, steps: nat :| Leads(g.edges, next, to, steps) && Gap(g, h, to);
          assert Leads(g.edges, x, to, steps + 1);
        }
      } else {
        assert TakenIn(Without(h, x), next);
        assert Leads(g.edges, x, x, 0) && Gap(g, h, x);
      }
    }
  }

  /** With fewer edges, what is left of what h takes in is what g does, and what g's edges lead to a gap from. */
  lemma FewerEdgesExactly(g: Graph, h: Graph, x: string)
    requires g.base == h.base && g.edges <= h.edges
    ensures TakenIn(h, x) <==>
            TakenIn(g, x) || exists to: string, steps: nat :: Leads(g.edges, x, to, steps) && Gap(g, h, to)
  {
    if rounds: nat :| Within(h, x, rounds) {
      WithinOrGap(g, h, x, rounds);
    }
    if TakenIn(g, x) {
      LargerTakesIn(g, h, x);
    }
    if to: string, steps: nat :| Leads(g.edges, x, to, steps) && Gap(g, h, to) {
      NoComingBackExactly(h, to);
      LeadsAlongMore(g.edges, h.edges, x, to, steps);
      PathTakesIn(h, x, to, steps);
    }
  }

  // ----- changing one node -----

  lemma {:induction false} WithinElsewhere(g: Graph, h: Graph, at: string, x: string, rounds: nat)
    requires Without(g, at) == Without(h, at) && Within(g, x, rounds)
    requires TakenIn(g, at) ==> TakenIn(h, at)
    ensures TakenIn(h, x)
    decreases rounds
  {
    if x == at {
    } else if x in g.base {
      assert x in Without(g, at).base;
      assert Within(h, x, 0);
    } else {
      var next :| (x, next) in g.edges && Within(g, next, rounds - 1);
      assert (x, next) in Without(g, at).edges;
      WithinElsewhere(g, h, at, next, rounds - 1);
      EdgeTakesIn(h, x, next);
    }
  }

  /** A change at one node changes nothing anywhere exactly when it changes nothing there. */
  lemma ElsewhereExactly(g: Graph, h: Graph, at: string)
    requires Without(g, at) == Without(h, at)
    ensures (forall x :: TakenIn(g, x) <==> TakenIn(h, x)) <==> (TakenIn(g, at) <==> TakenIn(h, at))
  {
    if TakenIn(g, at) <==> TakenIn(h, at) {
      forall x
        ensures TakenIn(g, x) <==> TakenIn(h, x)
      {
        if rounds: nat :| Within(g, x, rounds) {
          WithinElsewhere(g, h, at, x, rounds);
        }
        if rounds: nat :| Within(h, x, rounds) {
          WithinElsewhere(h, g, at, x, rounds);
        }
      }
    }
  }

  lemma {:induction false} LeadsElsewhere(g: Graph, h: Graph, at: string, x: string, steps: nat)
    requires Without(g, at) == Without(h, at) && Leads(g.edges, x, at, steps)
    ensures Leads(h.edges, x, at, steps)
    decreases steps
  {
    if x == at {
    } else {
      var next :| (x, next) in g.edges && Leads(g.edges, next, at, steps - 1);
      assert (x, next) in Without(g, at).edges;
      LeadsElsewhere(g, h, at, next, steps - 1);
    }
  }

  /** What is no longer taken in after a change at one node leads to that node. */
  lemma LossLeadsThere(g: Graph, h: Graph, at: string, x: string)
    requires Without(g, at) == Without(h, at) && TakenIn(g, x) && !TakenIn(h, x)
    ensures exists steps: nat :: Leads(g.edges, x, at, steps) && Leads(h.edges, x, at, steps)
  {
    var rounds: nat :| Within(g, x, rounds);
    WithoutOrThrough(g, at, x, rounds);
    if Within(Without(h, at), x, rounds) {
      WithoutTakesInLess(h, at, x);
    }
    LeadsElsewhere(g, h, at, x, rounds);
  }
}
