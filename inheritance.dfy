/**
 * Attribute resolution through the is-a graph: the breadth-first search of
 * `_get_attr_from_class_chain` as a function, the dispatch of
 * `get_effective_attr`, and the proof that the search returns the value of
 * a nearest holder of the attribute, or nothing exactly when no node
 * reachable through parent edges holds it, cycles included.
 */
module Inheritance {
  import opened Wrappers
  import opened Network

  /** The parents of the nodes in `nodes`. */
  function Step(net: Net, nodes: set<string>): set<string> {
    set n, p | n in nodes && p in ParentsOf(net, n) :: p
  }

  /** The nodes at most `k` parent edges away from `start`. */
  function Reach(net: Net, start: string, k: nat): set<string> {
    if k == 0 then {start} else Reach(net, start, k - 1) + Step(net, Reach(net, start, k - 1))
  }

  /** No node reachable from `start` holds `attr` directly. */
  ghost predicate NoReachableHolder(net: Net, start: string, attr: string) {
    forall k: nat, n :: n in Reach(net, start, k) ==> !Holds(net, n, attr)
  }

  /**
   * `n` holds `attr`, lies within `k` edges of `start`, and no node within
   * `k - 1` edges holds it: `n` is a holder at the least distance.
   */
  ghost predicate NearestHolder(net: Net, start: string, attr: string, n: string, k: nat) {
    && n in Reach(net, start, k)
    && Holds(net, n, attr)
    && (k > 0 ==> forall m :: m in Reach(net, start, k - 1) ==> !Holds(net, m, attr))
  }

  /**
   * `r` is a correct outcome of a class-chain lookup from `start`: a value
   * held by a nearest holder, or nothing exactly when the start is missing
   * or empty or no reachable node holds the attribute.
   */
  ghost predicate Resolves(net: Net, start: Option<string>, attr: string, r: Option<string>) {
    && (r.None? <==> start.None? || start.value == "" || NoReachableHolder(net, start.value, attr))
    && (r.Some? ==>
          && start.Some?
          && exists n, k: nat :: NearestHolder(net, start.value, attr, n, k) && net.attrs[n][attr] == r.value)
  }

  /** Every node named as a key or a parent in the is-a graph. */
  function Nodes(net: Net): set<string> {
    net.parents.Keys + set n, p | n in net.parents && p in net.parents[n] :: p
  }

  /** The elements of `ps` not in `visited`, in order (the `if p not in visited` filter). */
  function Unvisited(ps: seq<string>, visited: set<string>): (r: seq<string>)
    ensures forall x :: x in r <==> x in ps && x !in visited
  {
    if ps == [] then []
    else Unvisited(ps[..|ps| - 1], visited) + (if ps[|ps| - 1] in visited then [] else [ps[|ps| - 1]])
  }

  lemma MarkingShrinks(U: set<string>, visited: set<string>, c: string)
    requires c in U && c !in visited
    ensures |U - (visited + {c})| < |U - visited|
  {
    assert U - (visited + {c}) == (U - visited) - {c};
  }

  /** The queue after expanding its head still lies inside `U`. */
  lemma ExpandStaysInside(net: Net, q: seq<string>, visited: set<string>, U: set<string>)
    requires q != [] && (forall i :: 0 <= i < |q| ==> q[i] in U) && Nodes(net) <= U
    ensures var q' := q[1..] + Unvisited(ParentsOf(net, q[0]), visited);
      forall i :: 0 <= i < |q'| ==> q'[i] in U
  {
    forall p | p in ParentsOf(net, q[0]) { ParentsAreNodes(net, q[0], p); }
  }

  /**
   * In a valid network every node of the is-a graph is one of the entities
   * `all_entities` lists, and so is every start `get_effective_attr` searches
   * from: the class of an instance, or a class or attribute holder itself.
   */
  lemma ValidNodesAreEntities(net: Net)
    requires Valid(net)
    ensures forall n :: n in Nodes(net) ==> n in AllEntities(net)
    ensures forall e :: e in net.instances ==> e in net.classOf && net.classOf[e] in AllEntities(net)
    ensures forall e :: e in net.classes || e in net.attrs ==> e in AllEntities(net)
  {
  }

  /** In a valid network a search from an entity only ever reaches entities. */
  lemma ValidSearchStaysInEntities(net: Net, start: string)
    requires Valid(net) && start in AllEntities(net)
    ensures forall k: nat, n :: n in Reach(net, start, k) ==> n in AllEntities(net)
  {
    forall k: nat, n | n in Reach(net, start, k) ensures n in AllEntities(net) {
      ReachInEntities(net, start, k);
    }
  }

  lemma {:induction false} ReachInEntities(net: Net, start: string, k: nat)
    requires Valid(net) && start in AllEntities(net)
    ensures forall n :: n in Reach(net, start, k) ==> n in AllEntities(net)
    decreases k
  {
    if k > 0 {
      ReachInEntities(net, start, k - 1);
      ValidNodesAreEntities(net);
      forall p | p in Step(net, Reach(net, start, k - 1)) ensures p in AllEntities(net) {
        var m :| m in Reach(net, start, k - 1) && p in ParentsOf(net, m);
        ParentsAreNodes(net, m, p);
      }
    }
  }

  lemma ParentsAreNodes(net: Net, c: string, p: string)
    requires p in ParentsOf(net, c)
    ensures p in Nodes(net)
  {
  }

  /**
   * The loop of `_get_attr_from_class_chain` from queue `q` and visited set
   * `visited`: pop the head, skip it if visited, otherwise mark it, answer
   * with its direct value if it has one, else append its unvisited parents.
   * `U` is a finite set holding every node the queue can ever contain; it
   * bounds how often a node can be marked, so the search ends on
   * cyclic graphs too.
   */
  function Search(net: Net, attr: string, q: seq<string>, visited: set<string>, ghost U: set<string>): Option<string>
    requires forall i :: 0 <= i < |q| ==> q[i] in U
    requires Nodes(net) <= U
    decreases |U - visited|, |q|
  {
    if q == [] then None
    else
      var c := q[0];
      if c in visited then Search(net, attr, q[1..], visited, U)
      else if Holds(net, c, attr) then Some(net.attrs[c][attr])
      else
        var q' := q[1..] + Unvisited(ParentsOf(net, c), visited + {c});
        assert forall i :: 0 <= i < |q'| ==> q'[i] in U by {
          forall p | p in ParentsOf(net, c) { ParentsAreNodes(net, c, p); }
        }
        MarkingShrinks(U, visited, c);
        Search(net, attr, q', visited + {c}, U)
  }

  /** `_get_attr_from_class_chain(klass, attr)`. */
  function ChainLookup(net: Net, klass: Option<string>, attr: string): (r: Option<string>)
    ensures Resolves(net, klass, attr, r)
  {
    if klass.None? || klass.value == "" then None
    else
      SearchResolves(net, klass.value, attr);
      Search(net, attr, [klass.value], {}, Nodes(net) + {klass.value})
  }

  /**
   * `get_effective_attr(entity, attr)`. An instance answers with its own
   * value first and otherwise searches from its class only; an entity that
   * is a class or holds attributes answers with its own value first and
   * otherwise searches from itself; any other entity has no value.
   */
  function EffectiveAttr(net: Net, entity: string, attr: string): (r: Option<string>)
    ensures entity !in net.instances && entity !in net.classes && entity !in net.attrs ==> r.None?
    ensures Holds(net, entity, attr) ==> r == Some(net.attrs[entity][attr])
    ensures entity in net.instances && !Holds(net, entity, attr) ==>
              Resolves(net, Get(net.classOf, entity), attr, r)
    ensures entity !in net.instances && (entity in net.classes || entity in net.attrs) && !Holds(net, entity, attr) ==>
              Resolves(net, Some(entity), attr, r)
  {
    if entity in net.instances then
      if Holds(net, entity, attr) then Some(net.attrs[entity][attr])
      else ChainLookup(net, Get(net.classOf, entity), attr)
    else if entity in net.classes || entity in net.attrs then
      if Holds(net, entity, attr) then Some(net.attrs[entity][attr])
      else ChainLookup(net, Some(entity), attr)
    else None
  }

  /** In a valid network an instance without its own value always searches from its class. */
  lemma ValidInstanceSearch(net: Net, e: string, attr: string)
    requires Valid(net) && e in net.instances && !Holds(net, e, attr)
    ensures e in net.classOf && EffectiveAttr(net, e, attr) == ChainLookup(net, Some(net.classOf[e]), attr)
  {
    ValidInstanceHasClass(net, e);
  }

  // ---------- proof that the search finds a nearest holder ----------

  lemma {:induction false} ReachGrows(net: Net, start: string, j: nat, k: nat)
    requires j <= k
    ensures Reach(net, start, j) <= Reach(net, start, k)
    decreases k
  {
    if j < k {
      ReachGrows(net, start, j, k - 1);
    }
  }

  /** The first `s` queue entries are within `L` edges of the start, all of them within `L + 1`. */
  ghost predicate QueueLevels(net: Net, start: string, q: seq<string>, s: nat, L: nat) {
    && s <= |q|
    && (forall i :: 0 <= i < s ==> q[i] in Reach(net, start, L))
    && (forall i :: 0 <= i < |q| ==> q[i] in Reach(net, start, L + 1))
  }

  /** Every node within `L` edges is marked, or waits among the first `s` queue entries. */
  ghost predicate LevelCovered(net: Net, start: string, q: seq<string>, visited: set<string>, s: nat, L: nat)
    requires s <= |q|
  {
    forall n :: n in Reach(net, start, L) ==> n in visited || n in q[..s]
  }

  /** Every node within `L - 1` edges is marked. */
  ghost predicate EarlierLevelsMarked(net: Net, start: string, visited: set<string>, L: nat) {
    L > 0 ==> forall n :: n in Reach(net, start, L - 1) ==> n in visited
  }

  predicate NoMarkedHolder(net: Net, attr: string, visited: set<string>) {
    forall n :: n in visited ==> !Holds(net, n, attr)
  }

  /** Every parent of a marked node is marked or queued. */
  ghost predicate ParentsCovered(net: Net, q: seq<string>, visited: set<string>) {
    forall m, p :: m in visited && p in ParentsOf(net, m) ==> p in visited || p in q
  }

  /**
   * The state of the search loop in breadth-first levels, `L` being the
   * level of the queue's head and `s` the number of entries left at it.
   */
  ghost predicate SearchInv(net: Net, start: string, attr: string, q: seq<string>, visited: set<string>, s: nat, L: nat) {
    && QueueLevels(net, start, q, s, L)
    && LevelCovered(net, start, q, visited, s, L)
    && EarlierLevelsMarked(net, start, visited, L)
    && NoMarkedHolder(net, attr, visited)
    && ParentsCovered(net, q, visited)
  }

  lemma ParentInStep(net: Net, nodes: set<string>, m: string, p: string)
    requires m in nodes && p in ParentsOf(net, m)
    ensures p in Step(net, nodes)
  {
  }

  /** When the current level is used up, the whole queue forms the next one. */
  lemma NextLevel(net: Net, start: string, attr: string, q: seq<string>, visited: set<string>, L: nat)
    requires SearchInv(net, start, attr, q, visited, 0, L)
    ensures SearchInv(net, start, attr, q, visited, |q|, L + 1)
  {
    assert q[..|q|] == q;
    assert q[..0] == [];
    forall n | n in Reach(net, start, L + 1) ensures n in visited || n in q {
      if n !in Reach(net, start, L) {
        var m, p :| m in Reach(net, start, L) && p in ParentsOf(net, m) && n == p;
      }
    }
    forall i | 0 <= i < |q| ensures q[i] in Reach(net, start, L + 2) {
      ReachGrows(net, start, L + 1, L + 2);
    }
  }

  /** Popping a node that is already marked. */
  lemma SkipVisited(net: Net, start: string, attr: string, q: seq<string>, visited: set<string>, s: nat, L: nat)
    requires SearchInv(net, start, attr, q, visited, s, L)
    requires 0 < s && q[0] in visited
    ensures SearchInv(net, start, attr, q[1..], visited, s - 1, L)
  {
    assert q[..s] == [q[0]] + q[1..][..s - 1];
    assert q == [q[0]] + q[1..];
  }

  lemma ExpandLevels(net: Net, start: string, q: seq<string>, visited: set<string>, s: nat, L: nat)
    requires QueueLevels(net, start, q, s, L) && 0 < s
    ensures QueueLevels(net, start, q[1..] + Unvisited(ParentsOf(net, q[0]), visited), s - 1, L)
  {
    var c := q[0];
    var added := Unvisited(ParentsOf(net, c), visited);
    var q' := q[1..] + added;
    forall i | 0 <= i < |q'| ensures q'[i] in Reach(net, start, L + 1) {
      if i >= |q| - 1 {
        assert q'[i] in added;
        ParentInStep(net, Reach(net, start, L), c, q'[i]);
      } else {
        assert q'[i] == q[i + 1];
      }
    }
    assert forall i :: 0 <= i < s - 1 ==> q'[i] == q[i + 1];
  }

  lemma ExpandCovered(net: Net, start: string, q: seq<string>, visited: set<string>, s: nat, L: nat)
    requires 0 < s <= |q| && LevelCovered(net, start, q, visited, s, L)
    ensures LevelCovered(net, start, q[1..] + Unvisited(ParentsOf(net, q[0]), visited + {q[0]}), visited + {q[0]}, s - 1, L)
  {
    var q' := q[1..] + Unvisited(ParentsOf(net, q[0]), visited + {q[0]});
    assert q[..s] == [q[0]] + q'[..s - 1];
  }

  lemma ExpandParents(net: Net, q: seq<string>, visited: set<string>)
    requires q != [] && ParentsCovered(net, q, visited)
    ensures ParentsCovered(net, q[1..] + Unvisited(ParentsOf(net, q[0]), visited + {q[0]}), visited + {q[0]})
  {
    var c := q[0];
    var added := Unvisited(ParentsOf(net, c), visited + {c});
    var q' := q[1..] + added;
    assert q == [c] + q[1..];
    forall m, p | m in visited + {c} && p in ParentsOf(net, m) ensures p in visited + {c} || p in q' {
      if m == c && p !in visited + {c} {
        assert p in added;
      }
    }
  }

  /** Marking the head, which does not hold the attribute, and queueing its unvisited parents. */
  lemma Expand(net: Net, start: string, attr: string, q: seq<string>, visited: set<string>, s: nat, L: nat)
    requires SearchInv(net, start, attr, q, visited, s, L)
    requires 0 < s && q[0] !in visited && !Holds(net, q[0], attr)
    ensures SearchInv(net, start, attr, q[1..] + Unvisited(ParentsOf(net, q[0]), visited + {q[0]}), visited + {q[0]}, s - 1, L)
  {
    ExpandLevels(net, start, q, visited + {q[0]}, s, L);
    ExpandCovered(net, start, q, visited, s, L);
    ExpandParents(net, q, visited);
  }

  /** A graph region closed under parents that holds every node within `L` edges holds every reachable node. */
  lemma {:induction false} ClosedHoldsReach(net: Net, start: string, visited: set<string>, L: nat, k: nat)
    requires forall n :: n in Reach(net, start, L) ==> n in visited
    requires forall m, p :: m in visited && p in ParentsOf(net, m) ==> p in visited
    ensures forall n :: n in Reach(net, start, k) ==> n in visited
    decreases k
  {
    if k <= L {
      ReachGrows(net, start, k, L);
    } else {
      ClosedHoldsReach(net, start, visited, L, k - 1);
    }
  }

  /** `r` is nothing when no reachable node holds `attr`, and else the value of a nearest holder. */
  ghost predicate Outcome(net: Net, start: string, attr: string, r: Option<string>) {
    && (r.None? ==> NoReachableHolder(net, start, attr))
    && (r.Some? ==> exists n, k: nat :: NearestHolder(net, start, attr, n, k) && net.attrs[n][attr] == r.value)
  }

  /** An empty queue: every reachable node has been marked, and none holds the attribute. */
  lemma ExhaustedQueue(net: Net, start: string, attr: string, visited: set<string>, L: nat)
    requires SearchInv(net, start, attr, [], visited, 0, L)
    ensures NoReachableHolder(net, start, attr)
  {
    assert forall n :: n in Reach(net, start, L) ==> n in visited;
    forall k: nat, n | n in Reach(net, start, k) ensures !Holds(net, n, attr) {
      ClosedHoldsReach(net, start, visited, L, k);
    }
  }

  /** An unmarked head that holds the attribute is a nearest holder. */
  lemma HeadIsNearest(net: Net, start: string, attr: string, q: seq<string>, visited: set<string>, s: nat, L: nat)
    requires SearchInv(net, start, attr, q, visited, s, L)
    requires 0 < s && q[0] !in visited && Holds(net, q[0], attr)
    ensures Outcome(net, start, attr, Some(net.attrs[q[0]][attr]))
  {
    assert NearestHolder(net, start, attr, q[0], L);
  }

  /** What the search returns from a state satisfying `SearchInv`. */
  lemma {:induction false} SearchFindsNearest(net: Net, start: string, attr: string, q: seq<string>,
                                              visited: set<string>, U: set<string>, s: nat, L: nat)
    requires forall i :: 0 <= i < |q| ==> q[i] in U
    requires Nodes(net) <= U
    requires SearchInv(net, start, attr, q, visited, s, L)
    ensures Outcome(net, start, attr, Search(net, attr, q, visited, U))
    decreases |U - visited|, |q|, if s == 0 then 2 else 1
  {
    if q == [] {
      ExhaustedQueue(net, start, attr, visited, L);
    } else if s == 0 {
      NextLevel(net, start, attr, q, visited, L);
      SearchFindsNearest(net, start, attr, q, visited, U, |q|, L + 1);
    } else if q[0] in visited {
      SkipStep(net, start, attr, q, visited, U, s, L);
    } else if Holds(net, q[0], attr) {
      HeadIsNearest(net, start, attr, q, visited, s, L);
    } else {
      ExpandStep(net, start, attr, q, visited, U, s, L);
    }
  }

  /** The outcome after popping a marked head is the outcome from the rest of the queue. */
  lemma {:induction false} SkipStep(net: Net, start: string, attr: string, q: seq<string>,
                                    visited: set<string>, U: set<string>, s: nat, L: nat)
    requires forall i :: 0 <= i < |q| ==> q[i] in U
    requires Nodes(net) <= U
    requires SearchInv(net, start, attr, q, visited, s, L)
    requires 0 < s && q[0] in visited
    ensures Outcome(net, start, attr, Search(net, attr, q, visited, U))
    decreases |U - visited|, |q|, 0
  {
    SkipVisited(net, start, attr, q, visited, s, L);
    SearchFindsNearest(net, start, attr, q[1..], visited, U, s - 1, L);
    assert Search(net, attr, q, visited, U) == Search(net, attr, q[1..], visited, U);
  }

  /** Marking a head that holds nothing continues the search from the expanded queue. */
  lemma SearchExpands(net: Net, attr: string, q: seq<string>, visited: set<string>, U: set<string>)
    requires forall i :: 0 <= i < |q| ==> q[i] in U
    requires Nodes(net) <= U
    requires q != [] && q[0] !in visited && !Holds(net, q[0], attr)
    ensures var q' := q[1..] + Unvisited(ParentsOf(net, q[0]), visited + {q[0]});
      && (forall i :: 0 <= i < |q'| ==> q'[i] in U)
      && Search(net, attr, q, visited, U) == Search(net, attr, q', visited + {q[0]}, U)
  {
    ExpandStaysInside(net, q, visited + {q[0]}, U);
  }

  /** The outcome after marking a head that holds nothing is the outcome from the expanded queue. */
  lemma {:induction false} ExpandStep(net: Net, start: string, attr: string, q: seq<string>,
                                      visited: set<string>, U: set<string>, s: nat, L: nat)
    requires forall i :: 0 <= i < |q| ==> q[i] in U
    requires Nodes(net) <= U
    requires SearchInv(net, start, attr, q, visited, s, L)
    requires 0 < s && q[0] !in visited && !Holds(net, q[0], attr)
    ensures Outcome(net, start, attr, Search(net, attr, q, visited, U))
    decreases |U - visited|, |q|, 0
  {
    var c := q[0];
    Expand(net, start, attr, q, visited, s, L);
    var q' := q[1..] + Unvisited(ParentsOf(net, c), visited + {c});
    ExpandStaysInside(net, q, visited + {c}, U);
    MarkingShrinks(U, visited, c);
    SearchExpands(net, attr, q, visited, U);
    SearchFindsNearest(net, start, attr, q', visited + {c}, U, s - 1, L);
  }

  /** The search started from `[start]` with nothing visited resolves correctly. */
  lemma SearchResolves(net: Net, start: string, attr: string)
    ensures var r := Search(net, attr, [start], {}, Nodes(net) + {start});
      && (r.None? <==> NoReachableHolder(net, start, attr))
      && (r.Some? ==> exists n, k: nat :: NearestHolder(net, start, attr, n, k) && net.attrs[n][attr] == r.value)
  {
    var r := Search(net, attr, [start], {}, Nodes(net) + {start});
    assert [start][..1] == [start];
    assert SearchInv(net, start, attr, [start], {}, 1, 0);
    SearchFindsNearest(net, start, attr, [start], {}, Nodes(net) + {start}, 1, 0);
    if r.Some? {
      var n, k: nat :| NearestHolder(net, start, attr, n, k) && net.attrs[n][attr] == r.value;
      assert !NoReachableHolder(net, start, attr);
    }
  }
}
