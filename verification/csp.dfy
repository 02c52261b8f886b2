/**
 The backtracking constraint solver of solver/csp.py, generic in the
 variable type `V` and the value type `D`.

 The Python class keeps three pieces of mutable state: the per-variable
 domains, the partial assignment, and (per candidate value) the `pruned`
 trail. Here they are ordinary values passed into and returned from each
 operation, so every contract is about inputs and results.
 */
module Csp {
  import opened Wrappers
  import opened Seqs

  /** The fixed part of a search: the variables in generation order, the
      neighbour relation, and the binary consistency test
      `consistent(v, x, u, y)` ("v := x" can coexist with "u := y"). */
  datatype Problem<!V(==), !D> = Problem(
    variables: seq<V>,
    neighbors: map<V, set<V>>,
    consistent: (V, D, V, D) -> bool)

  /** What the Python code needs of its inputs in order not to raise:
      distinct variables (otherwise the completeness test on the assignment
      size never succeeds: once every distinct variable is assigned, `min`
      raises on an empty list, while an instance that fails earlier returns
      `None`),
      and a neighbour set for every variable that names only variables
      (otherwise `self.domains[u]` raises `KeyError`). */
  ghost predicate WellFormed<V, D>(p: Problem<V, D>)
  {
    && Distinct(p.variables)
    && forall v | v in p.variables :: v in p.neighbors && p.neighbors[v] <= Elems(p.variables)
  }

  /** Every two distinct variables are neighbours (the complete graph). */
  ghost predicate AllLinked<V, D>(p: Problem<V, D>)
  {
    forall v, u | v in p.variables && u in p.variables && v != u :: v in p.neighbors && u in p.neighbors[v]
  }

  /** The values recorded for `u` in a `pruned` trail (a `defaultdict(list)`). */
  function Trail<V(==), D>(pruned: map<V, seq<D>>, u: V): seq<D>
  {
    if u in pruned then pruned[u] else []
  }

  /** `y => consistent(v, x, u, y)`: the values of `u` compatible with `v := x`. */
  function ConsistentWith<V(==), D>(p: Problem<V, D>, v: V, x: D, u: V): D -> bool
  {
    y => p.consistent(v, x, u, y)
  }

  /** Two domain maps hold the same values for every variable, counting
      repetitions but ignoring order. */
  ghost predicate SameDomains<V, D>(d1: map<V, seq<D>>, d2: map<V, seq<D>>)
  {
    d1.Keys == d2.Keys && forall u | u in d1 :: multiset(d1[u]) == multiset(d2[u])
  }

  /** `a` agrees with `b` on every variable `b` assigns. */
  ghost predicate Extends<V, D>(a: map<V, D>, b: map<V, D>)
  {
    forall u | u in b :: u in a && a[u] == b[u]
  }

  /** Every neighbour pair of distinct assigned variables is consistent. */
  ghost predicate AssignedConsistent<V, D>(p: Problem<V, D>, asg: map<V, D>)
  {
    forall w, u | w in asg && u in asg && w != u && w in p.neighbors && u in p.neighbors[w] ::
      p.consistent(w, asg[w], u, asg[u])
  }

  /** The forward-checking invariant: every value still in the domain of an
      unassigned neighbour of an assigned variable is consistent with it. */
  ghost predicate ForwardChecked<V, D>(p: Problem<V, D>, doms: map<V, seq<D>>, asg: map<V, D>)
  {
    forall w, u, y | w in asg && w in p.neighbors && u in p.neighbors[w] && u !in asg && u in doms && y in doms[u] ::
      p.consistent(w, asg[w], u, y)
  }

  /** A solution: every variable assigned (never a partial map), each value
      drawn from that variable's initial domain, neighbours consistent. */
  ghost predicate IsSolution<V, D>(p: Problem<V, D>, init: map<V, seq<D>>, a: map<V, D>)
  {
    && a.Keys == Elems(p.variables)
    && (forall u | u in a :: u in init && a[u] in init[u])
    && AssignedConsistent(p, a)
  }

  /** The unassigned variables of `a` take values from the current domains. */
  ghost predicate WithinDomains<V, D>(a: map<V, D>, asg: map<V, D>, doms: map<V, seq<D>>)
  {
    forall u | u in a && u !in asg :: u in doms && a[u] in doms[u]
  }

  /** The state at every entry to `Backtrack`. */
  ghost predicate Searchable<V, D>(p: Problem<V, D>, init: map<V, seq<D>>, doms: map<V, seq<D>>, asg: map<V, D>)
  {
    && WellFormed(p)
    && doms.Keys == Elems(p.variables)
    && asg.Keys <= doms.Keys
    && (forall u | u in doms :: u in init && multiset(doms[u]) <= multiset(init[u]))
    && (forall u | u in asg :: u in init && asg[u] in init[u])
    && AssignedConsistent(p, asg)
    && ForwardChecked(p, doms, asg)
  }

  /** The constructor's domain table: a copy of the caller's list for each
      variable, and nothing for anything else. */
  function Init<V(==), D>(variables: seq<V>, domains: map<V, seq<D>>): (doms: map<V, seq<D>>)
    requires forall v | v in variables :: v in domains
    ensures doms.Keys == Elems(variables)
    ensures forall v | v in doms :: doms[v] == domains[v]
  {
    map v | v in variables :: domains[v]
  }

  /** MRV: the first unassigned variable, in generation order, whose current
      domain is shortest. Returns its index in `variables`. */
  method Mrv<V(==), D>(p: Problem<V, D>, doms: map<V, seq<D>>, asg: map<V, D>) returns (i: nat)
    requires forall u | u in p.variables :: u in doms
    requires exists k | 0 <= k < |p.variables| :: p.variables[k] !in asg
    ensures i < |p.variables| && p.variables[i] !in asg
    ensures forall k | 0 <= k < |p.variables| && p.variables[k] !in asg ::
      |doms[p.variables[i]]| <= |doms[p.variables[k]]|
    ensures forall k | 0 <= k < i && p.variables[k] !in asg ::
      |doms[p.variables[k]]| > |doms[p.variables[i]]|
  {
    var found := false;
    i := 0;
    var k := 0;
    while k < |p.variables|
      invariant 0 <= k <= |p.variables|
      invariant found ==> i < k && p.variables[i] !in asg
      invariant found ==> forall j | 0 <= j < k && p.variables[j] !in asg ::
        |doms[p.variables[i]]| <= |doms[p.variables[j]]|
      invariant found ==> forall j | 0 <= j < i && p.variables[j] !in asg ::
        |doms[p.variables[j]]| > |doms[p.variables[i]]|
      invariant !found ==> forall j | 0 <= j < k :: p.variables[j] in asg
    {
      var u := p.variables[k];
      if u !in asg && (!found || |doms[u]| < |doms[p.variables[i]]|) {
        i, found := k, true;
      }
      k := k + 1;
    }
  }

  /** The conflicts `v := x` causes with one neighbour `u`: 1 or 0 against
      an assigned neighbour, else the number of `u`'s remaining values it
      rules out. */
  function ConflictsWith<V(==), D>(p: Problem<V, D>, doms: map<V, seq<D>>, asg: map<V, D>, v: V, x: D, u: V): nat
    requires u in asg || u in doms
  {
    if u in asg then (if p.consistent(v, x, u, asg[u]) then 0 else 1)
    else |Filter(doms[u], Not(ConsistentWith(p, v, x, u)))|
  }

  /** The conflict total over the neighbours of `v` found in `us`. The Python
      sums over the neighbour set in set order; a sum does not depend on the
      order, and summing over `variables` (which holds every neighbour once)
      gives the same total. */
  function ConflictsAmong<V(==), D>(p: Problem<V, D>, doms: map<V, seq<D>>, asg: map<V, D>, v: V, x: D, us: seq<V>): nat
    requires v in p.neighbors
    requires forall u | u in us :: u in doms
  {
    if us == [] then 0
    else
      var here := if us[0] in p.neighbors[v] then ConflictsWith(p, doms, asg, v, x, us[0]) else 0;
      here + ConflictsAmong(p, doms, asg, v, x, us[1..])
  }

  /** The LCV key of a candidate value `x` for `v`. */
  function ConflictKey<V(==), D>(p: Problem<V, D>, doms: map<V, seq<D>>, asg: map<V, D>, v: V): D -> nat
    requires v in p.neighbors
    requires forall u | u in p.variables :: u in doms
  {
    x => ConflictsAmong(p, doms, asg, v, x, p.variables)
  }

  /** `v := x` rules out nothing at neighbour `u`. */
  ghost predicate NoConflictWith<V, D>(p: Problem<V, D>, doms: map<V, seq<D>>, asg: map<V, D>, v: V, x: D, u: V)
    requires u in asg || u in doms
  {
    if u in asg then p.consistent(v, x, u, asg[u])
    else forall y | y in doms[u] :: p.consistent(v, x, u, y)
  }

  /** A candidate has conflict count 0 exactly when it is consistent with
      every assigned neighbour and with every remaining value of every
      unassigned neighbour. */
  lemma {:induction false} ConflictsZeroIff<V, D>(p: Problem<V, D>, doms: map<V, seq<D>>, asg: map<V, D>, v: V, x: D, us: seq<V>)
    requires v in p.neighbors
    requires forall u | u in us :: u in doms
    ensures ConflictsAmong(p, doms, asg, v, x, us) == 0 <==>
      forall u | u in us && u in p.neighbors[v] :: NoConflictWith(p, doms, asg, v, x, u)
  {
    if us != [] {
      ConflictsZeroIff(p, doms, asg, v, x, us[1..]);
      var u := us[0];
      if u !in asg {
        var bad := Filter(doms[u], Not(ConsistentWith(p, v, x, u)));
        if |bad| != 0 {
          assert bad[0] in bad;
        }
      }
      assert forall w | w in us :: w == u || w in us[1..];
    }
  }

  /** LCV: the current domain of `v` reordered by ascending conflict count;
      the sort is stable, so values with equal counts keep their order. */
  function Lcv<V(==), D(==)>(p: Problem<V, D>, doms: map<V, seq<D>>, asg: map<V, D>, v: V): (r: seq<D>)
    requires v in p.neighbors && v in doms
    requires forall u | u in p.variables :: u in doms
    ensures multiset(r) == multiset(doms[v])
    ensures SortedBy(r, ConflictKey(p, doms, asg, v))
    ensures forall k :: WithKey(r, ConflictKey(p, doms, asg, v), k) == WithKey(doms[v], ConflictKey(p, doms, asg, v), k)
  {
    SortByKey(doms[v], ConflictKey(p, doms, asg, v))
  }

  /** The local check of `backtrack`: `v := x` is consistent with every
      assigned variable (all of them, not only the neighbours). */
  predicate AgreesWithAssignment<V(==), D>(p: Problem<V, D>, asg: map<V, D>, v: V, x: D)
  {
    forall u | u in asg :: p.consistent(v, x, u, asg[u])
  }

  /** `u` has not been visited by the forward check, or is skipped by it. */
  ghost predicate Untouched<V, D>(doms: map<V, seq<D>>, doms': map<V, seq<D>>, pruned: map<V, seq<D>>, u: V)
  {
    u in doms && u in doms' && doms'[u] == doms[u] && Trail(pruned, u) == []
  }

  /** The forward check has split `u`'s domain into the values consistent
      with `v := x` (kept, in order) and the others (trailed, in order). */
  ghost predicate Pruned<V, D>(p: Problem<V, D>, doms: map<V, seq<D>>, doms': map<V, seq<D>>, pruned: map<V, seq<D>>, v: V, x: D, u: V)
  {
    && u in doms && u in doms'
    && doms'[u] == Filter(doms[u], ConsistentWith(p, v, x, u))
    && Trail(pruned, u) == Filter(doms[u], Not(ConsistentWith(p, v, x, u)))
  }

  /** Forward checking does not wipe out `u`: its domain was empty already
      or keeps a value consistent with `v := x`. */
  ghost predicate Viable<V, D>(p: Problem<V, D>, doms: map<V, seq<D>>, v: V, x: D, u: V)
  {
    u in doms ==> doms[u] == [] || Filter(doms[u], ConsistentWith(p, v, x, u)) != []
  }

  /** The forward check pruned `u` to nothing: its domain is empty and its
      trail is not. */
  ghost predicate PrunedEmpty<V, D>(doms': map<V, seq<D>>, pruned: map<V, seq<D>>, u: V)
  {
    u in doms' && doms'[u] == [] && Trail(pruned, u) != []
  }

  /** The loop state of `ForwardCheck` with `todo` still to visit. */
  ghost predicate FcState<V, D>(p: Problem<V, D>, doms: map<V, seq<D>>, asg: map<V, D>, v: V, x: D,
                                todo: set<V>, doms': map<V, seq<D>>, pruned: map<V, seq<D>>)
  {
    && v in p.neighbors && p.neighbors[v] <= doms.Keys
    && todo <= p.neighbors[v]
    && doms'.Keys == doms.Keys
    && pruned.Keys <= p.neighbors[v] - todo
    && (forall u | u in pruned :: u !in asg)
    && (forall u | u in doms && (u in todo || u !in p.neighbors[v] || u in asg) :: Untouched(doms, doms', pruned, u))
    && (forall u | u in p.neighbors[v] - todo && u !in asg :: Pruned(p, doms, doms', pruned, v, x, u))
  }

  lemma FilterNothingOut<T>(s: seq<T>, keep: T -> bool)
    requires Filter(s, Not(keep)) == []
    ensures Filter(s, keep) == s
  {
    RemoveAllFiltered(s, keep);
  }

  lemma FcSkip<V, D>(p: Problem<V, D>, doms: map<V, seq<D>>, asg: map<V, D>, v: V, x: D,
                     todo: set<V>, doms': map<V, seq<D>>, pruned: map<V, seq<D>>, u: V)
    requires FcState(p, doms, asg, v, x, todo, doms', pruned)
    requires u in todo && (u in asg || Filter(doms'[u], Not(ConsistentWith(p, v, x, u))) == [])
    ensures FcState(p, doms, asg, v, x, todo - {u}, doms', pruned)
    ensures u !in asg ==> Viable(p, doms, v, x, u)
  {
    if u !in asg {
      assert Untouched(doms, doms', pruned, u);
      FilterNothingOut(doms[u], ConsistentWith(p, v, x, u));
    }
  }

  /** Updating `u`'s domain and trail leaves another variable's standing. */
  lemma Elsewhere<V, D>(p: Problem<V, D>, doms: map<V, seq<D>>, doms': map<V, seq<D>>, pruned: map<V, seq<D>>,
                        v: V, x: D, u: V, kept: seq<D>, dropped: seq<D>, w: V)
    requires w != u
    ensures Untouched(doms, doms', pruned, w) ==> Untouched(doms, doms'[u := kept], pruned[u := dropped], w)
    ensures Pruned(p, doms, doms', pruned, v, x, w) ==> Pruned(p, doms, doms'[u := kept], pruned[u := dropped], v, x, w)
  {
    assert Trail(pruned[u := dropped], w) == Trail(pruned, w);
  }

  /** Pruning an untouched `u` splits its domain into kept and trailed values. */
  lemma PruneHere<V, D>(p: Problem<V, D>, doms: map<V, seq<D>>, doms': map<V, seq<D>>, pruned: map<V, seq<D>>, v: V, x: D, u: V)
    requires Untouched(doms, doms', pruned, u)
    ensures Pruned(p, doms, doms'[u := Filter(doms'[u], ConsistentWith(p, v, x, u))],
                   pruned[u := Trail(pruned, u) + Filter(doms'[u], Not(ConsistentWith(p, v, x, u)))], v, x, u)
  {
    assert Trail(pruned, u) + Filter(doms'[u], Not(ConsistentWith(p, v, x, u))) == Filter(doms[u], Not(ConsistentWith(p, v, x, u)));
  }

  lemma FcPrune<V, D>(p: Problem<V, D>, doms: map<V, seq<D>>, asg: map<V, D>, v: V, x: D,
                      todo: set<V>, doms': map<V, seq<D>>, pruned: map<V, seq<D>>, u: V,
                      doms'': map<V, seq<D>>, pruned': map<V, seq<D>>)
    requires FcState(p, doms, asg, v, x, todo, doms', pruned)
    requires u in todo && u !in asg
    requires Filter(doms'[u], Not(ConsistentWith(p, v, x, u))) != []
    requires doms'' == doms'[u := Filter(doms'[u], ConsistentWith(p, v, x, u))]
    requires pruned' == pruned[u := Trail(pruned, u) + Filter(doms'[u], Not(ConsistentWith(p, v, x, u)))]
    ensures FcState(p, doms, asg, v, x, todo - {u}, doms'', pruned')
    ensures u in doms && doms''[u] == Filter(doms[u], ConsistentWith(p, v, x, u))
    ensures Filter(doms[u], Not(ConsistentWith(p, v, x, u))) != []
  {
    assert Untouched(doms, doms', pruned, u);
    PruneHere(p, doms, doms', pruned, v, x, u);
    var todo' := todo - {u};
    forall w | w in doms && (w in todo' || w !in p.neighbors[v] || w in asg)
      ensures Untouched(doms, doms'', pruned', w)
    {
      assert Untouched(doms, doms', pruned, w);
      Elsewhere(p, doms, doms', pruned, v, x, u, doms''[u], pruned'[u], w);
    }
    forall w | w in p.neighbors[v] - todo' && w !in asg
      ensures Pruned(p, doms, doms'', pruned', v, x, w)
    {
      if w != u {
        assert Pruned(p, doms, doms', pruned, v, x, w);
        Elsewhere(p, doms, doms', pruned, v, x, u, doms''[u], pruned'[u], w);
      }
    }
  }

  /** A neighbour that loses at least one value is wiped out exactly when
      it keeps none. */
  lemma PrunedViable<V, D>(p: Problem<V, D>, doms: map<V, seq<D>>, v: V, x: D, u: V)
    requires u in doms
    requires Filter(doms[u], Not(ConsistentWith(p, v, x, u))) != []
    ensures Filter(doms[u], ConsistentWith(p, v, x, u)) == [] <==> !Viable(p, doms, v, x, u)
  {
    assert Filter(doms[u], Not(ConsistentWith(p, v, x, u)))[0] in doms[u];
  }

  /** Nothing is lost at `u`: its old values are its new values plus its
      trail, counted with repetitions. */
  ghost predicate Kept<V, D>(doms: map<V, seq<D>>, doms': map<V, seq<D>>, pruned: map<V, seq<D>>, u: V)
    requires u in doms && u in doms'
  {
    multiset(doms[u]) == multiset(doms'[u]) + multiset(Trail(pruned, u))
  }

  /** `u` is either untouched with an empty trail, or an unassigned
      neighbour of `v` whose values are split by consistency with `v := x`:
      the consistent ones stay, the others go to the trail, order kept. */
  ghost predicate Settled<V, D>(p: Problem<V, D>, doms: map<V, seq<D>>, asg: map<V, D>, v: V, x: D, doms': map<V, seq<D>>, pruned: map<V, seq<D>>, u: V)
    requires v in p.neighbors && u in doms && u in doms'
  {
    || (doms'[u] == doms[u] && Trail(pruned, u) == [])
    || (&& u in p.neighbors[v] && u !in asg
        && doms'[u] == Filter(doms[u], ConsistentWith(p, v, x, u))
        && Trail(pruned, u) == Filter(doms[u], Not(ConsistentWith(p, v, x, u))))
  }

  /** Each variable's domain in a forward-check state: untouched, or split
      by consistency with `v := x`, and nothing lost either way. */
  lemma FcSettled<V, D>(p: Problem<V, D>, doms: map<V, seq<D>>, asg: map<V, D>, v: V, x: D,
                        todo: set<V>, doms': map<V, seq<D>>, pruned: map<V, seq<D>>, u: V)
    requires FcState(p, doms, asg, v, x, todo, doms', pruned)
    requires u in doms
    ensures Kept(doms, doms', pruned, u)
    ensures Settled(p, doms, asg, v, x, doms', pruned, u)
  {
    if u in todo || u !in p.neighbors[v] || u in asg {
      assert Untouched(doms, doms', pruned, u);
    } else {
      assert Pruned(p, doms, doms', pruned, v, x, u);
      FilterSplit(doms[u], ConsistentWith(p, v, x, u));
    }
  }

  lemma FcDone<V, D>(p: Problem<V, D>, doms: map<V, seq<D>>, asg: map<V, D>, v: V, x: D,
                     todo: set<V>, doms': map<V, seq<D>>, pruned: map<V, seq<D>>)
    requires FcState(p, doms, asg, v, x, todo, doms', pruned)
    ensures pruned.Keys <= p.neighbors[v]
    ensures doms'.Keys == doms.Keys
    ensures forall u | u in doms :: Kept(doms, doms', pruned, u)
    ensures forall u | u in doms :: Settled(p, doms, asg, v, x, doms', pruned, u)
  {
    forall u | u in doms
      ensures Kept(doms, doms', pruned, u)
      ensures Settled(p, doms, asg, v, x, doms', pruned, u)
    {
      FcSettled(p, doms, asg, v, x, todo, doms', pruned, u);
    }
  }

  /** A forward check that visits every neighbour leaves each unassigned
      one with exactly its values consistent with `v := x`. */
  lemma FcComplete<V, D>(p: Problem<V, D>, doms: map<V, seq<D>>, asg: map<V, D>, v: V, x: D,
                         doms': map<V, seq<D>>, pruned: map<V, seq<D>>)
    requires FcState(p, doms, asg, v, x, {}, doms', pruned)
    ensures forall u | u in p.neighbors[v] && u !in asg :: doms'[u] == Filter(doms[u], ConsistentWith(p, v, x, u))
    ensures forall u, y | u in p.neighbors[v] && u !in asg && y in doms'[u] :: p.consistent(v, x, u, y)
  {
    forall u, y | u in p.neighbors[v] && u !in asg && y in doms'[u] ensures p.consistent(v, x, u, y) {
      assert Pruned(p, doms, doms', pruned, v, x, u);
    }
  }

  /** One pass of the neighbour loop of `forward_check`: an assigned `u` is
      skipped; otherwise its values inconsistent with `v := x` move from its
      domain to the trail, and the check fails if nothing is left. */
  method FcVisit<V(==), D(==)>(p: Problem<V, D>, doms: map<V, seq<D>>, asg: map<V, D>, v: V, x: D,
                               todo: set<V>, doms': map<V, seq<D>>, pruned: map<V, seq<D>>, u: V)
    returns (ok: bool, doms'': map<V, seq<D>>, pruned': map<V, seq<D>>)
    requires FcState(p, doms, asg, v, x, todo, doms', pruned)
    requires u in todo
    ensures FcState(p, doms, asg, v, x, todo - {u}, doms'', pruned')
    ensures ok <==> u in asg || Viable(p, doms, v, x, u)
    ensures !ok ==> u !in asg && PrunedEmpty(doms'', pruned', u)
    ensures ok && u in pruned' ==> u in doms'' && doms''[u] != []
    ensures forall w | w in pruned' :: w in pruned || w == u
    ensures forall w | w != u && w in doms' :: w in doms'' && doms''[w] == doms'[w] && Trail(pruned', w) == Trail(pruned, w)
  {
    var toRemove := if u in asg then [] else Filter(doms'[u], Not(ConsistentWith(p, v, x, u)));
    if toRemove == [] {
      FcSkip(p, doms, asg, v, x, todo, doms', pruned, u);
      ok, doms'', pruned' := true, doms', pruned;
    } else {
      RemoveAllFiltered(doms'[u], ConsistentWith(p, v, x, u));
      doms'' := doms'[u := RemoveAll(doms'[u], toRemove)];
      pruned' := pruned[u := Trail(pruned, u) + toRemove];
      FcPrune(p, doms, asg, v, x, todo, doms', pruned, u, doms'', pruned');
      PrunedViable(p, doms, v, x, u);
      ok := doms''[u] != [];
    }
  }

  /** Forward checking after `v := x`: each unassigned neighbour loses the
      values inconsistent with `v := x`, which are recorded in `pruned`.
      Neighbours are visited in an arbitrary order (Python set order); the
      check fails as soon as one of them is pruned to empty. */
  method ForwardCheck<V(==), D(==)>(p: Problem<V, D>, doms: map<V, seq<D>>, asg: map<V, D>, v: V, x: D)
    returns (ok: bool, doms': map<V, seq<D>>, pruned: map<V, seq<D>>)
    requires v in p.neighbors && p.neighbors[v] <= doms.Keys
    ensures doms'.Keys == doms.Keys
    ensures pruned.Keys <= p.neighbors[v] && forall u | u in pruned :: u !in asg
    ensures ok <==> forall u | u in p.neighbors[v] && u !in asg :: Viable(p, doms, v, x, u)
    ensures ok ==> forall u | u in p.neighbors[v] && u !in asg ::
      doms'[u] == Filter(doms[u], ConsistentWith(p, v, x, u))
    ensures ok ==> forall u, y | u in p.neighbors[v] && u !in asg && y in doms'[u] :: p.consistent(v, x, u, y)
    ensures forall u | u in doms :: Kept(doms, doms', pruned, u)
    ensures forall u | u in doms :: Settled(p, doms, asg, v, x, doms', pruned, u)
    ensures !ok ==> exists u | u in p.neighbors[v] && u !in asg :: PrunedEmpty(doms', pruned, u)
    ensures forall u, w | u in doms' && w in doms' && PrunedEmpty(doms', pruned, u) && PrunedEmpty(doms', pruned, w) :: u == w
  {
    doms', pruned, ok := doms, map[], true;
    var todo := p.neighbors[v];
    while todo != {} && ok
      invariant FcState(p, doms, asg, v, x, todo, doms', pruned)
      invariant ok ==> forall u | u in p.neighbors[v] - todo && u !in asg :: Viable(p, doms, v, x, u)
      invariant !ok ==> exists u | u in p.neighbors[v] - todo && u !in asg :: !Viable(p, doms, v, x, u)
      invariant OneWipeout(p, doms, asg, v, x, p.neighbors[v] - todo)
      decreases todo
    {
      var u :| u in todo;
      OneWipeoutAdd(p, doms, asg, v, x, p.neighbors[v] - todo, u);
      assert p.neighbors[v] - (todo - {u}) == (p.neighbors[v] - todo) + {u};
      ok, doms', pruned := FcVisit(p, doms, asg, v, x, todo, doms', pruned, u);
      todo := todo - {u};
    }
    FcFinish(p, doms, asg, v, x, todo, ok, doms', pruned);
  }

  /** What the neighbour loop of `ForwardCheck` leaves once it stops: all
      neighbours visited, or one pruned to empty. */
  lemma FcFinish<V, D>(p: Problem<V, D>, doms: map<V, seq<D>>, asg: map<V, D>, v: V, x: D,
                       todo: set<V>, ok: bool, doms': map<V, seq<D>>, pruned: map<V, seq<D>>)
    requires FcState(p, doms, asg, v, x, todo, doms', pruned)
    requires ok ==> todo == {}
    requires !ok ==> exists u | u in p.neighbors[v] - todo && u !in asg :: !Viable(p, doms, v, x, u)
    requires OneWipeout(p, doms, asg, v, x, p.neighbors[v] - todo)
    ensures doms'.Keys == doms.Keys
    ensures pruned.Keys <= p.neighbors[v] && forall u | u in pruned :: u !in asg
    ensures ok ==> forall u | u in p.neighbors[v] && u !in asg ::
      doms'[u] == Filter(doms[u], ConsistentWith(p, v, x, u))
    ensures ok ==> forall u, y | u in p.neighbors[v] && u !in asg && y in doms'[u] :: p.consistent(v, x, u, y)
    ensures forall u | u in doms :: Kept(doms, doms', pruned, u)
    ensures forall u | u in doms :: Settled(p, doms, asg, v, x, doms', pruned, u)
    ensures !ok ==> exists u | u in p.neighbors[v] && u !in asg :: PrunedEmpty(doms', pruned, u)
    ensures forall u, w | u in doms' && w in doms' && PrunedEmpty(doms', pruned, u) && PrunedEmpty(doms', pruned, w) :: u == w
  {
    FcDone(p, doms, asg, v, x, todo, doms', pruned);
    if ok {
      FcComplete(p, doms, asg, v, x, doms', pruned);
    } else {
      var u :| u in p.neighbors[v] - todo && u !in asg && !Viable(p, doms, v, x, u);
      FcWipedOut(p, doms, asg, v, x, todo, doms', pruned, u);
    }
    forall u, w | u in doms' && w in doms' && PrunedEmpty(doms', pruned, u) && PrunedEmpty(doms', pruned, w)
      ensures u == w
    {
      FcWipedOut(p, doms, asg, v, x, todo, doms', pruned, u);
      FcWipedOut(p, doms, asg, v, x, todo, doms', pruned, w);
    }
  }

  /** At most one of the neighbours in `seen` is wiped out by `v := x`. */
  ghost predicate OneWipeout<V, D>(p: Problem<V, D>, doms: map<V, seq<D>>, asg: map<V, D>, v: V, x: D, seen: set<V>)
  {
    forall u, w | u in seen && w in seen && u !in asg && w !in asg && !Viable(p, doms, v, x, u) && !Viable(p, doms, v, x, w) :: u == w
  }

  /** While every neighbour seen so far survives, one more visit wipes out
      at most that one. */
  lemma OneWipeoutAdd<V, D>(p: Problem<V, D>, doms: map<V, seq<D>>, asg: map<V, D>, v: V, x: D, seen: set<V>, u: V)
    requires forall w | w in seen && w !in asg :: Viable(p, doms, v, x, w)
    ensures OneWipeout(p, doms, asg, v, x, seen + {u})
  {
  }

  /** A visited neighbour is pruned to empty exactly when forward checking
      wipes it out. */
  lemma FcWipedOut<V, D>(p: Problem<V, D>, doms: map<V, seq<D>>, asg: map<V, D>, v: V, x: D,
                         todo: set<V>, doms': map<V, seq<D>>, pruned: map<V, seq<D>>, u: V)
    requires FcState(p, doms, asg, v, x, todo, doms', pruned)
    ensures PrunedEmpty(doms', pruned, u) ==> u in p.neighbors[v] - todo && u !in asg && !Viable(p, doms, v, x, u)
    ensures u in p.neighbors[v] - todo && u !in asg && !Viable(p, doms, v, x, u) ==> PrunedEmpty(doms', pruned, u)
  {
    if u in p.neighbors[v] - todo && u !in asg {
      assert Pruned(p, doms, doms', pruned, v, x, u);
      FilterSplit(doms[u], ConsistentWith(p, v, x, u));
    } else if u in doms {
      assert Untouched(doms, doms', pruned, u);
    }
  }

  /** Undo of a candidate: each trailed neighbour gets its pruned values
      appended back (`self.domains[u].extend(vals)`). */
  function Restore<V(==), D>(doms: map<V, seq<D>>, pruned: map<V, seq<D>>): (r: map<V, seq<D>>)
    ensures r.Keys == doms.Keys
    ensures forall u | u in r :: r[u] == doms[u] + Trail(pruned, u)
  {
    map u | u in doms :: doms[u] + Trail(pruned, u)
  }

  lemma SubsetCard<T>(a: set<T>, b: set<T>)
    requires a <= b
    ensures |a| <= |b|
    ensures |a| == |b| ==> a == b
  {
    assert b == a + (b - a);
    assert a * (b - a) == {};
    if |a| == |b| {
      assert |b - a| == 0;
      assert b - a == {};
    }
  }

  /** Assigning one more variable shrinks the set still to be assigned:
      the termination measure of the search. */
  lemma Shrinks<V, D>(vars: set<V>, asg: map<V, D>, v: V, x: D)
    requires v in vars && v !in asg
    ensures |vars - asg[v := x].Keys| < |vars - asg.Keys|
  {
    assert vars - asg[v := x].Keys == (vars - asg.Keys) - {v};
    SubsetCard(vars - asg[v := x].Keys, vars - asg.Keys);
  }

  lemma CompleteWhenFull<V, D>(p: Problem<V, D>, asg: map<V, D>)
    requires Distinct(p.variables)
    requires asg.Keys <= Elems(p.variables)
    ensures |asg| == |p.variables| <==> asg.Keys == Elems(p.variables)
  {
    DistinctCard(p.variables);
    assert |asg| == |asg.Keys|;
    SubsetCard(asg.Keys, Elems(p.variables));
  }

  lemma SameDomainsMembers<V, D>(d1: map<V, seq<D>>, d2: map<V, seq<D>>, u: V, y: D)
    requires SameDomains(d1, d2) && u in d1
    ensures y in d1[u] <==> y in d2[u]
  {
    assert y in d1[u] <==> y in multiset(d1[u]);
    assert y in d2[u] <==> y in multiset(d2[u]);
  }

  lemma SameDomainsSearchable<V, D>(p: Problem<V, D>, init: map<V, seq<D>>, doms: map<V, seq<D>>, doms2: map<V, seq<D>>, asg: map<V, D>)
    requires Searchable(p, init, doms, asg)
    requires SameDomains(doms, doms2)
    ensures Searchable(p, init, doms2, asg)
  {
    assert ForwardChecked(p, doms, asg);
    forall w, u, y | w in asg && w in p.neighbors && u in p.neighbors[w] && u !in asg && u in doms2 && y in doms2[u]
      ensures p.consistent(w, asg[w], u, y)
    {
      SameDomainsMembers(doms, doms2, u, y);
    }
  }

  lemma SameDomainsWithin<V, D>(a: map<V, D>, asg: map<V, D>, doms: map<V, seq<D>>, doms2: map<V, seq<D>>)
    requires SameDomains(doms, doms2)
    ensures WithinDomains(a, asg, doms) <==> WithinDomains(a, asg, doms2)
  {
    forall u | u in a && u !in asg && u in doms {
      SameDomainsMembers(doms, doms2, u, a[u]);
    }
  }

  /** Assigning `v := x` after a successful local check and forward check
      re-establishes the state every recursive entry relies on: domains only
      shrink below the initial ones, assigned neighbours are consistent, and
      every value left to an unassigned neighbour of an assigned variable is
      consistent with it. */
  lemma ExtendPreservesSearchable<V, D>(p: Problem<V, D>, init: map<V, seq<D>>, doms: map<V, seq<D>>, asg: map<V, D>, v: V, x: D, doms2: map<V, seq<D>>)
    requires Searchable(p, init, doms, asg)
    requires v in p.variables && v !in asg && x in doms[v]
    requires AgreesWithAssignment(p, asg, v, x)
    requires doms2.Keys == doms.Keys
    requires forall u | u in doms :: multiset(doms2[u]) <= multiset(doms[u])
    requires forall u, y | u in p.neighbors[v] && u !in asg[v := x] && y in doms2[u] :: p.consistent(v, x, u, y)
    ensures Searchable(p, init, doms2, asg[v := x])
  {
    var asg' := asg[v := x];
    assert x in multiset(doms[v]);
    assert x in multiset(init[v]);
    forall u | u in doms2 ensures u in init && multiset(doms2[u]) <= multiset(init[u]) {
    }
    assert AssignedConsistent(p, asg);
    forall w, u | w in asg' && u in asg' && w != u && w in p.neighbors && u in p.neighbors[w]
      ensures p.consistent(w, asg'[w], u, asg'[u])
    {
      if w != v && u == v {
        assert ForwardChecked(p, doms, asg);
      }
    }
    assert ForwardChecked(p, doms, asg);
    forall w, u, y | w in asg' && w in p.neighbors && u in p.neighbors[w] && u !in asg' && u in doms2 && y in doms2[u]
      ensures p.consistent(w, asg'[w], u, y)
    {
      if w != v {
        assert w in asg && asg'[w] == asg[w];
        assert y in multiset(doms2[u]);
        assert y in multiset(doms[u]);
        assert y in doms[u];
      }
    }
  }

  /** Exact restoration: the values the forward check pruned, appended back,
      give every domain its pre-candidate contents as a multiset. */
  lemma RestoreExact<V, D>(doms: map<V, seq<D>>, doms2: map<V, seq<D>>, doms3: map<V, seq<D>>, pruned: map<V, seq<D>>)
    requires doms2.Keys == doms.Keys
    requires forall u | u in doms :: Kept(doms, doms2, pruned, u)
    requires SameDomains(doms2, doms3)
    ensures SameDomains(doms, Restore(doms3, pruned))
  {
  }

  /** No solution extending `asg` within `doms` sets `v := x`. */
  ghost predicate Excludes<V(!new), D(!new)>(p: Problem<V, D>, init: map<V, seq<D>>, asg: map<V, D>, doms: map<V, seq<D>>, v: V, x: D)
  {
    forall a | IsSolution(p, init, a) && Extends(a, asg) && WithinDomains(a, asg, doms) :: !(v in a && a[v] == x)
  }

  /** No solution extends `asg` within `doms`. */
  ghost predicate NoSolutionWithin<V(!new), D(!new)>(p: Problem<V, D>, init: map<V, seq<D>>, asg: map<V, D>, doms: map<V, seq<D>>)
  {
    forall a | IsSolution(p, init, a) && Extends(a, asg) :: !WithinDomains(a, asg, doms)
  }

  /** A candidate failing the local check is part of no solution that
      extends the assignment (when all variables are neighbours). */
  lemma LocalCheckComplete<V(!new), D(!new)>(p: Problem<V, D>, init: map<V, seq<D>>, asg: map<V, D>, doms: map<V, seq<D>>, v: V, x: D)
    requires AllLinked(p)
    requires asg.Keys <= Elems(p.variables)
    requires v in p.variables && v !in asg
    requires !AgreesWithAssignment(p, asg, v, x)
    ensures Excludes(p, init, asg, doms, v, x)
  {
    var u :| u in asg && !p.consistent(v, x, u, asg[u]);
    forall a | IsSolution(p, init, a) && Extends(a, asg) && WithinDomains(a, asg, doms) ensures !(v in a && a[v] == x) {
      assert AssignedConsistent(p, a);
      assert u in a && a[u] == asg[u];
    }
  }

  /** The neighbour a failed forward check pruned to empty. */
  lemma WipedOut<V, D>(p: Problem<V, D>, doms: map<V, seq<D>>, asg: map<V, D>, v: V, x: D) returns (u: V)
    requires v in p.neighbors && p.neighbors[v] <= doms.Keys
    requires !forall u | u in p.neighbors[v] && u !in asg :: Viable(p, doms, v, x, u)
    ensures u in p.neighbors[v] && u !in asg && u in doms
    ensures Filter(doms[u], ConsistentWith(p, v, x, u)) == []
  {
    u :| u in p.neighbors[v] && u !in asg && !Viable(p, doms, v, x, u);
  }

  /** A forward check that wipes out a neighbour's domain rules out every
      solution within the current domains that extends the assignment. */
  lemma WipeoutComplete<V(!new), D(!new)>(p: Problem<V, D>, init: map<V, seq<D>>, doms: map<V, seq<D>>, asg: map<V, D>, v: V, x: D)
    requires WellFormed(p) && AllLinked(p)
    requires v in p.variables && v !in asg && p.neighbors[v] <= doms.Keys
    requires !forall u | u in p.neighbors[v] && u !in asg[v := x] :: Viable(p, doms, v, x, u)
    ensures Excludes(p, init, asg, doms, v, x)
  {
    var u := WipedOut(p, doms, asg[v := x], v, x);
    forall a | IsSolution(p, init, a) && Extends(a, asg) && WithinDomains(a, asg, doms) ensures !(v in a && a[v] == x) {
      assert u in a && a[u] in doms[u];
      assert AssignedConsistent(p, a);
    }
  }

  /** A successful forward check keeps every solution within the current
      domains that sets `v := x`; so if the search below finds none, there
      is none with `v := x`. */
  lemma PruningComplete<V(!new), D(!new)>(p: Problem<V, D>, init: map<V, seq<D>>, doms: map<V, seq<D>>, asg: map<V, D>, v: V, x: D, doms2: map<V, seq<D>>)
    requires v in p.variables && v !in asg && v in p.neighbors
    requires doms2.Keys == doms.Keys
    requires forall u | u in doms ::
      || doms2[u] == doms[u]
      || (u in p.neighbors[v] && u !in asg[v := x] && doms2[u] == Filter(doms[u], ConsistentWith(p, v, x, u)))
    requires NoSolutionWithin(p, init, asg[v := x], doms2)
    ensures Excludes(p, init, asg, doms, v, x)
  {
    forall a | IsSolution(p, init, a) && Extends(a, asg) && WithinDomains(a, asg, doms)
      ensures !(v in a && a[v] == x)
    {
      if v in a && a[v] == x {
        assert AssignedConsistent(p, a);
        forall u | u in a && u !in asg[v := x] ensures u in doms2 && a[u] in doms2[u] {
          if doms2[u] != doms[u] {
            assert ConsistentWith(p, v, x, u)(a[u]);
          }
        }
      }
    }
  }

  lemma ExcludesSameDomains<V(!new), D(!new)>(p: Problem<V, D>, init: map<V, seq<D>>, asg: map<V, D>, doms: map<V, seq<D>>, doms2: map<V, seq<D>>, v: V, x: D)
    requires SameDomains(doms, doms2)
    requires Excludes(p, init, asg, doms2, v, x)
    ensures Excludes(p, init, asg, doms, v, x)
  {
    forall a | IsSolution(p, init, a) && Extends(a, asg) && WithinDomains(a, asg, doms) ensures !(v in a && a[v] == x) {
      SameDomainsWithin(a, asg, doms, doms2);
    }
  }

  /** The loop invariant of `TryAll` carried over one more candidate. */
  lemma ExcludesNext<V(!new), D(!new)>(p: Problem<V, D>, init: map<V, seq<D>>, asg: map<V, D>, doms: map<V, seq<D>>, doms2: map<V, seq<D>>, v: V, candidates: seq<D>, k: nat)
    requires k < |candidates| && SameDomains(doms, doms2)
    requires forall j | 0 <= j < k :: Excludes(p, init, asg, doms, v, candidates[j])
    requires Excludes(p, init, asg, doms2, v, candidates[k])
    ensures forall j | 0 <= j < k + 1 :: Excludes(p, init, asg, doms, v, candidates[j])
  {
    ExcludesSameDomains(p, init, asg, doms, doms2, v, candidates[k]);
  }

  /** Once every value of an unassigned `v` has been excluded, no solution
      extends the assignment within the current domains. */
  lemma AllCandidatesExcluded<V(!new), D(!new)>(p: Problem<V, D>, init: map<V, seq<D>>, asg: map<V, D>, doms: map<V, seq<D>>, v: V, candidates: seq<D>)
    requires v in p.variables && v !in asg && v in doms
    requires multiset(candidates) == multiset(doms[v])
    requires forall k | 0 <= k < |candidates| :: Excludes(p, init, asg, doms, v, candidates[k])
    ensures NoSolutionWithin(p, init, asg, doms)
  {
    forall a | IsSolution(p, init, a) && Extends(a, asg) ensures !WithinDomains(a, asg, doms) {
      assert v in a && v !in asg;
      if a[v] in candidates {
        var k :| 0 <= k < |candidates| && candidates[k] == a[v];
        assert Excludes(p, init, asg, doms, v, candidates[k]);
      } else {
        assert a[v] !in multiset(doms[v]);
      }
    }
  }

  /** `backtrack`, solver/csp.py:53-55: the tentative assignment `v := x` and the
      forward check it triggers, with what the search needs of the result. */
  method Narrow<V(==,!new), D(==,!new)>(p: Problem<V, D>, init: map<V, seq<D>>, doms: map<V, seq<D>>, asg: map<V, D>, v: V, x: D)
    returns (ok: bool, checked: map<V, seq<D>>, pruned: map<V, seq<D>>)
    requires Searchable(p, init, doms, asg)
    requires v in p.variables && v !in asg && x in doms[v]
    requires AgreesWithAssignment(p, asg, v, x)
    ensures checked.Keys == doms.Keys
    ensures forall u | u in doms :: Kept(doms, checked, pruned, u)
    ensures ok ==> Searchable(p, init, checked, asg[v := x])
    ensures !ok && AllLinked(p) ==> Excludes(p, init, asg, doms, v, x)
    ensures ok && AllLinked(p) && NoSolutionWithin(p, init, asg[v := x], checked) ==> Excludes(p, init, asg, doms, v, x)
  {
    ok, checked, pruned := ForwardCheck(p, doms, asg[v := x], v, x);
    if !ok {
      if AllLinked(p) {
        WipeoutComplete(p, init, doms, asg, v, x);
      }
      return;
    }
    forall u | u in doms ensures multiset(checked[u]) <= multiset(doms[u]) {
      assert Kept(doms, checked, pruned, u);
    }
    ExtendPreservesSearchable(p, init, doms, asg, v, x, checked);
    if AllLinked(p) && NoSolutionWithin(p, init, asg[v := x], checked) {
      PruningComplete(p, init, doms, asg, v, x, checked);
    }
  }

  /** One candidate `v := x` of `backtrack`: the local check against every
      assigned variable, then `Descend`. */
  method TryCandidate<V(==,!new), D(==,!new)>(p: Problem<V, D>, init: map<V, seq<D>>, doms: map<V, seq<D>>, asg: map<V, D>, v: V, x: D)
    returns (res: Option<map<V, D>>, doms': map<V, seq<D>>)
    requires Searchable(p, init, doms, asg)
    requires v in p.variables && v !in asg && x in doms[v]
    ensures res.Some? ==> IsSolution(p, init, res.value) && Extends(res.value, asg[v := x])
    ensures res.None? && AllLinked(p) ==> Excludes(p, init, asg, doms, v, x)
    ensures res.None? ==> SameDomains(doms, doms')
    decreases |Elems(p.variables) - asg.Keys|, 1
  {
    if AgreesWithAssignment(p, asg, v, x) {
      res, doms' := Descend(p, init, doms, asg, v, x);
    } else {
      if AllLinked(p) {
        LocalCheckComplete(p, init, asg, doms, v, x);
      }
      res, doms' := None, doms;
    }
  }

  /** A candidate that passed the local check: forward checking, the
      recursive search, and on failure the undo (`del self.assignment[v]`
      and restoring the trail). */
  method Descend<V(==,!new), D(==,!new)>(p: Problem<V, D>, init: map<V, seq<D>>, doms: map<V, seq<D>>, asg: map<V, D>, v: V, x: D)
    returns (res: Option<map<V, D>>, doms': map<V, seq<D>>)
    requires Searchable(p, init, doms, asg)
    requires v in p.variables && v !in asg && x in doms[v]
    requires AgreesWithAssignment(p, asg, v, x)
    ensures res.Some? ==> IsSolution(p, init, res.value) && Extends(res.value, asg[v := x])
    ensures res.None? && AllLinked(p) ==> Excludes(p, init, asg, doms, v, x)
    ensures res.None? ==> SameDomains(doms, doms')
    decreases |Elems(p.variables) - asg.Keys|, 0
  {
    var ok, checked, pruned := Narrow(p, init, doms, asg, v, x);
    var after := checked;
    if ok {
      Shrinks(Elems(p.variables), asg, v, x);
      var r, d := Backtrack(p, init, checked, asg[v := x]);
      if r.Some? {
        return r, d;
      }
      after := d;
    }
    RestoreExact(doms, checked, after, pruned);
    doms' := Restore(after, pruned);
    res := None;
  }

  /** The loop of `backtrack` over the LCV order of `v`: the candidates in
      order until one leads to a solution. */
  method TryAll<V(==,!new), D(==,!new)>(p: Problem<V, D>, init: map<V, seq<D>>, doms: map<V, seq<D>>, asg: map<V, D>, v: V, candidates: seq<D>)
    returns (res: Option<map<V, D>>, doms': map<V, seq<D>>)
    requires Searchable(p, init, doms, asg)
    requires v in p.variables && v !in asg
    requires v in doms && multiset(candidates) == multiset(doms[v])
    ensures res.Some? ==> IsSolution(p, init, res.value) && Extends(res.value, asg)
    ensures res.Some? ==> exists k | 0 <= k < |candidates| ::
      && v in res.value && res.value[v] == candidates[k]
      && (AllLinked(p) ==> forall j | 0 <= j < k :: Excludes(p, init, asg, doms, v, candidates[j]))
    ensures res.None? && AllLinked(p) ==> forall k | 0 <= k < |candidates| :: Excludes(p, init, asg, doms, v, candidates[k])
    ensures res.None? ==> SameDomains(doms, doms')
    decreases |Elems(p.variables) - asg.Keys|, 2
  {
    doms' := doms;
    var k := 0;
    while k < |candidates|
      invariant 0 <= k <= |candidates|
      invariant SameDomains(doms, doms')
      invariant AllLinked(p) ==> forall j | 0 <= j < k :: Excludes(p, init, asg, doms, v, candidates[j])
    {
      SameDomainsSearchable(p, init, doms, doms', asg);
      assert candidates[k] in multiset(doms[v]);
      SameDomainsMembers(doms, doms', v, candidates[k]);
      var r, d := TryCandidate(p, init, doms', asg, v, candidates[k]);
      if r.Some? {
        assert v in r.value && r.value[v] == candidates[k];
        return r, d;
      }
      if AllLinked(p) {
        ExcludesNext(p, init, asg, doms, doms', v, candidates, k);
      }
      doms' := d;
      k := k + 1;
    }
    res := None;
  }

  /** `backtrack`: returns a complete assignment, or `None` with every domain
      back to its entry contents (as a multiset). */
  method Backtrack<V(==,!new), D(==,!new)>(p: Problem<V, D>, init: map<V, seq<D>>, doms: map<V, seq<D>>, asg: map<V, D>)
    returns (res: Option<map<V, D>>, doms': map<V, seq<D>>)
    requires Searchable(p, init, doms, asg)
    ensures res.Some? ==> IsSolution(p, init, res.value) && Extends(res.value, asg)
    ensures res.None? && AllLinked(p) ==> NoSolutionWithin(p, init, asg, doms)
    ensures res.None? ==> SameDomains(doms, doms')
    decreases |Elems(p.variables) - asg.Keys|, 3
  {
    CompleteWhenFull(p, asg);
    if |asg| == |p.variables| {
      return Some(asg), doms;
    }
    var i := Mrv(p, doms, asg);
    var v := p.variables[i];
    var candidates := Lcv(p, doms, asg, v);
    res, doms' := TryAll(p, init, doms, asg, v, candidates);
    if res.None? && AllLinked(p) {
      AllCandidatesExcluded(p, init, asg, doms, v, candidates);
    }
  }

  /** `CSP(variables, domains, neighbors, consistent).backtrack()`. */
  method Search<V(==,!new), D(==,!new)>(p: Problem<V, D>, domains: map<V, seq<D>>) returns (res: Option<map<V, D>>)
    requires WellFormed(p)
    requires forall v | v in p.variables :: v in domains
    ensures res.Some? ==> IsSolution(p, domains, res.value)
    ensures res.None? && AllLinked(p) ==> forall a :: !IsSolution(p, domains, a)
  {
    var doms := Init(p.variables, domains);
    var restored;
    res, restored := Backtrack(p, domains, doms, map[]);
  }
}
