/**
 The composition routers/solve.py performs: build the variables, domains,
 neighbour sets and consistency test from the context, then run the search.
 Loading the context and persisting the result are not part of this model.
 */
module Solve {
  import opened Wrappers
  import opened Seqs
  import opened Timetable
  import opened Builder
  import Csp

  /** A timetable for the context: every generated session placed, each in
      one of its own domain values, and no two sessions clashing. */
  ghost predicate IsTimetable(ctx: Context, a: map<Var, Placement>)
    requires WellFormed(ctx)
  {
    && a.Keys == Elems(VariablesOf(ctx, ctx.maps))
    && (forall v | v in a :: v.classId in ctx.classes && v.subjectId in ctx.subjects && a[v] in DomainFor(ctx, v))
    && (forall v, u | v in a && u in a && v != u :: !Clash(v, a[v], u, a[u]))
  }

  /** On the built problem, the search's notion of a solution and a
      timetable coincide. */
  lemma SolutionIsTimetable(ctx: Context, p: Csp.Problem<Var, Placement>, domains: map<Var, seq<Placement>>, a: map<Var, Placement>)
    requires WellFormed(ctx)
    requires p.variables == VariablesOf(ctx, ctx.maps) && p.consistent == Consistent
    requires forall v | v in p.neighbors :: p.neighbors[v] == Elems(p.variables) - {v}
    requires p.neighbors.Keys == Elems(p.variables)
    requires domains.Keys == Elems(p.variables)
    requires forall v | v in domains :: v.classId in ctx.classes && v.subjectId in ctx.subjects && domains[v] == DomainFor(ctx, v)
    ensures Csp.IsSolution(p, domains, a) <==> IsTimetable(ctx, a)
  {
    if Csp.IsSolution(p, domains, a) {
      forall v, u | v in a && u in a && v != u ensures !Clash(v, a[v], u, a[u]) {
        assert Csp.AssignedConsistent(p, a);
        assert p.consistent(v, a[v], u, a[u]);
      }
    }
    if IsTimetable(ctx, a) {
      forall w, u | w in a && u in a && w != u && w in p.neighbors && u in p.neighbors[w]
        ensures p.consistent(w, a[w], u, a[u])
      {
        assert !Clash(w, a[w], u, a[u]);
      }
    }
  }

  /** The solve endpoint without its I/O: `None` for "infeasible", otherwise
      the assignment that would be persisted. A returned assignment is a
      timetable; `None` means no timetable exists. */
  method Solve(ctx: Context) returns (res: Option<map<Var, Placement>>)
    requires WellFormed(ctx)
    requires Distinct(VariablesOf(ctx, ctx.maps))
    ensures res.Some? ==> IsTimetable(ctx, res.value)
    ensures res.None? ==> forall a :: !IsTimetable(ctx, a)
  {
    var variables := BuildVariables(ctx);
    var domains := BuildDomains(ctx);
    var neighbors := BuildNeighbors(variables);
    var p := Csp.Problem(variables, neighbors, Consistent);
    assert Csp.WellFormed(p);
    assert Csp.AllLinked(p);
    res := Csp.Search(p, domains);
    if res.Some? {
      SolutionIsTimetable(ctx, p, domains, res.value);
    } else {
      forall a ensures !IsTimetable(ctx, a) {
        SolutionIsTimetable(ctx, p, domains, a);
      }
    }
  }

  /** No session of a timetable sits in a lunch slot. */
  lemma TimetableAvoidsLunch(ctx: Context, a: map<Var, Placement>, v: Var, i: int)
    requires WellFormed(ctx) && IsTimetable(ctx, a)
    requires forall s, t | 0 <= s < t < |ctx.slotList| :: ctx.slotList[s].id != ctx.slotList[t].id
    requires v in a && 0 <= i < |ctx.slotList| && ctx.slotList[i].id == a[v].slotId
    ensures !ctx.slotList[i].isLunch
  {
    NoLunch(ctx.slotList, ctx.rooms, ctx.subjects[v.subjectId], ctx.classes[v.classId], a[v], i);
  }

  /** Every session of a timetable is in a room of the subject's type that
      seats its class. */
  lemma TimetableRoomsFit(ctx: Context, a: map<Var, Placement>, v: Var)
    requires WellFormed(ctx) && IsTimetable(ctx, a)
    requires v in a
    ensures exists j | 0 <= j < |ctx.rooms| ::
      ctx.rooms[j].id == a[v].roomId && RoomFits(ctx.rooms[j], ctx.subjects[v.subjectId], ctx.classes[v.classId])
  {
    var sub, cl := ctx.subjects[v.subjectId], ctx.classes[v.classId];
    DomainMembers(ctx.slotList, ctx.rooms, sub, cl, a[v]);
    var i, j :| 0 <= i < |ctx.slotList| && 0 <= j < |ctx.rooms| &&
      !ctx.slotList[i].isLunch && RoomFits(ctx.rooms[j], sub, cl) && a[v] == Placement(ctx.slotList[i].id, ctx.rooms[j].id);
    assert ctx.rooms[j].id == a[v].roomId;
  }
}
