/**
 The problem builder of solver/build_problem.py: from the timetable context to
 the variables, domains, neighbour sets and consistency test of a CSP.

 Each builder step has a reference definition or predicate (a recursive
 function over the context's sequences where there is a list to build) and,
 where the Python code loops, a method with the same loops proved equal to it.
 */
module Builder {
  import opened Wrappers
  import opened Seqs
  import opened Timetable

  // ---------------------------------------------------------------------
  // Session counts and variables
  // ---------------------------------------------------------------------

  /** `sessions_for_map`: `m.required_hours or sub.hours_per_week`. Python's
      `or` falls back on `None` and on an explicit 0 alike; any other value,
      negative ones included, is taken as it is. */
  function SessionsFor(ctx: Context, m: ClassSubject): (n: int)
    requires m.subjectId in ctx.subjects
    ensures m.requiredHours.Some? && m.requiredHours.value != 0 ==> n == m.requiredHours.value
    ensures m.requiredHours == None || m.requiredHours == Some(0) ==> n == ctx.subjects[m.subjectId].hoursPerWeek
  {
    match m.requiredHours
    case Some(h) => if h != 0 then h else ctx.subjects[m.subjectId].hoursPerWeek
    case None => ctx.subjects[m.subjectId].hoursPerWeek
  }

  /** The variables `range(n)` yields for one mapping: session indices
      `0 .. n-1` in ascending order, none at all when `n <= 0`. */
  function SessionVars(m: ClassSubject, n: int): (r: seq<Var>)
    ensures |r| == if n < 0 then 0 else n
    ensures forall k | 0 <= k < |r| :: r[k] == Var(m.classId, m.subjectId, m.teacherId, k)
  {
    if n <= 0 then [] else SessionVars(m, n - 1) + [Var(m.classId, m.subjectId, m.teacherId, n - 1)]
  }

  ghost predicate SubjectsKnown(ctx: Context, maps: seq<ClassSubject>)
  {
    forall m | m in maps :: m.subjectId in ctx.subjects
  }

  /** The reference list of variables: the mappings' session blocks, in
      mapping order. */
  function VariablesOf(ctx: Context, maps: seq<ClassSubject>): seq<Var>
    requires SubjectsKnown(ctx, maps)
  {
    if maps == [] then []
    else
      var last := maps[|maps| - 1];
      VariablesOf(ctx, maps[..|maps| - 1]) + SessionVars(last, SessionsFor(ctx, last))
  }

  /** The sum of the session counts, a negative count adding nothing. */
  function TotalSessions(ctx: Context, maps: seq<ClassSubject>): nat
    requires SubjectsKnown(ctx, maps)
  {
    if maps == [] then 0
    else
      var n := SessionsFor(ctx, maps[0]);
      (if n < 0 then 0 else n) + TotalSessions(ctx, maps[1..])
  }

  /** The variables of two runs of mappings are the two blocks of variables
      one after the other: mapping order is kept. */
  lemma {:induction false} VariablesAppend(ctx: Context, a: seq<ClassSubject>, b: seq<ClassSubject>)
    requires SubjectsKnown(ctx, a) && SubjectsKnown(ctx, b)
    ensures SubjectsKnown(ctx, a + b)
    ensures VariablesOf(ctx, a + b) == VariablesOf(ctx, a) + VariablesOf(ctx, b)
  {
    if b == [] {
      assert a + b == a;
    } else {
      var b', last := b[..|b| - 1], b[|b| - 1];
      assert last in b;
      VariablesAppend(ctx, a, b');
      assert (a + b)[..|a + b| - 1] == a + b';
      assert (a + b)[|a + b| - 1] == last;
    }
  }

  /** `build_variables` emits one variable per required session, so the list
      is as long as the sum of the session counts. */
  lemma {:induction false} VariablesCount(ctx: Context, maps: seq<ClassSubject>)
    requires SubjectsKnown(ctx, maps)
    ensures |VariablesOf(ctx, maps)| == TotalSessions(ctx, maps)
  {
    if maps != [] {
      VariablesCount(ctx, maps[1..]);
      assert maps == [maps[0]] + maps[1..];
      VariablesAppend(ctx, [maps[0]], maps[1..]);
      assert [maps[0]][..0] == [];
    }
  }

  /** Mapping `m` yields variable `v`: same class, subject and teacher, and a
      session index below the mapping's session count. */
  ghost predicate Generates(ctx: Context, m: ClassSubject, v: Var)
    requires m.subjectId in ctx.subjects
  {
    && v.classId == m.classId && v.subjectId == m.subjectId && v.teacherId == m.teacherId
    && 0 <= v.session < SessionsFor(ctx, m)
  }

  /** A variable is generated exactly when some mapping carries its class,
      subject and teacher and needs more sessions than its index. */
  lemma {:induction false} VariablesMembers(ctx: Context, maps: seq<ClassSubject>, v: Var)
    requires SubjectsKnown(ctx, maps)
    ensures v in VariablesOf(ctx, maps) <==> exists i | 0 <= i < |maps| :: Generates(ctx, maps[i], v)
  {
    if maps != [] {
      var init, last := maps[..|maps| - 1], maps[|maps| - 1];
      VariablesMembers(ctx, init, v);
      var block := SessionVars(last, SessionsFor(ctx, last));
      if v in block {
        var k :| 0 <= k < |block| && block[k] == v;
        assert maps[|maps| - 1] == last;
      }
      if exists i | 0 <= i < |maps| :: Generates(ctx, maps[i], v) {
        var i :| 0 <= i < |maps| && Generates(ctx, maps[i], v);
        if i == |maps| - 1 {
          assert block[v.session] == v;
        } else {
          assert init[i] == maps[i];
        }
      }
    }
  }

  /** Every generated variable names a class and a subject of the context. */
  lemma VariablesKnown(ctx: Context, v: Var)
    requires WellFormed(ctx)
    requires v in VariablesOf(ctx, ctx.maps)
    ensures v.classId in ctx.classes && v.subjectId in ctx.subjects
  {
    VariablesMembers(ctx, ctx.maps, v);
    var i :| 0 <= i < |ctx.maps| && Generates(ctx, ctx.maps[i], v);
    assert ctx.maps[i] in ctx.maps;
  }

  /** The inner loop of `build_variables`: session indices 0 .. n-1. */
  method BuildSessions(m: ClassSubject, n: int) returns (block: seq<Var>)
    ensures block == SessionVars(m, n)
  {
    block := [];
    var k := 0;
    while k < n
      invariant 0 <= k <= if n < 0 then 0 else n
      invariant block == SessionVars(m, k)
    {
      block := block + [Var(m.classId, m.subjectId, m.teacherId, k)];
      k := k + 1;
    }
  }

  /** `build_variables`: for each mapping in order, its sessions `0 .. n-1`. */
  method BuildVariables(ctx: Context) returns (vars: seq<Var>)
    requires SubjectsKnown(ctx, ctx.maps)
    ensures vars == VariablesOf(ctx, ctx.maps)
  {
    vars := [];
    var i := 0;
    while i < |ctx.maps|
      invariant 0 <= i <= |ctx.maps|
      invariant vars == VariablesOf(ctx, ctx.maps[..i])
    {
      var m := ctx.maps[i];
      var block := BuildSessions(m, SessionsFor(ctx, m));
      vars := vars + block;
      assert ctx.maps[..i + 1][..i] == ctx.maps[..i];
      i := i + 1;
    }
    assert ctx.maps[..|ctx.maps|] == ctx.maps;
  }

  // ---------------------------------------------------------------------
  // Domains
  // ---------------------------------------------------------------------

  /** `timeslot_ok`: a lunch slot is never usable; the subject is not
      consulted. */
  function TimeslotOk(slot: Timeslot, sub: Subject): (ok: bool)
    ensures ok <==> !slot.isLunch
  {
    if slot.isLunch then false else true
  }

  /** The room filter of `build_domains`: the room's type is the subject's
      and it seats the whole class. */
  predicate RoomFits(room: Room, sub: Subject, cl: ClassGroup)
  {
    room.kind == sub.kind && room.capacity >= cl.size
  }

  /** The values one usable slot contributes: one per fitting room, in room
      order. */
  function RoomsAt(slot: Timeslot, rooms: seq<Room>, sub: Subject, cl: ClassGroup): seq<Placement>
  {
    if rooms == [] then []
    else
      var room := rooms[|rooms| - 1];
      RoomsAt(slot, rooms[..|rooms| - 1], sub, cl) + (if RoomFits(room, sub, cl) then [Placement(slot.id, room.id)] else [])
  }

  /** The reference domain: slots in `slot_list` order, each usable one
      followed by its fitting rooms. */
  function DomainOver(slots: seq<Timeslot>, rooms: seq<Room>, sub: Subject, cl: ClassGroup): seq<Placement>
  {
    if slots == [] then []
    else
      var slot := slots[|slots| - 1];
      DomainOver(slots[..|slots| - 1], rooms, sub, cl) + (if TimeslotOk(slot, sub) then RoomsAt(slot, rooms, sub, cl) else [])
  }

  /** The domain of a variable: it depends on its class and subject only. */
  function DomainFor(ctx: Context, v: Var): seq<Placement>
    requires v.classId in ctx.classes && v.subjectId in ctx.subjects
  {
    DomainOver(ctx.slotList, ctx.rooms, ctx.subjects[v.subjectId], ctx.classes[v.classId])
  }

  lemma {:induction false} RoomsAtMembers(slot: Timeslot, rooms: seq<Room>, sub: Subject, cl: ClassGroup, x: Placement)
    ensures x in RoomsAt(slot, rooms, sub, cl) <==>
      x.slotId == slot.id && exists j | 0 <= j < |rooms| :: RoomFits(rooms[j], sub, cl) && x.roomId == rooms[j].id
  {
    if rooms != [] {
      var init := rooms[..|rooms| - 1];
      RoomsAtMembers(slot, init, sub, cl, x);
      if exists j | 0 <= j < |rooms| :: RoomFits(rooms[j], sub, cl) && x.roomId == rooms[j].id {
        var j :| 0 <= j < |rooms| && RoomFits(rooms[j], sub, cl) && x.roomId == rooms[j].id;
        if j < |rooms| - 1 {
          assert init[j] == rooms[j];
        }
      }
    }
  }

  /** A domain is exactly the filtered product: `(slot, room)` is in it iff
      the slot is not a lunch slot and the room fits. */
  lemma {:induction false} DomainMembers(slots: seq<Timeslot>, rooms: seq<Room>, sub: Subject, cl: ClassGroup, x: Placement)
    ensures x in DomainOver(slots, rooms, sub, cl) <==>
      exists i, j | 0 <= i < |slots| && 0 <= j < |rooms| ::
        !slots[i].isLunch && RoomFits(rooms[j], sub, cl) && x == Placement(slots[i].id, rooms[j].id)
  {
    if slots != [] {
      var init, slot := slots[..|slots| - 1], slots[|slots| - 1];
      DomainMembers(init, rooms, sub, cl, x);
      RoomsAtMembers(slot, rooms, sub, cl, x);
      if exists i, j | 0 <= i < |slots| && 0 <= j < |rooms| ::
          !slots[i].isLunch && RoomFits(rooms[j], sub, cl) && x == Placement(slots[i].id, rooms[j].id)
      {
        var i, j :| 0 <= i < |slots| && 0 <= j < |rooms| &&
          !slots[i].isLunch && RoomFits(rooms[j], sub, cl) && x == Placement(slots[i].id, rooms[j].id);
        if i < |slots| - 1 {
          assert init[i] == slots[i];
        }
      }
      if x in DomainOver(init, rooms, sub, cl) {
        var i, j :| 0 <= i < |init| && 0 <= j < |rooms| &&
          !init[i].isLunch && RoomFits(rooms[j], sub, cl) && x == Placement(init[i].id, rooms[j].id);
        assert slots[i] == init[i];
      }
    }
  }

  /** No domain value lies in a lunch slot (slot ids being unique). */
  lemma NoLunch(slots: seq<Timeslot>, rooms: seq<Room>, sub: Subject, cl: ClassGroup, x: Placement, i: int)
    requires forall a, b | 0 <= a < b < |slots| :: slots[a].id != slots[b].id
    requires x in DomainOver(slots, rooms, sub, cl)
    requires 0 <= i < |slots| && slots[i].id == x.slotId
    ensures !slots[i].isLunch
  {
    DomainMembers(slots, rooms, sub, cl, x);
    var i', j :| 0 <= i' < |slots| && 0 <= j < |rooms| &&
      !slots[i'].isLunch && RoomFits(rooms[j], sub, cl) && x == Placement(slots[i'].id, rooms[j].id);
    assert i == i';
  }

  lemma {:induction false} RoomsAtAppend(slot: Timeslot, a: seq<Room>, b: seq<Room>, sub: Subject, cl: ClassGroup)
    ensures RoomsAt(slot, a + b, sub, cl) == RoomsAt(slot, a, sub, cl) + RoomsAt(slot, b, sub, cl)
  {
    if b == [] {
      assert a + b == a;
    } else {
      var b' := b[..|b| - 1];
      assert (a + b)[..|a + b| - 1] == a + b';
      RoomsAtAppend(slot, a, b', sub, cl);
    }
  }

  /** Domain order is slot-major: the values of an earlier run of slots all
      precede those of a later run. */
  lemma {:induction false} DomainAppend(a: seq<Timeslot>, b: seq<Timeslot>, rooms: seq<Room>, sub: Subject, cl: ClassGroup)
    ensures DomainOver(a + b, rooms, sub, cl) == DomainOver(a, rooms, sub, cl) + DomainOver(b, rooms, sub, cl)
  {
    if b == [] {
      assert a + b == a;
    } else {
      var b' := b[..|b| - 1];
      assert (a + b)[..|a + b| - 1] == a + b';
      DomainAppend(a, b', rooms, sub, cl);
    }
  }

  /** The body of the variable loop of `build_domains`: the usable slots in
      order and, for each, the fitting rooms in order. */
  method BuildDomain(slots: seq<Timeslot>, rooms: seq<Room>, sub: Subject, cl: ClassGroup) returns (vals: seq<Placement>)
    ensures vals == DomainOver(slots, rooms, sub, cl)
  {
    vals := [];
    var s := 0;
    while s < |slots|
      invariant 0 <= s <= |slots|
      invariant vals == DomainOver(slots[..s], rooms, sub, cl)
    {
      var slot := slots[s];
      ghost var before := vals;
      if TimeslotOk(slot, sub) {
        var r := 0;
        while r < |rooms|
          invariant 0 <= r <= |rooms|
          invariant vals == before + RoomsAt(slot, rooms[..r], sub, cl)
        {
          var room := rooms[r];
          assert rooms[..r + 1][..r] == rooms[..r];
          if room.kind != sub.kind {
          } else if room.capacity < cl.size {
          } else {
            vals := vals + [Placement(slot.id, room.id)];
          }
          r := r + 1;
        }
        assert rooms[..|rooms|] == rooms;
      }
      assert slots[..s + 1][..s] == slots[..s];
      s := s + 1;
    }
    assert slots[..|slots|] == slots;
  }

  /** Every entry of a domain table is the reference domain of a variable
      whose class and subject are known. */
  ghost predicate DomainTable(ctx: Context, domains: map<Var, seq<Placement>>)
  {
    forall v | v in domains :: v.classId in ctx.classes && v.subjectId in ctx.subjects && domains[v] == DomainFor(ctx, v)
  }

  /** One step of the variable loop of `build_domains`: `domains[v] = vals`. */
  lemma AddDomain(ctx: Context, domains: map<Var, seq<Placement>>, v: Var, vals: seq<Placement>)
    requires DomainTable(ctx, domains)
    requires v.classId in ctx.classes && v.subjectId in ctx.subjects && vals == DomainFor(ctx, v)
    ensures DomainTable(ctx, domains[v := vals])
  {
  }

  lemma ElemsPrefix<T>(s: seq<T>, i: int)
    requires 0 <= i < |s|
    ensures Elems(s[..i + 1]) == Elems(s[..i]) + {s[i]}
  {
    assert s[..i + 1] == s[..i] + [s[i]];
  }

  /** `build_domains`: one domain per generated variable, computed from its
      class and subject. */
  method BuildDomains(ctx: Context) returns (domains: map<Var, seq<Placement>>)
    requires WellFormed(ctx)
    ensures domains.Keys == Elems(VariablesOf(ctx, ctx.maps))
    ensures forall v | v in domains :: v.classId in ctx.classes && v.subjectId in ctx.subjects && domains[v] == DomainFor(ctx, v)
  {
    var vars := BuildVariables(ctx);
    domains := map[];
    var i := 0;
    while i < |vars|
      invariant 0 <= i <= |vars|
      invariant domains.Keys == Elems(vars[..i])
      invariant DomainTable(ctx, domains)
    {
      var v := vars[i];
      VariablesKnown(ctx, v);
      var vals := BuildDomain(ctx.slotList, ctx.rooms, ctx.subjects[v.subjectId], ctx.classes[v.classId]);
      AddDomain(ctx, domains, v, vals);
      ElemsPrefix(vars, i);
      domains := domains[v := vals];
      i := i + 1;
    }
    assert vars[..|vars|] == vars;
  }

  // ---------------------------------------------------------------------
  // Neighbours
  // ---------------------------------------------------------------------

  /** `v` and `u` sit at two different positions of `s` (in either order). */
  ghost predicate Adjacent<V>(s: seq<V>, v: V, u: V)
  {
    exists a, b | 0 <= a < b < |s| :: (s[a] == v && s[b] == u) || (s[a] == u && s[b] == v)
  }

  /** Like `Adjacent`, over the position pairs `(a, b)` that precede `(i, j)`
      in the order the nested loops of `build_neighbors` visit them. */
  ghost predicate Covered<V>(s: seq<V>, v: V, u: V, i: int, j: int)
  {
    exists a, b | 0 <= a < b < |s| && (a < i || (a == i && b < j)) :: (s[a] == v && s[b] == u) || (s[a] == u && s[b] == v)
  }

  lemma CoveredStep<V>(s: seq<V>, v: V, u: V, i: int, j: int)
    requires 0 <= i < j < |s|
    ensures Covered(s, v, u, i, j + 1) <==> Covered(s, v, u, i, j) || (s[i] == v && s[j] == u) || (s[i] == u && s[j] == v)
  {
    if Covered(s, v, u, i, j + 1) {
      var a, b :| 0 <= a < b < |s| && (a < i || (a == i && b < j + 1)) && ((s[a] == v && s[b] == u) || (s[a] == u && s[b] == v));
      if !(a == i && b == j) {
        assert Covered(s, v, u, i, j);
      }
    }
  }

  lemma CoveredRow<V>(s: seq<V>, v: V, u: V, i: int)
    requires 0 <= i < |s|
    ensures Covered(s, v, u, i, |s|) <==> Covered(s, v, u, i + 1, i + 2)
  {
    if Covered(s, v, u, i + 1, i + 2) {
      var a, b :| 0 <= a < b < |s| && (a < i + 1 || (a == i + 1 && b < i + 2)) && ((s[a] == v && s[b] == u) || (s[a] == u && s[b] == v));
      assert a < i || (a == i && b < |s|);
    }
  }

  /** For distinct variables, adjacency is just "both present, different". */
  lemma AdjacentDistinct<V>(s: seq<V>, v: V, u: V)
    requires Distinct(s)
    ensures Adjacent(s, v, u) <==> v in s && u in s && v != u
  {
    if v in s && u in s && v != u {
      var a :| 0 <= a < |s| && s[a] == v;
      var b :| 0 <= b < |s| && s[b] == u;
      if a < b {
        assert s[a] == v && s[b] == u;
      } else {
        assert s[b] == u && s[a] == v;
      }
    }
  }

  /** The neighbour map after the pairs before `(i, j)` have been linked. */
  ghost predicate LinkedUpTo<V(!new)>(s: seq<V>, n: map<V, set<V>>, i: int, j: int)
  {
    && n.Keys == Elems(s)
    && forall v, u | v in n :: u in n[v] <==> Covered(s, v, u, i, j)
  }

  /** Links `v` and `u`: adds `u` to `v`'s set and `v` to `u`'s. */
  function Link<V>(n: map<V, set<V>>, v: V, u: V): (r: map<V, set<V>>)
    requires v in n && u in n
    ensures r.Keys == n.Keys
  {
    var n' := n[v := n[v] + {u}];
    n'[u := n'[u] + {v}]
  }

  lemma LinkStep<V(!new)>(s: seq<V>, n: map<V, set<V>>, i: int, j: int)
    requires 0 <= i < j < |s|
    requires LinkedUpTo(s, n, i, j)
    ensures s[i] in n && s[j] in n
    ensures LinkedUpTo(s, Link(n, s[i], s[j]), i, j + 1)
  {
    var r := Link(n, s[i], s[j]);
    forall v, u | v in r ensures u in r[v] <==> Covered(s, v, u, i, j + 1) {
      CoveredStep(s, v, u, i, j);
    }
  }

  lemma RowDone<V(!new)>(s: seq<V>, n: map<V, set<V>>, i: int)
    requires 0 <= i < |s|
    requires LinkedUpTo(s, n, i, |s|)
    ensures LinkedUpTo(s, n, i + 1, i + 2)
  {
    forall v, u | v in n ensures u in n[v] <==> Covered(s, v, u, i + 1, i + 2) {
      CoveredRow(s, v, u, i);
    }
  }

  lemma AllLinkedUp<V(!new)>(s: seq<V>, n: map<V, set<V>>)
    requires LinkedUpTo(s, n, |s|, |s| + 1)
    ensures forall v, u | v in n :: u in n[v] <==> Adjacent(s, v, u)
  {
    forall v, u | v in n ensures u in n[v] <==> Adjacent(s, v, u) {
      if Adjacent(s, v, u) {
        var a, b :| 0 <= a < b < |s| && ((s[a] == v && s[b] == u) || (s[a] == u && s[b] == v));
        assert Covered(s, v, u, |s|, |s| + 1);
      }
    }
  }

  /** One row of `build_neighbors`: position `i` is linked with every later
      position. */
  method LinkRow<V(==,!new)>(variables: seq<V>, n: map<V, set<V>>, i: int) returns (n': map<V, set<V>>)
    requires 0 <= i < |variables|
    requires LinkedUpTo(variables, n, i, i + 1)
    ensures LinkedUpTo(variables, n', i + 1, i + 2)
  {
    n' := n;
    var j := i + 1;
    while j < |variables|
      invariant i + 1 <= j <= |variables|
      invariant LinkedUpTo(variables, n', i, j)
    {
      LinkStep(variables, n', i, j);
      n' := Link(n', variables[i], variables[j]);
      j := j + 1;
    }
    RowDone(variables, n', i);
  }

  /** Over distinct variables, the adjacency sets are the complete graph. */
  lemma CompleteGraph<V>(variables: seq<V>, n: map<V, set<V>>)
    requires Distinct(variables)
    requires n.Keys == Elems(variables)
    requires forall v, u | v in n :: u in n[v] <==> Adjacent(variables, v, u)
    ensures forall v | v in n :: n[v] == Elems(variables) - {v}
  {
    forall v | v in n ensures n[v] == Elems(variables) - {v} {
      forall u ensures u in n[v] <==> u in Elems(variables) - {v} {
        AdjacentDistinct(variables, v, u);
      }
    }
  }

  /** `build_neighbors`: every pair of positions `i < j` links the two
      variables both ways. */
  method BuildNeighbors<V(==,!new)>(variables: seq<V>) returns (n: map<V, set<V>>)
    ensures n.Keys == Elems(variables)
    ensures forall v, u | v in n :: u in n[v] <==> Adjacent(variables, v, u)
    ensures forall v, u | v in n && u in n :: u in n[v] <==> v in n[u]
    ensures Distinct(variables) ==> forall v | v in n :: n[v] == Elems(variables) - {v}
  {
    n := map v | v in variables :: {};
    var i := 0;
    while i < |variables|
      invariant 0 <= i <= |variables|
      invariant LinkedUpTo(variables, n, i, i + 1)
    {
      n := LinkRow(variables, n, i);
      i := i + 1;
    }
    AllLinkedUp(variables, n);
    if Distinct(variables) {
      CompleteGraph(variables, n);
    }
  }

  // ---------------------------------------------------------------------
  // Consistency
  // ---------------------------------------------------------------------

  /** Two placements clash when they share the timeslot and also the
      teacher, the class or the room. */
  predicate Clash(v: Var, x: Placement, u: Var, y: Placement)
  {
    x.slotId == y.slotId && (v.teacherId == u.teacherId || v.classId == u.classId || x.roomId == y.roomId)
  }

  /** The closure `consistent_factory(ctx)` returns (it never reads `ctx`). */
  function Consistent(v: Var, x: Placement, u: Var, y: Placement): (r: bool)
    ensures x.slotId != y.slotId ==> r
    ensures r <==> !Clash(v, x, u, y)
  {
    if x.slotId != y.slotId then true
    else if v.teacherId == u.teacherId then false
    else if v.classId == u.classId then false
    else if x.roomId == y.roomId then false
    else true
  }

  /** The test does not depend on which of the two variables comes first. */
  lemma ConsistentSymmetric(v: Var, x: Placement, u: Var, y: Placement)
    ensures Consistent(v, x, u, y) == Consistent(u, y, v, x)
  {
  }
}
