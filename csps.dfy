/** lib/csp.py: the registry of variables and constraints, the index from
    each variable to the constraints it takes part in, the set of unassigned
    variables, assignment with rollback, and (for binary CSPs) AC-3. */
module Csps {
  import opened Common
  import opened Variables
  import opened Constraints

  class Csp {
    /** `_variables` */
    var variables: set<Variable>
    /** `_constraints` */
    var constraints: set<Constraint>
    /** `_variable_constraints`: the constraints each variable takes part in. */
    var incident: map<Variable, set<Constraint>>
    /** `_unassigned_variables` */
    var unassigned: set<Variable>

    /** The registry is well formed: the index has an entry for exactly the
        registered variables, every constraint's participants are registered
        and indexed under it, and the index holds nothing else. */
    ghost predicate Valid()
      reads this
    {
      Indexed(variables, constraints, incident) && unassigned <= variables
    }

    /** The unassigned set holds exactly the registered variables whose value is `None`. */
    ghost predicate Consistent()
      reads this, variables
    {
      Tracks(unassigned, Known())
    }

    /** Every registered constraint checks true on the current values. */
    ghost predicate AllChecked()
      reads this, variables
    {
      CheckedIn(constraints, Known())
    }

    /** `assign(v, x)` succeeds from the current state: the setter accepts
        `x`, and every constraint indexed under `v` checks true once `v`
        holds `x`. */
    ghost predicate Admissible(v: Variable, x: Option<int>)
      requires Valid() && v in variables
      reads this, variables
    {
      v.Accepts(x) && forall c :: c in incident[v] ==> c.CheckWith(v, x)
    }

    /** `s` completes the current partial assignment: it keeps the value of
        every assigned variable, gives every unassigned one a value from its
        domain, and satisfies every registered constraint. */
    ghost predicate Extends(s: map<Variable, int>)
      reads this, variables
    {
      Completes(constraints, Known(), Domains(), s)
    }

    /** The current values, once every registered variable has one. */
    ghost function Assignment(): (s: map<Variable, int>)
      requires forall v :: v in variables ==> v.value.Some?
      reads this, variables
      ensures s.Keys == variables
      ensures forall v :: v in variables ==> s[v] == v.value.value
    {
      map v | v in variables :: v.value.value
    }

    /** The current value of every registered variable, as a value. */
    ghost function Known(): (known: map<Variable, Option<int>>)
      reads this`variables, variables`value
      ensures known.Keys == variables
      ensures forall v :: v in variables ==> known[v] == v.value
    {
      map v | v in variables :: v.value
    }

    /** The current domain of every registered variable, as a value. */
    ghost function Domains(): (dom: map<Variable, set<int>>)
      reads this`variables, variables`domain
      ensures dom.Keys == variables
      ensures forall v :: v in variables ==> dom[v] == v.domain
    {
      map v | v in variables :: v.domain
    }

    /** `Csp()`: an empty registry. */
    constructor ()
      ensures Valid()
      ensures variables == {} && constraints == {} && unassigned == {} && incident == map[]
    {
      variables := {};
      constraints := {};
      incident := map[];
      unassigned := {};
    }

    /** `add_variable(v)`: registers `v`, puts it in the unassigned set, and
        gives it an empty set of constraints (also when it was registered
        before, which forgets its constraints). */
    method AddVariable(v: Variable)
      requires Valid()
      modifies this
      ensures variables == old(variables) + {v}
      ensures unassigned == old(unassigned) + {v}
      ensures incident == old(incident)[v := {}]
      ensures constraints == old(constraints)
      ensures v !in old(variables) ==> Valid()
      ensures old(Consistent()) && v.value == None ==> Consistent()
      ensures v !in old(variables) && old(AllChecked()) ==> AllChecked()
    {
      ghost var before := Known();
      variables := variables + {v};
      unassigned := unassigned + {v};
      incident := incident[v := {}];
      assert Known() == before[v := v.value];
      if v !in old(variables) && CheckedIn(constraints, before) {
        forall c | c in constraints
          ensures c.CheckIn(Known())
        {
          c.CheckInIgnores(before, v, v.value);
        }
      }
    }

    /** `add_constraint(c)`: registers `c` and adds it to the constraint set
        of each participant, which must already be registered (otherwise the
        index lookup raises KeyError). Nothing else changes. */
    method AddConstraint(c: Constraint)
      requires Valid()
      requires forall w :: w in c.variables ==> w in variables
      modifies this`constraints, this`incident
      ensures constraints == old(constraints) + {c}
      ensures incident.Keys == old(incident).Keys
      ensures forall v :: v in incident ==>
                incident[v] == if v in c.variables then old(incident)[v] + {c} else old(incident)[v]
      ensures variables == old(variables) && unassigned == old(unassigned)
      ensures Valid()
      ensures old(AllChecked()) && c.Check() ==> AllChecked()
    {
      constraints := constraints + {c};
      var i := 0;
      while i < |c.variables|
        invariant 0 <= i <= |c.variables|
        invariant constraints == old(constraints) + {c}
        invariant variables == old(variables) && unassigned == old(unassigned)
        invariant incident.Keys == old(incident).Keys
        invariant forall v :: v in incident ==>
                    incident[v] == if v in c.variables[..i] then old(incident)[v] + {c} else old(incident)[v]
      {
        var w := c.variables[i];
        incident := incident[w := incident[w] + {c}];
        i := i + 1;
      }
      assert c.variables[..i] == c.variables;
      assert Known() == old(Known());
      c.CheckIsCheckIn(Known());
    }

    /** `assign(v, x)`: stores `x` through the value setter, then checks
        every constraint indexed under `v`. On success `v` holds `x` and
        enters or leaves the unassigned set according to whether `x` is
        `None`. On failure (InvalidValueError) the unassigned set is as
        before and the old value is written back through the setter, which
        refuses it when it has left the domain in the meantime: `v` then
        keeps the candidate it was given. The unassigned set stays in step
        with the values on every path; every constraint is still known to
        check true only after a success. */
    method Assign(v: Variable, x: Option<int>) returns (r: Outcome)
      requires Valid() && v in variables
      modifies this`unassigned, v`value
      ensures Valid()
      ensures r.Pass? <==> old(Admissible(v, x))
      ensures r.Fail? ==> r.error == InvalidValue
      ensures r.Pass? ==> v.value == x
      ensures r.Fail? ==> v.value == if old(v.Accepts(v.value)) || !old(v.Accepts(x)) then old(v.value) else x
      ensures unassigned == if r.Fail? then old(unassigned)
                            else if x == None then old(unassigned) + {v} else old(unassigned) - {v}
      ensures Known() == old(Known())[v := v.value] && Domains() == old(Domains())
      ensures old(Consistent()) ==> Consistent()
      ensures r.Pass? && old(AllChecked()) ==> AllChecked()
    {
      var last := v.value;
      var stored := v.SetValue(x);
      var ok := false;
      if stored.Pass? {
        ok := IncidentChecked(v);
        forall c | c in incident[v]
          ensures c.Check() == c.CheckWith(v, x) == old(c.CheckWith(v, x))
          ensures c.Check() == c.CheckIn(old(Known())[v := x])
        {
          c.CheckIsCheckWith(v);
          c.CheckWithIsCheckIn(v, x, old(Known())[v := x]);
        }
      }
      if !ok {
        var restored := v.SetValue(last);
        SnapshotsAfterSet(v);
        if old(Consistent()) && old(v.Accepts(v.value)) {
          TracksUpdate(unassigned, old(Known()), v, v.value, unassigned);
        }
        return Fail(InvalidValue);
      }
      if x == None {
        unassigned := unassigned + {v};
      } else {
        unassigned := unassigned - {v};
      }
      r := Pass;
      SnapshotsAfterSet(v);
      if old(Consistent()) {
        TracksUpdate(old(unassigned), old(Known()), v, x, unassigned);
      }
      if old(AllChecked()) {
        CheckedAfterSet(constraints, incident, variables, old(Known()), v, x);
      }
    }

    /** Setting the value of one registered variable changes only its entry
        of the value snapshot and nothing in the domain snapshot. */
    twostate lemma SnapshotsAfterSet(v: Variable)
      requires v in variables
      requires unchanged(this`variables)
      requires forall w :: w in variables && w != v ==> unchanged(w)
      requires v.domain == old(v.domain)
      ensures Known() == old(Known())[v := v.value] && Domains() == old(Domains())
    {
    }

    /** The loop of `assign` over the constraints indexed under `v`: true
        when each of them checks true, stopping at the first that does not. */
    method IncidentChecked(v: Variable) returns (ok: bool)
      requires Valid() && v in variables
      ensures ok <==> forall c :: c in incident[v] ==> c.Check()
    {
      ok := true;
      var todo := incident[v];
      while ok && todo != {}
        invariant todo <= incident[v]
        invariant ok ==> forall c :: c in incident[v] && c !in todo ==> c.Check()
        invariant !ok ==> exists c :: c in incident[v] && !c.Check()
        decreases todo
      {
        ghost var some := Witness(todo);
        var c :| c in todo;
        ok := c.Check();
        todo := todo - {c};
      }
    }

    /** `assign(v, None)` always succeeds: the setter accepts `None`, and
        every constraint on `v` is vacuously true while `v` is unassigned. */
    lemma UnassignIsAdmissible(v: Variable)
      requires Valid() && v in variables
      ensures Admissible(v, None)
    {
      forall c | c in incident[v]
        ensures c.CheckWith(v, None)
      {
        c.UnassignedParticipantSatisfies(v);
      }
    }

    /** When `assign(v, x)` is refused, no completion of the current values,
        with `v` itself taken as unassigned, gives `v` the value `x`: either
        `x` is outside `v`'s domain, or a constraint on `v` already fails on
        `x` and the values of the other participants. */
    lemma RefusedValue(v: Variable, x: int, known: map<Variable, Option<int>>, dom: map<Variable, set<int>>,
                       s: map<Variable, int>)
      requires Valid() && v in variables && !Admissible(v, Some(x))
      requires known == Known()[v := None] && dom == Domains()
      ensures Completes(constraints, known, dom, s) ==> s[v] != x
    {
      if x in v.domain && Completes(constraints, known, dom, s) && s[v] == x {
        var c :| c in incident[v] && !c.CheckWith(v, Some(x));
        forall w | w in c.variables
          ensures w in s
        {
          assert w in known;
        }
        forall w | w in c.variables && w != v && w.value.Some?
          ensures s[w] == w.value.value
        {
          assert known[w] == w.value;
        }
        c.RejectedCandidate(v, x, s);
      }
    }

    /** Once every variable has a value and every constraint checks true,
        the current values form a complete solution. */
    lemma SolvedStateIsSolution()
      requires Valid() && AllChecked()
      requires forall v :: v in variables ==> v.value.Some?
      ensures Extends(Assignment())
    {
      var s := Assignment();
      forall c | c in constraints
        ensures c.HoldsUnder(s)
      {
        assert c.ValuesIn(Known()) == c.ValuesUnder(s);
      }
    }

    /** `get_unassigned_variable()`: `None` exactly when the unassigned set
        is empty, otherwise some member of it (set iteration order is
        unspecified). */
    method GetUnassignedVariable() returns (r: Option<Variable>)
      ensures r == None <==> unassigned == {}
      ensures r.Some? ==> r.value in unassigned
    {
      if |unassigned| == 0 {
        return None;
      }
      ghost var some := Witness(unassigned);
      var v :| v in unassigned;
      r := Some(v);
    }

    /** `is_solved()`: the unassigned set is empty; in a consistent registry
        that means every registered variable has a value. */
    function IsSolved(): (b: bool)
      reads this, variables
      ensures b <==> unassigned == {}
      ensures Valid() && Consistent() ==> (b <==> forall v :: v in variables ==> v.value.Some?)
    {
      |unassigned| == 0
    }

    /** `get_variable_used_in_csp(original)`: scans the registered variables
        for one equal to `original`. Equality is object identity, so a
        variable of a deep copy never matches the variable it was copied from. */
    method GetVariableUsedInCsp(original: Variable) returns (r: Option<Variable>)
      ensures r == if original in variables then Some(original) else None
    {
      var todo := variables;
      while todo != {}
        invariant todo <= variables
        invariant forall w :: w in variables && w !in todo ==> w != original
        decreases todo
      {
        ghost var some := Witness(todo);
        var w :| w in todo;
        if w == original {
          return Some(w);
        }
        todo := todo - {w};
      }
      r := None;
    }

    /** The seeding loop of `apply_ac3`: both arcs `(variables[0], c)` and
        `(variables[1], c)` of every registered constraint, and nothing else. */
    method InitialArcs() returns (queue: seq<(Variable, Constraint)>)
      requires forall c :: c in constraints ==> |c.variables| == 2
      ensures forall c, y :: c in constraints && y in c.variables ==> (y, c) in queue
      ensures forall i :: 0 <= i < |queue| ==> queue[i].1 in constraints && queue[i].0 in queue[i].1.variables
    {
      queue := [];
      var todo := constraints;
      while todo != {}
        invariant todo <= constraints
        invariant forall c :: c in constraints && c !in todo ==>
                    (c.variables[0], c) in queue && (c.variables[1], c) in queue
        invariant forall i :: 0 <= i < |queue| ==> queue[i].1 in constraints && queue[i].0 in queue[i].1.variables
        decreases todo
      {
        ghost var some := Witness(todo);
        var c :| c in todo;
        queue := queue + [(c.variables[0], c), (c.variables[1], c)];
        todo := todo - {c};
      }
      forall c, y | c in constraints && y in c.variables
        ensures (y, c) in queue
      {
        assert y == c.variables[0] || y == c.variables[1];
      }
    }

    /** The re-enqueueing loop of `apply_ac3` after `x` lost values: appends,
        for every constraint incident to `x`, the arc from its other endpoint
        (`variables[0]`, or `variables[1]` when that is `x`); nothing else. */
    method Enqueue(x: Variable, queue: seq<(Variable, Constraint)>) returns (r: seq<(Variable, Constraint)>)
      requires Valid() && x in variables
      requires forall c :: c in incident[x] ==> |c.variables| == 2
      requires Arcs(constraints, queue)
      ensures Arcs(constraints, r)
      ensures |queue| <= |r| && r[..|queue|] == queue
      ensures forall c :: c in incident[x] ==> (c.Other(x), c) in r
      ensures forall i :: |queue| <= i < |r| ==> r[i].1 in incident[x] && r[i].0 == r[i].1.Other(x)
    {
      r := queue;
      var todo := incident[x];
      while todo != {}
        invariant todo <= incident[x]
        invariant Arcs(constraints, r)
        invariant |queue| <= |r| && r[..|queue|] == queue
        invariant forall c :: c in incident[x] && c !in todo ==> (c.Other(x), c) in r
        invariant forall i :: |queue| <= i < |r| ==> r[i].1 in incident[x] && r[i].0 == r[i].1.Other(x)
        decreases todo
      {
        ghost var some := Witness(todo);
        var c :| c in todo;
        var other := c.variables[0];
        if other == x {
          other := c.variables[1];
        }
        r := r + [(other, c)];
        todo := todo - {c};
      }
    }

    /** One turn of the `apply_ac3` worklist loop: pops the arc `(x, c)`;
        `revise(x)` replaces `x`'s domain by its supported part; when that
        removed something, the arcs pointing at `x` go back on the queue.
        The loop invariant is kept, and a turn either shrinks the domains or
        the queue. */
    method Ac3Step(x: Variable, c: Constraint, queue: seq<(Variable, Constraint)>, ghost dom0: map<Variable, set<int>>,
                   ghost trace: seq<(Variable, Constraint)>)
      returns (next: seq<(Variable, Constraint)>, ghost trace': seq<(Variable, Constraint)>)
      requires Valid() && forall c :: c in constraints ==> c.Revisable()
      requires |queue| > 0 && queue[0] == (x, c)
      requires Ac3Invariant(constraints, dom0, Domains(), queue, trace)
      modifies x`domain
      ensures Ac3Invariant(constraints, dom0, Domains(), next, trace')
      ensures PairsOf(Domains()) < PairsOf(old(Domains())) || (Domains() == old(Domains()) && |next| < |queue|)
    {
      ghost var dom := Domains();
      var rest := queue[1..];
      trace' := trace + [(x, c)];
      assert c in constraints && x in c.variables;
      var revised := ReviseArc(x, c);
      ghost var after := Domains();
      assert after == AfterRevise(dom, x, c);
      if revised {
        next := Enqueue(x, rest);
      } else {
        next := rest;
      }
      Ac3Turn(constraints, dom0, dom, queue, trace, next, incident[x]);
      assert Ac3Invariant(constraints, dom0, after, next, trace');
    }

    /** `constraint.revise(x)` on a registered arc, seen on the registry's
        domains. */
    method ReviseArc(x: Variable, c: Constraint) returns (revised: bool)
      requires Valid() && c in constraints && c.Revisable() && x in c.variables
      modifies x`domain
      ensures Domains() == AfterRevise(old(Domains()), x, c)
      ensures x in variables && x.domain == Domains()[x]
      ensures revised <==> Domains() != old(Domains())
      ensures revised ==> PairsOf(Domains()) < PairsOf(old(Domains()))
    {
      ghost var dom := Domains();
      assert x in variables && c.Other(x) in variables;
      revised := c.Revise(x);
      assert Domains() == dom[x := x.domain];
      if revised {
        PairsShrink(dom, x, x.domain);
      }
    }

    /** The worklist loop of `apply_ac3`: pops arcs and revises until the
        queue is empty. */
    method Propagate(queue: seq<(Variable, Constraint)>, ghost dom0: map<Variable, set<int>>,
                     ghost trace: seq<(Variable, Constraint)>)
      returns (ghost trace': seq<(Variable, Constraint)>)
      requires Valid() && forall c :: c in constraints ==> c.Revisable()
      requires Ac3Invariant(constraints, dom0, Domains(), queue, trace)
      modifies variables
      ensures forall v :: v in variables ==> v.value == old(v.value)
      ensures Ac3Invariant(constraints, dom0, Domains(), [], trace')
    {
      var pending := queue;
      trace' := trace;
      while |pending| > 0
        invariant forall v :: v in variables ==> v.value == old(v.value)
        invariant Ac3Invariant(constraints, dom0, Domains(), pending, trace')
        decreases PairsOf(Domains()), |pending|
      {
        ArcRegistered(pending);
        pending, trace' := Ac3Step(pending[0].0, pending[0].1, pending, dom0, trace');
      }
    }

    /** `apply_ac3()`: the worklist AC-3. Domains only shrink and values are
        untouched; afterwards every arc is consistent in `revise`'s sense, so
        a second run changes nothing; and when every relation is symmetric no
        solution within the domains is lost. */
    method ApplyAc3()
      requires Valid()
      requires forall c :: c in constraints ==> c.Revisable()
      modifies variables
      ensures forall v :: v in variables ==> v.value == old(v.value)
      ensures forall v :: v in variables ==> v.domain <= old(v.domain)
      ensures Settled(constraints, Domains(), [])
      ensures old(Settled(constraints, Domains(), [])) ==> forall v :: v in variables ==> v.domain == old(v.domain)
      ensures AllSymmetric(constraints) ==>
                forall s :: SolutionIn(constraints, old(Domains()), s) ==> SolutionIn(constraints, Domains(), s)
      ensures forall sub :: Shrunk(old(Domains()), sub) && Settled(constraints, sub, []) ==> Shrunk(Domains(), sub)
    {
      var queue := InitialArcs();
      EndpointsRegistered();
      ghost var dom0: map<Variable, set<int>> := Domains();
      ghost var trace := Propagate(queue, dom0, []);
      Ac3Outcome(constraints, dom0, Domains(), trace);
    }

    /** The variable of the arc at the head of the queue is registered. */
    lemma ArcRegistered(queue: seq<(Variable, Constraint)>)
      requires Valid() && Arcs(constraints, queue) && |queue| > 0
      ensures queue[0].0 in variables
    {
      assert queue[0].1 in constraints && queue[0].0 in queue[0].1.variables;
    }

    /** Both endpoints of every binary constraint are registered variables. */
    lemma EndpointsRegistered()
      requires Valid() && forall c :: c in constraints ==> |c.variables| == 2
      ensures BinaryOver(constraints, Domains())
    {
      forall c | c in constraints
        ensures c.variables[0] in variables && c.variables[1] in variables
      {
        assert c.variables[0] in c.variables && c.variables[1] in c.variables;
      }
    }
  }

  /** Every arc in `queue` is an endpoint of a constraint of `cs`. */
  ghost predicate Arcs(cs: set<Constraint>, queue: seq<(Variable, Constraint)>)
  {
    forall i :: 0 <= i < |queue| ==> queue[i].1 in cs && queue[i].0 in queue[i].1.variables
  }

  /** The invariant of the `apply_ac3` loop, from the initial domains `dom0`
      to the current `dom`: the queue and the revisions done so far are arcs
      of `cs`; `dom` is what those revisions made of `dom0`, so each domain
      only shrank; every arc off the queue is consistent; and if every arc
      was consistent to begin with, nothing changed. */
  ghost predicate Ac3Invariant(cs: set<Constraint>, dom0: map<Variable, set<int>>, dom: map<Variable, set<int>>,
                               queue: seq<(Variable, Constraint)>, trace: seq<(Variable, Constraint)>)
  {
    Arcs(cs, queue) && Arcs(cs, trace) &&
    dom == Replay(dom0, trace) &&
    (forall v :: v in dom ==> v in dom0 && dom[v] <= dom0[v]) &&
    BinaryOver(cs, dom) &&
    Settled(cs, dom, queue) &&
    (Settled(cs, dom0, []) ==> dom == dom0)
  }

  /** One turn of the `apply_ac3` loop keeps its invariant: the popped arc
      `(x, c)` is revised and joins the trace, and the queue becomes the rest
      of the queue, followed (when the revision removed something) by the
      arcs of the constraints in `around`, which include every constraint on
      `x`, that point at `x`. */
  lemma Ac3Turn(cs: set<Constraint>, dom0: map<Variable, set<int>>, dom: map<Variable, set<int>>,
                queue: seq<(Variable, Constraint)>, trace: seq<(Variable, Constraint)>,
                next: seq<(Variable, Constraint)>, around: set<Constraint>)
    requires Ac3Invariant(cs, dom0, dom, queue, trace) && |queue| > 0
    requires forall c :: c in cs && queue[0].0 in c.variables ==> c in around
    requires Arcs(cs, next)
    requires AfterRevise(dom, queue[0].0, queue[0].1) == dom ==> next == queue[1..]
    requires AfterRevise(dom, queue[0].0, queue[0].1) != dom ==>
               |queue| - 1 <= |next| && next[..|queue| - 1] == queue[1..] &&
               forall c :: c in around && |c.variables| == 2 ==> (c.Other(queue[0].0), c) in next
    ensures Ac3Invariant(cs, dom0, AfterRevise(dom, queue[0].0, queue[0].1), next, trace + [queue[0]])
  {
    var (x, c) := queue[0];
    var rest := queue[1..];
    assert queue == [(x, c)] + rest;
    assert (trace + [(x, c)])[..|trace|] == trace;
    if Settled(cs, dom0, []) {
      assert ArcConsistent(dom, x, c);
    }
    var after := AfterRevise(dom, x, c);
    if after == dom {
      assert ArcConsistent(dom, x, c);
    } else {
      ReviseStep(cs, dom, x, c, rest, around);
      Requeued(cs, after, rest, next, x, around);
    }
  }

  /** What the `apply_ac3` loop invariant gives once the queue is empty. */
  lemma Ac3Outcome(cs: set<Constraint>, dom0: map<Variable, set<int>>, dom: map<Variable, set<int>>,
                   trace: seq<(Variable, Constraint)>)
    requires Ac3Invariant(cs, dom0, dom, [], trace)
    ensures Settled(cs, dom, [])
    ensures forall v :: v in dom ==> v in dom0 && dom[v] <= dom0[v]
    ensures Settled(cs, dom0, []) ==> dom == dom0
    ensures AllSymmetric(cs) ==> forall s :: SolutionIn(cs, dom0, s) ==> SolutionIn(cs, dom, s)
    ensures forall sub :: Shrunk(dom0, sub) && Settled(cs, sub, []) ==> Shrunk(dom, sub)
  {
    assert BinaryOver(cs, dom0) by {
      assert dom0.Keys == Replay(dom0, trace).Keys;
    }
    forall sub | Shrunk(dom0, sub) && Settled(cs, sub, [])
      ensures Shrunk(dom, sub)
    {
      ReplayKeepsConsistentSubdomains(cs, dom0, trace, sub);
    }
    if AllSymmetric(cs) {
      assert BinaryOver(cs, Replay(dom0, [])) by {
        assert Replay(dom0, []) == dom0;
      }
      ReplayKeepsAllSolutions(cs, dom0, trace);
    }
  }

  /** Every domain of `after` is part of the same variable's domain in
      `before`. */
  ghost predicate Shrunk(before: map<Variable, set<int>>, after: map<Variable, set<int>>)
  {
    after.Keys == before.Keys && forall v :: v in after ==> after[v] <= before[v]
  }

  /** Every constraint in `cs` is binary and both its endpoints have a domain in `dom`. */
  ghost predicate BinaryOver(cs: set<Constraint>, dom: map<Variable, set<int>>)
  {
    forall c :: c in cs ==> |c.variables| == 2 && c.variables[0] in dom && c.variables[1] in dom
  }

  /** The arc `(y, c)` is consistent in `revise`'s sense: every value of `y`
      has a partner `b` in the other endpoint's domain with `relation([a, b])`,
      so `revise(y)` would remove nothing. */
  ghost predicate ArcConsistent(dom: map<Variable, set<int>>, y: Variable, c: Constraint)
  {
    |c.variables| == 2 && y in dom && c.Other(y) in dom &&
    dom[y] == Revised(dom[y], dom[c.Other(y)], c.relation)
  }

  /** Every arc of `cs` that is not waiting in `pending` is consistent. */
  ghost predicate Settled(cs: set<Constraint>, dom: map<Variable, set<int>>, pending: seq<(Variable, Constraint)>)
  {
    forall c, y :: c in cs && y in c.variables && (y, c) !in pending ==> ArcConsistent(dom, y, c)
  }

  /** As `Settled`, except for the arcs of constraints in `around` that point
      at `x` (their other endpoint is `x`), which are about to be re-enqueued. */
  ghost predicate SettledExcept(cs: set<Constraint>, dom: map<Variable, set<int>>, pending: seq<(Variable, Constraint)>,
                                x: Variable, around: set<Constraint>)
  {
    forall c, y :: c in cs && y in c.variables && (y, c) !in pending && !(c in around && |c.variables| == 2 && c.Other(y) == x) ==>
      ArcConsistent(dom, y, c)
  }

  /** Giving `v` the value `x` keeps the unassigned set in step with the
      values when `v` joins the set exactly if `x` is `None`. */
  lemma TracksUpdate(unassigned: set<Variable>, known: map<Variable, Option<int>>, v: Variable, x: Option<int>,
                     after: set<Variable>)
    requires Tracks(unassigned, known)
    requires after - {v} == unassigned - {v} && (v in after <==> x == None)
    ensures Tracks(after, known[v := x])
  {
    forall w | w in known[v := x]
      ensures w in after <==> known[v := x][w] == None
    {
      if w != v {
        assert w in after <==> w in after - {v};
        assert w in unassigned <==> w in unassigned - {v};
      }
    }
  }

  /** The index part of a well-formed registry: `incident` has an entry for
      exactly the registered variables, every constraint's participants are
      registered and indexed under it, and the index holds nothing else. */
  ghost predicate Indexed(variables: set<Variable>, constraints: set<Constraint>,
                          incident: map<Variable, set<Constraint>>)
  {
    incident.Keys == variables &&
    (forall c, w :: c in constraints && w in c.variables ==> w in variables && c in incident[w]) &&
    (forall v, c :: v in incident && c in incident[v] ==> c in constraints && v in c.variables)
  }

  /** The unassigned set holds exactly the variables that the snapshot
      `known` records as unassigned. */
  ghost predicate Tracks(unassigned: set<Variable>, known: map<Variable, Option<int>>)
  {
    forall v :: v in known ==> (v in unassigned <==> known[v] == None)
  }

  /** Every constraint of `cs` checks true on the values `known` records. */
  ghost predicate CheckedIn(cs: set<Constraint>, known: map<Variable, Option<int>>)
  {
    forall c :: c in cs ==> c.CheckIn(known)
  }

  /** Once the constraints indexed under `v` accept `v` holding `x`, every
      constraint that checked true before still does. */
  lemma CheckedAfterSet(constraints: set<Constraint>, incident: map<Variable, set<Constraint>>,
                        variables: set<Variable>, known: map<Variable, Option<int>>,
                        v: Variable, x: Option<int>)
    requires Indexed(variables, constraints, incident) && v in variables
    requires forall c :: c in incident[v] ==> c.CheckIn(known[v := x])
    requires CheckedIn(constraints, known)
    ensures CheckedIn(constraints, known[v := x])
  {
    forall c | c in constraints
      ensures c.CheckIn(known[v := x])
    {
      if v !in c.variables {
        c.CheckInIgnores(known, v, x);
      }
    }
  }

  /** `s` completes the partial assignment `known`: it keeps every value
      `known` holds, gives every variable `known` leaves unassigned a value
      from its domain in `dom`, and satisfies every constraint of `cs`. */
  ghost predicate Completes(cs: set<Constraint>, known: map<Variable, Option<int>>, dom: map<Variable, set<int>>,
                            s: map<Variable, int>)
  {
    known.Keys <= s.Keys &&
    (forall w :: w in known && known[w].Some? ==> s[w] == known[w].value) &&
    (forall w :: w in known && known[w].None? ==> w in dom && s[w] in dom[w]) &&
    Satisfies(cs, s)
  }

  /** A completion of `known` that gives the unassigned `v` the value `x`
      still completes `known` once `v` holds `x`. */
  lemma CompletesThrough(cs: set<Constraint>, known: map<Variable, Option<int>>, dom: map<Variable, set<int>>,
                         v: Variable, x: int, s: map<Variable, int>)
    requires v in known && known[v] == None
    requires Completes(cs, known, dom, s) && s[v] == x
    ensures Completes(cs, known[v := Some(x)], dom, s)
  {
  }

  /** `s` gives every variable of `dom` a value from its domain and satisfies every constraint of `cs`. */
  ghost predicate SolutionIn(cs: set<Constraint>, dom: map<Variable, set<int>>, s: map<Variable, int>)
  {
    Within(dom, s) && Satisfies(cs, s)
  }

  /** `s` gives every variable of `dom` a value from its domain. */
  ghost predicate Within(dom: map<Variable, set<int>>, s: map<Variable, int>)
  {
    dom.Keys <= s.Keys && forall v :: v in dom ==> s[v] in dom[v]
  }

  /** `s` satisfies every constraint of `cs`. */
  ghost predicate Satisfies(cs: set<Constraint>, s: map<Variable, int>)
  {
    forall c :: c in cs ==> c.HoldsUnder(s)
  }

  ghost predicate AllSymmetric(cs: set<Constraint>)
  {
    forall c :: c in cs ==> Symmetric(c.relation)
  }

  /** The domains after `revise(x)` against `c`, as a value: `x`'s domain
      becomes its part supported in the other endpoint's domain. */
  ghost function AfterRevise(dom: map<Variable, set<int>>, x: Variable, c: Constraint): (r: map<Variable, set<int>>)
    ensures r.Keys == dom.Keys
  {
    if x in dom && |c.variables| == 2 && c.Other(x) in dom then
      dom[x := Revised(dom[x], dom[c.Other(x)], c.relation)]
    else
      dom
  }

  /** The domains after the revisions of `trace`, in order. */
  ghost function Replay(dom: map<Variable, set<int>>, trace: seq<(Variable, Constraint)>): (r: map<Variable, set<int>>)
    ensures r.Keys == dom.Keys
    decreases |trace|
  {
    if trace == [] then dom
    else AfterRevise(Replay(dom, trace[..|trace| - 1]), trace[|trace| - 1].0, trace[|trace| - 1].1)
  }

  /** The (variable, value) pairs still possible; AC-3 terminates because
      every productive `revise` removes one. */
  ghost function PairsOf(dom: map<Variable, set<int>>): set<(Variable, int)>
  {
    set v, a | v in dom && a in dom[v] :: (v, a)
  }

  lemma PairsShrink(dom: map<Variable, set<int>>, x: Variable, d: set<int>)
    requires x in dom && d <= dom[x] && d != dom[x]
    ensures PairsOf(dom[x := d]) < PairsOf(dom)
  {
    if dom[x] - d == {} {
      forall a | a in dom[x]
        ensures a in d
      {
        assert a !in dom[x] - d;
      }
      assert false;
    }
    var a := Witness(dom[x] - d);
    assert (x, a) in PairsOf(dom) && (x, a) !in PairsOf(dom[x := d]);
  }

  /** What one productive `revise(x)` against `c0` does to the worklist
      invariant: `(x, c0)` becomes consistent, every other settled arc stays
      settled, except arcs pointing at `x`, whose support just shrank. */
  lemma ReviseStep(cs: set<Constraint>, dom: map<Variable, set<int>>, x: Variable, c0: Constraint,
                   rest: seq<(Variable, Constraint)>, around: set<Constraint>)
    requires BinaryOver(cs, dom)
    requires c0 in cs && x in c0.variables
    requires forall c :: c in cs && x in c.variables ==> c in around
    requires Settled(cs, dom, [(x, c0)] + rest)
    ensures x in dom && c0.Other(x) in dom
    ensures SettledExcept(cs, dom[x := Revised(dom[x], dom[c0.Other(x)], c0.relation)], rest, x, around)
  {
    var dom2 := dom[x := Revised(dom[x], dom[c0.Other(x)], c0.relation)];
    forall c, y | c in cs && y in c.variables && (y, c) !in rest && !(c in around && |c.variables| == 2 && c.Other(y) == x)
      ensures ArcConsistent(dom2, y, c)
    {
      var o := c.Other(y);
      if (y, c) == (x, c0) {
        RevisedIsFixpoint(dom[x], dom[o], c.relation);
      } else {
        assert (y, c) !in [(x, c0)] + rest;
        assert ArcConsistent(dom, y, c);
        if y == x {
          RevisedOfSubset(dom[x], dom2[x], dom[o], c.relation);
        }
      }
    }
  }

  /** Re-enqueueing the arcs that point at `x` restores the worklist invariant. */
  lemma Requeued(cs: set<Constraint>, dom: map<Variable, set<int>>, rest: seq<(Variable, Constraint)>,
                 queue: seq<(Variable, Constraint)>, x: Variable, around: set<Constraint>)
    requires SettledExcept(cs, dom, rest, x, around)
    requires |rest| <= |queue| && queue[..|rest|] == rest
    requires forall c :: c in around && |c.variables| == 2 ==> (c.Other(x), c) in queue
    ensures Settled(cs, dom, queue)
  {
    forall c, y | c in cs && y in c.variables && (y, c) !in queue
      ensures ArcConsistent(dom, y, c)
    {
    }
  }

  /** With a symmetric relation, `revise` never removes a value that some
      solution within the domains uses. */
  lemma RevisePreservesSolution(cs: set<Constraint>, dom: map<Variable, set<int>>, x: Variable, c0: Constraint,
                                s: map<Variable, int>)
    requires BinaryOver(cs, dom)
    requires c0 in cs && x in c0.variables && Symmetric(c0.relation)
    requires SolutionIn(cs, dom, s)
    ensures x in dom && c0.Other(x) in dom
    ensures SolutionIn(cs, dom[x := Revised(dom[x], dom[c0.Other(x)], c0.relation)], s)
  {
    c0.SolutionValueSupported(x, s, dom[c0.Other(x)]);
  }

  /** A revision never removes a value of an arc-consistent family of
      sub-domains: such a value keeps its support inside the family. */
  lemma RevisePreservesSubdomains(cs: set<Constraint>, dom: map<Variable, set<int>>, x: Variable, c0: Constraint,
                                  sub: map<Variable, set<int>>)
    requires BinaryOver(cs, dom)
    requires c0 in cs && x in c0.variables
    requires Shrunk(dom, sub) && Settled(cs, sub, [])
    ensures x in dom && c0.Other(x) in dom
    ensures Shrunk(dom[x := Revised(dom[x], dom[c0.Other(x)], c0.relation)], sub)
  {
    var o := c0.Other(x);
    assert ArcConsistent(sub, x, c0);
    assert sub[x] == Revised(sub[x], sub[o], c0.relation);
    RevisedGrowsWithSupport(sub[x], sub[o], dom[o], c0.relation);
    assert Revised(sub[x], dom[o], c0.relation) <= Revised(dom[x], dom[o], c0.relation);
  }

  /** No sequence of revisions over the arcs of `cs` removes a value of an
      arc-consistent family of sub-domains: AC-3 keeps the largest one. */
  lemma {:induction false} ReplayKeepsConsistentSubdomains(cs: set<Constraint>, dom: map<Variable, set<int>>,
                                                           trace: seq<(Variable, Constraint)>,
                                                           sub: map<Variable, set<int>>)
    requires BinaryOver(cs, dom) && Arcs(cs, trace)
    requires Shrunk(dom, sub) && Settled(cs, sub, [])
    ensures Shrunk(Replay(dom, trace), sub)
    decreases |trace|
  {
    if trace != [] {
      var prefix := trace[..|trace| - 1];
      ReplayKeepsConsistentSubdomains(cs, dom, prefix, sub);
      var (x, c) := trace[|trace| - 1];
      RevisePreservesSubdomains(cs, Replay(dom, prefix), x, c, sub);
    }
  }

  /** With symmetric relations, no sequence of revisions over the arcs of
      `cs` loses a solution within the domains. */
  lemma {:induction false} ReplayKeepsSolutions(cs: set<Constraint>, dom: map<Variable, set<int>>,
                                                trace: seq<(Variable, Constraint)>, s: map<Variable, int>)
    requires BinaryOver(cs, dom) && AllSymmetric(cs)
    requires forall i :: 0 <= i < |trace| ==> trace[i].1 in cs && trace[i].0 in trace[i].1.variables
    requires SolutionIn(cs, dom, s)
    ensures SolutionIn(cs, Replay(dom, trace), s)
    decreases |trace|
  {
    if trace != [] {
      var prefix := trace[..|trace| - 1];
      ReplayKeepsSolutions(cs, dom, prefix, s);
      var (x, c) := trace[|trace| - 1];
      RevisePreservesSolution(cs, Replay(dom, prefix), x, c, s);
    }
  }

  lemma ReplayKeepsAllSolutions(cs: set<Constraint>, dom: map<Variable, set<int>>, trace: seq<(Variable, Constraint)>)
    requires BinaryOver(cs, dom) && AllSymmetric(cs)
    requires forall i :: 0 <= i < |trace| ==> trace[i].1 in cs && trace[i].0 in trace[i].1.variables
    ensures forall s :: SolutionIn(cs, dom, s) ==> SolutionIn(cs, Replay(dom, trace), s)
  {
    forall s | SolutionIn(cs, dom, s)
      ensures SolutionIn(cs, Replay(dom, trace), s)
    {
      ReplayKeepsSolutions(cs, dom, trace, s);
    }
  }
}
