/** lib/backtrack_solver.py: depth-first backtracking over the domains of
    the unassigned variables, driven by `Csp.assign`, optionally preceded by
    AC-3 for binary CSPs. */
module Solvers {
  import opened Common
  import opened Variables
  import opened Constraints
  import opened Csps

  class BacktrackSolver {
    /** `self.csp`: the CSP the search assigns. */
    const csp: Csp
    /** `_use_ac3` of the binary solver; always false for the plain one. */
    const useAc3: bool

    /** Which variable of the caller's CSP each variable of `csp` stands for. */
    ghost const image: map<Variable, Variable>
    /** Which constraint of the caller's CSP each constraint of `csp` stands for. */
    ghost const cimage: map<Constraint, Constraint>

    /** `BacktrackCspSolver(csp)`: the solver works on a deep copy, made of
        fresh variables holding the same domains and values, so the caller's
        CSP is out of its reach. */
    constructor Plain(original: Csp)
      requires original.Valid() && BinaryArity(original.constraints)
      ensures fresh(csp) && fresh(csp.variables) && !useAc3
      ensures CopyOf(csp, image, original.variables, old(original.Known()), old(original.Domains()),
                     old(original.unassigned), old(original.Consistent()), old(original.AllChecked()))
      ensures cimage.Keys == original.constraints && csp.constraints == cimage.Values
      ensures RenamedAll(image, cimage)
    {
      var copy, memo, cmemo := DeepCopy(original);
      csp := copy;
      image := memo;
      cimage := cmemo;
      useAc3 := false;
    }

    /** `BacktrackBinaryCspSolver(binary_csp, use_ac3)`: the copy made by
        the base constructor is immediately replaced by the caller's CSP, so
        this solver works on (and changes) the caller's object. */
    constructor Binary(csp: Csp, useAc3: bool)
      ensures this.csp == csp && this.useAc3 == useAc3
      ensures image == map v | v in csp.variables :: v
      ensures cimage == map c | c in csp.constraints :: c
    {
      this.csp := csp;
      this.useAc3 := useAc3;
      this.image := map v | v in csp.variables :: v;
      this.cimage := map c | c in csp.constraints :: c;
    }

    /** `BacktrackBinaryCspSolver.solve()`: with AC-3 enabled, prunes the
        domains first; then runs the base `solve`. Pruning changes no value
        and leaves the largest arc-consistent family of sub-domains; when
        every relation is symmetric it loses no completion `s` that respects
        the domains, so the search is still complete for it. (The plain solver has AC-3 disabled, so this
        is its `solve` too.) */
    method Solve(ghost s: map<Variable, int>) returns (r: Outcome)
      requires csp.Valid() && csp.Consistent()
      requires useAc3 ==> forall c :: c in csp.constraints ==> c.Revisable()
      modifies csp`unassigned, csp.variables
      ensures csp.Valid() && csp.Consistent() && Shrunk(old(csp.Domains()), csp.Domains())
      ensures !useAc3 ==> csp.Domains() == old(csp.Domains())
      ensures useAc3 ==> Settled(csp.constraints, csp.Domains(), [])
      ensures useAc3 ==> forall sub :: Shrunk(old(csp.Domains()), sub) && Settled(csp.constraints, sub, []) ==>
                                       Shrunk(csp.Domains(), sub)
      ensures r.Fail? ==> r.error == InconsistentCsp
      ensures r.Pass? ==> csp.unassigned == {} && Refines(old(csp.Known()), csp.Known(), csp.Domains())
      ensures r.Fail? ==> csp.unassigned == old(csp.unassigned) && csp.Known() == old(csp.Known())
      ensures old(csp.unassigned) == {} ==> r.Pass? && csp.Known() == old(csp.Known())
      ensures old(csp.AllChecked()) ==> csp.AllChecked()
      ensures r.Pass? && old(csp.AllChecked()) ==> csp.Extends(csp.Assignment())
      ensures !useAc3 && old(csp.Extends(s)) ==> r.Pass?
      ensures AllSymmetric(csp.constraints) && old(csp.Extends(s)) && old(Within(csp.Domains(), s)) ==> r.Pass?
    {
      ghost var dom := csp.Domains();
      ghost var known := csp.Known();
      ghost var checked := csp.AllChecked();
      ghost var complete := csp.Extends(s);
      ghost var solution := AllSymmetric(csp.constraints) && complete && Within(dom, s);
      if useAc3 {
        Prune(s);
      }
      assert csp.Known() == known && Shrunk(dom, csp.Domains()) && (checked ==> csp.AllChecked());
      assert (!useAc3 ==> csp.Domains() == dom && csp.Extends(s) == complete) && (solution ==> csp.Extends(s));
      r := Search(s);
    }

    /** `apply_ac3()` as the binary solver runs it before the search: only
        domains change, each shrinking, every arc is consistent afterwards,
        every arc-consistent family of sub-domains survives, and with
        symmetric relations a completion `s` of the current values that
        respects the domains still completes them. */
    method Prune(ghost s: map<Variable, int>)
      requires csp.Valid() && csp.Consistent()
      requires forall c :: c in csp.constraints ==> c.Revisable()
      modifies csp.variables
      ensures csp.Valid() && csp.Consistent() && csp.unassigned == old(csp.unassigned)
      ensures csp.Known() == old(csp.Known()) && Shrunk(old(csp.Domains()), csp.Domains())
      ensures Settled(csp.constraints, csp.Domains(), [])
      ensures forall sub :: Shrunk(old(csp.Domains()), sub) && Settled(csp.constraints, sub, []) ==>
                            Shrunk(csp.Domains(), sub)
      ensures old(csp.AllChecked()) ==> csp.AllChecked()
      ensures AllSymmetric(csp.constraints) && old(csp.Extends(s)) && old(Within(csp.Domains(), s)) ==> csp.Extends(s)
    {
      ghost var dom := csp.Domains();
      ghost var known := csp.Known();
      ghost var solution := AllSymmetric(csp.constraints) && csp.Extends(s) && Within(dom, s);
      csp.ApplyAc3();
      assert csp.Known() == known;
      if solution {
        assert SolutionIn(csp.constraints, dom, s);
        Rebase(csp.constraints, known, dom, csp.Domains(), s);
      }
    }

    /** `BacktrackCspSolver.solve()`: returns at once when nothing is
        unassigned; otherwise searches from an unassigned variable and
        reports InconsistentCspError when the search fails. Success means
        the CSP is solved, previously assigned values are kept and new ones
        lie in their domains, and every constraint checks true if all did
        before; failure leaves every value and the unassigned set as they
        were; and the search fails for no completion `s` of the start state. */
    method Search(ghost s: map<Variable, int>) returns (r: Outcome)
      requires csp.Valid() && csp.Consistent()
      modifies csp`unassigned, csp.variables`value
      ensures csp.Valid() && csp.Consistent() && csp.Domains() == old(csp.Domains())
      ensures r.Fail? ==> r.error == InconsistentCsp
      ensures r.Pass? ==> csp.unassigned == {} && Refines(old(csp.Known()), csp.Known(), csp.Domains())
      ensures r.Fail? ==> csp.unassigned == old(csp.unassigned) && csp.Known() == old(csp.Known())
      ensures old(csp.unassigned) == {} ==> r.Pass? && csp.Known() == old(csp.Known())
      ensures old(csp.AllChecked()) ==> csp.AllChecked()
      ensures r.Pass? && old(csp.AllChecked()) ==> csp.Extends(csp.Assignment())
      ensures old(csp.Extends(s)) ==> r.Pass?
    {
      var initial := csp.GetUnassignedVariable();
      if initial == None {
        RefinesReflexive(csp.Known(), csp.Domains());
        r := Pass;
      } else {
        var first := csp.GetUnassignedVariable();
        var found := Backtrack(first.value, s);
        if !found {
          return Fail(InconsistentCsp);
        }
        r := Pass;
      }
      if old(csp.AllChecked()) {
        NothingUnassigned();
        csp.SolvedStateIsSolution();
      }
    }

    /** With nothing unassigned, every registered variable holds a value. */
    lemma NothingUnassigned()
      requires csp.Valid() && csp.Consistent() && csp.unassigned == {}
      ensures forall v :: v in csp.variables ==> v.value.Some?
    {
      forall v | v in csp.variables
        ensures v.value.Some?
      {
        assert v in csp.Known();
      }
    }

    /** `_backtrack_solving(variable)`: tries each value of `v`'s domain in
        turn and stops at the first that leads to a full assignment. On
        success nothing is left unassigned, and the values refine those on
        entry: no assigned variable changed, and every newly assigned one
        holds a value from its domain. On failure `v` is unassigned again,
        every value is as it was on entry, and the search is complete: the
        ghost `s` stands for any assignment, and when `s` completes the
        entry state the search does not fail. */
    method Backtrack(v: Variable, ghost s: map<Variable, int>) returns (found: bool)
      requires csp.Valid() && csp.Consistent() && v in csp.unassigned
      modifies csp`unassigned, csp.variables`value
      ensures csp.Valid() && csp.Consistent() && csp.Domains() == old(csp.Domains())
      ensures Refines(old(csp.Known()), csp.Known(), csp.Domains())
      ensures old(csp.AllChecked()) ==> csp.AllChecked()
      ensures found ==> csp.unassigned == {}
      ensures !found ==> csp.unassigned == old(csp.unassigned) && csp.Known() == old(csp.Known())
      ensures old(csp.Extends(s)) ==> found
      decreases |csp.unassigned|, 2
    {
      ghost var known := csp.Known();
      ghost var dom := csp.Domains();
      ghost var rest := csp.unassigned - {v};
      Split(csp.unassigned, v);
      Rewrite(known, v);
      var todo := v.domain;
      while todo != {}
        invariant todo <= v.domain
        invariant csp.Valid() && csp.Consistent() && csp.Domains() == dom
        invariant csp.unassigned - {v} == rest
        invariant csp.Known()[v := None] == known && Refines(known, csp.Known(), dom)
        invariant old(csp.AllChecked()) ==> csp.AllChecked()
        invariant Completes(csp.constraints, known, dom, s) ==> s[v] in todo
        decreases todo
      {
        ghost var some := Witness(todo);
        var x :| x in todo;
        ghost var completes := Completes(csp.constraints, known, dom, s);
        ghost var candidate := if completes then s[v] else x;
        assert completes ==> candidate in todo;
        todo := todo - {x};
        found := TryValue(v, x, known, dom, rest, s);
        if found {
          return;
        }
        assert candidate != x ==> candidate in todo;
      }
      Release(v, known, rest);
      assert csp.unassigned == old(csp.unassigned) && csp.Known() == old(csp.Known());
      found := false;
    }

    /** One turn of the loop in `_backtrack_solving`: `assign(v, x)`, and
        when that is accepted, either nothing is left unassigned or the
        search goes on with the next unassigned variable. `known` is the
        state with `v` taken as unassigned and `rest` the unassigned set
        without `v`. When this fails, every variable other than `v` holds
        its value from before, and `s` does not complete `known` with `v`
        holding `x`. */
    method TryValue(v: Variable, x: int, ghost known: map<Variable, Option<int>>, ghost dom: map<Variable, set<int>>,
                    ghost rest: set<Variable>, ghost s: map<Variable, int>)
      returns (found: bool)
      requires csp.Valid() && csp.Consistent() && v in csp.variables && x in v.domain
      requires known == csp.Known()[v := None] && dom == csp.Domains() && Refines(known, csp.Known(), dom)
      requires csp.unassigned - {v} == rest
      modifies csp`unassigned, csp.variables`value
      ensures csp.Valid() && csp.Consistent() && csp.Domains() == dom
      ensures Refines(known, csp.Known(), dom)
      ensures old(csp.AllChecked()) ==> csp.AllChecked()
      ensures found ==> csp.unassigned == {}
      ensures !found ==> csp.unassigned - {v} == rest && csp.Known()[v := None] == known
      ensures Completes(csp.constraints, known, dom, s) && s[v] == x ==> found
      decreases |rest| + 1, 1
    {
      var stored := TryAssign(v, x, known, dom, rest, s);
      if stored.Fail? {
        return false;
      }
      found := Descend(v, x, known, dom, s);
      if !found {
        Unset(known, v, x);
        Split(rest, v);
      }
    }

    /** The `assign(variable, possible_value)` of that turn, whose
        InvalidValueError the loop catches: on failure nothing changes, and
        then no completion of `known` gives `v` the value `x`; on success `v`
        holds `x` and has left the unassigned set. */
    method TryAssign(v: Variable, x: int, ghost known: map<Variable, Option<int>>, ghost dom: map<Variable, set<int>>,
                     ghost rest: set<Variable>, ghost s: map<Variable, int>)
      returns (stored: Outcome)
      requires csp.Valid() && csp.Consistent() && v in csp.variables && x in v.domain
      requires known == csp.Known()[v := None] && dom == csp.Domains() && Refines(known, csp.Known(), dom)
      requires csp.unassigned - {v} == rest
      modifies v`value, csp`unassigned
      ensures csp.Valid() && csp.Consistent() && csp.Domains() == dom
      ensures old(csp.AllChecked()) && stored.Pass? ==> csp.AllChecked()
      ensures stored.Fail? ==> csp.unassigned == old(csp.unassigned) && csp.Known() == old(csp.Known())
      ensures stored.Fail? ==> Completes(csp.constraints, known, dom, s) ==> s[v] != x
      ensures stored.Pass? ==> csp.unassigned == rest && csp.Known() == known[v := Some(x)]
    {
      if !csp.Admissible(v, Some(x)) {
        csp.RefusedValue(v, x, known, dom, s);
      }
      assert v.Accepts(v.value);
      ghost var before := csp.Known();
      stored := csp.Assign(v, Some(x));
      if stored.Fail? {
        Rewrite(before, v);
      } else {
        Overwrite(before, v, None, Some(x));
      }
    }

    /** The rest of that turn once `assign(v, x)` has been accepted: stop
        when nothing is left unassigned, otherwise search on from the next
        unassigned variable. */
    method Descend(v: Variable, x: int, ghost known: map<Variable, Option<int>>, ghost dom: map<Variable, set<int>>,
                   ghost s: map<Variable, int>)
      returns (found: bool)
      requires csp.Valid() && csp.Consistent() && v in csp.variables && v !in csp.unassigned
      requires v in known && known[v] == None && csp.Known() == known[v := Some(x)]
      requires dom == csp.Domains() && v in dom && x in dom[v]
      modifies csp`unassigned, csp.variables`value
      ensures csp.Valid() && csp.Consistent() && csp.Domains() == dom
      ensures Refines(known, csp.Known(), dom)
      ensures old(csp.AllChecked()) ==> csp.AllChecked()
      ensures found ==> csp.unassigned == {}
      ensures !found ==> csp.unassigned == old(csp.unassigned) && csp.Known() == known[v := Some(x)]
      ensures Completes(csp.constraints, known, dom, s) && s[v] == x ==> found
      decreases |csp.unassigned| + 1, 0
    {
      assert Refines(known, csp.Known(), dom);
      var next := csp.GetUnassignedVariable();
      assert csp.Known() == known[v := Some(x)] && csp.Domains() == dom;
      assert csp.Valid() && csp.Consistent() && csp.AllChecked() == old(csp.AllChecked());
      if next == None {
        return true;
      }
      if Completes(csp.constraints, known, dom, s) && s[v] == x {
        CompletesThrough(csp.constraints, known, dom, v, x, s);
      }
      found := Backtrack(next.value, s);
      RefinesTransitive(known, known[v := Some(x)], csp.Known(), dom);
    }

    /** The `assign(variable, None)` after the loop of `_backtrack_solving`:
        `v` is unassigned again, which always succeeds. */
    method Release(v: Variable, ghost known: map<Variable, Option<int>>, ghost rest: set<Variable>)
      requires csp.Valid() && csp.Consistent() && v in csp.variables
      requires csp.Known()[v := None] == known && csp.unassigned - {v} == rest
      modifies csp`unassigned, v`value
      ensures csp.Valid() && csp.Consistent() && csp.Domains() == old(csp.Domains())
      ensures csp.unassigned == rest + {v} && csp.Known() == known
      ensures old(csp.AllChecked()) ==> csp.AllChecked()
    {
      csp.UnassignIsAdmissible(v);
      var cleared := csp.Assign(v, None);
      Split(old(csp.unassigned), v);
    }
  }

  /** The plain solver as the tests drive it: build it over the caller's CSP
      and solve. The caller's registry and its variables are untouched; the
      copy is solved on success, and fully checked too when the caller's CSP
      was. The search is complete: whenever some `s` completes the caller's
      CSP, it succeeds. And it is sound: when the caller's CSP was fully
      checked, the copy's values, read back through `image`, complete the
      caller's CSP, so every original constraint holds under them. */
  method SolveOnCopy(original: Csp, ghost s: map<Variable, int>) returns (solver: BacktrackSolver, r: Outcome)
    requires original.Valid() && original.Consistent() && BinaryArity(original.constraints)
    ensures unchanged(original) && unchanged(original.variables)
    ensures fresh(solver.csp) && fresh(solver.csp.variables)
    ensures r.Fail? ==> r.error == InconsistentCsp
    ensures r.Pass? ==> solver.csp.unassigned == {}
    ensures old(original.AllChecked()) ==> solver.csp.AllChecked()
    ensures old(original.Extends(s)) ==> r.Pass?
    ensures r.Pass? && old(original.AllChecked()) ==>
              Completes(original.constraints, old(original.Known()), old(original.Domains()),
                        Pulled(solver.image, solver.csp.Known()))
  {
    ghost var known, dom := original.Known(), original.Domains();
    ghost var checked := original.AllChecked();
    solver := new BacktrackSolver.Plain(original);
    assert original.variables !! solver.csp.variables;
    assert solver.csp.Valid() && solver.csp.Consistent() && !solver.useAc3;
    assert checked ==> solver.csp.AllChecked();
    ghost var image, cimage := solver.image, solver.cimage;
    ghost var known0, dom0 := solver.csp.Known(), solver.csp.Domains();
    Mirrored(solver.csp, image, known, dom, known0, dom0);
    ghost var t := Pushed(image, s);
    ghost var extended := solver.csp.Extends(t);
    r := solver.Solve(t);
    RenamedCompletes(original.constraints, cimage, image, known, dom, known0, dom0, s, t);
    if r.Pass? && checked {
      solver.NothingUnassigned();
      PulledCompletes(original.constraints, cimage, image, known, dom, known0, dom0,
                      solver.csp.Known(), solver.csp.Assignment());
    }
  }

  /** The snapshots of a copy that mirrors `known` and `dom` hold, at
      each image, the value and domain of its original. */
  lemma Mirrored(copy: Csp, image: map<Variable, Variable>, known: map<Variable, Option<int>>,
                 dom: map<Variable, set<int>>, known': map<Variable, Option<int>>, dom': map<Variable, set<int>>)
    requires copy.variables == image.Values && Mirrors(image, known, dom)
    requires known' == copy.Known() && dom' == copy.Domains()
    ensures forall v :: v in image ==> image[v] in dom' && known'[image[v]] == known[v] && dom'[image[v]] == dom[v]
  {
  }

  /** `s` and `t` assign the same values, `t` to the images of the
      variables `s` assigns. */
  ghost predicate Agrees(image: map<Variable, Variable>, s: map<Variable, int>, t: map<Variable, int>)
  {
    forall v :: v in image ==> (v in s <==> image[v] in t) && (v in s ==> t[image[v]] == s[v])
  }

  /** An assignment to the caller's variables, carried over to their copies. */
  ghost function Pushed(image: map<Variable, Variable>, s: map<Variable, int>): (t: map<Variable, int>)
    requires Injective(image)
    ensures Agrees(image, s, t)
  {
    map v | v in image && v in s :: image[v] := s[v]
  }

  /** The values of the copies, read back as values of their originals. */
  ghost function Pulled(image: map<Variable, Variable>, known: map<Variable, Option<int>>): (s: map<Variable, int>)
    ensures s.Keys <= image.Keys
    ensures forall v :: v in image ==> (v in s <==> image[v] in known && known[image[v]].Some?)
    ensures forall v :: v in s ==> s[v] == known[image[v]].value
  {
    map v | v in image && image[v] in known && known[image[v]].Some? :: known[image[v]].value
  }

  /** A renamed constraint holds under the renamed assignment exactly when
      its original holds under the original one. */
  lemma RenamedHolds(image: map<Variable, Variable>, c: Constraint, d: Constraint,
                     s: map<Variable, int>, t: map<Variable, int>)
    requires RenamedCopy(image, c, d) && Agrees(image, s, t)
    ensures c.HoldsUnder(s) == d.HoldsUnder(t)
  {
    assert c.ValuesUnder(s) == d.ValuesUnder(t);
  }

  /** The copied constraints are all satisfied under the renamed
      assignment exactly when the originals are under the original one. */
  lemma RenamedSatisfies(cs: set<Constraint>, cimage: map<Constraint, Constraint>, image: map<Variable, Variable>,
                         s: map<Variable, int>, t: map<Variable, int>)
    requires cimage.Keys == cs && RenamedAll(image, cimage) && Agrees(image, s, t)
    ensures Satisfies(cs, s) <==> Satisfies(cimage.Values, t)
  {
    if Satisfies(cs, s) {
      forall d | d in cimage.Values
        ensures d.HoldsUnder(t)
      {
        var c :| c in cimage && cimage[c] == d;
        RenamedHolds(image, c, d, s, t);
      }
    }
    if Satisfies(cimage.Values, t) {
      forall c | c in cs
        ensures c.HoldsUnder(s)
      {
        RenamedHolds(image, c, cimage[c], s, t);
      }
    }
  }

  /** An assignment completes the caller's CSP exactly when its renaming
      completes the copy, whose values and domains mirror the caller's. */
  lemma RenamedCompletes(cs: set<Constraint>, cimage: map<Constraint, Constraint>, image: map<Variable, Variable>,
                         known: map<Variable, Option<int>>, dom: map<Variable, set<int>>,
                         known': map<Variable, Option<int>>, dom': map<Variable, set<int>>,
                         s: map<Variable, int>, t: map<Variable, int>)
    requires cimage.Keys == cs && RenamedAll(image, cimage) && Agrees(image, s, t)
    requires known.Keys == image.Keys && dom.Keys == image.Keys && known'.Keys == image.Values
    requires forall v :: v in image ==>
               image[v] in dom' && known'[image[v]] == known[v] && dom'[image[v]] == dom[v]
    ensures Completes(cs, known, dom, s) <==> Completes(cimage.Values, known', dom', t)
  {
    RenamedSatisfies(cs, cimage, image, s, t);
    if Completes(cimage.Values, known', dom', t) {
      assert forall v :: v in known ==> image[v] in known';
    }
    if Completes(cs, known, dom, s) {
      forall w | w in known'
        ensures w in t
        ensures known'[w].Some? ==> t[w] == known'[w].value
        ensures known'[w].None? ==> w in dom' && t[w] in dom'[w]
      {
        var v :| v in image && image[v] == w;
      }
    }
  }

  /** When the copy has been fully assigned by refining its start `known'`
      and the resulting assignment `a` completes it, the values read back
      through `image` complete the caller's CSP. */
  lemma PulledCompletes(cs: set<Constraint>, cimage: map<Constraint, Constraint>, image: map<Variable, Variable>,
                        known: map<Variable, Option<int>>, dom: map<Variable, set<int>>,
                        known': map<Variable, Option<int>>, dom': map<Variable, set<int>>,
                        final: map<Variable, Option<int>>, a: map<Variable, int>)
    requires cimage.Keys == cs && RenamedAll(image, cimage)
    requires known.Keys == image.Keys && dom.Keys == image.Keys && known'.Keys == image.Values
    requires forall v :: v in image ==>
               image[v] in dom' && known'[image[v]] == known[v] && dom'[image[v]] == dom[v]
    requires Refines(known', final, dom') && Completes(cimage.Values, final, dom', a)
    requires a.Keys == final.Keys && forall w :: w in a ==> final[w] == Some(a[w])
    ensures Completes(cs, known, dom, Pulled(image, final))
  {
    var p := Pulled(image, final);
    assert Agrees(image, p, a);
    RefinedCompletes(cimage.Values, known', final, dom', a);
    RenamedCompletes(cs, cimage, image, known, dom, known', dom', p, a);
  }

  /** A completion of a refinement completes what it refines. */
  lemma RefinedCompletes(cs: set<Constraint>, before: map<Variable, Option<int>>, after: map<Variable, Option<int>>,
                         dom: map<Variable, set<int>>, s: map<Variable, int>)
    requires Refines(before, after, dom) && Completes(cs, after, dom, s)
    ensures Completes(cs, before, dom, s)
  {
  }

  /** Every constraint built as a `BinaryConstraint` has two participants
      (its constructor refuses any other number). */
  ghost predicate BinaryArity(cs: set<Constraint>)
  {
    forall c :: c in cs && c.binary ==> |c.variables| == 2
  }

  /** No two variables share an image. */
  ghost predicate Injective(image: map<Variable, Variable>)
  {
    forall v, w :: v in image && w in image && image[v] == image[w] ==> v == w
  }

  /** A participant list renamed through `image`. */
  function Renamed(image: map<Variable, Variable>, vs: seq<Variable>): (r: seq<Variable>)
    requires forall w :: w in vs ==> w in image
    ensures |r| == |vs|
    ensures forall i :: 0 <= i < |vs| ==> r[i] == image[vs[i]]
  {
    seq(|vs|, i requires 0 <= i < |vs| => image[vs[i]])
  }

  /** `copy.deepcopy(csp)`: a fresh registry over fresh variables holding
      the same domains and values, and fresh constraints over the copied
      variables with the same relations; `image` and `cimage` record which
      copy stands for which original (deepcopy's memo). The unassigned set
      is copied along, so the copy is consistent and fully checked when the
      original is. The original is not changed. */
  method DeepCopy(original: Csp) returns (copy: Csp, image: map<Variable, Variable>,
                                          cimage: map<Constraint, Constraint>)
    requires original.Valid() && BinaryArity(original.constraints)
    ensures fresh(copy) && fresh(copy.variables) && fresh(copy.constraints)
    ensures CopyOf(copy, image, original.variables, old(original.Known()), old(original.Domains()),
                   old(original.unassigned), old(original.Consistent()), old(original.AllChecked()))
    ensures cimage.Keys == original.constraints && copy.constraints == cimage.Values
    ensures RenamedAll(image, cimage)
  {
    ghost var known := original.Known();
    ghost var dom := original.Domains();
    ghost var unassigned := original.unassigned;
    ghost var consistent := original.Consistent();
    ghost var checked := original.AllChecked();
    copy := new Csp();
    image := CopyVariables(original, copy, known, dom);
    ghost var mirrored := Mirrors(image, known, dom);
    cimage := CopyConstraints(original, copy, image);
    assert mirrored && Mirrors(image, known, dom);
    assert forall v :: v in image ==> image[v] in copy.variables && copy.Known()[image[v]] == known[v];
    if consistent {
      TracksCopy(unassigned, known, image, copy.unassigned, copy.Known());
    }
    if checked {
      CheckedCopy(original.constraints, known, cimage, image, copy.Known());
    }
  }

  /** `copy` is a deep copy, through `image`, of a registry over `vars`
      whose values, domains and unassigned set were `known`, `dom` and
      `unassigned`: a well-formed registry of distinct images that mirror
      their originals, consistent and fully checked when the original was. */
  ghost predicate CopyOf(copy: Csp, image: map<Variable, Variable>, vars: set<Variable>,
                         known: map<Variable, Option<int>>, dom: map<Variable, set<int>>,
                         unassigned: set<Variable>, consistent: bool, checked: bool)
    reads copy, copy.variables, image.Values
  {
    copy.Valid() && image.Keys == vars && copy.variables == image.Values && Injective(image) &&
    Mirrors(image, known, dom) && Corresponds(image, copy.unassigned, unassigned) &&
    (consistent ==> copy.Consistent()) && (checked ==> copy.AllChecked())
  }

  /** Every copied variable holds the domain and value its original had,
      as recorded in `dom` and `known`. */
  ghost predicate Mirrors(image: map<Variable, Variable>, known: map<Variable, Option<int>>,
                          dom: map<Variable, set<int>>)
    reads image.Values
  {
    forall v :: v in image ==> v in known && v in dom && image[v].domain == dom[v] && image[v].value == known[v]
  }

  /** A copied variable is in `copied` exactly when its original is in `set0`. */
  ghost predicate Corresponds(image: map<Variable, Variable>, copied: set<Variable>, set0: set<Variable>)
  {
    forall v :: v in image ==> (image[v] in copied <==> v in set0)
  }

  /** `d` is `c` with its participants renamed through `image`. */
  ghost predicate RenamedCopy(image: map<Variable, Variable>, c: Constraint, d: Constraint)
  {
    (forall w :: w in c.variables ==> w in image) &&
    d.variables == Renamed(image, c.variables) && d.relation == c.relation && d.binary == c.binary
  }

  /** Every copied constraint is its original, renamed. */
  ghost predicate RenamedAll(image: map<Variable, Variable>, cimage: map<Constraint, Constraint>)
  {
    forall c :: c in cimage ==> RenamedCopy(image, c, cimage[c])
  }

  /** The first half of `DeepCopy`: registers a fresh copy of every variable
      of `original`, with its domain, value and membership of the unassigned
      set, in the empty registry `copy`. */
  method CopyVariables(original: Csp, copy: Csp, ghost known: map<Variable, Option<int>>,
                       ghost dom: map<Variable, set<int>>) returns (image: map<Variable, Variable>)
    requires copy != original && copy.Valid()
    requires copy.variables == {} && copy.constraints == {}
    requires known == original.Known() && dom == original.Domains()
    modifies copy
    ensures copy.Valid() && copy.constraints == {} && fresh(copy.variables)
    ensures image.Keys == original.variables && copy.variables == image.Values && Injective(image)
    ensures Mirrors(image, known, dom) && Corresponds(image, copy.unassigned, original.unassigned)
  {
    image := map[];
    var todo := original.variables;
    while todo != {}
      invariant todo <= original.variables
      invariant image.Keys == original.variables - todo
      invariant copy.Valid() && copy.constraints == {} && copy.variables == image.Values
      invariant fresh(copy.variables) && Injective(image)
      invariant Mirrors(image, known, dom) && Corresponds(image, copy.unassigned, original.unassigned)
      decreases todo
    {
      ghost var some := Witness(todo);
      var v :| v in todo;
      ghost var before := copy.unassigned;
      var w := CopyVariable(copy, v, v in original.unassigned);
      CopyOneMore(image, v, w, before, copy.unassigned, original.unassigned, known, dom);
      image := image[v := w];
      todo := todo - {v};
    }
  }

  /** One step of `CopyVariables`: registers a fresh copy of `v`, unassigned
      in the copy exactly when `unassigned` says so. */
  method CopyVariable(copy: Csp, v: Variable, unassigned: bool) returns (w: Variable)
    requires copy.Valid() && copy.constraints == {}
    modifies copy
    ensures fresh(w) && w.domain == v.domain && w.value == v.value
    ensures copy.Valid() && copy.constraints == {} && copy.variables == old(copy.variables) + {w}
    ensures copy.unassigned - {w} == old(copy.unassigned) - {w} && (w in copy.unassigned <==> unassigned)
  {
    w := new Variable(Some(v.domain));
    w.value := v.value;
    copy.AddVariable(w);
    if !unassigned {
      copy.unassigned := copy.unassigned - {w};
    }
  }

  /** Extending the memo by a new original `v` and its new copy `w`. */
  lemma CopyOneMore(image: map<Variable, Variable>, v: Variable, w: Variable,
                    copied: set<Variable>, copied': set<Variable>, set0: set<Variable>,
                    known: map<Variable, Option<int>>, dom: map<Variable, set<int>>)
    requires v !in image && w !in image.Values
    requires v in known && v in dom && w.domain == dom[v] && w.value == known[v]
    requires Mirrors(image, known, dom) && Injective(image) && Corresponds(image, copied, set0)
    requires copied' - {w} == copied - {w} && (w in copied' <==> v in set0)
    ensures Mirrors(image[v := w], known, dom) && Injective(image[v := w]) && Corresponds(image[v := w], copied', set0)
    ensures image[v := w].Values == image.Values + {w}
  {
    ValuesAdd(image, v, w);
    forall u | u in image
      ensures image[u] in copied' <==> u in set0
    {
      assert image[u] != w;
      assert image[u] in copied' <==> image[u] in copied' - {w};
      assert image[u] in copied <==> image[u] in copied - {w};
    }
  }

  /** The second half of `DeepCopy`: registers, for every constraint of
      `original`, a fresh constraint over the copied participants. */
  method CopyConstraints(original: Csp, copy: Csp, image: map<Variable, Variable>)
    returns (cimage: map<Constraint, Constraint>)
    requires copy != original && original.Valid() && copy.Valid() && BinaryArity(original.constraints)
    requires copy.constraints == {} && image.Keys == original.variables && copy.variables == image.Values
    modifies copy`constraints, copy`incident
    ensures copy.Valid() && copy.variables == old(copy.variables) && copy.unassigned == old(copy.unassigned)
    ensures cimage.Keys == original.constraints && copy.constraints == cimage.Values
    ensures fresh(copy.constraints) && RenamedAll(image, cimage)
  {
    cimage := map[];
    var todo := original.constraints;
    while todo != {}
      invariant todo <= original.constraints
      invariant cimage.Keys == original.constraints - todo
      invariant copy.Valid() && copy.variables == old(copy.variables) && copy.unassigned == old(copy.unassigned)
      invariant copy.constraints == cimage.Values
      invariant fresh(copy.constraints) && RenamedAll(image, cimage)
      decreases todo
    {
      ghost var some := Witness(todo);
      var c :| c in todo;
      var d := CopyConstraint(copy, image, c);
      RenameOneMore(image, cimage, c, d);
      cimage := cimage[c := d];
      todo := todo - {c};
    }
  }

  /** One step of `CopyConstraints`: registers a fresh copy of `c` over the
      copied participants. */
  method CopyConstraint(copy: Csp, image: map<Variable, Variable>, c: Constraint) returns (d: Constraint)
    requires copy.Valid() && copy.variables == image.Values
    requires (forall w :: w in c.variables ==> w in image) && (c.binary ==> |c.variables| == 2)
    modifies copy`constraints, copy`incident
    ensures fresh(d) && RenamedCopy(image, c, d)
    ensures copy.Valid() && copy.variables == old(copy.variables) && copy.unassigned == old(copy.unassigned)
    ensures copy.constraints == old(copy.constraints) + {d}
  {
    var participants := Renamed(image, c.variables);
    if c.binary {
      d := new Constraint.Binary(participants, c.relation);
    } else {
      d := new Constraint(participants, c.relation);
    }
    copy.AddConstraint(d);
  }

  /** Extending the constraint memo by a new original `c` and its copy `d`. */
  lemma RenameOneMore(image: map<Variable, Variable>, cimage: map<Constraint, Constraint>, c: Constraint, d: Constraint)
    requires c !in cimage && RenamedAll(image, cimage) && RenamedCopy(image, c, d)
    ensures RenamedAll(image, cimage[c := d]) && cimage[c := d].Values == cimage.Values + {d}
  {
    ValuesAdd(cimage, c, d);
  }

  /** A new key adds its value to the map's values. */
  lemma ValuesAdd<K, V>(m: map<K, V>, k: K, x: V)
    requires k !in m
    ensures m[k := x].Values == m.Values + {x}
  {
    forall y | y in m.Values
      ensures y in m[k := x].Values
    {
      var j :| j in m && m[j] == y;
      assert m[k := x][j] == y;
    }
    forall y | y in m[k := x].Values
      ensures y in m.Values + {x}
    {
      var j :| j in m[k := x] && m[k := x][j] == y;
      if j != k {
        assert m[j] == y;
      }
    }
    assert m[k := x][k] == x;
  }

  /** The copied unassigned set tracks the copied values. */
  lemma TracksCopy(unassigned: set<Variable>, known: map<Variable, Option<int>>, image: map<Variable, Variable>,
                   unassigned': set<Variable>, known': map<Variable, Option<int>>)
    requires Tracks(unassigned, known) && known.Keys == image.Keys && known'.Keys == image.Values
    requires forall v :: v in image ==> known'[image[v]] == known[v]
    requires Corresponds(image, unassigned', unassigned)
    ensures Tracks(unassigned', known')
  {
    forall w | w in known'
      ensures w in unassigned' <==> known'[w] == None
    {
      var v :| v in image && image[v] == w;
    }
  }

  /** Renamed constraints check the copied values as the originals check
      the original values. */
  lemma CheckedCopy(cs: set<Constraint>, known: map<Variable, Option<int>>, cimage: map<Constraint, Constraint>,
                    image: map<Variable, Variable>, known': map<Variable, Option<int>>)
    requires CheckedIn(cs, known) && cimage.Keys == cs && known.Keys == image.Keys
    requires forall v :: v in image ==> image[v] in known' && known'[image[v]] == known[v]
    requires RenamedAll(image, cimage)
    ensures CheckedIn(cimage.Values, known')
  {
    forall d | d in cimage.Values
      ensures d.CheckIn(known')
    {
      var c :| c in cimage && cimage[c] == d;
      assert d.ValuesIn(known') == c.ValuesIn(known);
    }
  }

  /** A partial assignment refines itself. */
  lemma RefinesReflexive(known: map<Variable, Option<int>>, dom: map<Variable, set<int>>)
    ensures Refines(known, known, dom)
  {
  }

  /** A completion that respects the domains `dom'` completes the same
      partial assignment over them. */
  lemma Rebase(cs: set<Constraint>, known: map<Variable, Option<int>>, dom: map<Variable, set<int>>,
               dom': map<Variable, set<int>>, s: map<Variable, int>)
    requires Completes(cs, known, dom, s) && dom'.Keys == dom.Keys && Within(dom', s)
    ensures Completes(cs, known, dom', s)
  {
  }

  /** Taking `v` out of a set and putting it back. */
  lemma Split(u: set<Variable>, v: Variable)
    ensures (u - {v}) + {v} == u + {v}
    ensures v in u ==> (u - {v}) + {v} == u
    ensures v in u ==> |u - {v}| + 1 == |u|
    ensures v !in u ==> u - {v} == u
  {
  }

  /** Writing back the value a key already has changes nothing. */
  lemma Rewrite(m: map<Variable, Option<int>>, v: Variable)
    requires v in m
    ensures m[v := m[v]] == m
  {
  }

  /** A second write to the same key hides the first. */
  lemma Overwrite(m: map<Variable, Option<int>>, v: Variable, a: Option<int>, b: Option<int>)
    ensures m[v := a][v := b] == m[v := b]
  {
  }

  /** `after` refines the partial assignment `before`: the same variables,
      every value of `before` kept, and every variable that `after` newly
      assigns holding a value from its domain in `dom`. */
  ghost predicate Refines(before: map<Variable, Option<int>>, after: map<Variable, Option<int>>,
                          dom: map<Variable, set<int>>)
  {
    before.Keys == after.Keys &&
    (forall w :: w in before && before[w].Some? ==> after[w] == before[w]) &&
    (forall w :: w in before && before[w].None? && after[w].Some? ==> w in dom && after[w].value in dom[w])
  }

  /** Assigning and then clearing an unassigned `v` gives back the same
      partial assignment. */
  lemma Unset(known: map<Variable, Option<int>>, v: Variable, x: int)
    requires v in known && known[v] == None
    ensures known[v := Some(x)][v := None] == known
  {
  }

  lemma RefinesTransitive(a: map<Variable, Option<int>>, b: map<Variable, Option<int>>, c: map<Variable, Option<int>>,
                          dom: map<Variable, set<int>>)
    requires Refines(a, b, dom) && Refines(b, c, dom)
    ensures Refines(a, c, dom)
  {
  }
}
