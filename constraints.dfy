/** lib/constraint.py: a constraint is a relation over the current values of
    an ordered list of participant variables; a binary constraint can also
    revise one endpoint's domain against the other's (the AC-3 step). */
module Constraints {
  import opened Common
  import opened Variables

  /** True when every entry of `vals` holds a value. */
  predicate AllAssigned(vals: seq<Option<int>>)
  {
    forall i :: 0 <= i < |vals| ==> vals[i].Some?
  }

  /** The values of a fully assigned list, in order. */
  function Unwrap(vals: seq<Option<int>>): seq<int>
    requires AllAssigned(vals)
  {
    seq(|vals|, i requires 0 <= i < |vals| => vals[i].value)
  }

  /** What `check` computes from the participants' values: vacuously true as
      soon as one of them is unassigned, otherwise the relation applied to the
      values in participant order. */
  predicate CheckValues(relation: seq<int> -> bool, vals: seq<Option<int>>)
  {
    AllAssigned(vals) ==> relation(Unwrap(vals))
  }

  /** `a` has a supporting value in `support`: some `b` there with
      `relation([a, b])`, the revised value always coming first. */
  ghost predicate Supported(a: int, support: set<int>, relation: seq<int> -> bool)
  {
    exists b :: b in support && relation([a, b])
  }

  /** The domain that `revise` leaves: the values of `dom` that have support. */
  ghost function Revised(dom: set<int>, support: set<int>, relation: seq<int> -> bool): (r: set<int>)
    ensures r <= dom
  {
    set a | a in dom && Supported(a, support, relation)
  }

  /** A relation over two values that does not depend on their order. */
  ghost predicate Symmetric(relation: seq<int> -> bool)
  {
    forall a: int, b: int :: relation([a, b]) == relation([b, a])
  }

  /** A supporting value witnesses support. */
  lemma SupportedBy(a: int, b: int, support: set<int>, relation: seq<int> -> bool)
    requires b in support && relation([a, b])
    ensures Supported(a, support, relation)
  {
  }

  /** One instance of symmetry. */
  lemma SymmetricAt(relation: seq<int> -> bool, a: int, b: int)
    requires Symmetric(relation)
    ensures relation([a, b]) == relation([b, a])
  {
  }

  /** Revising twice against the same supporting domain removes nothing the
      second time: a value kept once still has its support. */
  lemma RevisedIsFixpoint(dom: set<int>, support: set<int>, relation: seq<int> -> bool)
    ensures Revised(Revised(dom, support, relation), support, relation) == Revised(dom, support, relation)
  {
    var once := Revised(dom, support, relation);
    forall a | a in once
      ensures a in Revised(once, support, relation)
    {
      assert Supported(a, support, relation);
    }
  }

  /** A domain in which every value has support keeps that property when
      values are removed from it. */
  lemma RevisedOfSubset(dom: set<int>, sub: set<int>, support: set<int>, relation: seq<int> -> bool)
    requires Revised(dom, support, relation) == dom
    requires sub <= dom
    ensures Revised(sub, support, relation) == sub
  {
    forall a | a in sub
      ensures a in Revised(sub, support, relation)
    {
      assert a in Revised(dom, support, relation);
    }
  }

  /** Revising against a larger supporting domain keeps at least as much. */
  lemma RevisedGrowsWithSupport(dom: set<int>, support: set<int>, more: set<int>, relation: seq<int> -> bool)
    requires support <= more
    ensures Revised(dom, support, relation) <= Revised(dom, more, relation)
  {
    forall a | a in Revised(dom, support, relation)
      ensures a in Revised(dom, more, relation)
    {
      var b :| b in support && relation([a, b]);
      assert b in more;
    }
  }

  /** Strict "less than" on two values: an order-sensitive relation. */
  predicate Less(vals: seq<int>)
  {
    |vals| == 2 && vals[0] < vals[1]
  }

  /** Because `revise` always puts the revised value first, it can remove a
      value that takes part in a solution when the revised variable is the
      SECOND participant of an order-sensitive relation: with participants
      (u, w), relation u < w, and domains {1} and {2}, the assignment
      u = 1, w = 2 satisfies the constraint, yet revising w removes 2. */
  lemma ReviseSecondEndpointPrunesSolution()
    ensures Less([1, 2])
    ensures Revised({2}, {1}, Less) == {}
  {
    assert !Supported(2, {1}, Less) by {
      forall b | b in {1}
        ensures !Less([2, b])
      {
        assert b == 1;
      }
    }
  }

  class Constraint {
    /** The participants, in the order the relation receives their values. */
    const variables: seq<Variable>
    /** `_constraint_func`, called with the participants' values. */
    const relation: seq<int> -> bool
    /** True for a `BinaryConstraint`, the only kind that has `revise`. */
    const binary: bool

    /** `Constraint(variables, constraint_func)`. */
    constructor (variables: seq<Variable>, relation: seq<int> -> bool)
      ensures this.variables == variables && this.relation == relation && !binary
    {
      this.variables := variables;
      this.relation := relation;
      this.binary := false;
    }

    /** `BinaryConstraint(variables, constraint_func)` once the arity check
        has passed; `NewBinary` below performs that check. */
    constructor Binary(variables: seq<Variable>, relation: seq<int> -> bool)
      requires |variables| == 2
      ensures this.variables == variables && this.relation == relation && binary
    {
      this.variables := variables;
      this.relation := relation;
      this.binary := true;
    }

    /** A constraint that `revise` and AC-3 can work on. */
    predicate Revisable()
    {
      binary && |variables| == 2
    }

    /** The participants' current values, in order. */
    function Values(): (vals: seq<Option<int>>)
      reads variables
      ensures |vals| == |variables|
      ensures forall i :: 0 <= i < |variables| ==> vals[i] == variables[i].value
    {
      seq(|variables|, i reads variables requires 0 <= i < |variables| => variables[i].value)
    }

    /** `check()`: true while some participant is unassigned; once all are
        assigned, the relation applied to their values in participant order. */
    function Check(): (r: bool)
      reads variables
      ensures (exists i :: 0 <= i < |variables| && variables[i].value == None) ==> r
      ensures (forall i :: 0 <= i < |variables| ==> variables[i].value.Some?) ==>
        (r <==> relation(seq(|variables|, i reads variables
                               requires 0 <= i < |variables| && variables[i].value.Some? =>
                               variables[i].value.value)))
    {
      var vals := Values();
      assert AllAssigned(vals) ==>
          Unwrap(vals) == seq(|variables|, i reads variables
                                requires 0 <= i < |variables| && variables[i].value.Some? =>
                                variables[i].value.value);
      CheckValues(relation, vals)
    }

    /** The values `check` sees once `v` holds `x`; it does not read `v`, so
        changing `v`'s value leaves it alone. */
    function ValuesWith(v: Variable, x: Option<int>): (vals: seq<Option<int>>)
      reads set w | w in variables && w != v
      ensures |vals| == |variables|
      ensures forall i :: 0 <= i < |variables| ==> vals[i] == if variables[i] == v then x else variables[i].value
    {
      seq(|variables|, i reads (set w | w in variables && w != v) requires 0 <= i < |variables| =>
        if variables[i] == v then x else variables[i].value)
    }

    /** What `check()` returns right after `v`'s value has been set to `x`. */
    function CheckWith(v: Variable, x: Option<int>): bool
      reads set w | w in variables && w != v
    {
      CheckValues(relation, ValuesWith(v, x))
    }

    /** The values of the participants under a (hypothetical) assignment `s`. */
    function ValuesUnder(s: map<Variable, int>): (vals: seq<Option<int>>)
      ensures |vals| == |variables|
      ensures forall i :: 0 <= i < |variables| ==>
                vals[i] == if variables[i] in s then Some(s[variables[i]]) else None
    {
      seq(|variables|, i requires 0 <= i < |variables| =>
        if variables[i] in s then Some(s[variables[i]]) else None)
    }

    /** The constraint holds under the assignment `s`. */
    predicate HoldsUnder(s: map<Variable, int>)
    {
      CheckValues(relation, ValuesUnder(s))
    }

    /** The participants' values as recorded in the snapshot `known`, `None`
        for a participant the snapshot does not list. */
    function ValuesIn(known: map<Variable, Option<int>>): (vals: seq<Option<int>>)
      ensures |vals| == |variables|
      ensures forall i :: 0 <= i < |variables| ==>
                vals[i] == if variables[i] in known then known[variables[i]] else None
    {
      seq(|variables|, i requires 0 <= i < |variables| =>
        if variables[i] in known then known[variables[i]] else None)
    }

    /** What `check()` returns in a state whose values the snapshot `known` records. */
    predicate CheckIn(known: map<Variable, Option<int>>)
    {
      CheckValues(relation, ValuesIn(known))
    }

    /** `check()` reads the participants' values, which `known` records. */
    lemma CheckIsCheckIn(known: map<Variable, Option<int>>)
      requires forall w :: w in variables ==> w in known && known[w] == w.value
      ensures Check() == CheckIn(known)
    {
      assert Values() == ValuesIn(known);
    }

    /** Once `v` holds `x`, `check()` is `CheckIn` of a snapshot recording that. */
    lemma CheckWithIsCheckIn(v: Variable, x: Option<int>, known: map<Variable, Option<int>>)
      requires v in known && known[v] == x
      requires forall w :: w in variables && w != v ==> w in known && known[w] == w.value
      ensures CheckWith(v, x) == CheckIn(known)
    {
      assert ValuesWith(v, x) == ValuesIn(known);
    }

    /** The snapshot entry of a non-participant does not matter. */
    lemma CheckInIgnores(known: map<Variable, Option<int>>, v: Variable, x: Option<int>)
      requires v !in variables
      ensures CheckIn(known[v := x]) == CheckIn(known)
    {
      assert ValuesIn(known[v := x]) == ValuesIn(known);
    }

    /** While `v` holds its current value, `check()` is `CheckWith` of that value. */
    lemma CheckIsCheckWith(v: Variable)
      ensures Check() == CheckWith(v, v.value)
    {
      assert Values() == ValuesWith(v, v.value);
    }

    /** A participant whose value is `None` makes the constraint vacuously true. */
    lemma UnassignedParticipantSatisfies(v: Variable)
      requires v in variables
      ensures CheckWith(v, None)
    {
      var i :| 0 <= i < |variables| && variables[i] == v;
      assert ValuesWith(v, None)[i] == None;
    }

    /** When `check()` fails once `v` holds `x`, no assignment that gives `v`
        the value `x` and agrees with the other participants' current values
        satisfies the constraint. */
    lemma RejectedCandidate(v: Variable, x: int, s: map<Variable, int>)
      requires forall w :: w in variables ==> w in s
      requires v in s && s[v] == x
      requires forall w :: w in variables && w != v && w.value.Some? ==> s[w] == w.value.value
      requires !CheckWith(v, Some(x))
      ensures !HoldsUnder(s)
    {
      assert ValuesWith(v, Some(x)) == ValuesUnder(s);
    }

    /** Under an assignment that satisfies the constraint, the value of an
        endpoint `x` finds support in any domain holding the other endpoint's
        value, provided `x` is the first participant or the relation is
        symmetric. */
    lemma SolutionValueSupported(x: Variable, s: map<Variable, int>, support: set<int>)
      requires |variables| == 2 && x in variables
      requires variables[0] in s && variables[1] in s
      requires HoldsUnder(s)
      requires s[Other(x)] in support
      requires x == variables[0] || Symmetric(relation)
      ensures Supported(s[x], support, relation)
    {
      var u, w := variables[0], variables[1];
      assert Unwrap(ValuesUnder(s)) == [s[u], s[w]];
      assert relation([s[u], s[w]]);
      if x != u {
        SymmetricAt(relation, s[u], s[w]);
      }
      SupportedBy(s[x], s[Other(x)], support, relation);
    }

    /** The endpoint `revise(x)` checks `x` against: `variables[0]`, unless
        that is `x`, in which case `variables[1]`. */
    function Other(x: Variable): (o: Variable)
      requires |variables| == 2
      ensures x in variables ==> variables == [x, o] || variables == [o, x]
      ensures x !in variables ==> o == variables[0]
    {
      if variables[0] == x then variables[1] else variables[0]
    }

    /** The inner loop of `revise`: scans `support` for a value `b` with
        `relation([a, b])`, stopping at the first one. */
    method HasSupport(a: int, support: set<int>) returns (consistent: bool)
      ensures consistent <==> Supported(a, support, relation)
    {
      consistent := false;
      var candidates := support;
      while !consistent && candidates != {}
        invariant consistent ==> Supported(a, support, relation)
        invariant !consistent ==> forall b :: b in support && b !in candidates ==> !relation([a, b])
        decreases candidates
      {
        ghost var w := Witness(candidates);
        var b :| b in candidates;
        if relation([a, b]) {
          consistent := true;
        }
        candidates := candidates - {b};
      }
    }

    /** `revise(x)`: removes from `x`'s domain every value that has no
        supporting value in the other endpoint's domain, calling the relation
        as (value of x, value of other) whatever x's position; answers whether
        anything was removed. Nothing else changes. */
    method Revise(x: Variable) returns (revised: bool)
      requires Revisable()
      modifies x`domain
      ensures x.domain == Revised(old(x.domain), old(Other(x).domain), relation)
      ensures revised <==> x.domain != old(x.domain)
    {
      var other := variables[0];
      if other == x {
        other := variables[1];
      }
      var discarded := Unsupported(x.domain, other.domain);
      Discard(x, discarded);
      assert x.domain == Revised(old(x.domain), old(Other(x).domain), relation);
      revised := |discarded| > 0;
      if revised {
        assert discarded[0] in old(x.domain) && discarded[0] !in x.domain;
      }
    }

    /** The first loop of `revise`: the values of `dom`, in iteration order,
        that have no supporting value in `support`. */
    method Unsupported(dom: set<int>, support: set<int>) returns (discarded: seq<int>)
      ensures forall i :: 0 <= i < |discarded| ==> discarded[i] in dom
      ensures forall a :: a in discarded <==> a in dom && !Supported(a, support, relation)
    {
      discarded := [];
      var todo := dom;
      while todo != {}
        invariant todo <= dom
        invariant forall i :: 0 <= i < |discarded| ==> discarded[i] in dom
        invariant forall a :: a in discarded <==> a in dom && a !in todo && !Supported(a, support, relation)
        decreases todo
      {
        ghost var w := Witness(todo);
        var a :| a in todo;
        var consistent := HasSupport(a, support);
        if !consistent {
          discarded := discarded + [a];
        }
        todo := todo - {a};
      }
    }
  }

  /** The second loop of `revise`: discards each listed value from `x`'s domain. */
  method Discard(x: Variable, discarded: seq<int>)
    modifies x`domain
    ensures x.domain == old(x.domain) - set a | a in discarded
  {
    var i := 0;
    while i < |discarded|
      invariant 0 <= i <= |discarded|
      invariant x.domain == old(x.domain) - set a | a in discarded[..i]
    {
      assert discarded[..i + 1] == discarded[..i] + [discarded[i]];
      x.domain := x.domain - {discarded[i]};
      i := i + 1;
    }
    assert discarded[..i] == discarded;
  }

  /** `BinaryConstraint(variables, constraint_func)`: raises ValueError unless
      there are exactly two variables. */
  method NewBinary(variables: seq<Variable>, relation: seq<int> -> bool) returns (r: Result<Constraint>)
    ensures r.Failure? <==> |variables| != 2
    ensures r.Failure? ==> r.error == WrongArity
    ensures r.Success? ==> fresh(r.value) && r.value.Revisable() &&
                           r.value.variables == variables && r.value.relation == relation
  {
    if |variables| != 2 {
      return Failure(WrongArity);
    }
    var c := new Constraint.Binary(variables, relation);
    r := Success(c);
  }
}
