/** lib/variable.py: a variable is a mutable cell with a mutable finite domain
    and an optional value; the value setter validates domain membership. */
module Variables {
  import opened Common

  class Variable {
    /** The values the variable may take; AC-3 shrinks it in place. */
    var domain: set<int>
    /** The current value (`_value`); `None` means unassigned. */
    var value: Option<int>

    /** `Variable(domain=None)`: an omitted domain is the empty set, and a
        fresh variable is unassigned. */
    constructor (domain: Option<set<int>>)
      ensures this.domain == (if domain.Some? then domain.value else {})
      ensures value == None
    {
      this.domain := if domain.Some? then domain.value else {};
      this.value := None;
    }

    /** What the value setter accepts: `None`, or a member of the domain as
        it is at the time of the call. */
    predicate Accepts(x: Option<int>)
      reads this
    {
      x.None? || x.value in domain
    }

    /** The `value` setter: refuses (InvalidValueError) a non-`None` value
        outside the domain and then leaves the stored value as it was;
        otherwise stores the value, so that the getter returns exactly it. */
    method SetValue(x: Option<int>) returns (r: Outcome)
      modifies this`value
      ensures r.Pass? <==> x.None? || x.value in domain
      ensures r.Fail? ==> r.error == InvalidValue
      ensures value == (if r.Pass? then x else old(value))
    {
      if x.Some? && x.value !in domain {
        return Fail(InvalidValue);
      }
      value := x;
      r := Pass;
    }
  }
}
