/**
 Version constraints. Each form is turned into lower and upper bounds, some of them found by incrementing a version;
 what the bounds admit is what the form says about leading fields, unless the increment wraps.
 */
module VersionConstraint {
  import opened VersionNumber
  import opened Wrappers
  import Arithmetic

  datatype Kind = GreaterThan | GreaterThanOrEqual | LessThan | LessThanOrEqual | Equal

  datatype Constraint = Constraint(kind: Kind, version: Version)

  datatype Operator = Greater | GreaterOrEqual | Less | LessOrEqual | Equals | Tilde | Caret | Bare

  predicate Holds(c: Constraint, u: Version)
    requires IsVersion(c.version) && IsVersion(u)
  {
    match c.kind
    case GreaterThan => Rank(u) > Rank(c.version)
    case GreaterThanOrEqual => Rank(u) >= Rank(c.version)
    case LessThan => Rank(u) < Rank(c.version)
    case LessThanOrEqual => Rank(u) <= Rank(c.version)
    case Equal => Rank(u) == Rank(c.version)
  }

  predicate AreVersions(constraints: seq<Constraint>) {
    forall c <- constraints :: IsVersion(c.version)
  }

  predicate Satisfies(constraints: seq<Constraint>, u: Version)
    requires AreVersions(constraints) && IsVersion(u)
  {
    forall c <- constraints :: Holds(c, u)
  }

  // ----- what the forms mean ----------------------------------------------

  /** Every field that was given is the largest one: incrementing wraps to zero. */
  predicate AllMax(v: Version)
    requires IsVersion(v)
  {
    forall i :: 0 <= i < v.count ==> v.fields[i] == FIELD_MAX
  }

  /** The first k fields, padded with zeros again. */
  function Truncated(v: Version, k: nat): (t: Version)
    requires IsVersion(v) && 1 <= k <= MAX_FIELDS
    ensures IsVersion(t)
  {
    Version(k, v.fields[..k] + seq(MAX_FIELDS - k, _ => 0))
  }

  predicate Agree(u: Version, v: Version, k: nat)
    requires IsVersion(u) && IsVersion(v) && k <= MAX_FIELDS
  {
    u.fields[..k] == v.fields[..k]
  }

  /** The versions an operator and a version stand for. */
  predicate Meant(op: Operator, v: Version, u: Version)
    requires IsVersion(v) && IsVersion(u)
  {
    match op
    case Greater => Rank(u) > Rank(v)
    case GreaterOrEqual => Rank(u) >= Rank(v)
    case Less => Rank(u) < Rank(v)
    case LessOrEqual => Rank(u) <= Rank(v)
    case Equals => u.fields == v.fields
    case Tilde => v.fields[1] != FIELD_MAX && Agree(u, v, 2) && Rank(u) >= Rank(v)
    case Caret => v.fields[0] != FIELD_MAX && Agree(u, v, 1) && Rank(u) >= Rank(v)
    case Bare => !AllMax(v) && Agree(u, v, v.count)
  }

  /** The versions a range stands for: at least the lower end, and with leading fields at most the upper end. */
  predicate InRange(low: Version, high: Version, u: Version)
    requires IsVersion(low) && IsVersion(high) && IsVersion(u)
  {
    && Rank(u) >= Rank(low)
    && Rank(Truncated(u, high.count)) <= Rank(high)
    && (high.count < MAX_FIELDS ==> !AllMax(high))
  }

  /** A version by itself admits that version, unless its fields are all the largest; then it admits nothing. */
  lemma BareAdmitsItself(v: Version)
    requires IsVersion(v)
    ensures Meant(Bare, v, v) <==> !AllMax(v)
    ensures AllMax(v) ==> forall u :: IsVersion(u) ==> !Meant(Bare, v, u)
  {
  }

  /**
   A range whose ends are in order admits its upper end, unless that has fewer than four fields and they are all the
   largest; then it admits nothing.
   */
  lemma RangeAdmitsItsEnd(low: Version, high: Version)
    requires IsVersion(low) && IsVersion(high) && Rank(low) <= Rank(high)
    ensures InRange(low, high, high) <==> !(high.count < MAX_FIELDS && AllMax(high))
    ensures high.count < MAX_FIELDS && AllMax(high) ==> forall u :: IsVersion(u) ==> !InRange(low, high, u)
  {
    TruncatedAlready(high);
  }

  /** Such versions exist: "4294967295", alone and as the upper end of a range. */
  lemma LargestAdmitsNothing(u: Version)
    requires IsVersion(u)
    ensures var v := Version(1, [FIELD_MAX, 0, 0, 0]);
            IsVersion(v) && ParsesTo("4294967295", Parsed(v)) && !Meant(Bare, v, u) && !InRange(v, v, u)
  {
    hide Split, Accepted, ToString, ParsesTo, Rank;
    var v := Version(1, [FIELD_MAX, 0, 0, 0]);
    BareAdmitsItself(v);
    RangeAdmitsItsEnd(v, v);
    LargestFieldParses();
  }

  /** What each form means, field by field. */
  lemma FormsByFields(v: Version, u: Version)
    requires IsVersion(v) && IsVersion(u)
    ensures Meant(Less, v, u) <==> Before(u.fields, v.fields)
    ensures Meant(Greater, v, u) <==> Before(v.fields, u.fields)
    ensures Meant(LessOrEqual, v, u) <==> !Before(v.fields, u.fields)
    ensures Meant(GreaterOrEqual, v, u) <==> !Before(u.fields, v.fields)
    ensures Meant(Equals, v, u) <==> !Before(u.fields, v.fields) && !Before(v.fields, u.fields)
    ensures Meant(Tilde, v, u) <==>
              && v.fields[1] < 0xFFFF_FFFF && u.fields[0] == v.fields[0] && u.fields[1] == v.fields[1]
              && !Before(u.fields, v.fields)
    ensures Meant(Caret, v, u) <==>
              v.fields[0] < 0xFFFF_FFFF && u.fields[0] == v.fields[0] && !Before(u.fields, v.fields)
    ensures Meant(Bare, v, u) <==>
              && (exists i :: 0 <= i < v.count && v.fields[i] < 0xFFFF_FFFF)
              && forall i :: 0 <= i < v.count ==> u.fields[i] == v.fields[i]
  {
    hide RankOf, Before;
    RankIsOrder(u.fields, v.fields);
    RankIsOrder(v.fields, u.fields);
    AgreeMeans(u, v, 1);
    AgreeMeans(u, v, 2);
    AgreeMeans(u, v, v.count);
  }

  lemma AgreeMeans(u: Version, v: Version, k: nat)
    requires IsVersion(u) && IsVersion(v) && k <= 4
    ensures Agree(u, v, k) <==> forall i :: 0 <= i < k ==> u.fields[i] == v.fields[i]
  {
    if Agree(u, v, k) {
      forall i | 0 <= i < k
        ensures u.fields[i] == v.fields[i]
      {
        assert u.fields[..k][i] == v.fields[..k][i];
      }
    }
  }

  /** A range, field by field: the fields that the upper end has may not come after it. */
  lemma RangeByFields(low: Version, high: Version, u: Version)
    requires IsVersion(low) && IsVersion(high) && IsVersion(u)
    ensures InRange(low, high, u) <==>
              && !Before(u.fields, low.fields)
              && !Before(high.fields[..high.count], u.fields[..high.count])
              && (high.count < 4 ==> exists i :: 0 <= i < high.count && high.fields[i] < 0xFFFF_FFFF)
  {
    hide RankOf;
    var t := Truncated(u, high.count);
    RankIsOrder(u.fields, low.fields);
    RankIsOrder(high.fields, t.fields);
    BeforePadded(high, u);
  }

  lemma BeforePadded(high: Version, u: Version)
    requires IsVersion(high) && IsVersion(u)
    ensures Before(high.fields, Truncated(u, high.count).fields) <==>
              Before(high.fields[..high.count], u.fields[..high.count])
  {
    var t, k := Truncated(u, high.count).fields, high.count;
    var a, b := high.fields[..k], u.fields[..k];
    assert t[..k] == b;
    if i :| 0 <= i < 4 && high.fields[..i] == t[..i] && high.fields[i] < t[i] {
      assert i < k && a[..i] == high.fields[..i] && b[..i] == t[..i] && a[i] < b[i];
    }
    if i :| 0 <= i < k && a[..i] == b[..i] && a[i] < b[i] {
      assert high.fields[..i] == a[..i] && t[..i] == b[..i] && high.fields[i] < t[i];
    }
  }

  lemma StepsToTheLimit(v: Version)
    requires IsVersion(v)
    ensures AllMax(v) <==> Rank(v) + Unit(v.count) == RANK_LIMIT
    ensures Rank(v) + Unit(v.count) <= RANK_LIMIT
  {
    if v.count == 1 {
    } else if v.count == 2 {
    } else if v.count == 3 {
    } else {
    }
  }

  /** Incrementing goes up by one step unless it wraps to zero. */
  lemma IncrementWraps(v: Version)
    requires IsVersion(v)
    ensures AllMax(v) <==> Rank(v) + Unit(v.count) == RANK_LIMIT
    ensures (Rank(v) + Unit(v.count)) % RANK_LIMIT == if AllMax(v) then 0 else Rank(v) + Unit(v.count)
    ensures Rank(v) + Unit(v.count) <= RANK_LIMIT
  {
    hide Rank, Unit, AllMax;
    StepsToTheLimit(v);
  }

  /** The first k fields as one number. */
  function Leading(u: Version, k: nat): nat
    requires IsVersion(u) && 1 <= k <= MAX_FIELDS
  {
    var f := u.fields;
    if k == 1 then f[0]
    else if k == 2 then f[0] * FIELD_LIMIT + f[1]
    else if k == 3 then (f[0] * FIELD_LIMIT + f[1]) * FIELD_LIMIT + f[2]
    else RankOf(f)
  }

  lemma TruncatedRank(u: Version, k: nat)
    requires IsVersion(u) && 1 <= k <= MAX_FIELDS
    ensures Rank(Truncated(u, k)) == Unit(k) * Leading(u, k)
    ensures Rank(Truncated(u, k)) <= Rank(u) < Rank(Truncated(u, k)) + Unit(k)
  {
    var t := Truncated(u, k).fields;
    assert forall i :: 0 <= i < MAX_FIELDS ==> t[i] == if i < k then u.fields[i] else 0;
  }

  lemma Multiples(unit: nat, a: nat, b: nat)
    requires unit > 0
    ensures a <= b ==> unit * a <= unit * b
    ensures a > b ==> unit * a >= unit * b + unit
  {
    Arithmetic.MulOrder(unit, b, a);
    Arithmetic.MulOrder(unit, b + 1, a);
    Arithmetic.MulOrder(unit, a, b);
  }

  lemma UnitPositive(k: nat)
    requires 1 <= k <= MAX_FIELDS
    ensures Unit(k) > 0
  {
  }

  /** Below the next step means at most, as far as the leading fields go. */
  lemma BelowNextStep(v: Version, u: Version)
    requires IsVersion(v) && IsVersion(u)
    ensures Rank(u) < Rank(v) + Unit(v.count) <==> Rank(Truncated(u, v.count)) <= Rank(v)
  {
    hide Rank, RankOf, Truncated, Leading, Unit;
    TruncatedRank(u, v.count);
    TruncatedRank(v, v.count);
    TruncatedAlready(v);
    UnitPositive(v.count);
    Multiples(Unit(v.count), Leading(u, v.count), Leading(v, v.count));
  }

  lemma TruncatedAlready(v: Version)
    requires IsVersion(v)
    ensures Truncated(v, v.count) == v
  {
  }

  /** An upper bound one step above the first k fields of v, which wraps when the k-th field is the largest. */
  lemma NextLeading(v: Version, u: Version, k: nat, next: Version)
    requires IsVersion(v) && IsVersion(u) && IsVersion(next) && 1 <= k <= 2
    requires next.count == k
    requires next.fields[k - 1] == if v.fields[k - 1] == FIELD_MAX then 0 else v.fields[k - 1] + 1
    requires k == 2 ==> next.fields[0] == v.fields[0]
    ensures Rank(u) >= Rank(v) && Rank(u) < Rank(next) <==>
            v.fields[k - 1] != FIELD_MAX && Agree(u, v, k) && Rank(u) >= Rank(v)
  {
    var t := Truncated(v, k);
    PrefixIsQuotient(u.fields, t.fields, k);
    assert Agree(u, v, k) <==> u.fields[..k] == t.fields[..k];
    assert Rank(t) <= Rank(v);
    assert v.fields[k - 1] != FIELD_MAX ==> Rank(next) == Rank(t) + Unit(k);
    assert v.fields[k - 1] == FIELD_MAX ==> Rank(next) <= Rank(v);
  }

  /** A version and the version after it hold exactly the versions that agree with the first. */
  lemma BetweenVersionAndNext(v: Version, next: Version, u: Version)
    requires IsVersion(v) && IsVersion(next) && IsVersion(u)
    requires Rank(next) == (Rank(v) + Unit(v.count)) % RANK_LIMIT
    ensures Rank(v) <= Rank(u) < Rank(next) <==> Meant(Bare, v, u)
  {
    IncrementWraps(v);
    PrefixIsQuotient(u.fields, v.fields, v.count);
  }

  // ----- the constraint ---------------------------------------------------

  class VersionConstraint {
    var constraints: seq<Constraint>

    /** The constraint that every version satisfies. */
    constructor ()
      ensures constraints == [] && Valid()
    {
      constraints := [];
    }

    predicate Valid()
      reads this
    {
      AreVersions(constraints)
    }

    method PushBack(kind: Kind, version: Version)
      requires Valid() && IsVersion(version)
      modifies this
      ensures Valid()
      ensures constraints == old(constraints) + [Constraint(kind, version)]
    {
      constraints := constraints + [Constraint(kind, version)];
    }

    method IsSatisfiedBy(version: VersionNumber) returns (r: bool)
      requires Valid() && version.Valid()
      ensures r == Satisfies(constraints, version.Value())
    {
      hide Rank;
      for i := 0 to |constraints|
        invariant forall j :: 0 <= j < i ==> Holds(constraints[j], version.Value())
      {
        var c := constraints[i];
        assert c in constraints;
        var bound := new VersionNumber(c.version);
        var order := Compare(version, bound);
        match c.kind {
          case GreaterThan =>
            if order <= 0 {
              return false;
            }
          case GreaterThanOrEqual =>
            if order < 0 {
              return false;
            }
          case LessThan =>
            if order >= 0 {
              return false;
            }
          case LessThanOrEqual =>
            if order > 0 {
              return false;
            }
          case Equal =>
            if order != 0 {
              return false;
            }
        }
      }
      r := true;
    }
  }

  function NextField(f: Field): Field {
    (f + 1) % FIELD_LIMIT
  }

  /** Exactly the versions meant satisfy these bounds. */
  ghost predicate Admits(constraints: seq<Constraint>, op: Operator, v: Version)
    requires IsVersion(v)
  {
    AreVersions(constraints) && forall u :: IsVersion(u) ==> (Satisfies(constraints, u) <==> Meant(op, v, u))
  }

  ghost predicate AdmitsRange(constraints: seq<Constraint>, low: Version, high: Version)
    requires IsVersion(low) && IsVersion(high)
  {
    AreVersions(constraints) && forall u :: IsVersion(u) ==> (Satisfies(constraints, u) <==> InRange(low, high, u))
  }

  lemma TwoBounds(low: Version, kind: Kind, high: Version, u: Version)
    requires IsVersion(low) && IsVersion(high) && IsVersion(u)
    ensures var bounds := [] + [Constraint(GreaterThanOrEqual, low)] + [Constraint(kind, high)];
            AreVersions(bounds) &&
            (Satisfies(bounds, u) <==> Rank(u) >= Rank(low) && Holds(Constraint(kind, high), u))
  {
    hide Rank;
    var bounds := [] + [Constraint(GreaterThanOrEqual, low)] + [Constraint(kind, high)];
    assert forall c :: c in bounds <==> c == bounds[0] || c == bounds[1];
    assert bounds[0] in bounds && bounds[1] in bounds;
  }

  lemma OneBound(kind: Kind, op: Operator, v: Version)
    requires IsVersion(v)
    requires (kind, op) in {(GreaterThan, Greater), (GreaterThanOrEqual, GreaterOrEqual), (LessThan, Less),
                            (LessThanOrEqual, LessOrEqual), (Equal, Equals)}
    ensures Admits([] + [Constraint(kind, v)], op, v)
  {
    hide Rank;
    var bounds := [] + [Constraint(kind, v)];
    forall u | IsVersion(u)
      ensures Satisfies(bounds, u) <==> Meant(op, v, u)
    {
      assert bounds[0] in bounds;
      RankIsEquality(u, v);
    }
  }

  lemma TildeBounds(v: Version, next: Version)
    requires IsVersion(v) && next == Version(2, [v.fields[0], NextField(v.fields[1]), 0, 0])
    ensures Admits([] + [Constraint(GreaterThanOrEqual, v)] + [Constraint(LessThan, next)], Tilde, v)
  {
    hide Rank, Satisfies, AreVersions;
    TwoBounds(v, LessThan, next, v);
    forall u | IsVersion(u)
      ensures Satisfies([] + [Constraint(GreaterThanOrEqual, v)] + [Constraint(LessThan, next)], u) <==>
                Meant(Tilde, v, u)
    {
      TwoBounds(v, LessThan, next, u);
      NextLeading(v, u, 2, next);
    }
  }

  lemma CaretBounds(v: Version, next: Version)
    requires IsVersion(v) && next == Version(1, [NextField(v.fields[0]), 0, 0, 0])
    ensures Admits([] + [Constraint(GreaterThanOrEqual, v)] + [Constraint(LessThan, next)], Caret, v)
  {
    hide Rank, Satisfies, AreVersions;
    TwoBounds(v, LessThan, next, v);
    forall u | IsVersion(u)
      ensures Satisfies([] + [Constraint(GreaterThanOrEqual, v)] + [Constraint(LessThan, next)], u) <==>
                Meant(Caret, v, u)
    {
      TwoBounds(v, LessThan, next, u);
      NextLeading(v, u, 1, next);
    }
  }

  lemma BareBounds(v: Version, next: Version)
    requires IsVersion(v) && IsVersion(next) && Rank(next) == (Rank(v) + Unit(v.count)) % RANK_LIMIT
    ensures Admits([] + [Constraint(GreaterThanOrEqual, v)] + [Constraint(LessThan, next)], Bare, v)
  {
    hide Rank, Satisfies, AreVersions, Meant;
    TwoBounds(v, LessThan, next, v);
    forall u | IsVersion(u)
      ensures Satisfies([] + [Constraint(GreaterThanOrEqual, v)] + [Constraint(LessThan, next)], u) <==>
                Meant(Bare, v, u)
    {
      TwoBounds(v, LessThan, next, u);
      BetweenVersionAndNext(v, next, u);
    }
  }

  /** The constraint for an operator, or for a version alone, admits exactly the versions meant. */
  method FromOperator(op: Operator, v: Version) returns (constraint: VersionConstraint)
    requires IsVersion(v)
    ensures fresh(constraint) && constraint.Valid()
    ensures Admits(constraint.constraints, op, v)
  {
    hide Rank, RankOf, Admits, Unit;
    constraint := new VersionConstraint();
    match op {
      case Greater =>
        OneBound(GreaterThan, op, v);
        constraint.PushBack(GreaterThan, v);
      case GreaterOrEqual =>
        OneBound(GreaterThanOrEqual, op, v);
        constraint.PushBack(GreaterThanOrEqual, v);
      case Less =>
        OneBound(LessThan, op, v);
        constraint.PushBack(LessThan, v);
      case LessOrEqual =>
        OneBound(LessThanOrEqual, op, v);
        constraint.PushBack(LessThanOrEqual, v);
      case Equals =>
        OneBound(Equal, op, v);
        constraint.PushBack(Equal, v);
      case Tilde =>
        var next := Version(2, [v.fields[0], NextField(v.fields[1]), 0, 0]);
        TildeBounds(v, next);
        constraint.PushBack(GreaterThanOrEqual, v);
        constraint.PushBack(LessThan, next);
      case Caret =>
        var next := Version(1, [NextField(v.fields[0]), 0, 0, 0]);
        CaretBounds(v, next);
        constraint.PushBack(GreaterThanOrEqual, v);
        constraint.PushBack(LessThan, next);
      case Bare =>
        constraint.PushBack(GreaterThanOrEqual, v);
        var version := new VersionNumber(v);
        version.Increment();
        var next := version.Value();
        constraint.PushBack(LessThan, next);
        BareBounds(v, next);
    }
  }

  lemma RankIsEquality(u: Version, v: Version)
    requires IsVersion(u) && IsVersion(v)
    ensures Rank(u) == Rank(v) <==> u.fields == v.fields
  {
    SameRankSameFields(u.fields, v.fields);
  }

  /** The constraint for a range admits exactly the range; the ends must be in order. */
  method FromRange(low: Version, high: Version) returns (r: Option<VersionConstraint>)
    requires IsVersion(low) && IsVersion(high)
    ensures r.None? <==> Rank(low) > Rank(high)
    ensures r.Some? ==> fresh(r.value) && r.value.Valid() && AdmitsRange(r.value.constraints, low, high)
  {
    hide Rank, RankOf, AdmitsRange, Unit;
    var minVersion := new VersionNumber(low);
    var maxVersion := new VersionNumber(high);
    var order := Compare(minVersion, maxVersion);
    if order > 0 {
      return None;
    }
    var constraint := new VersionConstraint();
    constraint.PushBack(GreaterThanOrEqual, low);
    if maxVersion.fieldsCount < MAX_FIELDS {
      maxVersion.Increment();
      var next := maxVersion.Value();
      constraint.PushBack(LessThan, next);
      RangeBounds(low, high, next);
    } else {
      constraint.PushBack(LessThanOrEqual, high);
      WholeRangeBounds(low, high);
    }
    r := Some(constraint);
  }

  lemma RangeBounds(low: Version, high: Version, next: Version)
    requires IsVersion(low) && IsVersion(high) && IsVersion(next) && high.count < MAX_FIELDS
    requires Rank(next) == (Rank(high) + Unit(high.count)) % RANK_LIMIT
    ensures AdmitsRange([] + [Constraint(GreaterThanOrEqual, low)] + [Constraint(LessThan, next)], low, high)
  {
    hide Rank, Unit, Satisfies, AreVersions, Truncated, AllMax;
    TwoBounds(low, LessThan, next, low);
    forall u | IsVersion(u)
      ensures Satisfies([] + [Constraint(GreaterThanOrEqual, low)] + [Constraint(LessThan, next)], u) <==>
                InRange(low, high, u)
    {
      TwoBounds(low, LessThan, next, u);
      IncrementWraps(high);
      BelowNextStep(high, u);
    }
  }

  lemma WholeRangeBounds(low: Version, high: Version)
    requires IsVersion(low) && IsVersion(high) && high.count == MAX_FIELDS
    ensures AdmitsRange([] + [Constraint(GreaterThanOrEqual, low)] + [Constraint(LessThanOrEqual, high)], low, high)
  {
    hide Rank, Unit, Satisfies, AreVersions, Truncated, AllMax;
    TwoBounds(low, LessThanOrEqual, high, low);
    forall u | IsVersion(u)
      ensures Satisfies([] + [Constraint(GreaterThanOrEqual, low)] + [Constraint(LessThanOrEqual, high)], u) <==>
                InRange(low, high, u)
    {
      TwoBounds(low, LessThanOrEqual, high, u);
      WholeVersion(u);
    }
  }

  lemma WholeVersion(u: Version)
    requires IsVersion(u)
    ensures Rank(Truncated(u, MAX_FIELDS)) == Rank(u)
  {
    assert Truncated(u, MAX_FIELDS).fields == u.fields;
  }
}
