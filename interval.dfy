/**
 * The immutable interval algebra of `Interval`: intervals over a totally
 * ordered element type extended with -∞ and +∞, each end open or closed.
 * Elements are integers here; the algebra only ever compares them.
 */
module Interval {
  import opened Wrappers

  /** An endpoint: a finite element or an infinity, closed (`bounded`) or open. */
  datatype Endpoint =
    | Finity(element: int, bounded: bool)
    | PositiveInfinity(bounded: bool)
    | NegativeInfinity(bounded: bool)

  function Sign(x: int): int
  {
    if x < 0 then -1 else if x > 0 then 1 else 0
  }

  /** `compareTo` of the three endpoint classes; closedness plays no part. */
  function CompareTo(a: Endpoint, b: Endpoint): (r: int)
    ensures -1 <= r <= 1
  {
    match a
    case Finity(x, _) =>
      if b.PositiveInfinity? then -1 else if b.NegativeInfinity? then 1 else Sign(x - b.element)
    case PositiveInfinity(_) => if b.PositiveInfinity? then 0 else 1
    case NegativeInfinity(_) => if b.NegativeInfinity? then 0 else -1
  }

  /** The position of an endpoint on the extended line, for stating the order. */
  function Tier(e: Endpoint): int
  {
    match e
    case NegativeInfinity(_) => 0
    case Finity(_, _) => 1
    case PositiveInfinity(_) => 2
  }

  /**
   * Endpoints are totally preordered: -∞ below every finite endpoint below
   * +∞, infinities of one sign equal, finite endpoints ordered by element.
   */
  lemma EndpointOrder(a: Endpoint, b: Endpoint, c: Endpoint)
    ensures CompareTo(a, b) == -CompareTo(b, a)
    ensures Tier(a) != Tier(b) ==> CompareTo(a, b) == Sign(Tier(a) - Tier(b))
    ensures a.Finity? && b.Finity? ==> CompareTo(a, b) == Sign(a.element - b.element)
    ensures !a.Finity? && Tier(a) == Tier(b) ==> CompareTo(a, b) == 0
    ensures CompareTo(a, b) <= 0 && CompareTo(b, c) <= 0 ==> CompareTo(a, c) <= 0
    ensures CompareTo(a, b) < 0 && CompareTo(b, c) <= 0 ==> CompareTo(a, c) < 0
  {
  }

  /**
   * `compareTo` given a null endpoint (the end of an empty interval): a
   * finite endpoint dereferences it, an infinity answers by its sign.
   */
  function CompareToNullable(a: Endpoint, b: Option<Endpoint>): (r: Outcome<int>)
    ensures b.Some? ==> r == Returned(CompareTo(a, b.value))
    ensures b.None? ==> (r.Threw? <==> a.Finity?)
    ensures r.Threw? ==> r.error == NullPointer
  {
    match b
    case Some(e) => Returned(CompareTo(a, e))
    case None =>
      match a
      case Finity(_, _) => Threw(NullPointer)
      case PositiveInfinity(_) => Returned(1)
      case NegativeInfinity(_) => Returned(-1)
  }

  /** `Endpoint.infinity(type, postive, bounded)`. */
  function Infinity(positive: bool, bounded: bool): (r: Endpoint)
    ensures !r.Finity? && r.bounded == bounded && r.PositiveInfinity? == positive
  {
    if positive then PositiveInfinity(bounded) else NegativeInfinity(bounded)
  }

  /** `Endpoint.copyOf`: the same position with the given closedness. */
  function CopyOf(e: Endpoint, bounded: bool): (r: Endpoint)
    ensures r.bounded == bounded && Tier(r) == Tier(e)
    ensures forall x :: CompareTo(r, x) == CompareTo(e, x)
    ensures e.Finity? ==> r == Finity(e.element, bounded)
  {
    match e
    case Finity(x, _) => Finity(x, bounded)
    case PositiveInfinity(_) => Infinity(true, bounded)
    case NegativeInfinity(_) => Infinity(false, bounded)
  }

  /** `isEmptyInterval`. */
  predicate IsEmptyInterval(left: Option<Endpoint>, right: Option<Endpoint>)
    ensures left.Some? && right.Some? && IsEmptyInterval(left, right) ==>
      forall v :: !(AboveLeft(v, left.value) && BelowRight(v, right.value))
  {
    left.None? || right.None?
    || CompareTo(left.value, right.value) > 0
    || (CompareTo(left.value, right.value) == 0 && (!left.value.bounded || !right.value.bounded))
  }

  /** An interval: an empty one keeps no endpoints. */
  datatype Interval = Interval(empty: bool, left: Option<Endpoint>, right: Option<Endpoint>)
  {
    predicate Valid()
    {
      (empty ==> left.None? && right.None?)
      && (!empty ==> left.Some? && right.Some? && !IsEmptyInterval(left, right))
    }

    predicate IsLeftClosed()
      requires left.Some?
    {
      left.value.bounded
    }

    predicate IsRightClosed()
      requires right.Some?
    {
      right.value.bounded
    }
  }

  /** The private constructor: emptiness is decided from the endpoints. */
  function Make(left: Option<Endpoint>, right: Option<Endpoint>): (r: Interval)
    ensures r.Valid()
    ensures r.empty == IsEmptyInterval(left, right)
    ensures !r.empty ==> r.left == left && r.right == right
  {
    var empty := IsEmptyInterval(left, right);
    Interval(empty, if empty then None else left, if empty then None else right)
  }

  /** `new Interval<>(type)`: the empty interval. */
  function EmptyInterval(): (r: Interval)
    ensures r.Valid() && r.empty
  {
    Make(None, None)
  }

  /** A finite value lies at or after a left endpoint (strictly after an open one). */
  predicate AboveLeft(v: int, e: Endpoint)
  {
    match e
    case Finity(x, b) => x < v || (b && x == v)
    case NegativeInfinity(_) => true
    case PositiveInfinity(_) => false
  }

  /** A finite value lies at or before a right endpoint (strictly before an open one). */
  predicate BelowRight(v: int, e: Endpoint)
  {
    match e
    case Finity(x, b) => v < x || (b && v == x)
    case PositiveInfinity(_) => true
    case NegativeInfinity(_) => false
  }

  /** The set an interval denotes: the finite values between its ends. */
  predicate Member(v: int, i: Interval)
  {
    !i.empty && i.left.Some? && i.right.Some? && AboveLeft(v, i.left.value) && BelowRight(v, i.right.value)
  }

  /** The values of a collection of intervals. */
  predicate MemberOfSome(v: int, s: set<Interval>)
  {
    exists i :: i in s && Member(v, i)
  }

  /** The emptiness test is sound: the endpoints of an empty interval enclose no value. */
  lemma EmptyIntervalHasNoMembers(left: Endpoint, right: Endpoint, v: int)
    requires IsEmptyInterval(Some(left), Some(right))
    ensures !(AboveLeft(v, left) && BelowRight(v, right))
  {
  }

  /** The constructor keeps exactly the values between the given ends. */
  lemma MakeMembers(left: Endpoint, right: Endpoint, v: int)
    ensures Member(v, Make(Some(left), Some(right))) <==> AboveLeft(v, left) && BelowRight(v, right)
  {
    if IsEmptyInterval(Some(left), Some(right)) {
      EmptyIntervalHasNoMembers(left, right, v);
    }
  }

  /** `isDegenerate`: a closed interval whose ends coincide. */
  predicate IsDegenerate(i: Interval)
    requires i.Valid()
    ensures IsDegenerate(i) ==> !i.empty && i.left.value.bounded && i.right.value.bounded
    ensures IsDegenerate(i) ==> (i.left.value.Finity? ==> i.left == i.right && Member(i.left.value.element, i))
    ensures IsDegenerate(i) ==> (!i.left.value.Finity? ==> forall v :: !Member(v, i))
  {
    !i.empty && i.IsLeftClosed() && i.IsRightClosed() && CompareTo(i.left.value, i.right.value) == 0
  }

  /** `contains`: false for null or the empty interval; a degenerate interval holds its one element. */
  predicate Contains(i: Interval, value: Option<int>)
    requires i.Valid()
    ensures Contains(i, value) <==> value.Some? && Member(value.value, i)
  {
    if value.None? || i.empty then false
    else
      var e := Finity(value.value, true);
      if IsDegenerate(i) then CompareTo(i.left.value, e) == 0
      else
        var lc := CompareTo(e, i.left.value);
        var rc := CompareTo(e, i.right.value);
        !(lc < 0 || rc > 0) && !(lc == 0 && !i.IsLeftClosed()) && !(rc == 0 && !i.IsRightClosed())
  }

  /** `contains(v)` holds exactly for the members of the interval. */
  lemma ContainsIffMember(i: Interval, value: Option<int>)
    requires i.Valid()
    ensures value.None? ==> !Contains(i, value)
    ensures value.Some? ==> (Contains(i, value) <==> Member(value.value, i))
  {
  }

  /** `isSupersetOf`. */
  predicate IsSupersetOf(i: Interval, other: Option<Interval>)
    requires i.Valid() && (other.Some? ==> other.value.Valid())
    ensures IsSupersetOf(i, other) ==> other.Some? && !i.empty && forall v :: Member(v, other.value) ==> Member(v, i)
  {
    if other.None? || i.empty then false
    else if other.value.empty then true
    else
      var o := other.value;
      var lc := CompareTo(i.left.value, o.left.value);
      var rc := CompareTo(i.right.value, o.right.value);
      !(lc > 0 || rc < 0)
      && !((lc == 0 && !i.IsLeftClosed() && o.IsLeftClosed()) || (rc == 0 && !i.IsRightClosed() && o.IsRightClosed()))
  }

  /**
   * `isSubsetOf`: both comparisons are made before either is tested, so a
   * non-empty receiver with a finite end dereferences the missing ends of
   * an empty argument.
   */
  function IsSubsetOf(i: Interval, other: Option<Interval>): (r: Outcome<bool>)
    requires i.Valid() && (other.Some? ==> other.value.Valid())
    ensures other.None? ==> r == Returned(false)
    ensures other.Some? && i.empty ==> r == Returned(true)
    ensures other.Some? && (i.empty || !other.value.empty) ==> r.Returned?
    ensures r.Threw? ==> r.error == NullPointer
  {
    if other.None? then Returned(false)
    else if i.empty then Returned(true)
    else
      var o := other.value;
      match CompareToNullable(i.left.value, o.left)
      case Threw(e) => Threw(e)
      case Returned(lc) =>
        match CompareToNullable(i.right.value, o.right)
        case Threw(e) => Threw(e)
        case Returned(rc) =>
          if lc < 0 || rc > 0 then Returned(false)
          else if o.empty then Returned(true)
          else Returned(!((lc == 0 && i.IsLeftClosed() && !o.IsLeftClosed())
                          || (rc == 0 && i.IsRightClosed() && !o.IsRightClosed())))
  }

  /** The subset test is sound: every member of the receiver is a member of the argument. */
  lemma SubsetSound(a: Interval, b: Interval, v: int)
    requires a.Valid() && b.Valid() && IsSubsetOf(a, Some(b)) == Returned(true)
    ensures Member(v, a) ==> Member(v, b)
  {
  }

  /** A non-empty interval tested against the empty one: a null dereference, or false for infinite ends. */
  lemma SubsetOfEmpty(a: Interval, b: Interval)
    requires a.Valid() && b.Valid() && !a.empty && b.empty
    ensures a.left.value.Finity? || a.right.value.Finity? ==> IsSubsetOf(a, Some(b)) == Threw(NullPointer)
    ensures !a.left.value.Finity? && !a.right.value.Finity? ==> IsSubsetOf(a, Some(b)) == Returned(false)
  {
  }

  /** For non-empty operands `isSupersetOf` is the mirror image of `isSubsetOf`. */
  lemma SupersetMirrorsSubset(a: Interval, b: Interval)
    requires a.Valid() && b.Valid()
    ensures !a.empty && !b.empty ==> (IsSupersetOf(a, Some(b)) <==> IsSubsetOf(b, Some(a)) == Returned(true))
    ensures a.empty ==> !IsSupersetOf(a, Some(b))
    ensures !a.empty && b.empty ==> IsSupersetOf(a, Some(b))
  {
    if !a.empty && !b.empty {
      EndpointOrder(a.left.value, b.left.value, a.left.value);
      EndpointOrder(a.right.value, b.right.value, a.right.value);
    }
  }

  /** `hasIntersectionWith`: true whenever either side is empty; closedness is not consulted. */
  predicate HasIntersectionWith(i: Interval, other: Option<Interval>)
    requires i.Valid() && (other.Some? ==> other.value.Valid())
    ensures other.Some? && !HasIntersectionWith(i, other) ==> forall v :: !(Member(v, i) && Member(v, other.value))
  {
    if other.None? then false
    else if i.empty || other.value.empty then true
    else CompareTo(i.left.value, other.value.right.value) <= 0 && CompareTo(i.right.value, other.value.left.value) >= 0
  }

  /** Intervals sharing a member always intersect. */
  lemma SharedMemberIntersects(a: Interval, b: Interval, v: int)
    requires a.Valid() && b.Valid() && Member(v, a) && Member(v, b)
    ensures HasIntersectionWith(a, Some(b))
  {
  }

  /** Intervals that do not intersect share no member. */
  lemma DisjointHaveNoCommonMember(a: Interval, b: Interval, v: int)
    requires a.Valid() && b.Valid() && !HasIntersectionWith(a, Some(b))
    ensures !(Member(v, a) && Member(v, b))
  {
  }

  /** The later of two left ends; on a tie it is closed only when both are. */
  function MeetLeft(x: Endpoint, y: Endpoint): Endpoint
  {
    var c := CompareTo(x, y);
    CopyOf(if c >= 0 then x else y,
           if c > 0 then x.bounded else if c < 0 then y.bounded else x.bounded && y.bounded)
  }

  /**
   * The earlier of two right ends. `guard` is the comparison consulted for
   * the closedness once the ends are known not to favour `y`.
   */
  function MeetRight(x: Endpoint, y: Endpoint, guard: int): Endpoint
  {
    var c := CompareTo(x, y);
    CopyOf(if c >= 0 then y else x,
           if c > 0 then y.bounded else if guard < 0 then x.bounded else x.bounded && y.bounded)
  }

  /** A value is above the later left end exactly when it is above both. */
  lemma MeetLeftMembers(x: Endpoint, y: Endpoint, v: int)
    ensures AboveLeft(v, MeetLeft(x, y)) <==> AboveLeft(v, x) && AboveLeft(v, y)
  {
  }

  /** With the right comparison as guard, a value is below the earlier right end exactly when it is below both. */
  lemma MeetRightMembers(x: Endpoint, y: Endpoint, v: int)
    ensures BelowRight(v, MeetRight(x, y, CompareTo(x, y))) <==> BelowRight(v, x) && BelowRight(v, y)
  {
  }

  /** The last step of `intersect`: the later left end and the earlier right end. */
  function Meet(a: Interval, b: Interval, rightGuard: int): (r: Interval)
    requires a.Valid() && b.Valid() && !a.empty && !b.empty
    ensures r.Valid()
  {
    Make(Some(MeetLeft(a.left.value, b.left.value)), Some(MeetRight(a.right.value, b.right.value, rightGuard)))
  }

  /** The shared skeleton of `intersect`; `fixed` selects the right-end comparison. */
  function IntersectWith(a: Interval, other: Option<Interval>, fixed: bool): (r: Outcome<Interval>)
    requires a.Valid() && (other.Some? ==> other.value.Valid())
    ensures r.Threw? <==> other.None?
    ensures r.Threw? ==> r.error == IllegalArgument
    ensures r.Returned? ==> r.value.Valid()
  {
    if other.None? then Threw(IllegalArgument)
    else
      var b := other.value;
      if a.empty then Returned(a)
      else if b.empty then Returned(b)
      else if !HasIntersectionWith(a, other) then Returned(EmptyInterval())
      else if IsSubsetOf(a, other).value then Returned(a)
      else if IsSupersetOf(a, other) then Returned(b)
      else
        var lc := CompareTo(a.left.value, b.left.value);
        var rc := CompareTo(a.right.value, b.right.value);
        Returned(Meet(a, b, if fixed then rc else lc))
  }

  /** `intersect` as written: the right end's closedness tests the left comparison. */
  function IntersectAsWritten(a: Interval, other: Option<Interval>): (r: Outcome<Interval>)
    requires a.Valid() && (other.Some? ==> other.value.Valid())
    ensures r.Threw? <==> other.None?
    ensures r.Returned? ==> r.value.Valid()
    ensures other.Some? && a.empty ==> r == Returned(a)
    ensures other.Some? && !a.empty && other.value.empty ==> r == Returned(other.value)
  {
    IntersectWith(a, other, false)
  }

  /** `intersect` with the right end's closedness decided by the right comparison. */
  function Intersect(a: Interval, other: Option<Interval>): (r: Outcome<Interval>)
    requires a.Valid() && (other.Some? ==> other.value.Valid())
    ensures r.Threw? <==> other.None?
    ensures r.Returned? ==> r.value.Valid()
  {
    IntersectWith(a, other, true)
  }

  /** The corrected final step of `intersect` keeps exactly the common members. */
  lemma MeetMembers(a: Interval, b: Interval, v: int)
    requires a.Valid() && b.Valid() && !a.empty && !b.empty
    ensures Member(v, Meet(a, b, CompareTo(a.right.value, b.right.value))) <==> Member(v, a) && Member(v, b)
  {
    var l := MeetLeft(a.left.value, b.left.value);
    var r := MeetRight(a.right.value, b.right.value, CompareTo(a.right.value, b.right.value));
    MakeMembers(l, r, v);
    MeetLeftMembers(a.left.value, b.left.value, v);
    MeetRightMembers(a.right.value, b.right.value, v);
  }

  /** The intersection holds exactly the values both intervals hold. */
  lemma IntersectMembers(a: Interval, b: Interval, v: int)
    requires a.Valid() && b.Valid()
    ensures Intersect(a, Some(b)).Returned?
    ensures Member(v, Intersect(a, Some(b)).value) <==> Member(v, a) && Member(v, b)
  {
    if !a.empty && !b.empty {
      if !HasIntersectionWith(a, Some(b)) {
        DisjointHaveNoCommonMember(a, b, v);
      } else if IsSubsetOf(a, Some(b)).value {
        SubsetSound(a, b, v);
      } else if IsSupersetOf(a, Some(b)) {
        SupersetMirrorsSubset(a, b);
        SubsetSound(b, a, v);
      } else {
        MeetMembers(a, b, v);
      }
    }
  }

  /** `intersect` as written drops the closed end 4 from [0, 4] ∩ (0, 5). */
  lemma IntersectAsWrittenLosesEnd()
    ensures var a := Make(Some(Finity(0, true)), Some(Finity(4, true)));
            var b := Make(Some(Finity(0, false)), Some(Finity(5, false)));
            && Member(4, a) && Member(4, b)
            && IntersectAsWritten(a, Some(b)).Returned?
            && !Member(4, IntersectAsWritten(a, Some(b)).value)
  {
  }

  /** The earlier of two left ends; on a tie it is closed when either is. */
  function HullLeft(x: Endpoint, y: Endpoint): Endpoint
  {
    var c := CompareTo(x, y);
    CopyOf(if c >= 0 then y else x,
           if c > 0 then y.bounded else if c < 0 then x.bounded else x.bounded || y.bounded)
  }

  /** The later of two right ends; `guard` plays the same part as in `MeetRight`. */
  function HullRight(x: Endpoint, y: Endpoint, guard: int): Endpoint
  {
    var c := CompareTo(x, y);
    CopyOf(if c >= 0 then x else y,
           if c > 0 then x.bounded else if guard < 0 then y.bounded else x.bounded || y.bounded)
  }

  /** A value is above the earlier left end exactly when it is above either. */
  lemma HullLeftMembers(x: Endpoint, y: Endpoint, v: int)
    ensures AboveLeft(v, HullLeft(x, y)) <==> AboveLeft(v, x) || AboveLeft(v, y)
  {
  }

  /** With the right comparison as guard, a value is below the later right end exactly when it is below either. */
  lemma HullRightMembers(x: Endpoint, y: Endpoint, v: int)
    ensures BelowRight(v, HullRight(x, y, CompareTo(x, y))) <==> BelowRight(v, x) || BelowRight(v, y)
  {
  }

  /** The last step of `union`: the earlier left end and the later right end. */
  function Hull(a: Interval, b: Interval, rightGuard: int): (r: Interval)
    requires a.Valid() && b.Valid() && !a.empty && !b.empty
    ensures r.Valid()
  {
    Make(Some(HullLeft(a.left.value, b.left.value)), Some(HullRight(a.right.value, b.right.value, rightGuard)))
  }

  /** `union` as written; the collection is the one handed to `Intervals`, before flattening. */
  function UnionAsWritten(a: Interval, other: Option<Interval>): (r: Outcome<set<Interval>>)
    requires a.Valid() && (other.Some? ==> other.value.Valid())
    ensures other.None? ==> r == Threw(IllegalArgument)
    ensures other.Some? && a.empty && other.value.empty ==> r == Returned({})
    ensures r.Threw? ==> other.None? || r.error == NullPointer
  {
    if other.None? then Threw(IllegalArgument)
    else
      var b := other.value;
      if a.empty && b.empty then Returned({})
      else if !HasIntersectionWith(a, other) then Returned({a, b})
      else match IsSubsetOf(a, other)
        case Threw(e) => Threw(e)
        case Returned(sub) =>
          if sub then Returned({b})
          else if IsSupersetOf(a, other) then Returned({a})
          else
            var lc := CompareTo(a.left.value, b.left.value);
            Returned({Hull(a, b, lc)})
  }

  /**
   * Two non-empty intervals whose union is one interval: they overlap, or
   * meet at an end that one of them holds.
   */
  predicate Connected(a: Interval, b: Interval)
    requires a.Valid() && b.Valid() && !a.empty && !b.empty
  {
    var lr := CompareTo(a.left.value, b.right.value);
    var rl := CompareTo(a.right.value, b.left.value);
    lr <= 0 && rl >= 0
    && (lr == 0 ==> a.IsLeftClosed() || b.IsRightClosed())
    && (rl == 0 ==> a.IsRightClosed() || b.IsLeftClosed())
  }

  /**
   * `union` with an empty operand handled before any endpoint is compared,
   * intervals merged only when they are connected, and the right end's
   * closedness decided by the right comparison.
   */
  function Union(a: Interval, other: Option<Interval>): (r: Outcome<set<Interval>>)
    requires a.Valid() && (other.Some? ==> other.value.Valid())
    ensures r.Threw? <==> other.None?
    ensures r.Returned? ==> forall i :: i in r.value ==> i.Valid()
  {
    if other.None? then Threw(IllegalArgument)
    else
      var b := other.value;
      if a.empty && b.empty then Returned({})
      else if a.empty then Returned({b})
      else if b.empty then Returned({a})
      else if !Connected(a, b) then Returned({a, b})
      else if IsSubsetOf(a, other).value then Returned({b})
      else if IsSupersetOf(a, other) then Returned({a})
      else
        var rc := CompareTo(a.right.value, b.right.value);
        Returned({Hull(a, b, rc)})
  }

  /** A value past the right end of one interval and before the left end of another lies in no gap of connected intervals. */
  lemma NoGap(a: Interval, b: Interval, v: int)
    requires a.Valid() && b.Valid() && !a.empty && !b.empty && Connected(a, b)
    ensures AboveLeft(v, a.left.value) && BelowRight(v, b.right.value) ==> Member(v, a) || Member(v, b)
    ensures AboveLeft(v, b.left.value) && BelowRight(v, a.right.value) ==> Member(v, a) || Member(v, b)
  {
  }

  /** The corrected final step of `union` holds exactly the members of either connected interval. */
  lemma HullMembers(a: Interval, b: Interval, v: int)
    requires a.Valid() && b.Valid() && !a.empty && !b.empty && Connected(a, b)
    ensures Member(v, Hull(a, b, CompareTo(a.right.value, b.right.value))) <==> Member(v, a) || Member(v, b)
  {
    var l := HullLeft(a.left.value, b.left.value);
    var r := HullRight(a.right.value, b.right.value, CompareTo(a.right.value, b.right.value));
    MakeMembers(l, r, v);
    HullLeftMembers(a.left.value, b.left.value, v);
    HullRightMembers(a.right.value, b.right.value, v);
    NoGap(a, b, v);
  }

  /** The union holds exactly the values either interval holds. */
  lemma UnionMembers(a: Interval, b: Interval, v: int)
    requires a.Valid() && b.Valid()
    ensures Union(a, Some(b)).Returned?
    ensures MemberOfSome(v, Union(a, Some(b)).value) <==> Member(v, a) || Member(v, b)
  {
    var s := Union(a, Some(b)).value;
    if !a.empty && !b.empty && Connected(a, b) {
      if IsSubsetOf(a, Some(b)).value {
        SubsetSound(a, b, v);
        assert s == {b};
      } else if IsSupersetOf(a, Some(b)) {
        SupersetMirrorsSubset(a, b);
        SubsetSound(b, a, v);
        assert s == {a};
      } else {
        var h := Hull(a, b, CompareTo(a.right.value, b.right.value));
        assert s == {h};
        HullMembers(a, b, v);
      }
    } else if a.empty && b.empty {
      assert s == {};
    } else if a.empty {
      assert s == {b};
    } else if b.empty {
      assert s == {a};
    } else {
      assert s == {a, b};
    }
  }

  /** `union` as written adds the open end 5 to [0, 4] ∪ (0, 5). */
  lemma UnionAsWrittenGainsEnd()
    ensures var a := Make(Some(Finity(0, true)), Some(Finity(4, true)));
            var b := Make(Some(Finity(0, false)), Some(Finity(5, false)));
            && !Member(5, a) && !Member(5, b)
            && UnionAsWritten(a, Some(b)).Returned?
            && MemberOfSome(5, UnionAsWritten(a, Some(b)).value)
  {
    var a := Make(Some(Finity(0, true)), Some(Finity(4, true)));
    var b := Make(Some(Finity(0, false)), Some(Finity(5, false)));
    var h := Hull(a, b, CompareTo(a.left.value, b.left.value));
    assert UnionAsWritten(a, Some(b)) == Returned({h});
    assert Member(5, h);
  }

  /** `union` as written bridges the gap at 1 in [0, 1) ∪ (1, 2]. */
  lemma UnionAsWrittenBridgesGap()
    ensures var a := Make(Some(Finity(0, true)), Some(Finity(1, false)));
            var b := Make(Some(Finity(1, false)), Some(Finity(2, true)));
            && !Member(1, a) && !Member(1, b)
            && UnionAsWritten(a, Some(b)).Returned?
            && MemberOfSome(1, UnionAsWritten(a, Some(b)).value)
  {
    var a := Make(Some(Finity(0, true)), Some(Finity(1, false)));
    var b := Make(Some(Finity(1, false)), Some(Finity(2, true)));
    var h := Hull(a, b, CompareTo(a.left.value, b.left.value));
    assert UnionAsWritten(a, Some(b)) == Returned({h});
    assert Member(1, h);
  }

  /** `union` as written dereferences the missing ends of an empty argument. */
  lemma UnionAsWrittenDereferencesEmpty()
    ensures var a := Make(Some(Finity(0, true)), Some(Finity(1, true)));
            UnionAsWritten(a, Some(EmptyInterval())) == Threw(NullPointer)
  {
  }

  /**
   * The remainders of `difference`: the part of the receiver before the
   * argument when `leftPart`, the part after it when `rightPart`; the
   * argument's boundary closedness is flipped.
   */
  function Remainders(a: Interval, b: Interval, leftPart: bool, rightPart: bool): (r: set<Interval>)
    requires a.Valid() && b.Valid() && !a.empty && !b.empty
    ensures forall i :: i in r ==> i.Valid()
  {
    (if leftPart then {Make(a.left, Some(CopyOf(b.left.value, !b.IsLeftClosed())))} else {})
    + (if rightPart then {Make(Some(CopyOf(b.right.value, !b.IsRightClosed())), a.right)} else {})
  }

  /**
   * Two non-empty intervals share a point of the line: unlike
   * `hasIntersectionWith`, ends that meet count only when both are closed.
   */
  predicate Overlaps(a: Interval, b: Interval)
    requires a.Valid() && b.Valid() && !a.empty && !b.empty
  {
    var lr := CompareTo(a.left.value, b.right.value);
    var rl := CompareTo(a.right.value, b.left.value);
    (lr < 0 || (lr == 0 && a.IsLeftClosed() && b.IsRightClosed()))
    && (rl > 0 || (rl == 0 && a.IsRightClosed() && b.IsLeftClosed()))
  }

  /** Intervals that do not overlap share no member. */
  lemma NoOverlapNoCommonMember(a: Interval, b: Interval, v: int)
    requires a.Valid() && b.Valid() && !a.empty && !b.empty && !Overlaps(a, b)
    ensures !(Member(v, a) && Member(v, b))
  {
  }

  /**
   * The shared skeleton of `difference`; `fixed` tests overlap with the
   * ends' closedness and keeps a closed end the argument leaves open.
   */
  function DifferenceWith(a: Interval, other: Option<Interval>, fixed: bool): (r: Outcome<set<Interval>>)
    requires a.Valid() && (other.Some? ==> other.value.Valid())
    ensures r.Threw? <==> other.None?
    ensures r.Threw? ==> r.error == IllegalArgument
    ensures r.Returned? ==> forall i :: i in r.value ==> i.Valid()
  {
    if other.None? then Threw(IllegalArgument)
    else
      var b := other.value;
      if a.empty || b.empty then Returned({a})
      else if !HasIntersectionWith(a, other) || (fixed && !Overlaps(a, b)) then Returned({a})
      else if IsSubsetOf(a, other).value then Returned({EmptyInterval()})
      else
        var lc := CompareTo(a.left.value, b.left.value);
        var rc := CompareTo(a.right.value, b.right.value);
        var leftPart := lc < 0 || (fixed && lc == 0 && a.IsLeftClosed() && !b.IsLeftClosed());
        var rightPart := rc > 0 || (fixed && rc == 0 && a.IsRightClosed() && !b.IsRightClosed());
        Returned(Remainders(a, b, leftPart, rightPart))
  }

  /**
   * `difference` as written: a remainder is kept only where the receiver's end
   * lies strictly outside; the collection is the one handed to `Intervals`,
   * before flattening.
   */
  function DifferenceAsWritten(a: Interval, other: Option<Interval>): (r: Outcome<set<Interval>>)
    requires a.Valid() && (other.Some? ==> other.value.Valid())
    ensures r.Threw? <==> other.None?
    ensures other.Some? && (a.empty || other.value.empty) ==> r == Returned({a})
    ensures other.Some? && !HasIntersectionWith(a, other) ==> r == Returned({a})
  {
    DifferenceWith(a, other, false)
  }

  /**
   * `difference` that returns the receiver whole when the two share no
   * point, and keeps the receiver's closed end where the argument's equal
   * end is open.
   */
  function Difference(a: Interval, other: Option<Interval>): (r: Outcome<set<Interval>>)
    requires a.Valid() && (other.Some? ==> other.value.Valid())
    ensures r.Threw? <==> other.None?
    ensures r.Returned? ==> forall i :: i in r.value ==> i.Valid()
  {
    DifferenceWith(a, other, true)
  }

  /** Flipping a left end's closedness and reading it as a right end gives the values before it. */
  lemma FlippedLeft(e: Endpoint, v: int)
    ensures BelowRight(v, CopyOf(e, !e.bounded)) <==> !AboveLeft(v, e)
  {
  }

  /** Flipping a right end's closedness and reading it as a left end gives the values after it. */
  lemma FlippedRight(e: Endpoint, v: int)
    ensures AboveLeft(v, CopyOf(e, !e.bounded)) <==> !BelowRight(v, e)
  {
  }

  /** A left end that is not before another, nor equal and more inclusive, admits no value the other excludes. */
  lemma LeftCovered(x: Endpoint, y: Endpoint, v: int)
    requires CompareTo(x, y) > 0 || (CompareTo(x, y) == 0 && !(x.bounded && !y.bounded))
    ensures AboveLeft(v, x) ==> AboveLeft(v, y)
  {
  }

  /** A right end that is not after another, nor equal and more inclusive, admits no value the other excludes. */
  lemma RightCovered(x: Endpoint, y: Endpoint, v: int)
    requires CompareTo(x, y) < 0 || (CompareTo(x, y) == 0 && !(x.bounded && !y.bounded))
    ensures BelowRight(v, x) ==> BelowRight(v, y)
  {
  }

  /** The part of the receiver before an overlapping argument: its members not past the argument's left end. */
  lemma LeftRemainderMembers(a: Interval, b: Interval, v: int)
    requires a.Valid() && b.Valid() && !a.empty && !b.empty && Overlaps(a, b)
    ensures Member(v, Make(a.left, Some(CopyOf(b.left.value, !b.IsLeftClosed()))))
            <==> Member(v, a) && !AboveLeft(v, b.left.value)
  {
    MakeMembers(a.left.value, CopyOf(b.left.value, !b.IsLeftClosed()), v);
    FlippedLeft(b.left.value, v);
  }

  /** The part of the receiver after an overlapping argument: its members not before the argument's right end. */
  lemma RightRemainderMembers(a: Interval, b: Interval, v: int)
    requires a.Valid() && b.Valid() && !a.empty && !b.empty && Overlaps(a, b)
    ensures Member(v, Make(Some(CopyOf(b.right.value, !b.IsRightClosed())), a.right))
            <==> Member(v, a) && !BelowRight(v, b.right.value)
  {
    MakeMembers(CopyOf(b.right.value, !b.IsRightClosed()), a.right.value, v);
    FlippedRight(b.right.value, v);
  }

  /** The remainders the corrected `difference` keeps hold exactly the receiver's members outside the argument. */
  lemma RemaindersMembers(a: Interval, b: Interval, v: int, leftPart: bool, rightPart: bool)
    requires a.Valid() && b.Valid() && !a.empty && !b.empty && Overlaps(a, b)
    requires var lc := CompareTo(a.left.value, b.left.value);
             leftPart == (lc < 0 || (lc == 0 && a.IsLeftClosed() && !b.IsLeftClosed()))
    requires var rc := CompareTo(a.right.value, b.right.value);
             rightPart == (rc > 0 || (rc == 0 && a.IsRightClosed() && !b.IsRightClosed()))
    ensures MemberOfSome(v, Remainders(a, b, leftPart, rightPart)) <==> Member(v, a) && !Member(v, b)
  {
    var l := Make(a.left, Some(CopyOf(b.left.value, !b.IsLeftClosed())));
    var r := Make(Some(CopyOf(b.right.value, !b.IsRightClosed())), a.right);
    var s := Remainders(a, b, leftPart, rightPart);
    assert s == (if leftPart then {l} else {}) + (if rightPart then {r} else {});
    LeftRemainderMembers(a, b, v);
    RightRemainderMembers(a, b, v);
    if !leftPart {
      LeftCovered(a.left.value, b.left.value, v);
    }
    if !rightPart {
      RightCovered(a.right.value, b.right.value, v);
    }
    if MemberOfSome(v, s) {
      var i :| i in s && Member(v, i);
      assert i == l || i == r;
    }
    if Member(v, a) && !Member(v, b) {
      if !AboveLeft(v, b.left.value) {
        assert l in s;
      } else {
        assert r in s;
      }
    }
  }

  /** The difference holds exactly the values of the receiver outside the argument. */
  lemma DifferenceMembers(a: Interval, b: Interval, v: int)
    requires a.Valid() && b.Valid()
    ensures Difference(a, Some(b)).Returned?
    ensures MemberOfSome(v, Difference(a, Some(b)).value) <==> Member(v, a) && !Member(v, b)
  {
    var s := Difference(a, Some(b)).value;
    if a.empty || b.empty {
      assert s == {a};
    } else if !HasIntersectionWith(a, Some(b)) || !Overlaps(a, b) {
      assert s == {a};
      NoOverlapNoCommonMember(a, b, v);
    } else if IsSubsetOf(a, Some(b)).value {
      assert s == {EmptyInterval()};
      SubsetSound(a, b, v);
    } else {
      var lc := CompareTo(a.left.value, b.left.value);
      var rc := CompareTo(a.right.value, b.right.value);
      var leftPart := lc < 0 || (lc == 0 && a.IsLeftClosed() && !b.IsLeftClosed());
      var rightPart := rc > 0 || (rc == 0 && a.IsRightClosed() && !b.IsRightClosed());
      assert s == Remainders(a, b, leftPart, rightPart);
      RemaindersMembers(a, b, v, leftPart, rightPart);
    }
  }

  /** `difference` as written loses the closed end 0 of [0, 5] minus (0, 3]. */
  lemma DifferenceAsWrittenLosesEnd()
    ensures var a := Make(Some(Finity(0, true)), Some(Finity(5, true)));
            var b := Make(Some(Finity(0, false)), Some(Finity(3, true)));
            && Member(0, a) && !Member(0, b)
            && DifferenceAsWritten(a, Some(b)).Returned?
            && !MemberOfSome(0, DifferenceAsWritten(a, Some(b)).value)
  {
    var a := Make(Some(Finity(0, true)), Some(Finity(5, true)));
    var b := Make(Some(Finity(0, false)), Some(Finity(3, true)));
    assert HasIntersectionWith(a, Some(b));
    assert IsSubsetOf(a, Some(b)) == Returned(false);
    var r := Make(Some(Finity(3, false)), Some(Finity(5, true)));
    assert Remainders(a, b, false, true) == {r};
    assert DifferenceAsWritten(a, Some(b)) == Returned({r});
    assert !Member(0, r);
  }

  /** `difference` as written adds the open end 3 to [0, 3) minus (3, 5]. */
  lemma DifferenceAsWrittenGainsTouchPoint()
    ensures var a := Make(Some(Finity(0, true)), Some(Finity(3, false)));
            var b := Make(Some(Finity(3, false)), Some(Finity(5, true)));
            && !Member(3, a)
            && DifferenceAsWritten(a, Some(b)).Returned?
            && MemberOfSome(3, DifferenceAsWritten(a, Some(b)).value)
  {
    var a := Make(Some(Finity(0, true)), Some(Finity(3, false)));
    var b := Make(Some(Finity(3, false)), Some(Finity(5, true)));
    assert HasIntersectionWith(a, Some(b));
    assert IsSubsetOf(a, Some(b)) == Returned(false);
    var l := Make(Some(Finity(0, true)), Some(Finity(3, true)));
    assert Remainders(a, b, true, false) == {l};
    assert DifferenceAsWritten(a, Some(b)) == Returned({l});
    assert Member(3, l);
  }

  /**
   * `EndpointBuilder.build` as written: an infinity takes its sign from the
   * closedness flag and its closedness from the sign flag; with neither an
   * element nor a sign the null sign is unboxed.
   */
  function BuildEndpointAsWritten(element: Option<int>, positive: Option<bool>, bounded: bool): (r: Outcome<Endpoint>)
    ensures element.Some? ==> r == Returned(Finity(element.value, bounded))
    ensures element.None? && positive.None? ==> r == Threw(NullPointer)
  {
    if element.Some? then Returned(Finity(element.value, bounded))
    else if positive.None? then Threw(NullPointer)
    else Returned(Infinity(bounded, positive.value))
  }

  /** `EndpointBuilder.build` with the arguments in the order `infinity` declares them. */
  function BuildEndpoint(element: Option<int>, positive: Option<bool>, bounded: bool): (r: Outcome<Endpoint>)
    ensures element.Some? ==> r == Returned(Finity(element.value, bounded))
    ensures element.None? && positive.None? ==> r == Threw(NullPointer)
    ensures element.None? && positive.Some? ==> r.Returned? && !r.value.Finity?
    ensures element.None? && positive.Some? ==> r.value.PositiveInfinity? == positive.value && r.value.bounded == bounded
  {
    if element.Some? then Returned(Finity(element.value, bounded))
    else if positive.None? then Threw(NullPointer)
    else Returned(Infinity(positive.value, bounded))
  }

  /** A closed negative infinity requested through the builder comes out as an open positive one. */
  lemma BuildEndpointAsWrittenSwapsFlags()
    ensures BuildEndpointAsWritten(None, Some(false), true) == Returned(PositiveInfinity(false))
    ensures BuildEndpoint(None, Some(false), true) == Returned(NegativeInfinity(true))
  {
  }

  /** `EndpointBuilder`: a fluent builder of one endpoint, closed by default. */
  class EndpointBuilder {
    var element: Option<int>
    var positive: Option<bool>
    var bounded: bool

    constructor ()
      ensures element.None? && positive.None? && bounded
    {
      element := None;
      positive := None;
      bounded := true;
    }

    /** `finity(element)`: a null element is rejected. */
    method SetFinity(e: Option<int>) returns (error: Option<Exception>)
      modifies this
      ensures e.None? ==> error == Some(IllegalArgument) && unchanged(this)
      ensures e.Some? ==> error.None? && element == e && positive.None? && bounded == old(bounded)
    {
      if e.None? {
        return Some(IllegalArgument);
      }
      element := e;
      positive := None;
      error := None;
    }

    /** `infinity(postive)`. */
    method SetInfinity(p: bool)
      modifies this
      ensures positive == Some(p) && element.None? && bounded == old(bounded)
    {
      positive := Some(p);
      element := None;
    }

    /** `bounded()` and `unbounded()`. */
    method SetBounded(b: bool)
      modifies this
      ensures bounded == b && element == old(element) && positive == old(positive)
    {
      bounded := b;
    }

    /** `build()`, with the infinity's flags in their declared order. */
    method Build() returns (r: Outcome<Endpoint>)
      ensures r == BuildEndpoint(element, positive, bounded)
    {
      if element.Some? {
        return Returned(Finity(element.value, bounded));
      }
      if positive.None? {
        return Threw(NullPointer);
      }
      r := Returned(Infinity(positive.value, bounded));
    }
  }

  /** The endpoint a builder yields, or null when it was never asked for. */
  function EndpointOf(b: EndpointBuilder?): (r: Outcome<Option<Endpoint>>)
    reads b
    ensures b == null ==> r == Returned(None)
    ensures b != null && b.element.None? && b.positive.None? ==> r == Threw(NullPointer)
    ensures b != null && b.element.Some? ==> r == Returned(Some(Finity(b.element.value, b.bounded)))
    ensures b != null && b.element.None? && b.positive.Some? ==>
      r.Returned? && r.value.Some? && r.value.value.bounded == b.bounded
      && r.value.value.PositiveInfinity? == b.positive.value && !r.value.value.Finity?
  {
    if b == null then Returned(None)
    else match BuildEndpoint(b.element, b.positive, b.bounded)
      case Threw(e) => Threw(e)
      case Returned(ep) => Returned(Some(ep))
  }

  /** The endpoint a builder yields as written, with the infinity's flags swapped. */
  function EndpointOfAsWritten(b: EndpointBuilder?): (r: Outcome<Option<Endpoint>>)
    reads b
    ensures b == null ==> r == Returned(None)
    ensures b != null && b.element.None? && b.positive.None? ==> r == Threw(NullPointer)
    ensures b != null && b.element.Some? ==> r == Returned(Some(Finity(b.element.value, b.bounded)))
    ensures b != null && b.element.None? && b.positive.Some? ==>
      r.Returned? && r.value.Some? && r.value.value.bounded == b.positive.value
      && r.value.value.PositiveInfinity? == b.bounded && !r.value.value.Finity?
  {
    if b == null then Returned(None)
    else match BuildEndpointAsWritten(b.element, b.positive, b.bounded)
      case Threw(e) => Threw(e)
      case Returned(ep) => Returned(Some(ep))
  }

  /**
   * A left end set to negative infinity with the default closedness and a
   * right end at 0: as written the left end becomes an open positive
   * infinity and the interval is empty; corrected it is (-inf, 0], holding 0
   * and every value below.
   */
  lemma BuildAsWrittenEmptiesDownRay(v: int)
    requires v <= 0
    ensures BuildEndpointAsWritten(None, Some(false), true) == Returned(PositiveInfinity(false))
    ensures Make(Some(PositiveInfinity(false)), Some(Finity(0, true))).empty
    ensures BuildEndpoint(None, Some(false), true) == Returned(NegativeInfinity(true))
    ensures Member(v, Make(Some(NegativeInfinity(true)), Some(Finity(0, true))))
  {
  }

  /** `IntervalBuilder`: endpoint builders created on first use. */
  class IntervalBuilder {
    var lepBuilder: EndpointBuilder?
    var repBuilder: EndpointBuilder?

    constructor ()
      ensures lepBuilder == null && repBuilder == null
    {
      lepBuilder := null;
      repBuilder := null;
    }

    /** `left()`: the same left endpoint builder on every call. */
    method Left() returns (b: EndpointBuilder)
      modifies this
      ensures old(lepBuilder) != null ==> b == old(lepBuilder)
      ensures old(lepBuilder) == null ==> fresh(b) && b.element.None? && b.positive.None? && b.bounded
      ensures lepBuilder == b && repBuilder == old(repBuilder)
    {
      if lepBuilder == null {
        lepBuilder := new EndpointBuilder();
      }
      b := lepBuilder;
    }

    /** `right()`: the same right endpoint builder on every call. */
    method Right() returns (b: EndpointBuilder)
      modifies this
      ensures old(repBuilder) != null ==> b == old(repBuilder)
      ensures old(repBuilder) == null ==> fresh(b) && b.element.None? && b.positive.None? && b.bounded
      ensures repBuilder == b && lepBuilder == old(lepBuilder)
    {
      if repBuilder == null {
        repBuilder := new EndpointBuilder();
      }
      b := repBuilder;
    }

    /** `build()`: a missing endpoint builder leaves its end null, giving the empty interval. */
    method Build() returns (r: Outcome<Interval>)
      ensures r.Returned? ==> r.value.Valid()
      ensures EndpointOf(lepBuilder).Threw? ==> r == Threw(EndpointOf(lepBuilder).error)
      ensures EndpointOf(lepBuilder).Returned? && EndpointOf(repBuilder).Threw? ==> r == Threw(EndpointOf(repBuilder).error)
      ensures EndpointOf(lepBuilder).Returned? && EndpointOf(repBuilder).Returned? ==>
        r == Returned(Make(EndpointOf(lepBuilder).value, EndpointOf(repBuilder).value))
      ensures lepBuilder == null || repBuilder == null ==> r.Threw? || r.value.empty
    {
      var left := EndpointOf(lepBuilder);
      if left.Threw? {
        return Threw(left.error);
      }
      var right := EndpointOf(repBuilder);
      if right.Threw? {
        return Threw(right.error);
      }
      r := Returned(Make(left.value, right.value));
    }

    /** `build()` as written, over the endpoint builders' flag-swapping `build`. */
    method BuildAsWritten() returns (r: Outcome<Interval>)
      ensures r.Returned? ==> r.value.Valid()
      ensures EndpointOfAsWritten(lepBuilder).Threw? ==> r == Threw(EndpointOfAsWritten(lepBuilder).error)
      ensures EndpointOfAsWritten(lepBuilder).Returned? && EndpointOfAsWritten(repBuilder).Threw? ==>
        r == Threw(EndpointOfAsWritten(repBuilder).error)
      ensures EndpointOfAsWritten(lepBuilder).Returned? && EndpointOfAsWritten(repBuilder).Returned? ==>
        r == Returned(Make(EndpointOfAsWritten(lepBuilder).value, EndpointOfAsWritten(repBuilder).value))
      ensures lepBuilder == null || repBuilder == null ==> r.Threw? || r.value.empty
    {
      var left := EndpointOfAsWritten(lepBuilder);
      if left.Threw? {
        return Threw(left.error);
      }
      var right := EndpointOfAsWritten(repBuilder);
      if right.Threw? {
        return Threw(right.error);
      }
      r := Returned(Make(left.value, right.value));
    }
  }
}
