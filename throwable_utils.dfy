/**
 * `ThrowableUtils`: walking a throwable's cause chain. The heap of throwables
 * is a sequence `causes`; throwable `t` is an index into it and `causes[t]` is
 * what `t.getCause()` returns, -1 standing for null. `getCause()` never
 * returns the throwable itself (Java reports a self-cause as null), and the
 * heap is finite, so every chain either ends in null or runs into a cycle.
 */
module ThrowableUtils {
  import opened Wrappers

  const Null: int := -1

  ghost predicate WellFormed(causes: seq<int>)
  {
    forall t :: 0 <= t < |causes| ==> Null <= causes[t] < |causes| && causes[t] != t
  }

  /** The `j`-th element of the chain starting at `t`: `t`, its cause, the cause's cause, ... (-1 once it has ended). */
  ghost function Walk(causes: seq<int>, t: int, j: nat): (r: int)
    requires WellFormed(causes) && Null <= t < |causes|
    ensures Null <= r < |causes|
    decreases j
  {
    if j == 0 then t
    else
      var p := Walk(causes, t, j - 1);
      if p == Null then Null else causes[p]
  }

  /** The throwables `mapCauses` hands to its callback after `k` steps: elements 1..k of the chain. */
  ghost function Visits(causes: seq<int>, t: int, k: nat): (r: seq<int>)
    requires WellFormed(causes) && 0 <= t < |causes|
    ensures |r| == k
    decreases k
  {
    if k == 0 then [] else Visits(causes, t, k - 1) + [Walk(causes, t, k)]
  }

  /** At step `k` the fast pointer has caught the slow one, which is `(k - 1) / 2` steps along. */
  ghost predicate Meets(causes: seq<int>, t: int, k: nat)
    requires WellFormed(causes) && 0 <= t < |causes|
  {
    k >= 1 && Walk(causes, t, k) == Walk(causes, t, (k - 1) / 2)
  }

  /** The chain from `t` is still going after `k` steps. */
  ghost predicate DefinedUpTo(causes: seq<int>, t: int, k: nat)
    requires WellFormed(causes) && 0 <= t < |causes|
  {
    forall j :: 0 <= j <= k ==> Walk(causes, t, j) != Null
  }

  /**
   * The walk from `t` stops after `k` steps: the chain is still going at step
   * `k`, and either the next cause is null or the pointers meet at `k` for the
   * first time.
   */
  ghost predicate StopsAt(causes: seq<int>, t: int, k: nat)
    requires WellFormed(causes) && 0 <= t < |causes|
  {
    DefinedUpTo(causes, t, k)
    && (Walk(causes, t, k + 1) == Null || Meets(causes, t, k))
    && forall j :: 1 <= j < k ==> !Meets(causes, t, j)
  }

  /** The last throwable handed to the callback after `k` steps, null if none. */
  ghost function LastVisited(causes: seq<int>, t: int, k: nat): int
    requires WellFormed(causes) && 0 <= t < |causes|
  {
    if k == 0 then Null else Walk(causes, t, k)
  }

  /**
   * `mapCauses(throwable, callback)`: the callbacks it makes, in order. A null
   * callback is rejected; a null throwable makes no callbacks.
   */
  method MapCauses(causes: seq<int>, throwable: int, callbackIsNull: bool) returns (r: Outcome<seq<int>>)
    requires WellFormed(causes) && Null <= throwable < |causes|
    ensures callbackIsNull ==> r == Threw(IllegalArgument)
    ensures !callbackIsNull && throwable == Null ==> r == Returned([])
    ensures !callbackIsNull && throwable != Null ==> (r.Returned? &&
      exists k: nat :: r.value == Visits(causes, throwable, k) && StopsAt(causes, throwable, k))
  {
    if callbackIsNull {
      return Threw(IllegalArgument);
    }
    if throwable == Null {
      return Returned([]);
    }
    var t := throwable;
    var slow := throwable;
    var advanceSlow := false;
    var visited: seq<int> := [];
    ghost var k: nat := 0;
    while causes[t] != Null
      invariant 0 <= t < |causes| && 0 <= slow < |causes|
      invariant DefinedUpTo(causes, throwable, k)
      invariant t == Walk(causes, throwable, k) && slow == Walk(causes, throwable, k / 2)
      invariant advanceSlow == (k % 2 == 1)
      invariant visited == Visits(causes, throwable, k)
      invariant forall j :: 1 <= j <= k ==> !Meets(causes, throwable, j)
      invariant k < 2 * |causes|
      decreases 2 * |causes| - k
    {
      var cause := causes[t];
      t := cause;
      visited := visited + [t];
      k := k + 1;
      assert DefinedUpTo(causes, throwable, k);
      if t == slow {
        assert Meets(causes, throwable, k);
        assert StopsAt(causes, throwable, k);
        return Returned(visited);
      }
      if advanceSlow {
        assert k / 2 == (k - 1) / 2 + 1 && k / 2 <= k;
        slow := causes[slow];
        assert slow == Walk(causes, throwable, k / 2);
      } else {
        assert k / 2 == (k - 1) / 2;
      }
      assert Walk(causes, throwable, k / 2) != Null;
      advanceSlow := !advanceSlow;
      MeetsWithinBound(causes, throwable, k);
    }
    assert StopsAt(causes, throwable, k);
    return Returned(visited);
  }

  /** Two equal elements of the chain repeat in step forever after. */
  lemma {:induction false} WalkShift(causes: seq<int>, t: int, a: nat, b: nat, d: nat)
    requires WellFormed(causes) && 0 <= t < |causes|
    requires Walk(causes, t, a) == Walk(causes, t, b)
    ensures Walk(causes, t, a + d) == Walk(causes, t, b + d)
    decreases d
  {
    if d > 0 {
      WalkShift(causes, t, a, b, d - 1);
    }
  }

  /** With period `p` from step `i` on, every later element repeats after any multiple of `p`. */
  lemma {:induction false} WalkPeriodic(causes: seq<int>, t: int, i: nat, p: nat, m: nat, c: nat)
    requires WellFormed(causes) && 0 <= t < |causes|
    requires Walk(causes, t, i) == Walk(causes, t, i + p) && i <= m
    ensures Walk(causes, t, m) == Walk(causes, t, m + c * p)
    decreases c
  {
    if c > 0 {
      WalkPeriodic(causes, t, i, p, m, c - 1);
      WalkShift(causes, t, i, i + p, m - i + (c - 1) * p);
      assert m + c * p == i + p + (m - i + (c - 1) * p);
    }
  }

  /** Among more than `n` values drawn from [0, n), two are equal. */
  lemma {:induction false} Pigeonhole(s: seq<int>, n: nat)
    requires n >= 1 && |s| > n && forall i :: 0 <= i < |s| ==> 0 <= s[i] < n
    ensures exists i, j :: 0 <= i < j < |s| && s[i] == s[j]
    decreases n
  {
    if n == 1 {
      assert s[0] == 0 == s[1];
    } else if p :| 0 <= p < |s| && s[p] == n - 1 {
      if q :| 0 <= q < |s| && q != p && s[q] == n - 1 {
        if p < q { assert s[p] == s[q]; } else { assert s[q] == s[p]; }
      } else {
        PigeonholeWithout(s, n, p);
      }
    } else {
      Pigeonhole(s, n - 1);
    }
  }

  /** The step of `Pigeonhole` where the largest value `n - 1` occurs once, at `p`. */
  lemma {:induction false} PigeonholeWithout(s: seq<int>, n: nat, p: nat)
    requires n >= 2 && |s| > n && forall i :: 0 <= i < |s| ==> 0 <= s[i] < n
    requires p < |s| && forall q :: 0 <= q < |s| && q != p ==> s[q] != n - 1
    ensures exists i, j :: 0 <= i < j < |s| && s[i] == s[j]
    decreases n, 0
  {
    var s' := s[..p] + s[p + 1..];
    assert forall i :: 0 <= i < |s'| ==> s'[i] == (if i < p then s[i] else s[i + 1]);
    Pigeonhole(s', n - 1);
    var i, j :| 0 <= i < j < |s'| && s'[i] == s'[j];
    var i', j' := (if i < p then i else i + 1), (if j < p then j else j + 1);
    assert s[i'] == s[j'] && i' < j';
  }

  /** A chain that has not ended within |causes| steps has already repeated an element. */
  lemma ChainRepeats(causes: seq<int>, t: int)
    requires WellFormed(causes) && 0 <= t < |causes|
    requires DefinedUpTo(causes, t, |causes|)
    ensures exists i, j :: 0 <= i < j <= |causes| && Walk(causes, t, i) == Walk(causes, t, j)
  {
    var s := seq(|causes| + 1, j requires 0 <= j <= |causes| => Walk(causes, t, j));
    Pigeonhole(s, |causes|);
    var i, j :| 0 <= i < j < |s| && s[i] == s[j];
    assert Walk(causes, t, i) == Walk(causes, t, j);
  }

  /** Some multiple of `p`, less one, lies in [i, i + p - 1]. */
  lemma MultipleAfter(i: nat, p: nat) returns (c: nat)
    requires p > 0
    ensures c >= 1 && i <= c * p - 1 <= i + p - 1
  {
    c := i / p + 1;
    assert i == (i / p) * p + i % p;
    assert c * p == (i / p) * p + p;
  }

  /**
   * Floyd's argument for the loop: the pointers must meet before step
   * 2 * |causes|, so a walk that has gone `k` steps without meeting has
   * `k < 2 * |causes| - 1`.
   */
  lemma MeetsWithinBound(causes: seq<int>, t: int, k: nat)
    requires WellFormed(causes) && 0 <= t < |causes|
    requires DefinedUpTo(causes, t, k)
    requires forall j :: 1 <= j <= k ==> !Meets(causes, t, j)
    ensures k < 2 * |causes| - 1
  {
    var n := |causes|;
    if k >= n {
      ChainRepeats(causes, t);
      var i, j :| 0 <= i < j <= n && Walk(causes, t, i) == Walk(causes, t, j);
      var p := j - i;
      var c := MultipleAfter(i, p);
      var m := c * p - 1;
      WalkPeriodic(causes, t, i, p, m, c);
      assert m + c * p == 2 * m + 1;
      assert (2 * m + 1 - 1) / 2 == m;
      if 2 * m + 1 <= k {
        assert Meets(causes, t, 2 * m + 1);
      }
    }
  }

  /** Once the chain has ended it stays ended. */
  lemma {:induction false} NullStays(causes: seq<int>, t: int, j: nat, d: nat)
    requires WellFormed(causes) && 0 <= t < |causes|
    requires Walk(causes, t, j) == Null
    ensures Walk(causes, t, j + d) == Null
    decreases d
  {
    if d > 0 {
      NullStays(causes, t, j, d - 1);
    }
  }

  /** A chain that repeats an element never ends: it is a cycle. */
  lemma {:induction false} RepeatNeverEnds(causes: seq<int>, t: int, a: nat, b: nat, m: nat)
    requires WellFormed(causes) && 0 <= t < |causes|
    requires a < b && Walk(causes, t, a) == Walk(causes, t, b) && Walk(causes, t, b) != Null
    ensures Walk(causes, t, m) != Null
    decreases m
  {
    if m <= b {
      if Walk(causes, t, m) == Null {
        NullStays(causes, t, m, b - m);
      }
    } else {
      WalkShift(causes, t, a, b, m - b);
      RepeatNeverEnds(causes, t, a, b, a + (m - b));
    }
  }

  /**
   * On a chain that ends in null after `n` causes, the `k` that `MapCauses`
   * promises is `n`: every cause is visited exactly once, in order, and the
   * walk stops at the cause whose `getCause()` is null.
   */
  lemma AcyclicChainVisitedOnce(causes: seq<int>, t: int, n: nat, k: nat)
    requires WellFormed(causes) && 0 <= t < |causes|
    requires DefinedUpTo(causes, t, n) && Walk(causes, t, n + 1) == Null
    requires DefinedUpTo(causes, t, k)
    requires Walk(causes, t, k + 1) == Null || Meets(causes, t, k)
    ensures k == n
    ensures forall i :: 1 <= i <= n ==> Visits(causes, t, n)[i - 1] == Walk(causes, t, i)
    ensures forall i, j :: 1 <= i < j <= n ==> Walk(causes, t, i) != Walk(causes, t, j)
  {
    if k < n {
      assert Walk(causes, t, k + 1) != Null;
      RepeatNeverEnds(causes, t, (k - 1) / 2, k, n + 1);
    }
    forall i | 1 <= i <= n
      ensures Visits(causes, t, n)[i - 1] == Walk(causes, t, i)
    {
      VisitsAt(causes, t, n, i);
    }
    forall i, j | 1 <= i < j <= n
      ensures Walk(causes, t, i) != Walk(causes, t, j)
    {
      if Walk(causes, t, i) == Walk(causes, t, j) {
        RepeatNeverEnds(causes, t, i, j, n + 1);
      }
    }
  }

  lemma {:induction false} VisitsAt(causes: seq<int>, t: int, k: nat, i: nat)
    requires WellFormed(causes) && 0 <= t < |causes|
    requires 1 <= i <= k
    ensures Visits(causes, t, k)[i - 1] == Walk(causes, t, i)
    decreases k
  {
    if i < k {
      VisitsAt(causes, t, k - 1, i);
    }
  }

  /**
   * `getRootCause(throwable)`: the last throwable the callback saw, or null
   * when there was none.
   */
  method GetRootCause(causes: seq<int>, throwable: int) returns (r: int)
    requires WellFormed(causes) && Null <= throwable < |causes|
    ensures throwable == Null ==> r == Null
    ensures throwable != Null ==> exists k: nat :: StopsAt(causes, throwable, k) && r == LastVisited(causes, throwable, k)
  {
    var visited := MapCauses(causes, throwable, false);
    if |visited.value| == 0 {
      r := Null;
    } else {
      r := visited.value[|visited.value| - 1];
    }
    if throwable != Null {
      ghost var k: nat :| visited.value == Visits(causes, throwable, k) && StopsAt(causes, throwable, k);
      if k > 0 {
        VisitsAt(causes, throwable, k, k);
      }
    }
  }

  /**
   * `flattenCauses(throwable, collector)` with a list-building collector: a
   * null collector is rejected, a null throwable gives null, otherwise exactly
   * the throwables `mapCauses` hands over, in order.
   */
  method FlattenCauses(causes: seq<int>, throwable: int, collectorIsNull: bool) returns (r: Outcome<Option<seq<int>>>)
    requires WellFormed(causes) && Null <= throwable < |causes|
    ensures collectorIsNull ==> r == Threw(IllegalArgument)
    ensures !collectorIsNull && throwable == Null ==> r == Returned(None)
    ensures !collectorIsNull && throwable != Null ==> (r.Returned? && r.value.Some? &&
      exists k: nat :: r.value.value == Visits(causes, throwable, k) && StopsAt(causes, throwable, k))
  {
    if collectorIsNull {
      return Threw(IllegalArgument);
    }
    if throwable == Null {
      return Returned(None);
    }
    var visited := MapCauses(causes, throwable, false);
    return Returned(Some(visited.value));
  }

  /**
   * `flattenCauses` as written never starts with the throwable itself: its
   * first entry, if any, is the throwable's cause, which is a different
   * throwable.
   */
  lemma FlattenCausesOmitsThrowable(causes: seq<int>, t: int, k: nat)
    requires WellFormed(causes) && 0 <= t < |causes|
    ensures k == 0 ==> Visits(causes, t, k) == []
    ensures k > 0 ==> Visits(causes, t, k)[0] == causes[t] != t
  {
    if k > 0 {
      VisitsAt(causes, t, k, 1);
    }
  }

  /**
   * A throwable without a cause: as written the flattened chain is empty,
   * although the documented first entry is the throwable itself.
   */
  lemma FlattenCausesOfCauselessThrowable()
    ensures WellFormed([Null]) && StopsAt([Null], 0, 0) && Visits([Null], 0, 0) == []
    ensures forall k: nat :: StopsAt([Null], 0, k) ==> k == 0
  {
    assert Walk([Null], 0, 1) == Null;
  }

  /** The chain as documented: the throwable followed by the causes `mapCauses` hands over. */
  ghost function Chain(causes: seq<int>, t: int, k: nat): (r: seq<int>)
    requires WellFormed(causes) && 0 <= t < |causes|
    ensures |r| == k + 1 && r[0] == t
  {
    [t] + Visits(causes, t, k)
  }

  /** Entry `i` of the documented chain is the `i`-th element of the walk from the throwable. */
  lemma ChainIsWalk(causes: seq<int>, t: int, k: nat)
    requires WellFormed(causes) && 0 <= t < |causes|
    ensures forall i :: 0 <= i <= k ==> Chain(causes, t, k)[i] == Walk(causes, t, i)
  {
    forall i | 1 <= i <= k
      ensures Chain(causes, t, k)[i] == Walk(causes, t, i)
    {
      VisitsAt(causes, t, k, i);
    }
  }

  /**
   * `flattenCauses` as documented: the same as `FlattenCauses`, except that
   * the list starts with the throwable itself, followed by its causes.
   */
  method FlattenCausesWithThrowable(causes: seq<int>, throwable: int, collectorIsNull: bool)
    returns (r: Outcome<Option<seq<int>>>)
    requires WellFormed(causes) && Null <= throwable < |causes|
    ensures collectorIsNull ==> r == Threw(IllegalArgument)
    ensures !collectorIsNull && throwable == Null ==> r == Returned(None)
    ensures !collectorIsNull && throwable != Null ==> (r.Returned? && r.value.Some? &&
      exists k: nat :: r.value.value == Chain(causes, throwable, k) && StopsAt(causes, throwable, k)
        && forall i :: 0 <= i <= k ==> r.value.value[i] == Walk(causes, throwable, i))
  {
    if collectorIsNull {
      return Threw(IllegalArgument);
    }
    if throwable == Null {
      return Returned(None);
    }
    var visited := MapCauses(causes, throwable, false);
    ghost var k: nat :| visited.value == Visits(causes, throwable, k) && StopsAt(causes, throwable, k);
    ChainIsWalk(causes, throwable, k);
    return Returned(Some([throwable] + visited.value));
  }

  /** The three kinds of Java throwable that matter to `throwIfUnchecked`. */
  datatype Kind = RuntimeException | Error | Checked

  /**
   * `throwIfUnchecked(throwable)`: the throwable that escapes, if any. Only a
   * `RuntimeException` or an `Error` is rethrown; null and checked throwables
   * return normally.
   */
  function ThrowIfUnchecked(throwable: Option<Kind>): (thrown: Option<Kind>)
    ensures thrown.Some? <==> throwable.Some? && throwable.value != Checked
    ensures thrown.Some? ==> thrown == throwable
  {
    match throwable
    case None => None
    case Some(kind) => if kind.RuntimeException? || kind.Error? then Some(kind) else None
  }

  /** What a call of `throwIfInstanceOf` ends with. */
  datatype Completion = Normal | Rethrows(throwable: int) | Fails(error: Exception)

  /**
   * `throwIfInstanceOf(throwable, declaredType)`: a null declared type is
   * rejected; otherwise a non-null throwable that is an instance of it is
   * rethrown. `isInstance` is `declaredType.isInstance`, outside the model.
   */
  function ThrowIfInstanceOf(throwable: int, declaredType: Option<int -> bool>): (r: Completion)
    ensures declaredType.None? ==> r == Fails(IllegalArgument)
    ensures declaredType.Some? ==> (r.Rethrows? <==> throwable != Null && declaredType.value(throwable))
    ensures r.Rethrows? ==> r.throwable == throwable
    ensures r.Fails? ==> declaredType.None?
  {
    match declaredType
    case None => Fails(IllegalArgument)
    case Some(isInstance) =>
      if throwable == Null then Normal
      else if isInstance(throwable) then Rethrows(throwable)
      else Normal
  }
}
