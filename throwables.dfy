/**
 * Throwables as values, and the repair of their suppressed-exception lists
 * (`fixSuppressedExceptions`) applied before and after an exception crosses a
 * place boundary.
 */
module Throwables {
  import opened Wrappers

  /**
   * The private `suppressedExceptions` field of a `java.lang.Throwable`:
   * `Null` is the broken state a serializer that bypasses constructors leaves
   * behind, `Sentinel` the shared empty list `SUPPRESSED_SENTINEL`, and
   * `Items` a list of added suppressed exceptions.
   */
  datatype SuppressedList = Null | Sentinel | Items(items: seq<Throwable>)

  /** A throwable: its message, its suppressed list, and its cause (`None` when `getCause()` is null). */
  datatype Throwable = Throwable(message: string, suppressed: SuppressedList, cause: Option<Throwable>)

  /** Every throwable reachable through suppressed and cause links has a non-null suppressed list. */
  predicate Repaired(t: Throwable)
    decreases t
  {
    && t.suppressed != Null
    && (t.suppressed.Items? ==> forall i | 0 <= i < |t.suppressed.items| :: Repaired(t.suppressed.items[i]))
    && (t.cause.Some? ==> Repaired(t.cause.value))
  }

  /**
   * `a` and `b` are the same tree of throwables except that a null suppressed
   * list in one may be the sentinel in the other.
   */
  predicate SameUpToSentinel(a: Throwable, b: Throwable)
    decreases a
  {
    && a.message == b.message
    && (match (a.suppressed, b.suppressed)
        case (Items(xs), Items(ys)) =>
          |xs| == |ys| && forall i | 0 <= i < |xs| :: SameUpToSentinel(xs[i], ys[i])
        case (Items(_), _) => false
        case (_, Items(_)) => false
        case _ => true)
    && (match (a.cause, b.cause)
        case (Some(x), Some(y)) => SameUpToSentinel(x, y)
        case (None, None) => true
        case _ => false)
  }

  /**
   * `fixSuppressedExceptions(t)`: `t.getSuppressed()` throws on a null list,
   * which is then set to the sentinel; otherwise each suppressed exception is
   * fixed in turn. Then the cause, if any, is fixed.
   */
  function Fix(t: Throwable): (r: Throwable)
    ensures r.message == t.message && !r.suppressed.Null?
    ensures t.suppressed.Items? <==> r.suppressed.Items?
    ensures t.suppressed.Items? ==> |r.suppressed.items| == |t.suppressed.items|
    ensures t.cause.None? <==> r.cause.None?
    decreases t
  {
    var suppressed :=
      match t.suppressed
      case Null => Sentinel
      case Sentinel => Sentinel
      case Items(xs) => Items(seq(|xs|, i requires 0 <= i < |xs| => Fix(xs[i])));
    var cause :=
      match t.cause
      case None => None
      case Some(c) => Some(Fix(c));
    Throwable(t.message, suppressed, cause)
  }

  /** After the repair no reachable throwable has a null suppressed list. */
  lemma {:induction false} FixRepairs(t: Throwable)
    ensures Repaired(Fix(t))
    decreases t
  {
    if t.suppressed.Items? {
      var xs := t.suppressed.items;
      forall i | 0 <= i < |xs| ensures Repaired(Fix(t).suppressed.items[i]) {
        FixRepairs(xs[i]);
      }
    }
    if t.cause.Some? {
      FixRepairs(t.cause.value);
    }
  }

  /** The repair only turns null lists into the sentinel: messages, suppressed exceptions and causes stay. */
  lemma {:induction false} FixOnlyReplacesNull(t: Throwable)
    ensures SameUpToSentinel(Fix(t), t)
    decreases t
  {
    if t.suppressed.Items? {
      var xs := t.suppressed.items;
      forall i | 0 <= i < |xs| ensures SameUpToSentinel(Fix(t).suppressed.items[i], xs[i]) {
        FixOnlyReplacesNull(xs[i]);
      }
    }
    if t.cause.Some? {
      FixOnlyReplacesNull(t.cause.value);
    }
  }

  /** A throwable that needs no repair is left exactly as it is. */
  lemma {:induction false} FixKeepsRepaired(t: Throwable)
    requires Repaired(t)
    ensures Fix(t) == t
    decreases t
  {
    if t.suppressed.Items? {
      var xs := t.suppressed.items;
      forall i | 0 <= i < |xs| ensures Fix(xs[i]) == xs[i] {
        FixKeepsRepaired(xs[i]);
      }
      assert Fix(t).suppressed.items == xs;
    }
    if t.cause.Some? {
      FixKeepsRepaired(t.cause.value);
    }
  }

  /** Repairing twice is repairing once. */
  lemma FixIdempotent(t: Throwable)
    ensures Fix(Fix(t)) == Fix(t)
  {
    FixRepairs(t);
    FixKeepsRepaired(Fix(t));
  }
}
