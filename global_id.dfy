/**
 * Globally unique identifiers (`apgas.util.GlobalID`): a home place and a
 * place-local id, combined into one `long`, plus the place-local registry that
 * attaches a value to an id at the place where it is looked up.
 */
module GlobalIds {
  import opened Wrappers

  /** A Java `int`. */
  type Int32 = x: int | -0x8000_0000 <= x < 0x8000_0000

  /** A place number: a non-negative Java `int`. */
  type PlaceId = x: int | 0 <= x < 0x8000_0000

  const TwoTo32: int := 0x1_0000_0000
  const MaxInt32: int := 0x7FFF_FFFF

  /** A Java `long`. */
  predicate IsLong(x: int) {
    -0x8000_0000_0000_0000 <= x < 0x8000_0000_0000_0000
  }

  /**
   * An identifier: `home` is the place where it was allocated, `lid` the value
   * of that place's counter at the time. The two-argument Java constructor is
   * the datatype constructor itself.
   */
  datatype GlobalID = GlobalID(home: PlaceId, lid: Int32)

  /**
   * `gid()`, that is `((long) home.id << 32) + lid`. Because `home` is below
   * 2^31 the shift and the addition never overflow a `long`, so the Java value
   * is the mathematical one.
   */
  function Gid(g: GlobalID): (r: int)
    ensures IsLong(r)
  {
    g.home * TwoTo32 + g.lid
  }

  /** The home place recovered from a gid. */
  function HomeOf(gid: int): (r: int) {
    (gid + 0x8000_0000) / TwoTo32
  }

  /** The local id recovered from a gid. */
  function LidOf(gid: int): (r: int) {
    (gid + 0x8000_0000) % TwoTo32 - 0x8000_0000
  }

  /** Division by 2^32 has a unique quotient and remainder. */
  lemma DivModUnique(x: int, q: int, r: int)
    requires x == q * TwoTo32 + r && 0 <= r < TwoTo32
    ensures x / TwoTo32 == q && x % TwoTo32 == r
  {
  }

  /** A gid determines its home and its local id, for every `int` local id. */
  lemma {:induction false} GidDecomposes(g: GlobalID)
    ensures HomeOf(Gid(g)) == g.home && LidOf(Gid(g)) == g.lid
  {
    DivModUnique(Gid(g) + 0x8000_0000, g.home, g.lid + 0x8000_0000);
  }

  /** Distinct (home, lid) pairs have distinct gids. */
  lemma GidInjective(a: GlobalID, b: GlobalID)
    ensures Gid(a) == Gid(b) <==> a == b
  {
    GidDecomposes(a);
    GidDecomposes(b);
  }

  /** `equals`: two ids are equal when their gids are, that is when both their homes and their local ids agree. */
  predicate Equals(a: GlobalID, b: GlobalID): (r: bool)
    ensures r <==> a.home == b.home && a.lid == b.lid
  {
    GidInjective(a, b);
    Gid(a) == Gid(b)
  }

  /**
   * Equality by gid is the same relation as equality of the pair, which is why
   * the model may key Dafny maps by `GlobalID` values.
   */
  lemma EqualsIsIdentity(a: GlobalID, b: GlobalID)
    ensures Equals(a, b) <==> a == b
  {
    GidInjective(a, b);
  }

  /** `Long.hashCode(v)`: `(int) (v ^ (v >>> 32))`. */
  function LongHashCode(v: int): (r: Int32)
    requires IsLong(v)
  {
    var bits := (v % 0x1_0000_0000_0000_0000) as bv64;
    var low := ((bits ^ (bits >> 32)) & 0xFFFF_FFFF) as int;
    if low <= MaxInt32 then low else low - TwoTo32
  }

  /** `hashCode()`: the `Long.hashCode` of the gid, so that every id `equals` to `g` hashes the same. */
  function HashCode(g: GlobalID): (r: Int32)
    ensures forall h: GlobalID | Equals(g, h) :: r == LongHashCode(Gid(h))
  {
    LongHashCode(Gid(g))
  }

  /** Ids that are `equals` have equal hash codes. */
  lemma EqualIdsHashEqually(a: GlobalID, b: GlobalID)
    requires Equals(a, b)
    ensures HashCode(a) == HashCode(b)
  {
  }

  /** `AtomicInteger.getAndIncrement` leaves the counter one higher, wrapping at the top of `int`. */
  function NextCount(c: Int32): (r: Int32) {
    if c == MaxInt32 then -0x8000_0000 else c + 1
  }

  /** `x` reduced to a Java `int` the way two's complement arithmetic does. */
  function WrapInt32(x: int): (r: Int32) {
    (x + 0x8000_0000) % TwoTo32 - 0x8000_0000
  }

  /** One more `getAndIncrement` on a wrapped value is the wrap of the next integer. */
  lemma NextCountWraps(x: int)
    ensures NextCount(WrapInt32(x)) == WrapInt32(x + 1)
  {
    var y := x + 0x8000_0000;
    if y % TwoTo32 == TwoTo32 - 1 {
      DivModUnique(y + 1, y / TwoTo32 + 1, 0);
    } else {
      DivModUnique(y + 1, y / TwoTo32, y % TwoTo32 + 1);
    }
  }

  /** The local ids handed out by `n` successive allocations, starting from counter value `c`. */
  function Issued(c: Int32, n: nat): (r: seq<Int32>)
    ensures |r| == n
    decreases n
  {
    if n == 0 then [] else [c] + Issued(NextCount(c), n - 1)
  }

  /** The `k`-th allocation gets the counter's start value plus `k`, wrapped to an `int`. */
  lemma {:induction false} IssuedAt(c: Int32, n: nat, k: nat)
    requires k < n
    ensures Issued(c, n)[k] == WrapInt32(c + k)
    decreases k
  {
    if k == 0 {
      DivModUnique(c + 0x8000_0000, 0, c + 0x8000_0000);
    } else {
      IssuedAt(NextCount(c), n - 1, k - 1);
      if c == MaxInt32 {
        var y := k - 1;
        DivModUnique(y + TwoTo32, y / TwoTo32 + 1, y % TwoTo32);
      } else {
        assert NextCount(c) + (k - 1) == c + k;
      }
    }
  }

  /**
   * Successive allocations at one place never repeat a local id before the
   * counter has gone all the way round: up to 2^32 allocations, wrap-around
   * included.
   */
  lemma IssuedDistinct(c: Int32, n: nat, i: nat, j: nat)
    requires n <= TwoTo32 && i < j < n
    ensures Issued(c, n)[i] != Issued(c, n)[j]
  {
    IssuedAt(c, n, i);
    IssuedAt(c, n, j);
  }

  /** Before the counter reaches the top of `int`, each allocation's local id is larger than the last. */
  lemma {:induction false} IssuedIncreasing(c: Int32, n: nat, i: nat, j: nat)
    requires c + n <= MaxInt32 + 1 && i < j < n
    ensures Issued(c, n)[i] < Issued(c, n)[j]
  {
    IssuedAt(c, n, i);
    IssuedAt(c, n, j);
    DivModUnique(c + i + 0x8000_0000, 0, c + i + 0x8000_0000);
    DivModUnique(c + j + 0x8000_0000, 0, c + j + 0x8000_0000);
  }

  // The registry map stores `Some(v)` for a value and `None` for the private
  // `NULL` sentinel that a null value is stored as; a key that is not in the
  // map has nothing stored at all. Every read turns the sentinel back into
  // null, so a returned `None` is Java's null.

  /** `map.get(this)` followed by `result == NULL ? null : result`. */
  function Lookup<V>(m: map<GlobalID, Option<V>>, g: GlobalID): (r: Option<V>) {
    if g in m then m[g] else None
  }

  /** `putHere(value)`: the new map and the returned previous value. */
  function Put<V>(m: map<GlobalID, Option<V>>, g: GlobalID, v: Option<V>): (r: (map<GlobalID, Option<V>>, Option<V>))
    ensures g in r.0 && Lookup(r.0, g) == v
    ensures r.1 == Lookup(m, g)
    ensures forall k :: k != g ==> (k in r.0 <==> k in m) && Lookup(r.0, k) == Lookup(m, k)
  {
    (m[g := v], Lookup(m, g))
  }

  /**
   * `putHereIfAbsent(value)`. A key bound to null counts as present: the map is
   * left alone and null is returned, exactly as for an absent key that was
   * just stored.
   */
  function PutIfAbsent<V>(m: map<GlobalID, Option<V>>, g: GlobalID, v: Option<V>): (r: (map<GlobalID, Option<V>>, Option<V>))
    ensures g !in m ==> r.1 == None && g in r.0 && Lookup(r.0, g) == v
    ensures g in m ==> r.0 == m && r.1 == m[g]
    ensures forall k :: k != g ==> (k in r.0 <==> k in m) && Lookup(r.0, k) == Lookup(m, k)
  {
    if g in m then (m, m[g]) else (m[g := v], None)
  }

  /** `getOrDefaultHere(d)`: the default only for an absent key; a key bound to null reads as null. */
  function GetOrDefault<V>(m: map<GlobalID, Option<V>>, g: GlobalID, d: Option<V>): (r: Option<V>)
    ensures g !in m ==> r == d
    ensures g in m ==> r == Lookup(m, g)
  {
    if g in m then m[g] else d
  }

  /** `removeHere()`: the map without the key and the removed value. */
  function Remove<V>(m: map<GlobalID, Option<V>>, g: GlobalID): (r: (map<GlobalID, Option<V>>, Option<V>))
    ensures g !in r.0 && r.1 == Lookup(m, g)
    ensures forall k :: k != g ==> (k in r.0 <==> k in m) && Lookup(r.0, k) == Lookup(m, k)
  {
    (m - {g}, Lookup(m, g))
  }

  /**
   * The static state of `GlobalID` at one place: the id counter and the
   * id-to-value map. One object per place; `here` is that place.
   */
  class Registry<V> {
    const here: PlaceId
    var counter: Int32
    var entries: map<GlobalID, Option<V>>

    constructor (here: PlaceId)
      ensures this.here == here && counter == 0 && entries == map[]
    {
      this.here := here;
      counter := 0;
      entries := map[];
    }

    /** `new GlobalID()`: home is this place, the local id the counter's current value. */
    method NewId() returns (g: GlobalID)
      modifies this`counter
      ensures g == GlobalID(here, old(counter))
      ensures counter == NextCount(old(counter))
    {
      g := GlobalID(here, counter);
      counter := NextCount(counter);
    }

    /**
     * `n` successive `new GlobalID()` at this place: the local ids are
     * `Issued`'s, so they are pairwise distinct while at most 2^32 are drawn.
     */
    method NewIds(n: nat) returns (ids: seq<GlobalID>)
      modifies this`counter
      ensures |ids| == n && forall k | 0 <= k < n :: ids[k] == GlobalID(here, Issued(old(counter), n)[k])
      ensures n <= TwoTo32 ==> forall i, j | 0 <= i < j < n :: ids[i] != ids[j]
      ensures n == 0 ==> counter == old(counter)
      ensures n > 0 ==> counter == NextCount(ids[n - 1].lid)
      ensures counter == WrapInt32(old(counter) + n)
    {
      ids := [];
      var i := 0;
      DivModUnique(counter + 0x8000_0000, 0, counter + 0x8000_0000);
      while i < n
        invariant 0 <= i <= n && |ids| == i
        invariant forall k | 0 <= k < i :: ids[k] == GlobalID(here, Issued(old(counter), n)[k])
        invariant Issued(old(counter), n)[i..] == Issued(counter, n - i)
        invariant i == 0 ==> counter == old(counter)
        invariant i > 0 ==> counter == NextCount(ids[i - 1].lid)
        invariant counter == WrapInt32(old(counter) + i)
      {
        NextCountWraps(old(counter) + i);
        ghost var rest := Issued(old(counter), n)[i..];
        assert rest == [counter] + Issued(NextCount(counter), n - i - 1);
        assert Issued(old(counter), n)[i] == rest[0];
        assert Issued(old(counter), n)[i + 1..] == rest[1..];
        var g := NewId();
        ids := ids + [g];
        i := i + 1;
      }
      forall i, j | 0 <= i < j < n && n <= TwoTo32
        ensures ids[i] != ids[j]
      {
        IssuedDistinct(old(counter), n, i, j);
      }
    }

    method PutHere(g: GlobalID, v: Option<V>) returns (previous: Option<V>)
      modifies this`entries
      ensures (entries, previous) == Put(old(entries), g, v)
    {
      previous := Lookup(entries, g);
      entries := entries[g := v];
    }

    method PutHereIfAbsent(g: GlobalID, v: Option<V>) returns (previous: Option<V>)
      modifies this`entries
      ensures (entries, previous) == PutIfAbsent(old(entries), g, v)
    {
      if g in entries {
        previous := entries[g];
      } else {
        entries := entries[g := v];
        previous := None;
      }
    }

    method GetHere(g: GlobalID) returns (current: Option<V>)
      ensures current == Lookup(entries, g)
    {
      current := if g in entries then entries[g] else None;
    }

    method GetOrDefaultHere(g: GlobalID, d: Option<V>) returns (current: Option<V>)
      ensures current == GetOrDefault(entries, g, d)
    {
      current := if g in entries then entries[g] else d;
    }

    method RemoveHere(g: GlobalID) returns (removed: Option<V>)
      modifies this`entries
      ensures (entries, removed) == Remove(old(entries), g)
    {
      removed := Lookup(entries, g);
      entries := entries - {g};
    }
  }
}
