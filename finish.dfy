/**
 * The per-place object of a distributed finish (`DefaultFinish` and
 * `DebugFinish`), and the per-place diagnostic map of `DebugFinish`.
 *
 * The two Java classes share their counting code line for line, so one class
 * models both; `debug` tells which one an object is, and the members that only
 * `DebugFinish` has require it.
 */
module Finishes {
  import opened Wrappers
  import opened GlobalIds
  import opened Throwables
  import opened FinishCounting
  import JavaText

  /**
   * What a finish object hands to the transport, addressed to the home place
   * of the finish `finish`: the closure `() -> that.update(snapshot)`, or a task
   * delivering an exception (`addSuppressed` for `DefaultFinish`,
   * `addRemoteSuppressed` for `DebugFinish`).
   */
  datatype Message =
    | UpdateAt(dest: PlaceId, finish: GlobalID, snapshot: seq<int>)
    | SuppressedAt(dest: PlaceId, finish: GlobalID, exception: Throwable)
    | RemoteSuppressedAt(dest: PlaceId, finish: GlobalID, exception: Throwable)

  /** One check of `block()`'s monitor loop: it returns, or the thread waits for a `notifyAll`. */
  datatype BlockStep = Returns(result: bool) | Waits

  const LocalTag: string := "Local Finish:@"
  const GlobalTag: string := "Global Finish:gid"

  class Finish {
    /** The place whose runtime holds this object (`GlobalRuntimeImpl.getRuntime().here`). */
    const here: PlaceId
    /** A `DebugFinish` rather than a `DefaultFinish`. */
    const debug: bool

    /** All tasks (local finish), places with a nonzero tally (root finish) or local tasks (remote finish). */
    var count: int
    /** Per-place tasks spawned minus tasks terminated; null until needed. */
    var counts: array?<int>
    /** Exceptions collected here; null until the first one. */
    var exceptions: Option<seq<Throwable>>
    /** Allocated on the first transfer to another place. */
    var id: Option<GlobalID>
    /** Messages handed to the transport, oldest first. */
    ghost var outbox: seq<Message>

    /** A local or root finish: no id yet, or an id allocated here. */
    predicate IsRoot()
      reads this
    {
      id.None? || id.value.home == here
    }

    ghost function Counts(): Counters
      reads this, counts
    {
      Counters(count, if counts == null then None else Some(counts[..]))
    }

    ghost predicate Valid()
      reads this, counts
    {
      && (counts != null ==> here < counts.Length)
      && (!IsRoot() ==> counts != null)
      && (IsRoot() ==> CountsPlaces(Counts()))
      && (exceptions.Some? ==> exceptions.value != [])
    }

    /** `new DefaultFinish()` / `new DebugFinish()`: `spawn(here)` on a zeroed object counts the finish body. */
    constructor (here: PlaceId, debug: bool)
      ensures this.here == here && this.debug == debug
      ensures Counts() == Counters(1, None) && exceptions.None? && id.None? && outbox == []
      ensures Valid()
    {
      this.here := here;
      this.debug := debug;
      count := 1;
      counts := null;
      exceptions := None;
      id := None;
      outbox := [];
    }

    /**
     * The object a deserializer builds at place `here` before `readResolve`:
     * only the id travels, every other field is transient and starts out
     * zero or null.
     */
    constructor Arrive(here: PlaceId, debug: bool, gid: GlobalID)
      ensures this.here == here && this.debug == debug && id == Some(gid)
      ensures Counts() == Counters(0, None) && exceptions.None? && outbox == []
    {
      this.here := here;
      this.debug := debug;
      count := 0;
      counts := null;
      exceptions := None;
      id := Some(gid);
      outbox := [];
    }

    /** `resize(min)`: copy into a new array of `max(min, maxPlace)` slots. */
    method Resize(min: int, maxPlace: nat)
      requires counts != null && counts.Length < min
      modifies this`counts
      ensures fresh(counts) && counts[..] == Resized(old(counts[..]), min, maxPlace)
    {
      var tmp := new int[Max(min, maxPlace)](_ => 0);
      forall i | 0 <= i < counts.Length {
        tmp[i] := counts[i];
      }
      counts := tmp;
      assert counts[..] == old(counts[..]) + Zeros(Max(min, maxPlace) - old(counts.Length));
    }

    /**
     * The part of `spawn(p)` that covers slot `p` and bumps it; `tally` says
     * whether `count` follows the slot turning nonzero or (from -1) zero.
     */
    method Bump(p: PlaceId, maxPlace: nat, tally: bool)
      requires counts != null
      modifies this`counts, this`count, counts
      ensures counts != null && (counts == old(counts) || fresh(counts))
      ensures var s := Covering(old(counts[..]), p, maxPlace);
        && counts[..] == s[p := s[p] + 1]
        && count == if tally then old(count) + (if s[p] == 0 then 1 else 0) - (if s[p] + 1 == 0 then 1 else 0) else old(count)
    {
      if p >= counts.Length {
        Resize(p + 1, maxPlace);
      }
      assert counts[..] == Covering(old(counts[..]), p, maxPlace);
      var before := counts[p];
      counts[p] := before + 1;
      if tally && before == 0 {
        count := count + 1;
      }
      if tally && counts[p] == 0 {
        count := count - 1;
      }
    }

    /** The first remote spawn of a local finish: the task count moves into slot `here` and `count` counts that one place. */
    method Allocate(maxPlace: nat)
      requires counts == null && here < maxPlace
      modifies this`counts, this`count
      ensures fresh(counts) && counts[..] == Zeros(maxPlace)[here := old(count)] && count == 1
    {
      counts := new int[maxPlace](_ => 0);
      counts[here] := count;
      count := 1;
      assert counts[..] == Zeros(maxPlace)[here := old(count)];
    }

    /**
     * `spawn(p)`. A local finish must still be live when it first spawns to
     * another place; see `SpawnKeepsCountsPlaces`.
     */
    method Spawn(p: PlaceId, maxPlace: nat)
      requires Valid() && here < maxPlace
      requires IsRoot() && counts == null && p != here ==> count != 0
      modifies this, counts
      ensures Valid()
      ensures Counts() == SpawnSpec(old(IsRoot()), old(Counts()), here, maxPlace, p)
      ensures counts == old(counts) || fresh(counts)
      ensures id == old(id) && exceptions == old(exceptions) && outbox == old(outbox)
    {
      ghost var c := Counts();
      ghost var r := SpawnSpec(IsRoot(), c, here, maxPlace, p);
      if id.None? || id.value.home == here {
        SpawnKeepsCountsPlaces(c, here, maxPlace, p);
        if counts == null {
          if here == p {
            count := count + 1;
            return;
          }
          Allocate(maxPlace);
        }
        Bump(p, maxPlace, true);
      } else {
        Bump(p, maxPlace, false);
      }
      assert counts[..] == r.counts.value && count == r.count;
    }

    /** `submit(p)`: a task spawned elsewhere arrives here. */
    method Submit(p: PlaceId)
      requires Valid()
      modifies this`count
      ensures Valid()
      ensures Counts() == SubmitSpec(old(IsRoot()), old(Counts()))
    {
      if id.Some? && id.value.home != here {
        count := count + 1;
      }
    }

    /**
     * `tell()`: a task of this finish terminated here. A remote finish whose
     * count reaches 0 sends the tallies home; the message carries a copy, so
     * zero-filling the array afterwards does not change what is sent.
     */
    method Tell()
      requires Valid()
      modifies this, counts
      ensures Valid() && counts == old(counts)
      ensures id == old(id) && exceptions == old(exceptions)
      ensures Counts() == TellSpec(IsRoot(), old(Counts()), here).0
      ensures TellSpec(IsRoot(), old(Counts()), here).1.None? ==> outbox == old(outbox)
      ensures TellSpec(IsRoot(), old(Counts()), here).1.Some? ==>
        outbox == old(outbox) + [UpdateAt(id.value.home, id.value, TellSpec(IsRoot(), old(Counts()), here).1.value)]
    {
      if id.None? || id.value.home == here {
        if counts != null {
          if counts[here] == 0 {
            count := count + 1;
          }
          counts[here] := counts[here] - 1;
          if counts[here] != 0 {
            TellKeepsCountsPlaces(old(Counts()), here);
            return;
          }
        }
        count := count - 1;
        TellKeepsCountsPlaces(old(Counts()), here);
      } else {
        counts[here] := counts[here] - 1;
        count := count - 1;
        if count == 0 {
          ghost var snapshot := counts[..];
          outbox := outbox + [UpdateAt(id.value.home, id.value, snapshot)];
          forall i | 0 <= i < counts.Length {
            counts[i] := 0;
          }
          assert counts[..] == Zeros(counts.Length);
        }
      }
    }

    /** `unspawn(p)`: a spawned task never ran. It never resizes, so slot `p` must exist. */
    method Unspawn(p: PlaceId)
      requires Valid() && (counts != null ==> p < counts.Length)
      modifies this`count, counts
      ensures Valid()
      ensures Counts() == UnspawnSpec(old(IsRoot()), old(Counts()), p)
    {
      if id.None? || id.value.home == here {
        if counts == null {
          count := count - 1;
        } else {
          if counts[p] == 0 {
            count := count + 1;
          }
          counts[p] := counts[p] - 1;
          if counts[p] == 0 {
            count := count - 1;
          }
        }
        UnspawnKeepsCountsPlaces(old(Counts()), p);
      } else {
        counts[p] := counts[p] - 1;
      }
    }

    /** The loop of `update(d)`: slot `i` gains `d[i]`, and `count` follows each slot's change of status. */
    method Merge(d: seq<int>)
      requires counts != null && |d| <= counts.Length
      modifies this`count, counts
      ensures var g := old(counts[..]);
        && counts[..] == seq(|g|, i requires 0 <= i < |g| => if i < |d| then g[i] + d[i] else g[i])
        && count == old(count) - NonZero(g[..|d|]) + NonZero(counts[..|d|])
    {
      ghost var g := counts[..];
      var i := 0;
      while i < |d|
        invariant 0 <= i <= |d|
        invariant forall j | 0 <= j < counts.Length :: counts[j] == if j < i then g[j] + d[j] else g[j]
        invariant count == old(count) - NonZero(g[..i]) + NonZero(counts[..i])
      {
        ghost var done := counts[..i];
        var before := counts[i];
        counts[i] := before + d[i];
        count := count - Busy(before) + Busy(counts[i]);
        NonZeroPrefix(g, i);
        NonZeroPrefix(counts[..], i);
        assert counts[..i] == done;
        i := i + 1;
      }
    }

    /** `update(d)`: merge a remote finish's tallies, slot by slot. */
    method Update(d: seq<int>, maxPlace: nat)
      requires Valid() && counts != null
      modifies this, counts
      ensures Valid()
      ensures Counts() == UpdateSpec(old(Counts()), d, maxPlace)
      ensures counts == old(counts) || fresh(counts)
      ensures id == old(id) && exceptions == old(exceptions) && outbox == old(outbox)
    {
      var root := IsRoot();
      ghost var c := Counts();
      ghost var r := UpdateSpec(c, d, maxPlace);
      if |d| > counts.Length {
        Resize(|d|, maxPlace);
      }
      assert counts[..] == UpdateBase(c.counts.value, d, maxPlace);
      Merge(d);
      assert counts[..] == r.counts.value && count == r.count;
      if root {
        UpdateKeepsCountsPlaces(c, d, maxPlace);
      }
    }

    /** `isReleasable()`. */
    predicate IsReleasable()
      reads this
    {
      count == 0
    }

    /** `block()`: it returns, and then returns true, only once `count` is 0; `isReleasable()` polls the same condition. */
    function Block(): (r: BlockStep)
      reads this
      ensures r.Returns? <==> IsReleasable()
      ensures r.Returns? ==> r.result
    {
      if count != 0 then Waits else Returns(count == 0)
    }

    /** `exceptions()`: null until the first exception is collected, never an empty list. */
    function Exceptions(): (r: Option<seq<Throwable>>)
      reads this, counts
      requires Valid()
      ensures r.Some? ==> |r.value| > 0
    {
      exceptions
    }

    /**
     * `DefaultFinish.addSuppressed(e)`. A local or root finish appends `e`; a
     * remote one counts one more task bound for home and sends home a task
     * that delivers `e` there.
     */
    method AddSuppressed(e: Throwable, maxPlace: nat)
      requires Valid() && !debug && here < maxPlace
      modifies this, counts
      ensures Valid() && id == old(id)
      ensures IsRoot() ==>
        && exceptions == Some(old(exceptions).GetOr([]) + [e])
        && Counts() == old(Counts()) && outbox == old(outbox)
      ensures IsRoot() ==> Exceptions().Some? && Exceptions().value[|Exceptions().value| - 1] == e
      ensures !IsRoot() ==>
        && exceptions == old(exceptions)
        && Counts() == SpawnSpec(false, old(Counts()), here, maxPlace, id.value.home)
        && outbox == old(outbox) + [SuppressedAt(id.value.home, id.value, e)]
    {
      if id.None? || id.value.home == here {
        exceptions := Some(exceptions.GetOr([]) + [e]);
      } else {
        Spawn(id.value.home, maxPlace);
        outbox := outbox + [SuppressedAt(id.value.home, id.value, e)];
      }
    }

    /**
     * The body of the task `DefaultFinish.addSuppressed` sends home:
     * `addSuppressed(t)` then `fixSuppressedExceptions(t)`. The list holds the
     * very object that is then repaired in place, so what ends up stored is
     * the repaired exception.
     */
    method DeliverSuppressed(t: Throwable, maxPlace: nat)
      requires Valid() && !debug && here < maxPlace
      modifies this, counts
      ensures Valid() && id == old(id)
      ensures IsRoot() ==>
        && exceptions == Some(old(exceptions).GetOr([]) + [Fix(t)])
        && Counts() == old(Counts()) && outbox == old(outbox)
      ensures !IsRoot() ==>
        && exceptions == old(exceptions)
        && Counts() == SpawnSpec(false, old(Counts()), here, maxPlace, id.value.home)
        && outbox == old(outbox) + [SuppressedAt(id.value.home, id.value, Fix(t))]
    {
      AddSuppressed(Fix(t), maxPlace);
    }

    /**
     * `DebugFinish.addSuppressed(e)`: first `e` is appended to this object's
     * entry of the place's diagnostic map, created empty if absent, in every
     * role; then the role decides as in `DefaultFinish`, except that the task
     * sent home calls `addRemoteSuppressed`.
     */
    method AddSuppressedDebug(e: Throwable, diagnostics: DiagnosticRegistry, maxPlace: nat)
      requires Valid() && debug && here < maxPlace && diagnostics.here == here
      modifies this, counts, diagnostics
      ensures Valid() && id == old(id)
      ensures diagnostics.localThrowables ==
        old(diagnostics.localThrowables)[this := Recorded(old(diagnostics.localThrowables), this) + [e]]
      ensures IsRoot() ==>
        && exceptions == Some(old(exceptions).GetOr([]) + [e])
        && Counts() == old(Counts()) && outbox == old(outbox)
      ensures IsRoot() ==> Exceptions().Some? && Exceptions().value[|Exceptions().value| - 1] == e
      ensures !IsRoot() ==>
        && exceptions == old(exceptions)
        && Counts() == SpawnSpec(false, old(Counts()), here, maxPlace, id.value.home)
        && outbox == old(outbox) + [RemoteSuppressedAt(id.value.home, id.value, e)]
    {
      var mine := if this in diagnostics.localThrowables then diagnostics.localThrowables[this] else [];
      diagnostics.localThrowables := diagnostics.localThrowables[this := mine + [e]];
      if id.None? || id.value.home == here {
        exceptions := Some(exceptions.GetOr([]) + [e]);
      } else {
        Spawn(id.value.home, maxPlace);
        outbox := outbox + [RemoteSuppressedAt(id.value.home, id.value, e)];
      }
    }

    /** `DebugFinish.addRemoteSuppressed(t)`: append, whatever the role. */
    method AddRemoteSuppressed(t: Throwable)
      requires debug
      modifies this`exceptions
      ensures exceptions == Some(old(exceptions).GetOr([]) + [t])
      ensures old(Valid()) ==> Valid()
    {
      exceptions := Some(exceptions.GetOr([]) + [t]);
    }

    /** The body of the task `DebugFinish.addSuppressed` sends home: `addRemoteSuppressed(t)` then the repair of `t`. */
    method DeliverRemoteSuppressed(t: Throwable)
      requires debug
      modifies this`exceptions
      ensures exceptions == Some(old(exceptions).GetOr([]) + [Fix(t)])
      ensures old(Valid()) ==> Valid()
    {
      AddRemoteSuppressed(Fix(t));
    }

    /**
     * `writeReplace()`: the id is allocated, and this object registered under
     * it at this place, on the first transfer only.
     */
    method WriteReplace(registry: Registry<Finish>) returns (r: Finish)
      requires Valid() && registry.here == here
      modifies this`id, registry
      ensures r == this && Valid() && Counts() == old(Counts())
      ensures old(id).None? ==>
        && id == Some(GlobalID(here, old(registry.counter)))
        && registry.counter == NextCount(old(registry.counter))
        && registry.entries == old(registry.entries)[id.value := Some(this)]
      ensures old(id).Some? ==>
        id == old(id) && registry.counter == old(registry.counter) && registry.entries == old(registry.entries)
      ensures old(RegistryValid(registry)) ==> RegistryValid(registry)
    {
      if id.None? {
        var g := registry.NewId();
        id := Some(g);
        var previous := registry.PutHere(g, Some(this));
      }
      r := this;
    }

    /**
     * `readResolve()` on a freshly arrived object: the instance already
     * registered under the id at this place if there is one, otherwise this
     * object, registered now. At a place other than home, an instance still
     * without `counts` gets a zeroed array of `maxPlace` slots.
     */
    method ReadResolve(registry: Registry<Finish>, maxPlace: nat) returns (me: Finish)
      requires id.Some? && registry.here == here && here < maxPlace
      requires count == 0 && counts == null && exceptions.None?
      requires RegistryValid(registry)
      modifies registry`entries, this, Registered(registry)
      ensures registry.entries == PutIfAbsent(old(registry.entries), old(id).value, Some(this)).0
      ensures me == Lookup(old(registry.entries), old(id).value).GetOr(this)
      ensures me == this || me in old(Registered(registry))
      ensures me.count == old(me.count) && me.id == old(me.id) && me.exceptions == old(me.exceptions)
      ensures me.outbox == old(me.outbox)
      ensures if old(id).value.home != here && old(me.counts) == null
        then fresh(me.counts) && me.counts[..] == Zeros(maxPlace)
        else me.counts == old(me.counts)
      ensures me.Valid() && me.here == here
      ensures RegistryValid(registry)
      ensures forall f | f in old(Registered(registry)) && f != me :: unchanged(f)
    {
      var found := registry.PutHereIfAbsent(id.value, Some(this));
      if found.Some? {
        assert Some(found.value) in old(registry.entries).Values;
        me := found.value;
      } else {
        me := this;
      }
      if id.value.home != here && me.counts == null {
        me.counts := new int[maxPlace](_ => 0);
      }
    }

    /**
     * `DebugFinish.toString()`, given the identity hash code the JVM assigns.
     * A local finish prints its hash in hexadecimal and a distributed one its
     * gid in decimal; both can be read back from the text.
     */
    function ToString(identityHash: Int32): (s: string)
      reads this
      requires debug
      ensures id.None? <==> |s| >= |LocalTag| && s[..|LocalTag|] == LocalTag
      ensures id.None? ==> WrapInt32(JavaText.ParseDigits(s[|LocalTag|..], 16)) == identityHash
      ensures id.Some? ==> |s| >= |GlobalTag| && s[..|GlobalTag|] == GlobalTag
      ensures id.Some? ==> JavaText.ParseLong(s[|GlobalTag|..]) == Gid(id.value)
    {
      if id.None? then
        JavaText.ToHexStringRoundTrip(identityHash);
        var s := LocalTag + JavaText.ToHexString(identityHash);
        assert s[|LocalTag|..] == JavaText.ToHexString(identityHash);
        s
      else
        JavaText.LongToStringRoundTrip(Gid(id.value));
        var s := GlobalTag + JavaText.LongToString(Gid(id.value));
        assert s[|GlobalTag|..] == JavaText.LongToString(Gid(id.value));
        assert s[0] != LocalTag[0];
        s
    }
  }

  /** The finish objects registered at a place. */
  ghost function Registered(registry: Registry<Finish>): (r: set<Finish>)
    reads registry
  {
    set v | v in registry.entries.Values && v.Some? :: v.value
  }

  /**
   * What `writeReplace` and `readResolve` keep true of a place's map: each
   * registered finish lives at that place, is stored under its own id and
   * satisfies the class invariant.
   */
  ghost predicate RegistryValid(registry: Registry<Finish>)
    reads registry, Registered(registry), set f | f in Registered(registry) :: f.counts
  {
    forall k | k in registry.entries && registry.entries[k].Some? ::
      && registry.entries[k].value.Valid()
      && registry.entries[k].value.here == registry.here
      && registry.entries[k].value.id == Some(k)
  }

  /** The exceptions recorded for `f` in a diagnostic map, none if it has no entry. */
  function Recorded(m: map<Finish, seq<Throwable>>, f: Finish): (r: seq<Throwable>) {
    if f in m then m[f] else []
  }

  /**
   * Exactly-once materialization: two arrivals of the same finish at one place
   * resolve to the same instance, unless its id is bound to null there.
   */
  method ArriveTwice(registry: Registry<Finish>, gid: GlobalID, debug: bool, maxPlace: nat) returns (a: Finish, b: Finish)
    requires registry.here < maxPlace
    requires gid !in registry.entries || registry.entries[gid].Some?
    requires RegistryValid(registry)
    modifies registry, Registered(registry)
    ensures a == b && a.Valid() && RegistryValid(registry)
  {
    var x := new Finish.Arrive(registry.here, debug, gid);
    a := x.ReadResolve(registry, maxPlace);
    assert registry.entries[gid] == Some(a);
    var y := new Finish.Arrive(registry.here, debug, gid);
    b := y.ReadResolve(registry, maxPlace);
  }

  /** The static `localThrowables` map of `DebugFinish` at one place. */
  class DiagnosticRegistry {
    const here: PlaceId
    var localThrowables: map<Finish, seq<Throwable>>

    constructor (here: PlaceId)
      ensures this.here == here && localThrowables == map[]
    {
      this.here := here;
      localThrowables := map[];
    }

    /**
     * `dumpAllLocalSuppressedExceptions()`: removes every entry and reports it
     * (the report stands for what is printed).
     */
    method DumpLocal() returns (dumped: map<Finish, seq<Throwable>>)
      modifies this`localThrowables
      ensures dumped == old(localThrowables) && localThrowables == map[]
    {
      dumped := map[];
      var keys := localThrowables.Keys;
      while keys != {}
        invariant keys == localThrowables.Keys && keys <= old(localThrowables).Keys
        invariant forall k | k in keys :: localThrowables[k] == old(localThrowables)[k]
        invariant dumped.Keys == old(localThrowables).Keys - keys
        invariant forall k | k in dumped :: dumped[k] == old(localThrowables)[k]
        decreases keys
      {
        var k :| k in keys;
        dumped := dumped[k := localThrowables[k]];
        localThrowables := localThrowables - {k};
        keys := keys - {k};
      }
      assert localThrowables == map[];
    }
  }

  /** `suppressedExceptionsPresent()`: some place still holds undumped exceptions. */
  method SuppressedExceptionsPresent(places: seq<DiagnosticRegistry>) returns (present: bool)
    ensures present <==> exists i | 0 <= i < |places| :: places[i].localThrowables != map[]
  {
    var i := 0;
    while i < |places|
      invariant 0 <= i <= |places|
      invariant forall j | 0 <= j < i :: places[j].localThrowables == map[]
    {
      if places[i].localThrowables != map[] {
        return true;
      }
      i := i + 1;
    }
    return false;
  }

  /** `dumpAllSuppressedExceptions()`: the local dump at every place; afterwards no place holds any. */
  method DumpAllSuppressedExceptions(places: seq<DiagnosticRegistry>) returns (dumps: seq<map<Finish, seq<Throwable>>>)
    requires forall i, j | 0 <= i < j < |places| :: places[i] != places[j]
    modifies set i | 0 <= i < |places| :: places[i]
    ensures |dumps| == |places|
    ensures forall i | 0 <= i < |places| :: dumps[i] == old(places[i].localThrowables) && places[i].localThrowables == map[]
  {
    dumps := [];
    var i := 0;
    while i < |places|
      invariant 0 <= i <= |places| && |dumps| == i
      invariant forall j | 0 <= j < i :: dumps[j] == old(places[j].localThrowables) && places[j].localThrowables == map[]
      invariant forall j | i <= j < |places| :: places[j].localThrowables == old(places[j].localThrowables)
    {
      var dumped := places[i].DumpLocal();
      dumps := dumps + [dumped];
      i := i + 1;
    }
  }
}
