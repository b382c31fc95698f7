/**
 * The termination counters of one finish object as a value, and the effect of
 * each counting operation on them. The `Finish` class is proved to change its
 * fields exactly as these functions say; the lemmas here state what the
 * counting protocol promises about them.
 *
 * `root` is true for a local or root finish (no id yet, or an id whose home is
 * this place) and false for a remote one.
 */
module FinishCounting {
  import opened Wrappers

  /**
   * `count` and `counts` of a finish object. `counts` is `None` until the
   * per-place array is allocated.
   */
  datatype Counters = Counters(count: int, counts: Option<seq<int>>)

  /** A zero-filled `int[n]`. */
  function Zeros(n: nat): (r: seq<int>)
    ensures |r| == n && forall i | 0 <= i < n :: r[i] == 0
  {
    seq(n, _ => 0)
  }

  function Max(a: int, b: int): (r: int) {
    if a < b then b else a
  }

  /** 1 for a nonzero slot, 0 for an empty one. */
  function Busy(x: int): (r: int) {
    if x != 0 then 1 else 0
  }

  /** The number of nonzero slots of `s`. */
  function NonZero(s: seq<int>): (r: nat)
    decreases |s|
  {
    if s == [] then 0 else NonZero(s[..|s| - 1]) + Busy(s[|s| - 1])
  }

  /** Extending a prefix by one slot adds that slot's status. */
  lemma NonZeroPrefix(s: seq<int>, i: nat)
    requires i < |s|
    ensures NonZero(s[..i + 1]) == NonZero(s[..i]) + Busy(s[i])
  {
    assert s[..i + 1][..i] == s[..i];
  }

  lemma {:induction false} NonZeroAppend(a: seq<int>, b: seq<int>)
    ensures NonZero(a + b) == NonZero(a) + NonZero(b)
    decreases |b|
  {
    if b != [] {
      assert (a + b)[..|a + b| - 1] == a + b[..|b| - 1];
      NonZeroAppend(a, b[..|b| - 1]);
    } else {
      assert a + b == a;
    }
  }

  lemma {:induction false} NonZeroOfZeros(n: nat)
    ensures NonZero(Zeros(n)) == 0
    decreases n
  {
    if n > 0 {
      assert Zeros(n)[..n - 1] == Zeros(n - 1);
      NonZeroOfZeros(n - 1);
    }
  }

  /** Changing one slot changes the number of nonzero slots by the change in that slot's status. */
  lemma NonZeroUpdate(s: seq<int>, i: nat, v: int)
    requires i < |s|
    ensures NonZero(s[i := v]) == NonZero(s) - Busy(s[i]) + Busy(v)
  {
    var pre, post := s[..i], s[i + 1..];
    assert s == pre + [s[i]] + post;
    assert s[i := v] == pre + [v] + post;
    NonZeroAppend(pre + [s[i]], post);
    NonZeroAppend(pre + [v], post);
    NonZeroAppend(pre, [s[i]]);
    NonZeroAppend(pre, [v]);
    assert NonZero([s[i]]) == Busy(s[i]) by { assert [s[i]][..0] == []; }
    assert NonZero([v]) == Busy(v) by { assert [v][..0] == []; }
  }

  /** No slot is nonzero exactly when every slot is zero. */
  lemma {:induction false} NonZeroEmpty(s: seq<int>)
    ensures NonZero(s) == 0 <==> forall i | 0 <= i < |s| :: s[i] == 0
    decreases |s|
  {
    if s != [] {
      NonZeroEmpty(s[..|s| - 1]);
      assert forall i | 0 <= i < |s| - 1 :: s[..|s| - 1][i] == s[i];
    }
  }

  /**
   * `resize(min)`: a new array of `max(min, maxPlace)` slots holding the old
   * entries, zero everywhere else. It is only ever called to grow.
   */
  function Resized(s: seq<int>, min: int, maxPlace: nat): (r: seq<int>)
    requires |s| < min
    ensures |r| == Max(min, maxPlace) && |r| > |s|
    ensures r[..|s|] == s && forall i | |s| <= i < |r| :: r[i] == 0
  {
    s + Zeros(Max(min, maxPlace) - |s|)
  }

  /** Growing the array adds no nonzero slot. */
  lemma ResizedNonZero(s: seq<int>, min: int, maxPlace: nat)
    requires |s| < min
    ensures NonZero(Resized(s, min, maxPlace)) == NonZero(s)
  {
    NonZeroAppend(s, Zeros(Max(min, maxPlace) - |s|));
    NonZeroOfZeros(Max(min, maxPlace) - |s|);
  }

  /** `if (p >= counts.length) resize(p + 1)`. */
  function Covering(s: seq<int>, p: nat, maxPlace: nat): (r: seq<int>)
    ensures p < |r| && |s| <= |r| && r[..|s|] == s
    ensures forall i | |s| <= i < |r| :: r[i] == 0
  {
    if p >= |s| then Resized(s, p + 1, maxPlace) else s
  }

  lemma CoveringNonZero(s: seq<int>, p: nat, maxPlace: nat)
    ensures NonZero(Covering(s, p, maxPlace)) == NonZero(s)
  {
    if p >= |s| {
      ResizedNonZero(s, p + 1, maxPlace);
    }
  }

  /** The counting invariant of a local or root finish: once `counts` exists, `count` is the number of places with a nonzero tally. */
  predicate CountsPlaces(c: Counters) {
    c.counts.Some? ==> c.count == NonZero(c.counts.value)
  }

  /**
   * `spawn(p)`. A local finish without `counts` that spawns here only counts
   * the task. Otherwise a local or root finish allocates `counts` on the first
   * remote spawn, moving its task count into slot `here` and counting one
   * place, grows the array to cover `p`, bumps slot `p` and adjusts `count` for
   * the slot turning nonzero or (from -1) zero. A remote finish only bumps its
   * per-place tally.
   */
  function SpawnSpec(root: bool, c: Counters, here: nat, maxPlace: nat, p: nat): (r: Counters)
    requires here < maxPlace
    requires !root ==> c.counts.Some?
  {
    if root then
      if c.counts.None? && p == here then
        Counters(c.count + 1, None)
      else
        var count0 := if c.counts.None? then 1 else c.count;
        var counts0 := if c.counts.None? then Zeros(maxPlace)[here := c.count] else c.counts.value;
        var s := Covering(counts0, p, maxPlace);
        Counters(count0 + (if s[p] == 0 then 1 else 0) - (if s[p] + 1 == 0 then 1 else 0), Some(s[p := s[p] + 1]))
    else
      var s := Covering(c.counts.value, p, maxPlace);
      Counters(c.count, Some(s[p := s[p] + 1]))
  }

  /** `submit(p)`: only a remote finish counts the arriving task. */
  function SubmitSpec(root: bool, c: Counters): (r: Counters) {
    if root then c else Counters(c.count + 1, c.counts)
  }

  /**
   * `tell()`, and the snapshot it sends home, if any. A local finish counts
   * the task down. A root finish counts slot `here` down (first counting the
   * place up when the slot was already 0, so the slot going to -1 is a place
   * with work) and counts the place down when the slot reaches 0. A remote
   * finish counts both down; when its own count reaches 0 it sends its
   * per-place tallies home and clears them.
   */
  function TellSpec(root: bool, c: Counters, here: nat): (r: (Counters, Option<seq<int>>))
    requires c.counts.Some? ==> here < |c.counts.value|
    requires !root ==> c.counts.Some?
    ensures root ==> r.1.None?
  {
    if root then
      if c.counts.Some? then
        var s := c.counts.value;
        var count0 := if s[here] == 0 then c.count + 1 else c.count;
        var s' := s[here := s[here] - 1];
        if s'[here] != 0 then (Counters(count0, Some(s')), None) else (Counters(count0 - 1, Some(s')), None)
      else
        (Counters(c.count - 1, None), None)
    else
      var s' := c.counts.value[here := c.counts.value[here] - 1];
      if c.count - 1 == 0 then (Counters(0, Some(Zeros(|s'|))), Some(s')) else (Counters(c.count - 1, Some(s')), None)
  }

  /** `unspawn(p)`: the reverse of `spawn(p)`'s bookkeeping, without any resizing. */
  function UnspawnSpec(root: bool, c: Counters, p: nat): (r: Counters)
    requires c.counts.Some? ==> p < |c.counts.value|
    requires !root ==> c.counts.Some?
  {
    if root then
      if c.counts.None? then
        Counters(c.count - 1, None)
      else
        var s := c.counts.value;
        var count0 := if s[p] == 0 then c.count + 1 else c.count;
        Counters(count0 - (if s[p] - 1 == 0 then 1 else 0), Some(s[p := s[p] - 1]))
    else
      Counters(c.count, Some(c.counts.value[p := c.counts.value[p] - 1]))
  }

  /** The array `update(d)` works on: `counts`, grown first when `d` is longer. */
  function UpdateBase(s: seq<int>, d: seq<int>, maxPlace: nat): (r: seq<int>)
    ensures |d| <= |r| && |s| <= |r|
  {
    if |d| > |s| then Resized(s, |d|, maxPlace) else s
  }

  /**
   * `update(d)`: every slot `i < |d|` gains `d[i]`, and `count` loses the
   * slots among them that were nonzero before and gains those nonzero after.
   */
  function UpdateSpec(c: Counters, d: seq<int>, maxPlace: nat): (r: Counters)
    requires c.counts.Some?
  {
    var g := UpdateBase(c.counts.value, d, maxPlace);
    var s' := seq(|g|, i requires 0 <= i < |g| => if i < |d| then g[i] + d[i] else g[i]);
    Counters(c.count - NonZero(g[..|d|]) + NonZero(s'[..|d|]), Some(s'))
  }

  // ---------------------------------------------------------------------------
  // What the counting protocol promises.

  /** Bumping one slot moves `count` by that slot's change of status. */
  lemma SpawnBumpsSlot(count: int, s: seq<int>, p: nat)
    requires p < |s| && count == NonZero(s)
    ensures count + (if s[p] == 0 then 1 else 0) - (if s[p] + 1 == 0 then 1 else 0) == NonZero(s[p := s[p] + 1])
  {
    NonZeroUpdate(s, p, s[p] + 1);
  }

  /**
   * `spawn` keeps `count` equal to the number of nonzero slots, including the
   * correction for a slot that goes from -1 to 0. The finish must still be
   * live when it first spawns remotely: with `count == 0` the moved tally
   * would make slot `here` zero while `count` still counts it.
   */
  lemma SpawnKeepsCountsPlaces(c: Counters, here: nat, maxPlace: nat, p: nat)
    requires here < maxPlace && CountsPlaces(c)
    requires c.counts.None? && p != here ==> c.count != 0
    ensures CountsPlaces(SpawnSpec(true, c, here, maxPlace, p))
  {
    if c.counts.Some? || p != here {
      var counts0 := if c.counts.None? then Zeros(maxPlace)[here := c.count] else c.counts.value;
      if c.counts.None? {
        NonZeroUpdate(Zeros(maxPlace), here, c.count);
        NonZeroOfZeros(maxPlace);
      }
      CoveringNonZero(counts0, p, maxPlace);
      SpawnBumpsSlot(NonZero(counts0), Covering(counts0, p, maxPlace), p);
    }
  }

  /** `tell` keeps `count` equal to the number of nonzero slots, including the "slot already 0" case. */
  lemma TellKeepsCountsPlaces(c: Counters, here: nat)
    requires CountsPlaces(c) && (c.counts.Some? ==> here < |c.counts.value|)
    ensures CountsPlaces(TellSpec(true, c, here).0)
  {
    if c.counts.Some? {
      var s := c.counts.value;
      NonZeroUpdate(s, here, s[here] - 1);
    }
  }

  /** `unspawn` keeps `count` equal to the number of nonzero slots. */
  lemma UnspawnKeepsCountsPlaces(c: Counters, p: nat)
    requires CountsPlaces(c) && (c.counts.Some? ==> p < |c.counts.value|)
    ensures CountsPlaces(UnspawnSpec(true, c, p))
  {
    if c.counts.Some? {
      var s := c.counts.value;
      NonZeroUpdate(s, p, s[p] - 1);
    }
  }

  /** `update` keeps `count` equal to the number of nonzero slots. */
  lemma UpdateKeepsCountsPlaces(c: Counters, d: seq<int>, maxPlace: nat)
    requires c.counts.Some? && CountsPlaces(c)
    ensures CountsPlaces(UpdateSpec(c, d, maxPlace))
  {
    var s := c.counts.value;
    var g := UpdateBase(s, d, maxPlace);
    var s' := UpdateSpec(c, d, maxPlace).counts.value;
    if |d| > |s| {
      ResizedNonZero(s, |d|, maxPlace);
    }
    assert g == g[..|d|] + g[|d|..];
    assert s' == s'[..|d|] + g[|d|..];
    NonZeroAppend(g[..|d|], g[|d|..]);
    NonZeroAppend(s'[..|d|], g[|d|..]);
  }

  /** `update(d)` adds `d` slot by slot to the old tallies, extended with zeros; it never shrinks the array. */
  lemma UpdateAddsSlotwise(c: Counters, d: seq<int>, maxPlace: nat)
    requires c.counts.Some?
    ensures var r := UpdateSpec(c, d, maxPlace).counts.value;
      && |r| >= |c.counts.value| && |r| >= |d|
      && forall i | 0 <= i < |r| ::
           r[i] == (if i < |c.counts.value| then c.counts.value[i] else 0) + (if i < |d| then d[i] else 0)
  {
    var s := c.counts.value;
    var g := UpdateBase(s, d, maxPlace);
    assert forall i | 0 <= i < |g| :: g[i] == if i < |s| then s[i] else 0 by {
      if |d| > |s| {
        assert forall i | 0 <= i < |s| :: g[i] == g[..|s|][i];
      }
    }
  }

  /**
   * The first remote spawn from a local finish allocates `counts` with
   * `maxPlace` slots (more if `p` lies beyond), moves the old task count into
   * slot `here`, counts one place, and then bumps slot `p`.
   */
  lemma FirstRemoteSpawn(c: Counters, here: nat, maxPlace: nat, p: nat)
    requires c.counts.None? && p != here && here < maxPlace
    ensures var r := SpawnSpec(true, c, here, maxPlace, p);
      && r.counts.Some? && |r.counts.value| == Max(maxPlace, p + 1)
      && r.counts.value[here] == c.count && r.counts.value[p] == 1
      && (forall i | 0 <= i < |r.counts.value| && i != here && i != p :: r.counts.value[i] == 0)
      && r.count == 2
  {
    var counts0 := Zeros(maxPlace)[here := c.count];
    var s := Covering(counts0, p, maxPlace);
    assert forall i | 0 <= i < |counts0| :: s[i] == counts0[i] by {
      assert forall i | 0 <= i < |counts0| :: s[i] == s[..|counts0|][i];
    }
  }

  /** The steps of a finish that never spawns away from its own place. */
  datatype LocalStep = SpawnHere | TellHere

  /** Applies the steps in order to a local finish without `counts`. */
  function RunLocal(c: Counters, here: nat, maxPlace: nat, steps: seq<LocalStep>): (r: Counters)
    requires c.counts.None? && here < maxPlace
    decreases |steps|
  {
    if steps == [] then c
    else
      var c' := if steps[0] == SpawnHere then SpawnSpec(true, c, here, maxPlace, here) else TellSpec(true, c, here).0;
      RunLocal(c', here, maxPlace, steps[1..])
  }

  function Occurrences(steps: seq<LocalStep>, k: LocalStep): (r: nat)
    decreases |steps|
  {
    if steps == [] then 0 else Occurrences(steps[1..], k) + (if steps[0] == k then 1 else 0)
  }

  /**
   * Local-only termination: `spawn(here)` and `tell()` never allocate the
   * array and move `count` by one each, so a new finish (count 1: its body)
   * reaches 0 exactly when there has been one more tell than spawns.
   */
  lemma {:induction false} LocalCountsTasks(c: Counters, here: nat, maxPlace: nat, steps: seq<LocalStep>)
    requires c.counts.None? && here < maxPlace
    ensures var r := RunLocal(c, here, maxPlace, steps);
      r.counts.None? && r.count == c.count + Occurrences(steps, SpawnHere) - Occurrences(steps, TellHere)
    decreases |steps|
  {
    if steps != [] {
      var c' := if steps[0] == SpawnHere then SpawnSpec(true, c, here, maxPlace, here) else TellSpec(true, c, here).0;
      LocalCountsTasks(c', here, maxPlace, steps[1..]);
    }
  }

  /**
   * `spawn(p)` followed by `unspawn(p)` restores `count` and every old slot;
   * the only trace left is the zero-filled growth of the array. A local
   * finish without `counts` undoes a spawn here completely. The exception is
   * the first remote spawn of a local finish: the array it allocates stays,
   * holding the old task count in slot `here`, and `count` is left at 1, the
   * one place with work.
   */
  lemma SpawnUnspawnRestores(root: bool, c: Counters, here: nat, maxPlace: nat, p: nat)
    requires here < maxPlace
    requires !root ==> c.counts.Some?
    ensures var s1 := SpawnSpec(root, c, here, maxPlace, p);
      && (s1.counts.Some? ==> p < |s1.counts.value|)
      && var r := UnspawnSpec(root, s1, p);
      && (c.counts.Some? || p == here ==> r.count == c.count)
      && (c.counts.None? && p == here ==> r.counts.None?)
      && (c.counts.Some? ==>
            && r.counts.Some? && |r.counts.value| >= |c.counts.value|
            && r.counts.value[..|c.counts.value|] == c.counts.value
            && forall i | |c.counts.value| <= i < |r.counts.value| :: r.counts.value[i] == 0)
      && (c.counts.None? && p != here ==>
            && r.count == 1 && r.counts.Some? && |r.counts.value| == Max(maxPlace, p + 1)
            && r.counts.value[here] == c.count
            && forall i | 0 <= i < |r.counts.value| && i != here :: r.counts.value[i] == 0)
  {
    if c.counts.Some? {
      var s := Covering(c.counts.value, p, maxPlace);
      assert s[p := s[p] + 1][p := s[p]] == s;
    } else if p != here {
      FirstRemoteSpawn(c, here, maxPlace, p);
    }
  }

  /**
   * A remote `tell` counts its own slot and its task count down; when the
   * task count reaches 0 it sends exactly one snapshot (the decremented
   * tallies, as a value) and leaves every slot zero. Otherwise it sends
   * nothing.
   */
  lemma RemoteTellReports(c: Counters, here: nat)
    requires c.counts.Some? && here < |c.counts.value|
    ensures var (r, sent) := TellSpec(false, c, here);
      var s' := c.counts.value[here := c.counts.value[here] - 1];
      && r.count == c.count - 1
      && (c.count == 1 ==> sent == Some(s') && r.counts == Some(Zeros(|c.counts.value|)))
      && (c.count != 1 ==> sent.None? && r.counts == Some(s'))
  {
  }

  /**
   * Reordering tolerance: a `tell` from a task whose spawn has not yet been
   * counted at the root (its slot is 0) leaves the slot at -1 and the finish
   * still busy, never released early.
   */
  lemma EarlyTellKeepsRootBusy(c: Counters, here: nat)
    requires c.counts.Some? && here < |c.counts.value| && c.counts.value[here] == 0 && CountsPlaces(c)
    ensures var r := TellSpec(true, c, here).0;
      r.count == c.count + 1 && r.count > 0 && r.counts.value[here] == -1
  {
    TellKeepsCountsPlaces(c, here);
    var s' := TellSpec(true, c, here).0.counts.value;
    NonZeroEmpty(s');
  }

  /** A root finish is released (`count == 0`) exactly when every place's tally is zero. */
  lemma RootReleasedIffQuiescent(c: Counters)
    requires c.counts.Some? && CountsPlaces(c)
    ensures c.count == 0 <==> forall i | 0 <= i < |c.counts.value| :: c.counts.value[i] == 0
  {
    NonZeroEmpty(c.counts.value);
  }
}
