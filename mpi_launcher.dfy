/**
 * The self-contained helpers of the MPI launcher: the string/int-array codec
 * used to ship strings through MPI integer buffers, the plugin registry with
 * its run-once finalization, and the slicing of the command line in `main`.
 */
module MpiLauncher {
  import opened Wrappers

  /** A Java `char`: one UTF-16 code unit. */
  type JChar = x: int | 0 <= x < 0x1_0000
  type JString = seq<JChar>

  /** The code of each char, as `(int) c` widens it. */
  function Codes(s: JString): (r: seq<int>) {
    seq(|s|, i requires 0 <= i < |s| => s[i] as int)
  }

  /** The narrowing cast `(char) x`: the low 16 bits, read unsigned. */
  function ToChar(x: int): (r: JChar) {
    x % 0x1_0000
  }

  function Decode(a: seq<int>): (r: JString) {
    seq(|a|, i requires 0 <= i < |a| => ToChar(a[i]))
  }

  /** `stringToIntArray(src)`. */
  method StringToIntArray(src: JString) returns (a: array<int>)
    ensures fresh(a) && a[..] == Codes(src)
  {
    a := new int[|src|];
    var i := 0;
    while i < |src|
      invariant 0 <= i <= |src|
      invariant forall j | 0 <= j < i :: a[j] == src[j] as int
    {
      a[i] := src[i] as int;
      i := i + 1;
    }
  }

  /** `intArrayToString(src)`: each entry narrowed to a char. */
  method IntArrayToString(src: array<int>) returns (s: JString)
    ensures |s| == src.Length
    ensures forall i | 0 <= i < src.Length :: s[i] == ToChar(src[i]) && (0 <= src[i] < 0x1_0000 ==> s[i] == src[i])
  {
    var chars := new JChar[src.Length];
    var i := 0;
    while i < src.Length
      invariant 0 <= i <= src.Length
      invariant forall j | 0 <= j < i :: chars[j] == ToChar(src[j])
    {
      chars[i] := ToChar(src[i]);
      i := i + 1;
    }
    s := chars[..];
  }

  /** Decoding the codes of a string gives the string back. */
  lemma DecodeCodes(s: JString)
    ensures Decode(Codes(s)) == s
  {
    assert forall i | 0 <= i < |s| :: ToChar(Codes(s)[i]) == s[i];
  }

  /** Encoding a decoded array gives it back exactly when every entry is a char code. */
  lemma CodesDecode(a: seq<int>)
    ensures Codes(Decode(a)) == a <==> forall i | 0 <= i < |a| :: 0 <= a[i] < 0x1_0000
  {
    if forall i | 0 <= i < |a| :: 0 <= a[i] < 0x1_0000 {
      assert forall i | 0 <= i < |a| :: Codes(Decode(a))[i] == a[i];
    } else {
      var i :| 0 <= i < |a| && !(0 <= a[i] < 0x1_0000);
      assert Codes(Decode(a))[i] != a[i];
    }
  }

  /** A string shipped as an int array arrives unchanged. */
  method ShipString(s: JString) returns (r: JString)
    ensures r == s
  {
    var a := StringToIntArray(s);
    r := IntArrayToString(a);
  }

  /** A registered plugin; `instance` tells apart distinct objects with the same name. */
  datatype Plugin = Plugin(name: JString, instance: nat)

  /** How many plugins of `ps` answer `getName()` with `name`. */
  function CountNamed(ps: seq<Plugin>, name: JString): (r: nat)
    decreases |ps|
  {
    if ps == [] then 0 else CountNamed(ps[..|ps| - 1], name) + (if ps[|ps| - 1].name == name then 1 else 0)
  }

  /** A duplicate warning is printed exactly when a plugin of that name is already registered. */
  lemma {:induction false} CountNamedPositive(ps: seq<Plugin>, name: JString)
    ensures CountNamed(ps, name) > 0 <==> exists i | 0 <= i < |ps| :: ps[i].name == name
    decreases |ps|
  {
    if ps != [] {
      var init := ps[..|ps| - 1];
      CountNamedPositive(init, name);
      if exists i | 0 <= i < |init| :: init[i].name == name {
        var i :| 0 <= i < |init| && init[i].name == name;
        assert ps[i].name == name;
      }
      if exists i | 0 <= i < |ps| :: ps[i].name == name {
        var i :| 0 <= i < |ps| && ps[i].name == name;
        if i < |init| {
          assert init[i].name == name;
        }
      }
    }
  }

  /** `Collections.reverse`. */
  function Reversed<T>(s: seq<T>): (r: seq<T>)
    ensures |r| == |s|
  {
    seq(|s|, i requires 0 <= i < |s| => s[|s| - 1 - i])
  }

  /**
   * Reversing twice restores the list: a finalization retried after an
   * `MPIException` calls the plugins in registration order.
   */
  lemma ReversedTwice<T>(s: seq<T>)
    ensures Reversed(Reversed(s)) == s
  {
    assert forall i | 0 <= i < |s| :: Reversed(Reversed(s))[i] == s[i];
  }

  /** The last plugin registered is the first one finalized, and the first one the last. */
  lemma ReversedEnds<T>(s: seq<T>)
    requires s != []
    ensures Reversed(s)[0] == s[|s| - 1] && Reversed(s)[|s| - 1] == s[0]
  {
  }

  /** Registering one more plugin puts it ahead of all the others in the finalization order. */
  lemma ReversedAppend<T>(s: seq<T>, x: T)
    ensures Reversed(s + [x]) == [x] + Reversed(s)
  {
    var t := s + [x];
    assert forall i | 0 <= i < |t| :: Reversed(t)[i] == ([x] + Reversed(s))[i];
  }

  /** The state of `Collections.reverse` after `i` swaps: the outer `i` slots at each end are exchanged. */
  ghost predicate SwappedOutside<T>(o: seq<T>, s: seq<T>, i: nat) {
    && |s| == |o|
    && (forall k | 0 <= k < |o| && (k < i || |o| - 1 - i < k) :: s[k] == o[|o| - 1 - k])
    && (forall k | i <= k <= |o| - 1 - i :: s[k] == o[k])
  }

  lemma SwapStep<T>(o: seq<T>, s: seq<T>, i: nat)
    requires SwappedOutside(o, s, i) && i < |o| - 1 - i
    ensures SwappedOutside(o, s[i := s[|o| - 1 - i]][|o| - 1 - i := s[i]], i + 1)
  {
  }

  /** The launcher's static state: the plugin list and the finalization latch. */
  class Launcher {
    var plugins: seq<Plugin>
    var finalizedCalled: bool
    /** `beforeFinalize` calls made so far, in order. */
    ghost var beforeFinalizeCalls: seq<Plugin>
    /** `MPI.Finalize()` calls made so far. */
    ghost var mpiFinalizeCalls: nat

    constructor ()
      ensures plugins == [] && !finalizedCalled && beforeFinalizeCalls == [] && mpiFinalizeCalls == 0
    {
      plugins := [];
      finalizedCalled := false;
      beforeFinalizeCalls := [];
      mpiFinalizeCalls := 0;
    }

    /**
     * `registerPlugin(plugin)`: one warning per earlier plugin of the same
     * name, and the plugin is appended regardless.
     */
    method RegisterPlugin(plugin: Plugin) returns (warnings: nat)
      modifies this`plugins
      ensures plugins == old(plugins) + [plugin]
      ensures warnings == CountNamed(old(plugins), plugin.name)
    {
      warnings := 0;
      var i := 0;
      while i < |plugins|
        invariant 0 <= i <= |plugins|
        invariant warnings == CountNamed(plugins[..i], plugin.name)
      {
        assert plugins[..i + 1][..i] == plugins[..i];
        if plugins[i].name == plugin.name {
          warnings := warnings + 1;
        }
        i := i + 1;
      }
      assert plugins[..i] == plugins;
      plugins := plugins + [plugin];
    }

    /** `Collections.reverse(plugins)`: swap the ends inward. */
    method ReversePlugins()
      modifies this`plugins
      ensures plugins == Reversed(old(plugins))
    {
      var n := |plugins|;
      var i := 0;
      while i < n / 2
        invariant 0 <= i <= n / 2 && |plugins| == n
        invariant SwappedOutside(old(plugins), plugins, i)
      {
        SwapStep(old(plugins), plugins, i);
        var t := plugins[i];
        plugins := plugins[i := plugins[n - 1 - i]][n - 1 - i := t];
        i := i + 1;
      }
      assert forall k | 0 <= k < n :: plugins[k] == Reversed(old(plugins))[k];
    }

    /**
     * `mpiCustomFinalize`: on the first call, reverse the list in place, call
     * `beforeFinalize` on every plugin in the new order, finalize MPI and set
     * the latch; once the latch is set nothing happens. `failure` names the
     * first call that throws `MPIException`, if any: the `k`-th `beforeFinalize`
     * call for `k < |plugins|`, `MPI.Finalize` otherwise. The exception leaves
     * the method after the reversal and before the latch is set.
     */
    method MpiCustomFinalize(failure: Option<nat>) returns (threw: bool)
      modifies this
      ensures threw <==> !old(finalizedCalled) && failure.Some?
      ensures finalizedCalled <==> old(finalizedCalled) || failure.None?
      ensures old(finalizedCalled) ==>
        plugins == old(plugins) && beforeFinalizeCalls == old(beforeFinalizeCalls) && mpiFinalizeCalls == old(mpiFinalizeCalls)
      ensures !old(finalizedCalled) ==> plugins == Reversed(old(plugins))
      ensures !old(finalizedCalled) && failure.Some? && failure.value < |old(plugins)| ==>
        && beforeFinalizeCalls == old(beforeFinalizeCalls) + Reversed(old(plugins))[..failure.value + 1]
        && mpiFinalizeCalls == old(mpiFinalizeCalls)
      ensures !old(finalizedCalled) && (failure.None? || failure.value >= |old(plugins)|) ==>
        && beforeFinalizeCalls == old(beforeFinalizeCalls) + Reversed(old(plugins))
        && mpiFinalizeCalls == old(mpiFinalizeCalls) + 1
    {
      threw := false;
      if !finalizedCalled {
        ReversePlugins();
        var k := 0;
        while k < |plugins|
          invariant 0 <= k <= |plugins| && plugins == Reversed(old(plugins))
          invariant failure.Some? ==> failure.value >= k
          invariant !finalizedCalled && mpiFinalizeCalls == old(mpiFinalizeCalls)
          invariant beforeFinalizeCalls == old(beforeFinalizeCalls) + plugins[..k]
        {
          beforeFinalizeCalls := beforeFinalizeCalls + [plugins[k]];
          assert plugins[..k + 1] == plugins[..k] + [plugins[k]];
          if failure == Some(k) {
            return true;
          }
          k := k + 1;
        }
        assert plugins[..k] == plugins;
        mpiFinalizeCalls := mpiFinalizeCalls + 1;
        if failure.Some? {
          return true;
        }
        finalizedCalled := true;
      }
    }

    /**
     * `shutdown()` after a finalization whose `k`-th `beforeFinalize` call
     * threw: the latch is still clear, so the list is reversed back and every
     * plugin is finalized again, now in registration order.
     */
    method FinalizeRetried(k: nat)
      requires !finalizedCalled && k < |plugins|
      modifies this
      ensures finalizedCalled && plugins == old(plugins)
      ensures beforeFinalizeCalls == old(beforeFinalizeCalls) + Reversed(old(plugins))[..k + 1] + old(plugins)
      ensures mpiFinalizeCalls == old(mpiFinalizeCalls) + 1
    {
      var threw := MpiCustomFinalize(Some(k));
      threw := MpiCustomFinalize(None);
      ReversedTwice(old(plugins));
    }
  }

  /** What `main` makes of its command line before launching. */
  datatype Arguments =
    | MainClassRequired
    | NegativeArraySize
    | Sliced(newArgs: seq<JString>, mainClassName: Option<JString>)

  /** Launcher arguments ahead of the program's own: three extra ones under MPJ. */
  function Offset(isMPJ: bool): (r: nat) {
    if isMPJ then 4 else 1
  }

  /**
   * The argument handling of `main` at MPI rank `rank`: no argument at all
   * stops the launcher, fewer than the offset fails allocating `newArgs`,
   * otherwise `newArgs` is the tail after the offset and rank 0 also reads the
   * main class name just before it.
   */
  function SliceArgs(args: seq<JString>, isMPJ: bool, rank: int): (r: Arguments)
    ensures r.MainClassRequired? <==> |args| < 1
    ensures r.NegativeArraySize? <==> 1 <= |args| < Offset(isMPJ)
    ensures r.Sliced? ==> |r.newArgs| == |args| - Offset(isMPJ)
    ensures r.Sliced? ==> forall i | 0 <= i < |r.newArgs| :: r.newArgs[i] == args[i + Offset(isMPJ)]
    ensures r.Sliced? ==> (r.mainClassName.Some? <==> rank == 0)
    ensures r.Sliced? && rank == 0 ==> r.mainClassName.value == args[if isMPJ then 3 else 0]
  {
    if |args| < 1 then MainClassRequired
    else if |args| < Offset(isMPJ) then NegativeArraySize
    else
      var newArgs := args[Offset(isMPJ)..];
      Sliced(newArgs, if rank == 0 then Some(args[Offset(isMPJ) - 1]) else None)
  }

  /** At rank 0 the launcher prefix, the main class name and `newArgs` make up the whole command line. */
  lemma SliceArgsRebuilds(args: seq<JString>, isMPJ: bool)
    requires SliceArgs(args, isMPJ, 0).Sliced?
    ensures var r := SliceArgs(args, isMPJ, 0);
      args == args[..Offset(isMPJ) - 1] + [r.mainClassName.value] + r.newArgs
  {
    var o := Offset(isMPJ);
    assert args == args[..o - 1] + [args[o - 1]] + args[o..];
  }
}
