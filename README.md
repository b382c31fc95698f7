# APGAS finish, global ids and MPI launcher helpers in Dafny

This project models the core of the APGAS for Java runtime (the `handist/apgas`
library):

- the distributed termination detector behind `finish { ... }`, in its two
  variants `DefaultFinish` and `DebugFinish`;
- the `GlobalID` identifiers and the per-place registry they index;
- the self-contained helpers of the MPI launcher.

## The finish object

One `Finishes.Finish` class covers both `DefaultFinish` and `DebugFinish`. The
two Java classes have identical counting code: DebugFinish.java:260-397 repeats
DefaultFinish.java:209-346 line for line. So `resize`, `spawn`, `submit`,
`tell`, `unspawn`, `update`, `block`, `isReleasable`, `readResolve` and
`writeReplace` of both classes are the same members below. The constant `debug`
says which class an object is. `AddSuppressedDebug`, `AddRemoteSuppressed`,
`DeliverRemoteSuppressed` and `ToString` model `DebugFinish`-only code and
require it.

A finish object plays one of three roles at a place:

- a *local* finish: no id yet;
- a *root* finish: the id was allocated at this place;
- a *remote* finish: the id is from elsewhere.

Its `count` field counts different things in each role:

- all tasks, for a local finish;
- places with a nonzero tally, for a root finish;
- local tasks, for a remote finish.

Each counting operation is specified twice. The class method changes the
fields and the array in place. A pure function in `FinishCounting` states, on
the value `Counters(count, counts)`, what the method leaves behind. That is
`SpawnSpec`, `SubmitSpec`, `TellSpec`, `UnspawnSpec` or `UpdateSpec`. Every
method's `ensures` ties its new state to that function. The lemmas of
`FinishCounting` then prove the protocol's promises about those functions. The
main one is that for a local or root finish with `counts` allocated, `count`
equals the number of nonzero slots (`CountsPlaces`), and that every operation
preserves this. `Valid()` carries it as the class invariant.

Other modelling choices:

- Exceptions are a `Throwable` tree. Its suppressed list can be null, the
  empty sentinel, or a list. `fixSuppressedExceptions` is the pure function
  `Fix`.
- Messages to other places go into a ghost `outbox`. They are the closure
  `update(snapshot)` sent by `transport.send`, and the exception-delivery tasks
  sent by `asyncAt`.
- A place's `GlobalID` map and counter are a `Registry`. Its map holds
  `Option` values, so that a key bound to the `NULL` sentinel (`None`) is told
  apart from an absent key.
- Serialization carries only the id, because every other field is
  `transient`. A finish arriving at a place is the constructor `Arrive`
  followed by `ReadResolve`.
- The executing place (`GlobalRuntimeImpl.getRuntime().here`) is the constant
  `here` of each object. `maxPlace()` is a parameter.
- `DebugFinish.toString` needs the JVM identity hash code, which is a
  parameter. `Long.toString` and `Integer.toHexString` are modelled in
  `JavaText` together with their parsers.
- Java `int` and `long` values are written out at their width:
  - the `lid` counter wraps (`NextCount`);
  - `gid()` is checked to fit in a `long`;
  - `hashCode` is computed on 64-bit vectors.

## Model

| member | source | states |
|---|---|---|
| GlobalIds.Gid | src/main/java/apgas/util/GlobalID.java:60-67 | `(home << 32) + lid` always fits in a signed 64-bit long |
| GlobalIds.GidDecomposes | src/main/java/apgas/util/GlobalID.java:60-67 | home and lid can be recovered from the gid, including for a negative lid |
| GlobalIds.GidInjective | src/main/java/apgas/util/GlobalID.java:60-67 | two ids have the same gid if and only if they have the same home and lid, for every int lid |
| GlobalIds.Equals | src/main/java/apgas/util/GlobalID.java:174-176 | two ids are `equals` (their gids agree) exactly when both their homes and their local ids agree |
| GlobalIds.HashCode | src/main/java/apgas/util/GlobalID.java:179-181 | `hashCode` is `Long.hashCode` of the gid, and every id `equals` to this one hashes the same |
| GlobalIds.EqualsIsIdentity | src/main/java/apgas/util/GlobalID.java:173-176 | `equals` (same gid) holds exactly for identical (home, lid) pairs |
| GlobalIds.EqualIdsHashEqually | src/main/java/apgas/util/GlobalID.java:178-181 | ids that are `equals` have the same `Long.hashCode(gid())` |
| GlobalIds.Issued | src/main/java/apgas/util/GlobalID.java:72-75 | n successive constructions draw n lids from the counter |
| GlobalIds.IssuedAt | src/main/java/apgas/util/GlobalID.java:72-75 | the k-th lid drawn is the start value plus k, wrapped to 32 bits |
| GlobalIds.IssuedDistinct | src/main/java/apgas/util/GlobalID.java:72-75 | up to 2^32 successive lids are pairwise distinct |
| GlobalIds.IssuedIncreasing | src/main/java/apgas/util/GlobalID.java:72-75 | without wrap-around, successive lids strictly increase |
| GlobalIds.Put | src/main/java/apgas/util/GlobalID.java:94-97 | the key then reads back the value, null included; the result is the previous value, with the sentinel read as null; other keys are untouched |
| GlobalIds.PutIfAbsent | src/main/java/apgas/util/GlobalID.java:106-109 | an absent key is bound and null is returned; a present key, even one bound to null, leaves the map unchanged and its value is returned |
| GlobalIds.GetOrDefault | src/main/java/apgas/util/GlobalID.java:128-131 | the default only for an absent key; a key bound to null reads as null |
| GlobalIds.Remove | src/main/java/apgas/util/GlobalID.java:138-141 | afterwards the key is absent; the removed value is returned; other keys are untouched |
| GlobalIds.Registry.constructor | src/main/java/apgas/util/GlobalID.java:35-45 | a place starts with a zero counter and an empty map |
| GlobalIds.Registry.NewId | src/main/java/apgas/util/GlobalID.java:72-75 | the new id has home `here` and the counter's value as lid; the counter advances with wrap-around |
| GlobalIds.Registry.NewIds | src/main/java/apgas/util/GlobalID.java:72-75 | n successive constructions at a place return ids with home `here` and the lids of `Issued`, pairwise distinct while at most 2^32 are drawn, and leave the counter at the wrapped start value plus n, one past the last lid handed out |
| GlobalIds.Registry.PutHere | src/main/java/apgas/util/GlobalID.java:94-97 | the map and result are those of `Put` |
| GlobalIds.Registry.PutHereIfAbsent | src/main/java/apgas/util/GlobalID.java:106-109 | the map and result are those of `PutIfAbsent` |
| GlobalIds.Registry.GetHere | src/main/java/apgas/util/GlobalID.java:116-119 | the bound value, null for an absent key or the sentinel |
| GlobalIds.Registry.GetOrDefaultHere | src/main/java/apgas/util/GlobalID.java:128-131 | the result of `GetOrDefault` |
| GlobalIds.Registry.RemoveHere | src/main/java/apgas/util/GlobalID.java:138-141 | the map and result are those of `Remove` |
| Throwables.Fix | src/main/java/apgas/impl/DefaultFinish.java:84-100 | `fixSuppressedExceptions` keeps the message, never leaves the top-level suppressed list null, keeps a present list and its length, and keeps the presence of a cause; the whole-tree guarantees are in the lemmas below |
| Throwables.FixRepairs | src/main/java/apgas/impl/DefaultFinish.java:84-100 | after the repair, no throwable reachable through suppressed or cause links has a null suppressed list |
| Throwables.FixOnlyReplacesNull | src/main/java/apgas/impl/DefaultFinish.java:84-100 | the repair only turns null lists into the empty sentinel; messages, list lengths and the cause chain are unchanged |
| Throwables.FixKeepsRepaired | src/main/java/apgas/impl/DebugFinish.java:125-141 | a throwable with no null list is left exactly as it is |
| Throwables.FixIdempotent | src/main/java/apgas/impl/DebugFinish.java:125-141 | repairing twice is the same as repairing once |
| JavaText.DigitsRoundTrip | src/main/java/apgas/impl/DebugFinish.java:403-409 | the digits of a natural number in any base from 2 to 16 parse back to it |
| JavaText.LongToStringRoundTrip | src/main/java/apgas/impl/DebugFinish.java:407 | `Long.toString` of any value parses back to the value, sign included |
| JavaText.ToHexStringRoundTrip | src/main/java/apgas/impl/DebugFinish.java:405 | `Integer.toHexString` prints the unsigned 32-bit value, and it reads back to the same int |
| FinishCounting.Resized | src/main/java/apgas/impl/DefaultFinish.java:214-218 | the new array has `max(min, maxPlace)` slots, keeps every old slot and is zero beyond them; it never shrinks |
| FinishCounting.Covering | src/main/java/apgas/impl/DefaultFinish.java:234-236 | after the size check, slot p exists, the old slots are kept and the new ones are zero |
| FinishCounting.TellSpec | src/main/java/apgas/impl/DefaultFinish.java:262-288 | a local or root `tell` never sends a snapshot |
| FinishCounting.SpawnKeepsCountsPlaces | src/main/java/apgas/impl/DefaultFinish.java:221-250 | a local or root `spawn` keeps `count` equal to the number of nonzero slots, including for a slot moving from -1 to 0, provided the finish is live when it first spawns remotely |
| FinishCounting.TellKeepsCountsPlaces | src/main/java/apgas/impl/DefaultFinish.java:262-288 | a local or root `tell` keeps the place count, including when slot `here` was already 0 |
| FinishCounting.UnspawnKeepsCountsPlaces | src/main/java/apgas/impl/DefaultFinish.java:291-310 | a local or root `unspawn` keeps the place count |
| FinishCounting.UpdateKeepsCountsPlaces | src/main/java/apgas/impl/DefaultFinish.java:317-333 | `update` keeps the place count of a root finish |
| FinishCounting.UpdateAddsSlotwise | src/main/java/apgas/impl/DefaultFinish.java:317-333 | after `update(d)` the array is at least as long as before and as `d`, and each slot is its old value (0 beyond the old end) plus `d[i]` (0 beyond the end of `d`) |
| FinishCounting.FirstRemoteSpawn | src/main/java/apgas/impl/DefaultFinish.java:229-242 | the first remote spawn allocates `max(maxPlace, p + 1)` slots, moves the old count into slot `here`, puts 1 in slot `p` and 0 elsewhere, and leaves `count == 2` |
| FinishCounting.LocalCountsTasks | src/main/java/apgas/impl/DefaultFinish.java:225-228 | on a local finish, any run of `spawn(here)` and `tell()` never allocates the array and moves `count` by exactly the spawns minus the tells |
| FinishCounting.SpawnUnspawnRestores | src/main/java/apgas/impl/DefaultFinish.java:221-310 | `spawn(p)` then `unspawn(p)` restores `count` and every old slot, leaving only zero-filled growth, and a local spawn here is undone completely; the first remote spawn of a local finish is not undone: the allocated array stays, with the old task count in slot `here` and 0 elsewhere, and `count` is left at 1 |
| FinishCounting.RemoteTellReports | src/main/java/apgas/impl/DefaultFinish.java:278-287 | a remote `tell` decrements `count`; when it reaches 0, exactly one snapshot of the decremented tallies is sent and all slots become 0; otherwise nothing is sent |
| FinishCounting.EarlyTellKeepsRootBusy | src/main/java/apgas/impl/DefaultFinish.java:266-273 | a `tell` arriving at the root before its task's spawn was counted leaves slot `here` at -1 and the finish busy |
| FinishCounting.RootReleasedIffQuiescent | src/main/java/apgas/impl/DefaultFinish.java:102-119 | with the invariant, a root finish has `count == 0` exactly when every place's tally is zero |
| Finishes.Finish.constructor | src/main/java/apgas/impl/DefaultFinish.java:136-139 | a new finish has count 1 (its body), no `counts`, no exceptions, no id, and satisfies the invariant |
| Finishes.Finish.Arrive | src/main/java/apgas/impl/DefaultFinish.java:112-131 | a deserialized finish carries only its id; count 0 and null `counts` and exceptions |
| Finishes.Finish.Resize | src/main/java/apgas/impl/DefaultFinish.java:214-218 | the array is replaced by a fresh one holding `Resized` of the old contents |
| Finishes.Finish.Allocate | src/main/java/apgas/impl/DefaultFinish.java:230-232 | the first remote spawn of a local finish gets a fresh array of `maxPlace` slots, zero except slot `here`, which takes the old task count; `count` becomes 1 |
| Finishes.Finish.Bump | src/main/java/apgas/impl/DefaultFinish.java:234-249 | slot p gets covered and bumped by one; a root finish adjusts `count` for the slot turning nonzero or turning zero from -1 |
| Finishes.Finish.Spawn | src/main/java/apgas/impl/DefaultFinish.java:221-250 | the new count and tallies are `SpawnSpec`'s, the invariant is kept, and id, exceptions and outbox are unchanged |
| Finishes.Finish.Submit | src/main/java/apgas/impl/DefaultFinish.java:253-259 | only a remote finish counts one more task; the invariant is kept |
| Finishes.Finish.Tell | src/main/java/apgas/impl/DefaultFinish.java:262-288 | the new state is `TellSpec`'s; the outbox gains one `update` to home carrying the snapshot exactly when `TellSpec` sends one; the invariant is kept |
| Finishes.Finish.Unspawn | src/main/java/apgas/impl/DefaultFinish.java:291-310 | the new state is `UnspawnSpec`'s; the invariant is kept |
| Finishes.Finish.Merge | src/main/java/apgas/impl/DefaultFinish.java:321-329 | the loop adds `d` slot by slot, and `count` loses the slots that were nonzero and gains those that are nonzero afterwards |
| Finishes.Finish.Update | src/main/java/apgas/impl/DefaultFinish.java:317-333 | the new state is `UpdateSpec`'s; the invariant is kept |
| Finishes.Finish.Block | src/main/java/apgas/impl/DefaultFinish.java:168-187 | `block()` returns, and returns true, if and only if `isReleasable()`, that is `count == 0`; otherwise it waits |
| Finishes.Finish.Exceptions | src/main/java/apgas/impl/DefaultFinish.java:179-182 | `exceptions()` is null until the first exception is collected, and once it exists the list is never empty |
| Finishes.Finish.AddSuppressed | src/main/java/apgas/impl/DefaultFinish.java:141-166 | a local or root finish appends the exception to its list, creating the list if needed, so that `exceptions()` then ends with it, and changes nothing else; a remote finish leaves its list alone, performs `spawn(home)` and sends home one task carrying the exception |
| Finishes.Finish.DeliverSuppressed | src/main/java/apgas/impl/DefaultFinish.java:161-164 | the delivered task records the repaired exception at its position |
| Finishes.Finish.AddSuppressedDebug | src/main/java/apgas/impl/DebugFinish.java:182-208 | in every role the exception is appended to this finish's entry in the place's diagnostic map (created empty if absent); root handling appends it so that `exceptions()` ends with it, and remote handling spawns home and sends an `addRemoteSuppressed` task |
| Finishes.Finish.AddRemoteSuppressed | src/main/java/apgas/impl/DebugFinish.java:211-217 | appends, creating the list if needed, whatever the role |
| Finishes.Finish.DeliverRemoteSuppressed | src/main/java/apgas/impl/DebugFinish.java:204-207 | the delivered task appends the repaired exception |
| Finishes.Finish.WriteReplace | src/main/java/apgas/impl/DefaultFinish.java:340-346 | outgoing serialization allocates an id with home `here` and registers this object under it only when there is no id; a later call changes nothing; every registered finish stays at this place, under its own id and valid |
| Finishes.Finish.ReadResolve | src/main/java/apgas/impl/DefaultFinish.java:194-207 | the map becomes that of `putIfAbsent(id, this)`; the result is the instance registered under the id if there is one, otherwise this object, which is registered if the id was absent and stays unregistered if the id is bound to null; only at a place other than home, and only if `counts` is null, does the result get a fresh zeroed array of `maxPlace` slots, and its count, id, exceptions and outbox stay as they were; the result lives at this place and satisfies the class invariant, and every registered finish stays at this place, under its own id and valid |
| Finishes.ArriveTwice | src/main/java/apgas/impl/DebugFinish.java:245-258 | two arrivals of one finish at a place resolve to the same valid instance, unless the id is bound to null at that place, where each arrival stays its own unregistered object |
| Finishes.Finish.ToString | src/main/java/apgas/impl/DebugFinish.java:403-409 | the text starts with `Local Finish:@` exactly when there is no id, and the hexadecimal hash reads back; otherwise `Global Finish:gid` followed by the gid, which reads back |
| Finishes.DiagnosticRegistry.constructor | src/main/java/apgas/impl/DebugFinish.java:63 | a place starts with an empty diagnostic map |
| Finishes.DiagnosticRegistry.DumpLocal | src/main/java/apgas/impl/DebugFinish.java:107-118 | every entry is reported and removed, so the map ends up empty |
| Finishes.SuppressedExceptionsPresent | src/main/java/apgas/impl/DebugFinish.java:98-105 | true if and only if some place's diagnostic map is nonempty |
| Finishes.DumpAllSuppressedExceptions | src/main/java/apgas/impl/DebugFinish.java:85-89 | every place reports its own entries and ends with an empty map |
| MpiLauncher.StringToIntArray | src/main/java/apgas/mpi/MPILauncher.java:312-319 | a fresh array as long as the string, with each char's code in its slot |
| MpiLauncher.IntArrayToString | src/main/java/apgas/mpi/MPILauncher.java:101-108 | a string as long as the array; each char is the entry cut to 16 bits, and equals the entry when it is a char code |
| MpiLauncher.DecodeCodes | src/main/java/apgas/mpi/MPILauncher.java:305-319 | decoding the codes of any string gives the string back |
| MpiLauncher.CodesDecode | src/main/java/apgas/mpi/MPILauncher.java:94-108 | re-encoding a decoded array gives it back exactly when every entry is in 0..65535 |
| MpiLauncher.ShipString | src/main/java/apgas/mpi/MPILauncher.java:94-108 | `intArrayToString(stringToIntArray(s)) == s` |
| MpiLauncher.CountNamedPositive | src/main/java/apgas/mpi/MPILauncher.java:250-255 | at least one duplicate warning is printed exactly when a plugin of that name is already registered |
| MpiLauncher.Launcher.constructor | src/main/java/apgas/mpi/MPILauncher.java:70-72 | the launcher starts with no plugins and the latch clear |
| MpiLauncher.Launcher.RegisterPlugin | src/main/java/apgas/mpi/MPILauncher.java:246-257 | the plugin is always appended, even when the name is a duplicate; one warning per earlier plugin with that name |
| MpiLauncher.ReversedTwice | src/main/java/apgas/mpi/MPILauncher.java:231 | reversing the plugin list twice restores it, so a retried finalization calls the plugins in registration order |
| MpiLauncher.ReversedEnds | src/main/java/apgas/mpi/MPILauncher.java:231-234 | the last plugin registered is finalized first and the first one last |
| MpiLauncher.ReversedAppend | src/main/java/apgas/mpi/MPILauncher.java:231-234 | a plugin registered after all others is finalized before all of them, for any earlier list including the empty one |
| MpiLauncher.Launcher.ReversePlugins | src/main/java/apgas/mpi/MPILauncher.java:231 | the in-place swap loop leaves the list reversed |
| MpiLauncher.Launcher.MpiCustomFinalize | src/main/java/apgas/mpi/MPILauncher.java:229-238 | the first call reverses the list in place, calls `beforeFinalize` on every plugin in reverse registration order, finalizes MPI once and sets the latch; when a `beforeFinalize` call or `MPI.Finalize` throws `MPIException`, the list stays reversed, only the calls made up to the throwing one are recorded, and the latch stays clear; once the latch is set, calls change nothing |
| MpiLauncher.Launcher.FinalizeRetried | src/main/java/apgas/mpi/MPILauncher.java:396-402 | a `shutdown()` after a finalization that threw at its k-th `beforeFinalize` call reverses the list back, calls the first k+1 plugins of the reversed order and then every plugin in registration order, finalizes MPI and sets the latch |
| MpiLauncher.SliceArgs | src/main/java/apgas/mpi/MPILauncher.java:156-197 | no argument stops the launcher; fewer arguments than the offset (4 under MPJ, else 1) fail allocating `newArgs`; otherwise `newArgs` is the tail after the offset, and only rank 0 reads the main class name, at index 3 or 0 |
| MpiLauncher.SliceArgsRebuilds | src/main/java/apgas/mpi/MPILauncher.java:165-197 | at rank 0 the launcher prefix, the main class name and `newArgs` make up the whole command line |

## Left out

- Monitors: `synchronized`, `wait` and `notifyAll` are left out, because the model is sequential. `Block` describes one check of the wait loop.
- Concurrency: the `AtomicInteger` counter and the `ConcurrentHashMap`s are a sequential counter and sequential maps.
- Transport: `transport.send` and `Task.asyncAt` become entries of the ghost `outbox`. Delivery is modelled by calling `Update`, `DeliverSuppressed` or `DeliverRemoteSuppressed` on the home instance. Their implementations are not part of this model.
- Finishes.Finish.Tell: the snapshot in the outbox is a value copy taken before `Arrays.fill`. This assumes the transport serializes the closure's array before `send` returns.
- Finishes.Finish.Spawn: it requires a local finish to be live (`count != 0`) when it first spawns remotely. With `count == 0` the moved tally would make slot `here` zero while `count` still counted it, which would break the invariant. A released finish spawning again is outside the protocol.
- Finishes.Finish.ReadResolve: it requires a freshly deserialized object, which has count 0, null `counts` and null exceptions. It also requires `RegistryValid`, the map invariant that `WriteReplace` and `ReadResolve` themselves preserve; other code that writes the map directly is not part of this model.
- `count` and `counts[]` are unbounded integers: 32-bit overflow of task tallies is not modelled.
- Throwables.Fix: it follows the source's assumption that `getSuppressed()` throws a `NullPointerException` on a null list. The throwable tree cannot express cause cycles or a throwable shared by two parents.
- Finishes.Finish.DeliverSuppressed and Finishes.Finish.DeliverRemoteSuppressed: the Java repair mutates the stored object in place after it was appended. The model appends the repaired value, which is the same result when the object is not aliased elsewhere.
- Finishes.Finish.AddSuppressed: the exception travels home wrapped in a `SerializableThrowable`, whose code is not part of this model. The message carries the exception itself, which treats the wrapper and its `t` field as the identity. The same holds for Finishes.Finish.AddSuppressedDebug.
- Printing: the stderr output of the dump methods and of `registerPlugin`. The dumped entries and a warning count stand for it.
- `GlobalID.remove(places)` is left out: it is a distributed finish and `asyncAt` broadcast of `removeHere`.
- `GlobalID.toString` is left out: it is only diagnostic text.
- GlobalIds.Equals: it compares two `GlobalID`s; `equals` against an object of another class (always false) is not represented.
- MPI plumbing in `MPILauncher` is left out: `MPI.Init` and `Finalize` (except as a call counter), broadcast, `slave`, `launch` and `shutdown` apart from their call of `mpiCustomFinalize`, Java serialization, `System.setProperty` and `exit`, and reflective invocation of the main class.
- `mpiCustomSetup` and the plugins' `init` and `beforeFinalize` bodies are not modelled: they are calls into plugin code that is not visible. `beforeFinalize` calls are recorded in order, and the `failure` parameter of `MpiCustomFinalize` says which call, if any, throws `MPIException`.
- The Kryo serializers, `ExtendedConstructs`, `BadPlaceException` and `SerializableWithReplace` are left out: they delegate to library or runtime code, or carry no logic.
