# AthenaFramework modular items and projectile patches, in Dafny

This project models two pieces of the AthenaFramework RimWorld mod.

1. **`CompModular`**: the component of a modular item. It holds the list of
   attached modules (`moduleHolder`), the flag saying whether any of them can be
   ejected (`ejectableModules`) and the cached eject command (`ejectAction`). It
   decides which configured slots a candidate module may go into
   (`GetOpenSlots`), collects the modules' extra graphics, and attaches and
   detaches modules. Attaching and detaching are transactions: the module's own
   Install or Remove hook accepts or vetoes the change. After an accepted change
   the eject menu is rebuilt and the item's renderables are recached. The
   component also handles the save/load phases (`PostExposeData`) and lists the
   install options it offers a pawn.
2. **The projectile patches**: the Launch, CanHit and Impact patches look the
   projectile up in the projectile cache and pass the event to each registered
   module's hook. The `Bullet.Impact` transpiler inserts a call of
   `ApplyProjectileDamageModifier` before each `TakeDamage` call.

Files:

- `wrappers.dfy` holds `Option`.
- `seqs.dfy` holds sequence reversal, subsequences and removal of one
  occurrence.
- `athena_cache.dfy` holds the render cache.
- `modular.dfy` holds `CompModular`.
- `projectile.dfy` holds the three fan-out patches.
- `bullet_impact.dfy` holds the transpiler.

How the model is built:

- The Install and Remove hooks are function-valued constants of the class. Each
  receives the module and the holder at the time (`None` while it is null), and
  answers whether to go ahead.
- PostInit is recorded as a call log (`postInitCalls`).
- The IProjectile hooks are function parameters. Each patch returns the hooks
  it called, in call order.
- The process-wide caches are explicit:
  - the render cache is an `AthenaCache` object whose map sends a host ID to
    renderables, each carrying a `recached` counter;
  - the projectile cache is a map parameter.
- Placing a thing in the world appends it to `placed`.
- A thing's identity is its `thingID`. Splitting one unit off a stack
  decrements `stackCount`. If the stack holds more than one unit, the unit
  handed over is a new thing whose ID (`newID`) is a parameter. A one-unit stack
  hands over its own thing. `Valid()` says no thing is attached twice, which
  holds because a `ThingOwner` accepts only a thing that has no owner yet. So
  removing a module by value removes exactly that thing.

The model keeps the behaviour of the code wherever it differs from the design
description of the system:

- **Exclusion is global.** The exclusion test looks at every attached module in
  any slot, not only at modules in the same slot. One clash therefore closes
  every slot (`ExclusionClosesAllSlots`).
- **Empty slots skip the capacity test.** The capacity test runs only inside the
  loop over modules already in the slot. An empty slot accepts a candidate of
  any size (`OpenSlotsIgnoreCapacity`, `CapacityExample`).
- **The loops over slots, modules, inventory items and registered hooks run
  from the end of their lists.** Open slots, graphics, menu entries, install
  options, PostInit calls and hook calls all come out last-first. The design
  says registration order. The transpiler's loop over the instructions runs
  forward.
- **No AND or "once blocked stays blocked" rule.** The hook results are not
  combined by AND, and a shield block can be undone. The patches only thread
  each hook's result into the next hook. `HookCanOverrideFalse` shows a hook
  turning the engine's `false` into `true`.
- **`InstallModule` never checks capacity or exclusion.** Only the Install hook
  decides. So the design's invariant "the load of a slot never exceeds its
  capacity" is not a property of this code, and the model does not claim it.
- **Removing an absent module still rebuilds.** When `RemoveModule` is given a
  module that is not attached and the Remove hook accepts, nothing is removed or
  dropped. The menu is still rebuilt and the renderables are still recached.

## Model

| member | source | states |
|---|---|---|
| `Modular.CompModular.GetOpenSlots` | Source/AthenaFramework/1.5/Things/CompModular.cs:54-99 | the nested reverse loops return exactly `OpenSlots(slots, holder, candidate)` and change nothing; with a null holder the call succeeds (and returns nothing) when the candidate lists no configured slot |
| `Modular.OpenSlotsUnlisted` | Source/AthenaFramework/1.5/Things/CompModular.cs:58-65 | a candidate listing no configured slot gets no slot, whatever is attached, since the holder is only read for a listed slot |
| `Modular.OpenSlotsMembers` | Source/AthenaFramework/1.5/Things/CompModular.cs:58-65 | a slot is returned iff it is a configured slot, the candidate lists its ID and the scan accepts it; nothing the candidate does not list is ever returned |
| `Modular.OpenSlotsRule` | Source/AthenaFramework/1.5/Things/CompModular.cs:67-95 | with non-negative module costs, a slot is open iff it is configured and listed, no attached module shares an exclusion ID, and it is not (limited, occupied, and load + candidate cost > capacity) |
| `Modular.ScanInvalidExactly` | Source/AthenaFramework/1.5/Things/CompModular.cs:70-90 | with non-negative costs, the incremental per-module capacity test of the inner loop rejects exactly when the whole load plus the candidate exceeds a limited, occupied slot, or on any exclusion clash |
| `Modular.NoCapacityTest` | Source/AthenaFramework/1.5/Things/CompModular.cs:74-83 | for an unlimited (-1) slot, or one no module sits in, the scan rejects exactly on an exclusion clash, whatever the costs |
| `Modular.OpenSlotsIgnoreCapacity` | Source/AthenaFramework/1.5/Things/CompModular.cs:74-83 | an unlimited slot or an empty slot is open iff configured, listed and clash-free; it is never rejected for capacity |
| `Modular.ExclusionRejects` | Source/AthenaFramework/1.5/Things/CompModular.cs:85-89 | one attached module in any slot sharing an exclusion ID with the candidate makes the scan reject |
| `Modular.ExclusionClosesAllSlots` | Source/AthenaFramework/1.5/Things/CompModular.cs:70-95 | if any attached module shares an exclusion ID with the candidate, the result is empty |
| `Modular.OpenSlotsReverseOrder` | Source/AthenaFramework/1.5/Things/CompModular.cs:58-96 | the result is a subsequence of the reversed slot list: accepted slots, last declared first |
| `Modular.OpenSlotsNoDup` | Source/AthenaFramework/1.5/Things/CompModular.cs:58-96 | configured slots without duplicates give a result without duplicates |
| `Modular.CapacityExample` | Source/AthenaFramework/1.5/Things/CompModular.cs:74-83 | a capacity-2 slot holding a cost-1 module refuses a cost-2 module, while the same empty slot takes a cost-3 module |
| `Modular.CompModular.GetAdditionalGraphics` | Source/AthenaFramework/1.5/Things/CompModular.cs:101-118 | the reverse loop returns `AdditionalGraphics(holder)`, the non-null graphics of each module, last attached first |
| `Modular.AdditionalGraphicsAttach` | Source/AthenaFramework/1.5/Things/CompModular.cs:107-115 | appending a module puts its graphics in front of all earlier ones |
| `Modular.AdditionalGraphicsMembers` | Source/AthenaFramework/1.5/Things/CompModular.cs:107-115 | a graphic is in the result iff some attached module has non-null graphics containing it |
| `Modular.CompModular.InstallModule` | Source/AthenaFramework/1.5/Things/CompModular.cs:121-143 | one unit is split off: a new thing with `newID` from a stack of several units, the stack's own thing from a one-unit stack; it is not attached before the call; on a veto (also with a null holder) the holder, menu, flag and render cache are unchanged and the unit is placed in the world; on acceptance exactly that unit is appended, no thing is attached twice, the menu is rebuilt and each renderable under the parent ID is recached once |
| `Modular.CompModular.RemoveModule` | Source/AthenaFramework/1.5/Things/CompModular.cs:145-164 | on a veto (also with a null holder) nothing changes; on acceptance exactly the given thing is removed and dropped into the world (if attached), every other attached thing stays, no thing is attached twice, the menu is rebuilt and the parent's renderables are recached once |
| `Modular.AttachFresh` | Source/AthenaFramework/1.5/Things/CompModular.cs:123-132 | attaching a thing whose ID is not attached keeps the IDs distinct, and the thing was not in the holder |
| `Modular.RemoveFirstDistinct` | Source/AthenaFramework/1.5/Things/CompModular.cs:153 | with distinct IDs, removal takes out exactly the given thing, keeps every other attached thing and keeps the IDs distinct |
| `Modular.InstallRemoveRoundTrip` | Source/AthenaFramework/1.5/Things/CompModular.cs:123-153 | detaching a just-attached thing whose ID was not attached before restores the holder exactly |
| `Seqs.RemoveFirstMultiset` | Source/AthenaFramework/1.5/Things/CompModular.cs:153 | removal takes out exactly one copy of the module and keeps every other attached module |
| `Seqs.RemoveFirstAppended` | Source/AthenaFramework/1.5/Things/CompModular.cs:132-153 | detaching a just-attached module that was not attached before restores the holder exactly |
| `Cache.AthenaCache.RecacheRenderables` | Source/AthenaFramework/1.5/Things/CompModular.cs:135-142 | the reverse loop leaves the render cache equal to `AfterRecache(old cache, parent ID)` |
| `Cache.AfterRecacheEffect` | Source/AthenaFramework/1.5/Things/CompModular.cs:135-142 | recaching keeps the cache's keys and the other hosts' entries; under the parent ID every renderable's counter goes up by exactly one; a missing key changes nothing |
| `Cache.RecacheAllAt` | Source/AthenaFramework/1.5/Things/CompModular.cs:137-141 | each renderable of the list keeps its identity and is recached once |
| `Cache.AthenaCache.constructor` | Source/AthenaFramework/1.5/Things/CompModular.cs:135 | the render cache starts empty |
| `Modular.CompModular.RecacheGizmo` | Source/AthenaFramework/1.5/Things/CompModular.cs:216-251 | the reverse loop sets the cached command to `EjectMenu(holder)` and the flag to "some module is ejectable", keeping the flag consistent with the menu |
| `Modular.EjectMenuShape` | Source/AthenaFramework/1.5/Things/CompModular.cs:222-241 | one option per module, last attached first, enabled iff that module is ejectable; a trailing disabled "no ejectable modules" option iff none is ejectable; the menu offers an ejection iff some module is ejectable |
| `Modular.EjectableCountZero` | Source/AthenaFramework/1.5/Things/CompModular.cs:234-237 | the count `validOptions` is zero iff no attached module is ejectable |
| `Modular.CompModular.CompGetWornGizmosExtra` | Source/AthenaFramework/1.5/Things/CompModular.cs:270-284 | the menu is built only when no command is cached yet, and the command is yielded iff its menu offers an ejection |
| `Modular.CompModular.PostPostMake` | Source/AthenaFramework/1.5/Things/CompModular.cs:166-173 | a new item has an empty holder, a menu holding only the disabled entry, and no eject gizmo |
| `Modular.CompModular.PostExposeData` | Source/AthenaFramework/1.5/Things/CompModular.cs:175-214 | ResolvingCrossRefs only recaches renderables; LoadingVars does nothing more; otherwise a null holder becomes empty with no hooks run, else PostInit is called once per module, last first, and the holder is kept as loaded without any capacity or exclusion check |
| `Modular.CompModular.constructor` | Source/AthenaFramework/1.5/Things/CompModular.cs:16-22 | a new comp has a null holder, no cached command, the flag set, and nothing placed or initialised |
| `Modular.ModuleStack.constructor` | Source/AthenaFramework/1.5/Things/CompModular.cs:123 | a stack records its module and its unit count |
| `Modular.CompModular.ItemFloatMenuOptions` | Source/AthenaFramework/1.5/Things/CompModular.cs:286-318 | the nested reverse loops return `InstallOptions(inventory, slots, holder)`; with a null holder the call succeeds, offering nothing, when no inventory module lists a configured slot |
| `Modular.InstallOptionsUnlisted` | Source/AthenaFramework/1.5/Things/CompModular.cs:288-314 | when no inventory module lists a configured slot, nothing is offered, whatever is attached |
| `Modular.InstallOptionsMembers` | Source/AthenaFramework/1.5/Things/CompModular.cs:288-314 | an option (item, slot) is yielded iff the item is in the inventory, carries both module comps, and the slot is open to its module |
| `ProjectilePatches.PostLaunch` | Source/AthenaFramework/1.6/Harmony/HarmonyPatches_Projectile.cs:15-27 | no cache entry means no hook is called; otherwise each registered Launch hook is called once, last registered first |
| `ProjectilePatches.PostCanHit` | Source/AthenaFramework/1.6/Harmony/HarmonyPatches_Projectile.cs:33-45 | no cache entry leaves `__result` unchanged and calls nothing; otherwise each hook is called once, last first, and the final result is the left fold of the hooks over the reversed list, seeded with the engine's result |
| `ProjectilePatches.PreImpact` | Source/AthenaFramework/1.6/Harmony/HarmonyPatches_Projectile.cs:51-61 | the same for `blockedByShield`, seeded with the incoming value |
| `ProjectilePatches.ThreadHooksAppend` | Source/AthenaFramework/1.6/Harmony/HarmonyPatches_Projectile.cs:40-44 | threading a value through two groups of hooks in turn equals threading the first group's result into the second |
| `ProjectilePatches.ThreadHooksKeeps` | Source/AthenaFramework/1.6/Harmony/HarmonyPatches_Projectile.cs:55-59 | a value that every hook leaves alone survives the fan-out; this is the only monotonicity the code gives |
| `ProjectilePatches.HookCanOverrideFalse` | Source/AthenaFramework/1.6/Harmony/HarmonyPatches_Projectile.cs:43 | one hook can turn the engine's false into true, so CanHit is not an AND |
| `BulletImpact.Transpiler` | Source/AthenaFramework/1.6/Harmony/HarmonyPatches_Projectile.cs:74-106 | the streaming loop returns `Rewrite(input)`, and the error flag is raised iff `matchCount` is 0 |
| `BulletImpact.InsertionBeforeTakeDamage` | Source/AthenaFramework/1.6/Harmony/HarmonyPatches_Projectile.cs:80-99 | appending an instruction appends the six-instruction block for the most recent `ldloc.s` operand, exactly when the instruction is `callvirt TakeDamage` with an earlier `ldloc.s`, and then the instruction itself; `matchCount` goes up by one exactly then |
| `BulletImpact.RewriteLength` | Source/AthenaFramework/1.6/Harmony/HarmonyPatches_Projectile.cs:85-99 | output length = input length + 6 × matchCount |
| `BulletImpact.InputIsSubsequence` | Source/AthenaFramework/1.6/Harmony/HarmonyPatches_Projectile.cs:78-99 | every input instruction appears in the output, in its original order |
| `BulletImpact.InputKept` | Source/AthenaFramework/1.6/Harmony/HarmonyPatches_Projectile.cs:78-99 | every instruction of the original body is still in the rewritten body |
| `BulletImpact.UnpatchRewrite` | Source/AthenaFramework/1.6/Harmony/HarmonyPatches_Projectile.cs:85-99 | stripping each modifier block that sits right before a TakeDamage call gives back the input exactly |
| `BulletImpact.NoMatchIffUnchanged` | Source/AthenaFramework/1.6/Harmony/HarmonyPatches_Projectile.cs:102-105 | matchCount is 0 iff the output equals the input |
| `BulletImpact.NoMatchIdentity` | Source/AthenaFramework/1.6/Harmony/HarmonyPatches_Projectile.cs:85-99 | with no match, nothing is inserted |
| `BulletImpact.NoLdlocSNoMatch` | Source/AthenaFramework/1.6/Harmony/HarmonyPatches_Projectile.cs:87 | a stream without `ldloc.s` gets no insertion, even where it calls TakeDamage |
| `BulletImpact.FinalLastIsMostRecent` | Source/AthenaFramework/1.6/Harmony/HarmonyPatches_Projectile.cs:80-83 | after a stream, `lastLdlocS` is the most recent `ldloc.s` operand in it, or its starting value when there is none |
| `BulletImpact.RewriteAppend` | Source/AthenaFramework/1.6/Harmony/HarmonyPatches_Projectile.cs:78-100 | rewriting a concatenation rewrites the second part from the `lastLdlocS` the first part leaves; the match counts add up |
| `BulletImpact.RewriteSnoc` | Source/AthenaFramework/1.6/Harmony/HarmonyPatches_Projectile.cs:78-100 | one iteration of the loop: the state, output and count after one more instruction |

## Left out

- The `Holder` accessor and `GetAllSlots` getter are engine lookups or a plain field read. `PawnFloatMenuOptions` yields nothing.
- `ItemFloatMenuOptions` keeps only which (item, slot) pairs are offered and in what order. Left out: the reservation check `CanReserveAndReach`, `DecoratePrioritizedTask`, the empty action body and the label strings.
- Menu labels, icons, `Command_Action` text, `FloatMenu`, `Find.WindowStack` and the `RemoveModule` delegate of each option are UI matters. An option is only (module, enabled).
- `RecacheGraphicData` is a counter: what it recomputes belongs to the renderer. Each renderable is a value in a list. Its being one object shared by several lists (aliasing) is not modelled.
- `SplitOff`, `GenPlace.TryPlaceThing` and `TryDrop` positions belong to the engine. They become choosing the unit's identity, appending to `placed` and decrementing `stackCount`. Where a new thing's ID comes from (the ID generator) is a parameter.
- `Scribe_Deep.Look` is the serializer. `PostExposeData` takes the holder value it leaves as a parameter.
- The hook bodies (`Install`, `Remove`, `PostInit` and the `IProjectile` hooks) are external. They are pure decisions of their inputs. Anything they change in the comp or the module is not modelled. The Install hook choosing `usedSlot` is one such change.
- The Launch hooks' arguments are passed through unchanged and are not modelled. The patches record only which hooks run, in which order.
- `PostDestroy` is not modelled. When `dropModulesOnDestoy` is false it returns without touching any state. Otherwise it calls `RemoveModule` inside a `foreach` over the holder that `RemoveModule` shrinks, and what then happens depends on the engine's enumerator.
- `ApplyProjectileDamageModifier` itself lives in AthenaCombatUtility, which is not part of this model. Only the insertion of its call is modelled.
- Harmony attributes, the reflection lookups and the real `OpCodes`/`CodeInstruction` types are foreign. Opcodes and methods are datatype constructors. The operand of `ldloc.s` is an integer local index.
- `gearStatOffsets`, `statOffsets` and `statFactors` are not used by the modelled code.
- Capacities and costs are floats in the code and integers here. Rounding is not modelled.
- `OpenSlotsRule`: the capacity rule stated on the whole slot load holds only for non-negative module costs. The code tests a running sum, which differs for negative costs. `ScanInvalid` models that running sum exactly.
- A null holder makes the code throw at its first access to the holder. The `requires` clauses about a null holder stand for that. They allow the paths that complete with a null holder: the veto paths of `InstallModule` and `RemoveModule`, `GetOpenSlots` for a candidate that lists no configured slot, `ItemFloatMenuOptions` when no inventory module lists one, `CompGetWornGizmosExtra` with a cached command, and `PostExposeData`. `GetAdditionalGraphics` and `RecacheGizmo` read the holder unconditionally and require it.
- The transpiler's `CodeInstruction` labels and exception blocks are not modelled. `Instr` has no labels. In the code the labels stay on the original `callvirt TakeDamage`, which is yielded after the inserted block. A branch to that call therefore skips the modifier block. The model does not capture this.
