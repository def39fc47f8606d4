/** A modular item (CompModular): the slots its configuration declares, the
    modules attached to it, the eject menu derived from them, and the
    transactions that attach and detach modules. */
module Modular {
  import opened Wrappers
  import opened Seqs
  import opened Cache

  /** The capacity value a slot uses for "no limit". */
  const Unlimited: int := -1

  /** A configured slot (ModuleSlotPackage); only its ID and capacity take
      part in the logic. */
  datatype Slot = Slot(slotID: string, capacity: int)

  /** An extra graphic a module contributes to the item it is attached to. */
  datatype GraphicPackage = GraphicPackage(path: string)

  /** A module thing together with its CompUseEffect_Module: the slots it
      fits, the slot it occupies once attached, the capacity it takes, its
      exclusion IDs, whether it can be ejected and its optional graphics. */
  datatype Module = Module(
    thingID: int,
    slots: seq<string>,
    usedSlot: string,
    requiredCapacity: int,
    excludeIDs: seq<string>,
    ejectable: bool,
    graphics: Option<seq<GraphicPackage>>)

  // ---------------------------------------------------------------------
  // Slot eligibility

  /** The two modules' exclusion ID lists intersect. */
  predicate SharesExclusion(m: Module, cand: Module) {
    exists x :: x in m.excludeIDs && x in cand.excludeIDs
  }

  predicate AnyShares(mods: seq<Module>, cand: Module) {
    exists m :: m in mods && SharesExclusion(m, cand)
  }

  /** The inner scan over the attached modules, last to first, with
      `spaceTaken` already counted: true when it marks `slot` invalid for
      `cand`. The capacity test runs only on a module that sits in `slot`;
      the exclusion test runs on every module. */
  function ScanInvalid(slot: Slot, mods: seq<Module>, cand: Module, spaceTaken: int): bool
    decreases |mods|
  {
    if mods == [] then false
    else
      var m := mods[|mods| - 1];
      var inSlot := m.usedSlot == slot.slotID;
      var taken := if inSlot then spaceTaken + m.requiredCapacity else spaceTaken;
      if inSlot && taken + cand.requiredCapacity > slot.capacity && slot.capacity != Unlimited then true
      else if SharesExclusion(m, cand) then true
      else ScanInvalid(slot, mods[..|mods| - 1], cand, taken)
  }

  predicate Accepts(slot: Slot, mods: seq<Module>, cand: Module) {
    slot.slotID in cand.slots && !ScanInvalid(slot, mods, cand, 0)
  }

  /** The slots of `slots` open to `cand`, collected from the last slot to
      the first. */
  function OpenSlots(slots: seq<Slot>, mods: seq<Module>, cand: Module): seq<Slot> {
    if slots == [] then []
    else OpenSlots(slots[1..], mods, cand) + (if Accepts(slots[0], mods, cand) then [slots[0]] else [])
  }

  /** Some attached module sits in the slot with this ID. */
  predicate Occupied(mods: seq<Module>, slotID: string) {
    exists m :: m in mods && m.usedSlot == slotID
  }

  /** The capacity taken by the modules sitting in the slot with this ID. */
  function Load(mods: seq<Module>, slotID: string): int
    decreases |mods|
  {
    if mods == [] then 0
    else Load(mods[..|mods| - 1], slotID)
         + (if mods[|mods| - 1].usedSlot == slotID then mods[|mods| - 1].requiredCapacity else 0)
  }

  predicate NonNegativeCosts(mods: seq<Module>) {
    forall m :: m in mods ==> m.requiredCapacity >= 0
  }

  /** The capacity rule stated on the whole slot: a limited slot that
      already holds a module and cannot take the candidate on top of what
      it holds. */
  predicate CapacityRejected(slot: Slot, mods: seq<Module>, cand: Module) {
    slot.capacity != Unlimited && Occupied(mods, slot.slotID)
    && Load(mods, slot.slotID) + cand.requiredCapacity > slot.capacity
  }

  lemma {:induction false} LoadNonNegative(mods: seq<Module>, slotID: string)
    requires NonNegativeCosts(mods)
    ensures Load(mods, slotID) >= 0
  {
    if mods != [] {
      LoadNonNegative(mods[..|mods| - 1], slotID);
    }
  }

  lemma {:induction false} LoadUnoccupied(mods: seq<Module>, slotID: string)
    requires !Occupied(mods, slotID)
    ensures Load(mods, slotID) == 0
  {
    if mods != [] {
      assert mods[|mods| - 1] in mods;
      LoadUnoccupied(mods[..|mods| - 1], slotID);
    }
  }

  /** An exclusion clash with any attached module, in whatever slot, makes
      the scan reject. */
  lemma {:induction false} ExclusionRejects(slot: Slot, mods: seq<Module>, cand: Module, spaceTaken: int)
    requires AnyShares(mods, cand)
    ensures ScanInvalid(slot, mods, cand, spaceTaken)
  {
    var m := mods[|mods| - 1];
    var prefix := mods[..|mods| - 1];
    var taken := if m.usedSlot == slot.slotID then spaceTaken + m.requiredCapacity else spaceTaken;
    if !SharesExclusion(m, cand) {
      assert mods == prefix + [m];
      assert AnyShares(prefix, cand);
      ExclusionRejects(slot, prefix, cand, taken);
    }
  }

  /** A slot with unlimited capacity, or one nobody sits in, is never
      rejected for capacity: only an exclusion clash rejects it. */
  lemma {:induction false} NoCapacityTest(slot: Slot, mods: seq<Module>, cand: Module, spaceTaken: int)
    requires slot.capacity == Unlimited || !Occupied(mods, slot.slotID)
    ensures ScanInvalid(slot, mods, cand, spaceTaken) <==> AnyShares(mods, cand)
  {
    if mods != [] {
      var m := mods[|mods| - 1];
      var prefix := mods[..|mods| - 1];
      assert mods == prefix + [m];
      assert m in mods;
      var taken := if m.usedSlot == slot.slotID then spaceTaken + m.requiredCapacity else spaceTaken;
      NoCapacityTest(slot, prefix, cand, taken);
    }
  }

  /** With non-negative costs, the scan rejects exactly on an exclusion
      clash or when the slot holds a module and the candidate does not fit
      on top of the load (plus what was already counted). */
  lemma {:induction false} ScanInvalidExactly(slot: Slot, mods: seq<Module>, cand: Module, spaceTaken: int)
    requires NonNegativeCosts(mods)
    ensures ScanInvalid(slot, mods, cand, spaceTaken) <==>
      AnyShares(mods, cand) ||
      (slot.capacity != Unlimited && Occupied(mods, slot.slotID)
       && spaceTaken + Load(mods, slot.slotID) + cand.requiredCapacity > slot.capacity)
  {
    if mods != [] {
      var m := mods[|mods| - 1];
      var prefix := mods[..|mods| - 1];
      assert mods == prefix + [m];
      assert m in mods;
      var inSlot := m.usedSlot == slot.slotID;
      var taken := if inSlot then spaceTaken + m.requiredCapacity else spaceTaken;
      LoadNonNegative(prefix, slot.slotID);
      ScanInvalidExactly(slot, prefix, cand, taken);
      if !Occupied(prefix, slot.slotID) {
        LoadUnoccupied(prefix, slot.slotID);
      }
      assert AnyShares(mods, cand) <==> SharesExclusion(m, cand) || AnyShares(prefix, cand);
      assert Occupied(mods, slot.slotID) <==> inSlot || Occupied(prefix, slot.slotID);
    }
  }

  /** Only declared slots whose ID the candidate lists, and that the scan
      accepts, are open; and every such slot is. */
  lemma {:induction false} OpenSlotsMembers(slots: seq<Slot>, mods: seq<Module>, cand: Module, x: Slot)
    ensures x in OpenSlots(slots, mods, cand) <==> x in slots && Accepts(x, mods, cand)
  {
    if slots != [] {
      assert slots == [slots[0]] + slots[1..];
      OpenSlotsMembers(slots[1..], mods, cand, x);
    }
  }

  /** Some declared slot has an ID the candidate lists. */
  predicate ListsSlot(slots: seq<Slot>, cand: Module) {
    exists s :: s in slots && s.slotID in cand.slots
  }

  /** A candidate that lists none of the declared slots gets no slot, and
      the attached modules are never looked at. */
  lemma {:induction false} OpenSlotsUnlisted(slots: seq<Slot>, mods: seq<Module>, cand: Module)
    requires !ListsSlot(slots, cand)
    ensures OpenSlots(slots, mods, cand) == []
  {
    if slots != [] {
      assert slots[0] in slots;
      assert !ListsSlot(slots[1..], cand) by {
        forall s | s in slots[1..] ensures s.slotID !in cand.slots {
          assert s in slots;
        }
      }
      OpenSlotsUnlisted(slots[1..], mods, cand);
    }
  }

  /** The open slots come out in the reverse of their declaration order. */
  lemma {:induction false} OpenSlotsReverseOrder(slots: seq<Slot>, mods: seq<Module>, cand: Module)
    ensures Subseq(OpenSlots(slots, mods, cand), Reverse(slots))
  {
    if slots != [] {
      OpenSlotsReverseOrder(slots[1..], mods, cand);
      SubseqSnoc(OpenSlots(slots[1..], mods, cand), Reverse(slots[1..]), slots[0]);
      if !Accepts(slots[0], mods, cand) {
        assert OpenSlots(slots, mods, cand) == OpenSlots(slots[1..], mods, cand);
      }
    }
  }

  /** Declared slots without duplicates give open slots without duplicates. */
  lemma {:induction false} OpenSlotsNoDup(slots: seq<Slot>, mods: seq<Module>, cand: Module)
    requires NoDup(slots)
    ensures NoDup(OpenSlots(slots, mods, cand))
  {
    if slots != [] {
      var rest := OpenSlots(slots[1..], mods, cand);
      assert NoDup(slots[1..]) by {
        forall i, j | 0 <= i < j < |slots[1..]| ensures slots[1..][i] != slots[1..][j] {
          assert slots[1..][i] == slots[i + 1] && slots[1..][j] == slots[j + 1];
        }
      }
      OpenSlotsNoDup(slots[1..], mods, cand);
      if Accepts(slots[0], mods, cand) {
        OpenSlotsMembers(slots[1..], mods, cand, slots[0]);
        assert slots[0] !in slots[1..] by {
          forall j | 0 <= j < |slots[1..]| ensures slots[1..][j] != slots[0] {
            assert slots[1..][j] == slots[j + 1];
          }
        }
        assert slots[0] !in rest;
      }
    }
  }

  /** If any attached module shares an exclusion ID with the candidate, no
      slot at all is open to it. */
  lemma {:induction false} ExclusionClosesAllSlots(slots: seq<Slot>, mods: seq<Module>, cand: Module)
    requires AnyShares(mods, cand)
    ensures OpenSlots(slots, mods, cand) == []
  {
    if slots != [] {
      ExclusionRejects(slots[0], mods, cand, 0);
      ExclusionClosesAllSlots(slots[1..], mods, cand);
    }
  }

  /** The eligibility rule in full, for non-negative costs: a declared slot
      is open exactly when the candidate lists it, no attached module
      clashes with the candidate, and the slot is not rejected for capacity. */
  lemma OpenSlotsRule(slots: seq<Slot>, mods: seq<Module>, cand: Module, x: Slot)
    requires NonNegativeCosts(mods)
    ensures x in OpenSlots(slots, mods, cand) <==>
      x in slots && x.slotID in cand.slots && !AnyShares(mods, cand) && !CapacityRejected(x, mods, cand)
  {
    OpenSlotsMembers(slots, mods, cand, x);
    ScanInvalidExactly(x, mods, cand, 0);
  }

  /** An unlimited slot, or an empty one, is open exactly when the
      candidate lists it and nothing clashes; no cost assumption needed. */
  lemma OpenSlotsIgnoreCapacity(slots: seq<Slot>, mods: seq<Module>, cand: Module, x: Slot)
    requires x.capacity == Unlimited || !Occupied(mods, x.slotID)
    ensures x in OpenSlots(slots, mods, cand) <==>
      x in slots && x.slotID in cand.slots && !AnyShares(mods, cand)
  {
    OpenSlotsMembers(slots, mods, cand, x);
    NoCapacityTest(x, mods, cand, 0);
  }

  /** A slot of capacity 2 holding a module of cost 1 turns away a module
      of cost 2; the same slot, while empty, takes a module of cost 3. */
  lemma CapacityExample()
    ensures var arm := Slot("arm", 2);
            var a := Module(1, ["arm"], "arm", 1, [], true, None);
            var b := Module(2, ["arm"], "arm", 2, [], true, None);
            var c := Module(3, ["arm"], "arm", 3, [], true, None);
            OpenSlots([arm], [a], b) == [] && OpenSlots([arm], [], c) == [arm]
  {
  }

  // ---------------------------------------------------------------------
  // Graphics

  function GraphicsOf(m: Module): seq<GraphicPackage> {
    if m.graphics.Some? then m.graphics.value else []
  }

  /** The graphics of all attached modules, the last attached first. */
  function AdditionalGraphics(mods: seq<Module>): seq<GraphicPackage> {
    if mods == [] then [] else AdditionalGraphics(mods[1..]) + GraphicsOf(mods[0])
  }

  /** A newly attached module's graphics come in front of all the others. */
  lemma {:induction false} AdditionalGraphicsAttach(mods: seq<Module>, m: Module)
    ensures AdditionalGraphics(mods + [m]) == GraphicsOf(m) + AdditionalGraphics(mods)
  {
    if mods != [] {
      assert (mods + [m])[1..] == mods[1..] + [m];
      AdditionalGraphicsAttach(mods[1..], m);
    } else {
      assert AdditionalGraphics([m]) == AdditionalGraphics([]) + GraphicsOf(m);
    }
  }

  /** A graphic is contributed exactly when some attached module has it. */
  lemma {:induction false} AdditionalGraphicsMembers(mods: seq<Module>, g: GraphicPackage)
    ensures g in AdditionalGraphics(mods) <==> exists m :: m in mods && g in GraphicsOf(m)
  {
    if mods != [] {
      assert mods == [mods[0]] + mods[1..];
      AdditionalGraphicsMembers(mods[1..], g);
    }
  }

  // ---------------------------------------------------------------------
  // Eject menu

  /** A menu option: one per attached module, enabled when the module can
      be ejected, or the disabled "No ejectable modules" entry. */
  datatype FloatOption = ModuleOption(target: Module, enabled: bool) | NoEjectableOption

  /** The eject command (Command_Action) with the options its menu shows. */
  datatype EjectCommand = EjectCommand(options: seq<FloatOption>)

  /** One option per module, the last attached first. */
  function ModuleOptions(mods: seq<Module>): (r: seq<FloatOption>)
    ensures |r| == |mods|
  {
    if mods == [] then [] else ModuleOptions(mods[1..]) + [ModuleOption(mods[0], mods[0].ejectable)]
  }

  function EjectableCount(mods: seq<Module>): nat {
    if mods == [] then 0 else EjectableCount(mods[1..]) + (if mods[0].ejectable then 1 else 0)
  }

  predicate AnyEjectable(mods: seq<Module>) {
    exists m :: m in mods && m.ejectable
  }

  /** The options RecacheGizmo builds for the attached modules `mods`. */
  function EjectMenu(mods: seq<Module>): seq<FloatOption> {
    ModuleOptions(mods) + (if EjectableCount(mods) == 0 then [NoEjectableOption] else [])
  }

  /** The menu has an enabled option. */
  predicate OffersEject(options: seq<FloatOption>) {
    exists k :: 0 <= k < |options| && options[k].ModuleOption? && options[k].enabled
  }

  lemma {:induction false} EjectableCountZero(mods: seq<Module>)
    ensures EjectableCount(mods) == 0 <==> !AnyEjectable(mods)
  {
    if mods != [] {
      assert mods == [mods[0]] + mods[1..];
      EjectableCountZero(mods[1..]);
    }
  }

  lemma {:induction false} ModuleOptionsAt(mods: seq<Module>, k: nat)
    requires k < |mods|
    ensures ModuleOptions(mods)[k] == ModuleOption(mods[|mods| - 1 - k], mods[|mods| - 1 - k].ejectable)
  {
    if k < |mods| - 1 {
      ModuleOptionsAt(mods[1..], k);
    } else if |mods| > 1 {
      ModuleOptionsAt(mods[1..], 0);
    }
  }

  /** The shape of the rebuilt menu: one option per attached module, last
      attached first, enabled exactly when that module is ejectable, and a
      trailing disabled entry exactly when none is ejectable; the menu
      offers an ejection exactly when some module is ejectable. */
  lemma EjectMenuShape(mods: seq<Module>)
    ensures |EjectMenu(mods)| == |mods| + (if AnyEjectable(mods) then 0 else 1)
    ensures forall k :: 0 <= k < |mods| ==>
      EjectMenu(mods)[k] == ModuleOption(mods[|mods| - 1 - k], mods[|mods| - 1 - k].ejectable)
    ensures !AnyEjectable(mods) ==> EjectMenu(mods)[|mods|] == NoEjectableOption
    ensures OffersEject(EjectMenu(mods)) <==> AnyEjectable(mods)
  {
    EjectableCountZero(mods);
    var menu := EjectMenu(mods);
    if mods != [] {
      ModuleOptionsAt(mods, 0);
    }
    forall k | 0 <= k < |mods|
      ensures menu[k] == ModuleOption(mods[|mods| - 1 - k], mods[|mods| - 1 - k].ejectable)
    {
      ModuleOptionsAt(mods, k);
    }
    if AnyEjectable(mods) {
      var m :| m in mods && m.ejectable;
      var i :| 0 <= i < |mods| && mods[i] == m;
      assert menu[|mods| - 1 - i].enabled;
    }
  }

  // ---------------------------------------------------------------------
  // Install options offered to a pawn

  /** An inventory thing: whether it has CompUsable_Module and, if it has
      one, its CompUseEffect_Module. */
  datatype InventoryItem = InventoryItem(thingID: int, usable: bool, moduleComp: Option<Module>)

  /** A menu option to install `item` into `slot`. */
  datatype InstallOption = InstallOption(item: InventoryItem, slot: Slot)

  /** One option for `item` per slot of `open`, in the order of `open`. */
  function SlotOptions(item: InventoryItem, open: seq<Slot>): seq<InstallOption>
    decreases |open|
  {
    if open == [] then []
    else SlotOptions(item, open[..|open| - 1]) + [InstallOption(item, open[|open| - 1])]
  }

  predicate Installable(item: InventoryItem) {
    item.usable && item.moduleComp.Some?
  }

  /** The options ItemFloatMenuOptions yields, the last inventory item first. */
  function InstallOptions(inventory: seq<InventoryItem>, slots: seq<Slot>, mods: seq<Module>): seq<InstallOption> {
    if inventory == [] then []
    else
      InstallOptions(inventory[1..], slots, mods)
      + (if Installable(inventory[0])
         then SlotOptions(inventory[0], Reverse(OpenSlots(slots, mods, inventory[0].moduleComp.value)))
         else [])
  }

  lemma {:induction false} SlotOptionsMembers(item: InventoryItem, open: seq<Slot>, o: InstallOption)
    ensures o in SlotOptions(item, open) <==> o.item == item && o.slot in open
  {
    if open != [] {
      assert open == open[..|open| - 1] + [open[|open| - 1]];
      SlotOptionsMembers(item, open[..|open| - 1], o);
    }
  }

  /** An install option is offered exactly for an inventory item with both
      comps and a slot open to its module. */
  lemma {:induction false} InstallOptionsMembers(inventory: seq<InventoryItem>, slots: seq<Slot>, mods: seq<Module>, o: InstallOption)
    ensures o in InstallOptions(inventory, slots, mods) <==>
      o.item in inventory && Installable(o.item) && o.slot in OpenSlots(slots, mods, o.item.moduleComp.value)
  {
    if inventory != [] {
      var item := inventory[0];
      assert inventory == [item] + inventory[1..];
      InstallOptionsMembers(inventory[1..], slots, mods, o);
      if Installable(item) {
        var open := OpenSlots(slots, mods, item.moduleComp.value);
        SlotOptionsMembers(item, Reverse(open), o);
        ReverseMembers(open, o.slot);
      }
    }
  }

  /** Some inventory item with both comps lists a declared slot. */
  predicate InventoryListsSlot(inventory: seq<InventoryItem>, slots: seq<Slot>) {
    exists item :: item in inventory && Installable(item) && ListsSlot(slots, item.moduleComp.value)
  }

  /** When no inventory module lists a declared slot, nothing is offered,
      whatever is attached. */
  lemma {:induction false} InstallOptionsUnlisted(inventory: seq<InventoryItem>, slots: seq<Slot>, mods: seq<Module>)
    requires !InventoryListsSlot(inventory, slots)
    ensures InstallOptions(inventory, slots, mods) == []
  {
    if inventory != [] {
      var item := inventory[0];
      assert item in inventory;
      assert !InventoryListsSlot(inventory[1..], slots) by {
        forall it | it in inventory[1..] && Installable(it) ensures !ListsSlot(slots, it.moduleComp.value) {
          assert it in inventory;
        }
      }
      InstallOptionsUnlisted(inventory[1..], slots, mods);
      if Installable(item) {
        OpenSlotsUnlisted(slots, mods, item.moduleComp.value);
      }
    }
  }

  // ---------------------------------------------------------------------
  // Thing identity

  /** No attached module is the thing with this ID. */
  predicate NotAttached(mods: seq<Module>, id: int) {
    forall m :: m in mods ==> m.thingID != id
  }

  /** Each thing sits in the holder at most once (a ThingOwner takes only a
      thing that has no owner yet). */
  predicate DistinctIDs(mods: seq<Module>) {
    forall i, j :: 0 <= i < j < |mods| ==> mods[i].thingID != mods[j].thingID
  }

  /** The thing SplitOff(1) hands over: a new thing with ID `newID` when the
      stack holds more than one unit, and the stack's own thing otherwise. */
  function SplitOff(unit: Module, stackCount: nat, newID: int): Module {
    if stackCount > 1 then unit.(thingID := newID) else unit
  }

  /** Attaching a thing that is not attached keeps the IDs distinct, and
      the thing was not in the holder before. */
  lemma AttachFresh(mods: seq<Module>, u: Module)
    requires DistinctIDs(mods) && NotAttached(mods, u.thingID)
    ensures DistinctIDs(mods + [u]) && u !in mods
  {
    forall i, j | 0 <= i < j < |mods + [u]| ensures (mods + [u])[i].thingID != (mods + [u])[j].thingID {
      assert (mods + [u])[i] == mods[i];
      if j == |mods| {
        assert mods[i] in mods;
      }
    }
  }

  /** With distinct IDs, removal takes out exactly the given thing, keeps
      every other one, and keeps the IDs distinct. */
  lemma {:induction false} RemoveFirstDistinct(mods: seq<Module>, x: Module)
    requires DistinctIDs(mods)
    ensures DistinctIDs(RemoveFirst(mods, x))
    ensures forall m :: m in RemoveFirst(mods, x) <==> m in mods && m != x
  {
    if mods != [] {
      var a, tail := mods[0], mods[1..];
      assert mods == [a] + tail;
      assert DistinctIDs(tail) by {
        forall i, j | 0 <= i < j < |tail| ensures tail[i].thingID != tail[j].thingID {
          assert tail[i] == mods[i + 1] && tail[j] == mods[j + 1];
        }
      }
      assert NotAttached(tail, a.thingID) by {
        forall m | m in tail ensures m.thingID != a.thingID {
          var j :| 0 <= j < |tail| && tail[j] == m;
          assert mods[j + 1] == m;
        }
      }
      RemoveFirstDistinct(tail, x);
      if a != x {
        var r := RemoveFirst(tail, x);
        assert RemoveFirst(mods, x) == [a] + r;
        forall i, j | 0 <= i < j < |[a] + r| ensures ([a] + r)[i].thingID != ([a] + r)[j].thingID {
          assert ([a] + r)[j] == r[j - 1];
          if i > 0 {
            assert ([a] + r)[i] == r[i - 1];
          } else {
            assert r[j - 1] in r;
          }
        }
      }
    }
  }

  /** Detaching a just-attached thing that was not attached before gives
      the holder back exactly. */
  lemma InstallRemoveRoundTrip(mods: seq<Module>, u: Module)
    requires NotAttached(mods, u.thingID)
    ensures RemoveFirst(mods + [u], u) == mods
  {
    assert u !in mods;
    RemoveFirstAppended(mods, u);
  }

  // ---------------------------------------------------------------------
  // The comp

  /** The save/load phase the serializer is in (Scribe.mode). */
  datatype LoadSaveMode = Inactive | Saving | LoadingVars | ResolvingCrossRefs | PostLoadInit

  /** A stack of module things in the world, with `unit` its own thing;
      attaching splits one unit off, and a count of zero means the last unit
      was handed over whole. */
  class ModuleStack {
    const unit: Module
    var stackCount: nat

    constructor (unit: Module, stackCount: nat)
      ensures this.unit == unit && this.stackCount == stackCount
    {
      this.unit := unit;
      this.stackCount := stackCount;
    }
  }

  class CompModular {
    /** The parent thing's ID, the key of its render cache entry. */
    const parentID: int
    /** The configured slots (Props.slots). */
    const slots: seq<Slot>
    /** The modules' Install and Remove hooks: given the module and the
        holder at the time (None while it is null), whether the transaction
        goes ahead. */
    const install: (Module, Option<seq<Module>>) -> bool
    const remove: (Module, Option<seq<Module>>) -> bool

    /** The attached modules; None while the holder is null. */
    var moduleHolder: Option<seq<Module>>
    var ejectableModules: bool
    /** The cached eject command; None until the menu is first built. */
    var ejectAction: Option<EjectCommand>
    /** The module things placed in the world next to the parent, in order. */
    var placed: seq<Module>
    /** The modules whose PostInit hook was called, in call order. */
    var postInitCalls: seq<Module>

    /** The flag agrees with the cached menu. */
    ghost predicate MenuAgrees()
      reads this
    {
      ejectAction.Some? ==> ejectableModules == OffersEject(ejectAction.value.options)
    }

    /** The flag agrees with the cached menu, and no thing is attached
        twice. */
    ghost predicate Valid()
      reads this
    {
      MenuAgrees() && (moduleHolder.Some? ==> DistinctIDs(moduleHolder.value))
    }

    /** The attached modules, none while the holder is null. */
    function Attached(): seq<Module>
      reads this
    {
      if moduleHolder.Some? then moduleHolder.value else []
    }

    constructor (parentID: int, slots: seq<Slot>,
                 install: (Module, Option<seq<Module>>) -> bool,
                 remove: (Module, Option<seq<Module>>) -> bool)
      ensures Valid()
      ensures this.parentID == parentID && this.slots == slots
      ensures this.install == install && this.remove == remove
      ensures moduleHolder.None? && ejectableModules && ejectAction.None?
      ensures placed == [] && postInitCalls == []
    {
      this.parentID := parentID;
      this.slots := slots;
      this.install := install;
      this.remove := remove;
      moduleHolder := None;
      ejectableModules := true;
      ejectAction := None;
      placed := [];
      postInitCalls := [];
    }

    /** The configured slots that `comp` may be attached to, last declared
        first. The holder is read only for a slot `comp` lists, so a null
        holder is harmless when it lists none. */
    method GetOpenSlots(comp: Module) returns (validSlots: seq<Slot>)
      requires moduleHolder.Some? || !ListsSlot(slots, comp)
      ensures validSlots == OpenSlots(slots, Attached(), comp)
      ensures moduleHolder.None? ==> validSlots == []
    {
      var holder := Attached();
      validSlots := [];
      var i := |slots|;
      while i > 0
        invariant 0 <= i <= |slots|
        invariant validSlots == OpenSlots(slots[i..], holder, comp)
      {
        i := i - 1;
        var slot := slots[i];
        assert slots[i..][1..] == slots[i + 1..];
        if slot.slotID !in comp.slots {
          continue;
        }
        var spaceTaken := 0;
        var invalid := false;
        var j := |holder|;
        assert holder[..j] == holder;
        while j > 0
          invariant 0 <= j <= |holder|
          invariant ScanInvalid(slot, holder, comp, 0) == ScanInvalid(slot, holder[..j], comp, spaceTaken)
        {
          j := j - 1;
          var m := holder[j];
          assert holder[..j + 1][..j] == holder[..j];
          if m.usedSlot == slot.slotID {
            spaceTaken := spaceTaken + m.requiredCapacity;
            if spaceTaken + comp.requiredCapacity > slot.capacity && slot.capacity != Unlimited {
              invalid := true;
              break;
            }
          }
          if SharesExclusion(m, comp) {
            invalid := true;
            break;
          }
        }
        if !invalid {
          validSlots := validSlots + [slot];
        }
      }
      assert slots[0..] == slots;
      if moduleHolder.None? {
        OpenSlotsUnlisted(slots, holder, comp);
      }
    }

    /** The graphics of every attached module, the last attached first. */
    method GetAdditionalGraphics() returns (packages: seq<GraphicPackage>)
      requires moduleHolder.Some?
      ensures packages == AdditionalGraphics(moduleHolder.value)
    {
      var mods := moduleHolder.value;
      packages := [];
      var j := |mods|;
      while j > 0
        invariant 0 <= j <= |mods|
        invariant packages == AdditionalGraphics(mods[j..])
      {
        j := j - 1;
        assert mods[j..][1..] == mods[j + 1..];
        var m := mods[j];
        if m.graphics.Some? {
          packages := packages + m.graphics.value;
        }
      }
      assert mods[0..] == mods;
    }

    /** Rebuilds the eject menu and the flag from the attached modules. */
    method RecacheGizmo()
      requires moduleHolder.Some?
      modifies this`ejectableModules, this`ejectAction
      ensures MenuAgrees()
      ensures ejectAction == Some(EjectCommand(EjectMenu(moduleHolder.value)))
      ensures ejectableModules == AnyEjectable(moduleHolder.value)
    {
      var mods := moduleHolder.value;
      var options: seq<FloatOption> := [];
      ejectableModules := true;
      var validOptions := 0;
      var i := |mods|;
      while i > 0
        invariant 0 <= i <= |mods|
        invariant options == ModuleOptions(mods[i..])
        invariant validOptions == EjectableCount(mods[i..])
      {
        i := i - 1;
        assert mods[i..][1..] == mods[i + 1..];
        var m := mods[i];
        if !m.ejectable {
          options := options + [ModuleOption(m, false)];
          continue;
        }
        options := options + [ModuleOption(m, true)];
        validOptions := validOptions + 1;
      }
      assert mods[0..] == mods;
      if |options| == 0 || validOptions == 0 {
        assert mods == [] ==> EjectableCount(mods) == 0;
        options := options + [NoEjectableOption];
        ejectableModules := false;
      }
      assert options == EjectMenu(mods);
      EjectMenuShape(mods);
      ejectAction := Some(EjectCommand(options));
    }

    /** PostPostMake: a freshly made item gets an empty holder and its menu. */
    method PostPostMake()
      modifies this`moduleHolder, this`ejectableModules, this`ejectAction
      ensures Valid()
      ensures moduleHolder == Some([])
      ensures ejectAction == Some(EjectCommand([NoEjectableOption])) && !ejectableModules
    {
      moduleHolder := Some([]);
      RecacheGizmo();
      assert EjectMenu([]) == [NoEjectableOption];
    }

    /** Splits one unit off `thing` and attaches it, if the module's Install
        hook agrees; otherwise the unit is placed back into the world. A
        stack of more than one unit hands over a new thing, with the ID
        `newID`; a one-unit stack hands over its own thing. */
    method InstallModule(thing: ModuleStack, newID: int, cache: AthenaCache) returns (unit: Module)
      requires Valid()
      requires thing.stackCount >= 1
      requires NotAttached(Attached(), thing.unit.thingID)
      requires thing.stackCount > 1 ==> newID != thing.unit.thingID && NotAttached(Attached(), newID)
      requires moduleHolder.None? ==> !install(SplitOff(thing.unit, thing.stackCount, newID), None)
      modifies this`moduleHolder, this`ejectableModules, this`ejectAction, this`placed
      modifies thing`stackCount, cache`renderCache
      ensures Valid()
      ensures unit == SplitOff(thing.unit, old(thing.stackCount), newID)
      ensures unit !in old(Attached())
      ensures thing.stackCount == old(thing.stackCount) - 1
      ensures !install(unit, old(moduleHolder)) ==>
        moduleHolder == old(moduleHolder) && placed == old(placed) + [unit]
        && ejectAction == old(ejectAction) && ejectableModules == old(ejectableModules)
        && cache.renderCache == old(cache.renderCache)
      ensures install(unit, old(moduleHolder)) ==>
        moduleHolder == Some(old(moduleHolder.value) + [unit]) && placed == old(placed)
        && ejectAction == Some(EjectCommand(EjectMenu(moduleHolder.value)))
        && ejectableModules == AnyEjectable(moduleHolder.value)
        && cache.renderCache == AfterRecache(old(cache.renderCache), parentID)
    {
      unit := SplitOff(thing.unit, thing.stackCount, newID);
      thing.stackCount := thing.stackCount - 1;
      AttachFresh(Attached(), unit);
      if !install(unit, moduleHolder) {
        placed := placed + [unit];
        return;
      }
      moduleHolder := Some(moduleHolder.value + [unit]);
      RecacheGizmo();
      cache.RecacheRenderables(parentID);
    }

    /** Detaches `thing`, if its Remove hook agrees, and drops it next to
        the parent. */
    method RemoveModule(thing: Module, cache: AthenaCache)
      requires Valid()
      requires moduleHolder.None? ==> !remove(thing, None)
      modifies this`moduleHolder, this`ejectableModules, this`ejectAction, this`placed
      modifies cache`renderCache
      ensures Valid()
      ensures !remove(thing, old(moduleHolder)) ==>
        moduleHolder == old(moduleHolder) && placed == old(placed)
        && ejectAction == old(ejectAction) && ejectableModules == old(ejectableModules)
        && cache.renderCache == old(cache.renderCache)
      ensures remove(thing, old(moduleHolder)) ==>
        moduleHolder == Some(RemoveFirst(old(moduleHolder.value), thing))
        && (forall m :: m in moduleHolder.value <==> m in old(moduleHolder.value) && m != thing)
        && placed == old(placed) + (if thing in old(moduleHolder.value) then [thing] else [])
        && ejectAction == Some(EjectCommand(EjectMenu(moduleHolder.value)))
        && ejectableModules == AnyEjectable(moduleHolder.value)
        && cache.renderCache == AfterRecache(old(cache.renderCache), parentID)
    {
      if !remove(thing, moduleHolder) {
        return;
      }
      RemoveFirstDistinct(moduleHolder.value, thing);
      if thing in moduleHolder.value {
        moduleHolder := Some(RemoveFirst(moduleHolder.value, thing));
        placed := placed + [thing];
      }
      RecacheGizmo();
      cache.RecacheRenderables(parentID);
    }

    /** Save/load handling. `scribed` is what Scribe_Deep.Look leaves in the
        holder in this phase (the serializer is not modelled). */
    method PostExposeData(mode: LoadSaveMode, scribed: Option<seq<Module>>, cache: AthenaCache)
      requires Valid()
      requires scribed.Some? ==> DistinctIDs(scribed.value)
      modifies this`moduleHolder, this`postInitCalls, cache`renderCache
      ensures Valid()
      ensures mode == ResolvingCrossRefs ==>
        moduleHolder == scribed && postInitCalls == old(postInitCalls)
        && cache.renderCache == AfterRecache(old(cache.renderCache), parentID)
      ensures mode == LoadingVars ==>
        moduleHolder == scribed && postInitCalls == old(postInitCalls)
        && cache.renderCache == old(cache.renderCache)
      ensures mode != ResolvingCrossRefs && mode != LoadingVars && scribed.None? ==>
        moduleHolder == Some([]) && postInitCalls == old(postInitCalls)
        && cache.renderCache == old(cache.renderCache)
      ensures mode != ResolvingCrossRefs && mode != LoadingVars && scribed.Some? ==>
        moduleHolder == scribed && postInitCalls == old(postInitCalls) + Reverse(scribed.value)
        && cache.renderCache == old(cache.renderCache)
    {
      moduleHolder := scribed;
      if mode == ResolvingCrossRefs {
        cache.RecacheRenderables(parentID);
        return;
      }
      if mode == LoadingVars {
        return;
      }
      if moduleHolder.None? {
        moduleHolder := Some([]);
        return;
      }
      var mods := moduleHolder.value;
      var i := |mods|;
      while i > 0
        invariant 0 <= i <= |mods|
        invariant postInitCalls == old(postInitCalls) + Reverse(mods[i..])
        invariant moduleHolder == scribed && cache.renderCache == old(cache.renderCache)
      {
        i := i - 1;
        assert mods[i..][1..] == mods[i + 1..];
        postInitCalls := postInitCalls + [mods[i]];
      }
      assert mods[0..] == mods;
    }

    /** The gizmos shown for the worn item: the eject command, built on
        first use, and only while some module can be ejected. */
    method CompGetWornGizmosExtra() returns (gizmos: seq<EjectCommand>)
      requires Valid()
      requires ejectAction.None? ==> moduleHolder.Some?
      modifies this`ejectableModules, this`ejectAction
      ensures Valid() && ejectAction.Some?
      ensures old(ejectAction).None? ==>
        ejectAction == Some(EjectCommand(EjectMenu(moduleHolder.value)))
        && ejectableModules == AnyEjectable(moduleHolder.value)
      ensures old(ejectAction).Some? ==>
        ejectAction == old(ejectAction) && ejectableModules == old(ejectableModules)
      ensures gizmos == (if ejectableModules then [ejectAction.value] else [])
      ensures gizmos == (if OffersEject(ejectAction.value.options) then [ejectAction.value] else [])
    {
      if ejectAction.None? {
        RecacheGizmo();
      }
      if !ejectableModules {
        return [];
      }
      return [ejectAction.value];
    }

    /** The install options offered to a pawn with `inventory`: one per
        inventory item with both module comps and per slot open to it. */
    method ItemFloatMenuOptions(inventory: seq<InventoryItem>) returns (options: seq<InstallOption>)
      requires moduleHolder.Some? || !InventoryListsSlot(inventory, slots)
      ensures options == InstallOptions(inventory, slots, Attached())
      ensures moduleHolder.None? ==> options == []
    {
      options := [];
      var i := |inventory|;
      while i > 0
        invariant 0 <= i <= |inventory|
        invariant options == InstallOptions(inventory[i..], slots, Attached())
      {
        i := i - 1;
        assert inventory[i..][1..] == inventory[i + 1..];
        var item := inventory[i];
        if !item.usable || item.moduleComp.None? {
          continue;
        }
        var open := GetOpenSlots(item.moduleComp.value);
        var k := |open|;
        ghost var before := options;
        while k > 0
          invariant 0 <= k <= |open|
          invariant options == before + SlotOptions(item, Reverse(open[k..]))
        {
          k := k - 1;
          assert open[k..][1..] == open[k + 1..];
          options := options + [InstallOption(item, open[k])];
          assert (Reverse(open[k + 1..]) + [open[k]])[..|open| - k - 1] == Reverse(open[k + 1..]);
        }
        assert open[0..] == open;
      }
      assert inventory[0..] == inventory;
      if moduleHolder.None? {
        InstallOptionsUnlisted(inventory, slots, []);
      }
    }
  }
}
