/** The three projectile patches: each looks the projectile up in the
    projectile cache and calls the hooks of the modules registered for it,
    the last registered first. The hook bodies are parameters. */
module ProjectilePatches {
  import opened Wrappers
  import opened Seqs

  /** A registered IProjectile, by identity. */
  datatype ProjectileMod = ProjectileMod(id: int)

  /** The value left after each mod of `order`, in turn, passed `v` through
      `hook`: a left fold, seeded with `v`. */
  function ThreadHooks<A>(hook: (ProjectileMod, A, bool) -> bool, arg: A, order: seq<ProjectileMod>, v: bool): bool
    decreases |order|
  {
    if order == [] then v
    else hook(order[|order| - 1], arg, ThreadHooks(hook, arg, order[..|order| - 1], v))
  }

  /** Running two groups of hooks one after the other threads the value of
      the first group into the second. */
  lemma {:induction false} ThreadHooksAppend<A>(hook: (ProjectileMod, A, bool) -> bool, arg: A,
                                               first: seq<ProjectileMod>, second: seq<ProjectileMod>, v: bool)
    ensures ThreadHooks(hook, arg, first + second, v)
         == ThreadHooks(hook, arg, second, ThreadHooks(hook, arg, first, v))
  {
    if second == [] {
      assert first + second == first;
    } else {
      var second' := second[..|second| - 1];
      assert (first + second)[..|first + second| - 1] == first + second';
      ThreadHooksAppend(hook, arg, first, second', v);
    }
  }

  /** A value that every hook of `order` leaves as it is comes out
      unchanged; the patches promise nothing more (a hook may turn either
      value into the other). */
  lemma {:induction false} ThreadHooksKeeps<A>(hook: (ProjectileMod, A, bool) -> bool, arg: A,
                                              order: seq<ProjectileMod>, b: bool)
    requires forall m :: m in order ==> hook(m, arg, b) == b
    ensures ThreadHooks(hook, arg, order, b) == b
  {
    if order != [] {
      assert order[|order| - 1] in order;
      ThreadHooksKeeps(hook, arg, order[..|order| - 1], b);
    }
  }

  /** A single hook that answers true turns the engine's false into true:
      the result is not a conjunction. */
  lemma HookCanOverrideFalse(thing: int)
    ensures ThreadHooks((m: ProjectileMod, t: int, v: bool) => true, thing, [ProjectileMod(0)], false)
  {
  }

  /** Postfix of Projectile.Launch: the Launch hooks that were called, in
      call order (their arguments are passed through unchanged and are not
      modelled). */
  method PostLaunch(projectileCache: map<int, seq<ProjectileMod>>, projectileID: int)
    returns (calls: seq<ProjectileMod>)
    ensures projectileID !in projectileCache ==> calls == []
    ensures projectileID in projectileCache ==> calls == Reverse(projectileCache[projectileID])
  {
    calls := [];
    if projectileID !in projectileCache {
      return;
    }
    var mods := projectileCache[projectileID];
    var i := |mods|;
    while i > 0
      invariant 0 <= i <= |mods|
      invariant calls == Reverse(mods[i..])
    {
      i := i - 1;
      assert mods[i..][1..] == mods[i + 1..];
      calls := calls + [mods[i]];
    }
    assert mods[0..] == mods;
  }

  /** Postfix of Projectile.CanHit: `result` is the engine's answer, and
      every registered CanHit hook may change it. */
  method PostCanHit(projectileCache: map<int, seq<ProjectileMod>>, projectileID: int, thing: int,
                    canHit: (ProjectileMod, int, bool) -> bool, result: bool)
    returns (newResult: bool, calls: seq<ProjectileMod>)
    ensures projectileID !in projectileCache ==> newResult == result && calls == []
    ensures projectileID in projectileCache ==>
      calls == Reverse(projectileCache[projectileID])
      && newResult == ThreadHooks(canHit, thing, Reverse(projectileCache[projectileID]), result)
  {
    newResult, calls := result, [];
    if projectileID !in projectileCache {
      return;
    }
    var mods := projectileCache[projectileID];
    var i := |mods|;
    while i > 0
      invariant 0 <= i <= |mods|
      invariant calls == Reverse(mods[i..])
      invariant newResult == ThreadHooks(canHit, thing, calls, result)
    {
      i := i - 1;
      assert mods[i..][1..] == mods[i + 1..];
      newResult := canHit(mods[i], thing, newResult);
      assert (calls + [mods[i]])[..|calls|] == calls;
      calls := calls + [mods[i]];
    }
    assert mods[0..] == mods;
  }

  /** Prefix of Projectile.Impact: every registered Impact hook may change
      `blockedByShield`. `hitThing` is None when nothing was hit. */
  method PreImpact(projectileCache: map<int, seq<ProjectileMod>>, projectileID: int, hitThing: Option<int>,
                   impact: (ProjectileMod, Option<int>, bool) -> bool, blockedByShield: bool)
    returns (newBlocked: bool, calls: seq<ProjectileMod>)
    ensures projectileID !in projectileCache ==> newBlocked == blockedByShield && calls == []
    ensures projectileID in projectileCache ==>
      calls == Reverse(projectileCache[projectileID])
      && newBlocked == ThreadHooks(impact, hitThing, Reverse(projectileCache[projectileID]), blockedByShield)
  {
    newBlocked, calls := blockedByShield, [];
    if projectileID in projectileCache {
      var mods := projectileCache[projectileID];
      var i := |mods|;
      while i > 0
        invariant 0 <= i <= |mods|
        invariant calls == Reverse(mods[i..])
        invariant newBlocked == ThreadHooks(impact, hitThing, calls, blockedByShield)
      {
        i := i - 1;
        assert mods[i..][1..] == mods[i + 1..];
        newBlocked := impact(mods[i], hitThing, newBlocked);
        assert (calls + [mods[i]])[..|calls|] == calls;
        calls := calls + [mods[i]];
      }
      assert mods[0..] == mods;
    }
  }
}
