/** The process-wide render cache of the framework, passed around as an
    explicit object. Each host thing's ID maps to the renderables drawn for
    it; what RecacheGraphicData recomputes is not modelled, only how many
    times each renderable was asked to recompute. */
module Cache {

  datatype Renderable = Renderable(id: int, recached: nat)

  /** A renderable after one RecacheGraphicData call. */
  function Recache(r: Renderable): Renderable {
    r.(recached := r.recached + 1)
  }

  function RecacheAll(rs: seq<Renderable>): (r: seq<Renderable>)
    ensures |r| == |rs|
  {
    if rs == [] then [] else [Recache(rs[0])] + RecacheAll(rs[1..])
  }

  /** Every renderable of the list is recached exactly once, and nothing
      else about it changes. */
  lemma {:induction false} RecacheAllAt(rs: seq<Renderable>, k: nat)
    requires k < |rs|
    ensures RecacheAll(rs)[k].id == rs[k].id
    ensures RecacheAll(rs)[k].recached == rs[k].recached + 1
  {
    if k > 0 {
      RecacheAllAt(rs[1..], k - 1);
    } else if |rs| > 1 {
      RecacheAllAt(rs[1..], 0);
    }
  }

  /** The render cache after the renderables cached under `hostID` were
      recached; a missing key leaves the cache as it is. */
  function AfterRecache(cache: map<int, seq<Renderable>>, hostID: int): map<int, seq<Renderable>> {
    if hostID in cache then cache[hostID := RecacheAll(cache[hostID])] else cache
  }

  lemma AfterRecacheEffect(cache: map<int, seq<Renderable>>, hostID: int)
    ensures AfterRecache(cache, hostID).Keys == cache.Keys
    ensures forall id :: id in cache && id != hostID ==> AfterRecache(cache, hostID)[id] == cache[id]
    ensures hostID in cache ==>
      |AfterRecache(cache, hostID)[hostID]| == |cache[hostID]| &&
      forall k :: 0 <= k < |cache[hostID]| ==>
        AfterRecache(cache, hostID)[hostID][k] == Recache(cache[hostID][k])
  {
    if hostID in cache {
      forall k | 0 <= k < |cache[hostID]|
        ensures RecacheAll(cache[hostID])[k] == Recache(cache[hostID][k])
      {
        RecacheAllAt(cache[hostID], k);
      }
    }
  }

  class AthenaCache {
    var renderCache: map<int, seq<Renderable>>

    constructor ()
      ensures renderCache == map[]
    {
      renderCache := map[];
    }

    /** The reverse loop that calls RecacheGraphicData on every renderable
        registered for `hostID`. */
    method RecacheRenderables(hostID: int)
      modifies this`renderCache
      ensures renderCache == AfterRecache(old(renderCache), hostID)
    {
      if hostID in renderCache {
        var mods := renderCache[hostID];
        var done := mods;
        var i := |mods|;
        while i > 0
          invariant 0 <= i <= |mods| && |done| == |mods|
          invariant forall k :: 0 <= k < i ==> done[k] == mods[k]
          invariant forall k :: i <= k < |mods| ==> done[k] == Recache(mods[k])
        {
          i := i - 1;
          done := done[i := Recache(done[i])];
        }
        forall k | 0 <= k < |mods|
          ensures done[k] == RecacheAll(mods)[k]
        {
          RecacheAllAt(mods, k);
        }
        assert done == RecacheAll(mods);
        renderCache := renderCache[hostID := done];
      }
    }
  }
}
