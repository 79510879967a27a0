/**
 * The camera registry build: each crawled place label is resolved, and
 * every label that resolves contributes its longitude paired with the feed
 * URL at the same index; the others are dropped silently.
 * The facts about the filter hold for any resolver; `Locate` is the one the
 * program uses, `get_coords` over the gazetteer.
 */
module Registry {
  import opened Wrappers
  import opened Gazetteer
  import opened Resolver

  /** One camera: the longitude of its place and the URL of its feed (`[coords[1], url]`). */
  datatype CameraEntry = CameraEntry(lon: real, url: string)

  /** The resolver the registry build uses: `get_coords(place, cities)`. */
  function Locate(db: map<string, Coords>, lookup: string -> Option<string>): string -> Option<Coords>
  {
    place => GetCoords(place, db, lookup)
  }

  /** The entry contributed by label `i`, if its place resolves. */
  function EntryAt(places: seq<string>, urls: seq<string>, i: nat, resolve: string -> Option<Coords>): seq<CameraEntry>
    requires i < |places| <= |urls|
  {
    match resolve(places[i])
    case Some(c) => [CameraEntry(c.lon, urls[i])]
    case None => []
  }

  /** The registry built from the labels `places` and the URLs beside them. */
  function RegistryOf(places: seq<string>, urls: seq<string>, resolve: string -> Option<Coords>): (cams: seq<CameraEntry>)
    requires |places| <= |urls|
    ensures |cams| <= |places|
  {
    if places == [] then []
    else RegistryOf(places[..|places| - 1], urls, resolve) + EntryAt(places, urls, |places| - 1, resolve)
  }

  /** The indices of the labels that resolve: in increasing order, and all of them. */
  function ResolvedIndices(places: seq<string>, resolve: string -> Option<Coords>): (idx: seq<nat>)
    ensures forall k :: 0 <= k < |idx| ==> idx[k] < |places| && resolve(places[idx[k]]).Some?
    ensures forall k1, k2 :: 0 <= k1 < k2 < |idx| ==> idx[k1] < idx[k2]
    ensures forall i :: 0 <= i < |places| && resolve(places[i]).Some? ==> i in idx
  {
    if places == [] then []
    else
      var n := |places| - 1;
      var before := ResolvedIndices(places[..n], resolve);
      assert forall k :: 0 <= k < |before| ==> places[..n][before[k]] == places[before[k]];
      if resolve(places[n]).Some? then before + [n] else before
  }

  /**
   * The registry is the order-preserving filter of the labels that resolve:
   * entry `k` comes from the `k`-th resolving label, with that label's
   * longitude and the URL at the label's own index.
   */
  lemma {:induction false} RegistryIsFilter(places: seq<string>, urls: seq<string>, resolve: string -> Option<Coords>)
    requires |places| <= |urls|
    ensures var cams, idx := RegistryOf(places, urls, resolve), ResolvedIndices(places, resolve);
      |cams| == |idx| &&
      forall k :: 0 <= k < |cams| ==> cams[k] == CameraEntry(resolve(places[idx[k]]).value.lon, urls[idx[k]])
  {
    if places != [] {
      var n := |places| - 1;
      RegistryIsFilter(places[..n], urls, resolve);
      var camsBefore, before := RegistryOf(places[..n], urls, resolve), ResolvedIndices(places[..n], resolve);
      var cams, idx := RegistryOf(places, urls, resolve), ResolvedIndices(places, resolve);
      assert cams == camsBefore + EntryAt(places, urls, n, resolve);
      assert idx == if resolve(places[n]).Some? then before + [n] else before;
      forall k | 0 <= k < |camsBefore|
        ensures cams[k] == CameraEntry(resolve(places[idx[k]]).value.lon, urls[idx[k]])
      {
        assert places[..n][before[k]] == places[before[k]];
      }
    }
  }

  /** The indices of the labels in `places` that resolve, as a set. */
  ghost function Resolving(places: seq<string>, resolve: string -> Option<Coords>): set<int> {
    set i | 0 <= i < |places| && resolve(places[i]).Some?
  }

  /** One more label adds its own index to the resolving set when it resolves, and nothing else. */
  lemma ResolvingStep(places: seq<string>, resolve: string -> Option<Coords>)
    requires places != []
    ensures var n := |places| - 1;
      Resolving(places, resolve) ==
        Resolving(places[..n], resolve) + (if resolve(places[n]).Some? then {n} else {})
    ensures |places| - 1 !in Resolving(places[..|places| - 1], resolve)
  {
    var n := |places| - 1;
    assert forall i :: 0 <= i < n ==> places[..n][i] == places[i];
  }

  /** The registry has exactly one entry per label that resolves. */
  lemma {:induction false} RegistrySize(places: seq<string>, urls: seq<string>, resolve: string -> Option<Coords>)
    requires |places| <= |urls|
    ensures |RegistryOf(places, urls, resolve)| == |Resolving(places, resolve)|
  {
    if places != [] {
      var n := |places| - 1;
      RegistrySize(places[..n], urls, resolve);
      ResolvingStep(places, resolve);
    }
  }

  /** Building over one more label appends that label's entry, if any. */
  lemma RegistryOneMore(places: seq<string>, urls: seq<string>, i: nat, resolve: string -> Option<Coords>)
    requires i < |places| <= |urls|
    ensures RegistryOf(places[..i + 1], urls, resolve) == RegistryOf(places[..i], urls, resolve) + EntryAt(places, urls, i, resolve)
  {
    assert places[..i + 1][..i] == places[..i];
  }

  /** The loop over the crawled labels that fills `cam_details`. */
  method BuildRegistry(places: seq<string>, urls: seq<string>, db: map<string, Coords>, lookup: string -> Option<string>)
    returns (cams: seq<CameraEntry>)
    requires |places| <= |urls|
    ensures cams == RegistryOf(places, urls, Locate(db, lookup))
  {
    var locate := Locate(db, lookup);
    cams := [];
    var i := 0;
    while i < |places|
      invariant 0 <= i <= |places|
      invariant cams == RegistryOf(places[..i], urls, locate)
    {
      var coords := locate(places[i]);
      RegistryOneMore(places, urls, i, locate);
      if coords.Some? {
        cams := cams + [CameraEntry(coords.value.lon, urls[i])];
      }
      i := i + 1;
    }
    assert places[..i] == places;
  }
}
