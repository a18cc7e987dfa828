/**
 * The map page's data helpers (`js/utils/maputils.js`): Overpass data to
 * GeoJSON building rings, the star-rating text, stripping the emoji from an
 * event title, resolving a location text to a building, the marker offset
 * table, and the ranked search over friends, buildings and locations.
 */
module MapUtils {
  import opened Wrappers
  import opened Text
  import opened Entities

  // ---------------------------------------------------------------------------
  // Overpass to GeoJSON
  // ---------------------------------------------------------------------------

  /** A node's stored `[lat, lon]` pair. Coordinates are only compared for equality. */
  datatype LatLon = LatLon(lat: int, lon: int)

  /** A GeoJSON position, `[lon, lat]`. */
  datatype Position = Position(lon: int, lat: int)

  /** An element of an Overpass response; `nodes` is absent when the way carries none. */
  datatype OverpassElement =
    | NodeElement(id: int, lat: int, lon: int)
    | WayElement(id: int, nodes: Option<seq<int>>, tags: map<string, string>)
    | OtherElement

  /** A way kept by the first pass: its node references and its tags. */
  datatype Way = Way(nodes: seq<int>, tags: map<string, string>)

  /** A polygon feature: its one ring and its properties. */
  datatype Feature = Feature(ring: seq<Position>, properties: map<string, string>)

  /** The `nodes` dictionary after the elements: a later node with the same id overwrites. */
  function NodeTable(elements: seq<OverpassElement>): map<int, LatLon>
    decreases |elements|
  {
    if |elements| == 0 then map[]
    else
      var table, e := NodeTable(elements[..|elements| - 1]), elements[|elements| - 1];
      if e.NodeElement? then table[e.id := LatLon(e.lat, e.lon)] else table
  }

  /** The `ways` list after the elements: every way that carries a node list, in order. */
  function WaysOf(elements: seq<OverpassElement>): seq<Way>
    decreases |elements|
  {
    if |elements| == 0 then []
    else
      var ways, e := WaysOf(elements[..|elements| - 1]), elements[|elements| - 1];
      if e.WayElement? && e.nodes.Some? then ways + [Way(e.nodes.value, e.tags)] else ways
  }

  function PositionOf(node: LatLon): Position {
    Position(node.lon, node.lat)
  }

  /** The positions of the referenced nodes the table knows, in order; unknown ids are dropped. */
  function Resolve(ids: seq<int>, table: map<int, LatLon>): seq<Position>
    decreases |ids|
  {
    if |ids| == 0 then []
    else (if ids[0] in table then [PositionOf(table[ids[0]])] else []) + Resolve(ids[1..], table)
  }

  /** A ring whose last position equals its first. */
  predicate ClosedRing(ring: seq<Position>) {
    |ring| >= 3 && ring[0] == ring[|ring| - 1]
  }

  /** Appends the first position unless the last one already equals it. */
  function CloseRing(coords: seq<Position>): seq<Position>
    requires |coords| > 0
  {
    if coords[0] != coords[|coords| - 1] then coords + [coords[0]] else coords
  }

  /** `tags?.[key] || fallback`. */
  function TagOr(tags: map<string, string>, key: string, fallback: string): string {
    if key in tags && tags[key] != "" then tags[key] else fallback
  }

  /** `{ name: ..., building: ..., ...tags }`: the defaults, then every tag on top. */
  function Properties(tags: map<string, string>): map<string, string> {
    map["name" := TagOr(tags, "name", "university building"), "building" := TagOr(tags, "building", "yes")] + tags
  }

  /** The feature a way yields: none with fewer than 3 references or fewer than 3 known nodes. */
  function WayFeature(way: Way, table: map<int, LatLon>): Option<Feature> {
    if |way.nodes| < 3 then None
    else
      var coords := Resolve(way.nodes, table);
      if |coords| < 3 then None else Some(Feature(CloseRing(coords), Properties(way.tags)))
  }

  /** The features of the ways, in order. */
  function Features(ways: seq<Way>, table: map<int, LatLon>): seq<Feature>
    decreases |ways|
  {
    if |ways| == 0 then []
    else
      var f := WayFeature(ways[|ways| - 1], table);
      Features(ways[..|ways| - 1], table) + (if f.Some? then [f.value] else [])
  }

  /**
   * The features of a response reduced to its `elements` field: none when the
   * response is missing or `elements` is not an array.
   */
  function GeoJson(data: Option<MaybeList<OverpassElement>>): (r: seq<Feature>)
    ensures forall f :: f in r ==> ClosedRing(f.ring)
  {
    if data.None? || data.value.NotList? then []
    else
      FeaturesClosed(WaysOf(data.value.items), NodeTable(data.value.items));
      Features(WaysOf(data.value.items), NodeTable(data.value.items))
  }

  /**
   * `convertOverpassToGeoJson`, reduced to the feature list of the collection:
   * one pass fills the node dictionary and the way list, a second turns each
   * way into a closed ring.
   */
  method ConvertOverpassToGeoJson(data: Option<MaybeList<OverpassElement>>) returns (features: seq<Feature>)
    ensures features == GeoJson(data)
    ensures data.None? || data.value.NotList? ==> features == []
    ensures forall f :: f in features ==> ClosedRing(f.ring)
  {
    if data.None? || data.value.NotList? {
      return [];
    }
    var nodes, ways := ScanElements(data.value.items);
    features := BuildFeatures(ways, nodes);
  }

  /** The first pass: the node dictionary and the ways that carry node lists. */
  method ScanElements(elements: seq<OverpassElement>) returns (nodes: map<int, LatLon>, ways: seq<Way>)
    ensures nodes == NodeTable(elements) && ways == WaysOf(elements)
  {
    nodes, ways := map[], [];
    var i := 0;
    while i < |elements|
      invariant 0 <= i <= |elements|
      invariant nodes == NodeTable(elements[..i]) && ways == WaysOf(elements[..i])
    {
      var e := elements[i];
      if e.NodeElement? {
        nodes := nodes[e.id := LatLon(e.lat, e.lon)];
      } else if e.WayElement? && e.nodes.Some? {
        ways := ways + [Way(e.nodes.value, e.tags)];
      }
      assert elements[..i + 1][..i] == elements[..i];
      i := i + 1;
    }
    assert elements[..i] == elements;
  }

  /** The second pass: one closed ring per way with enough known nodes. */
  method BuildFeatures(ways: seq<Way>, nodes: map<int, LatLon>) returns (features: seq<Feature>)
    ensures features == Features(ways, nodes)
    ensures forall f :: f in features ==> ClosedRing(f.ring)
  {
    features := [];
    var k := 0;
    while k < |ways|
      invariant 0 <= k <= |ways|
      invariant features == Features(ways[..k], nodes)
    {
      var way := ways[k];
      if |way.nodes| >= 3 {
        var coordinates := Resolve(way.nodes, nodes);
        if |coordinates| >= 3 {
          if coordinates[0] != coordinates[|coordinates| - 1] {
            coordinates := coordinates + [coordinates[0]];
          }
          features := features + [Feature(coordinates, Properties(way.tags))];
        }
      }
      assert ways[..k + 1][..k] == ways[..k];
      k := k + 1;
    }
    assert ways[..k] == ways;
    FeaturesClosed(ways, nodes);
  }

  /** Every emitted ring has at least three positions and ends where it starts. */
  lemma {:induction false} FeaturesClosed(ways: seq<Way>, table: map<int, LatLon>)
    ensures forall f :: f in Features(ways, table) ==> ClosedRing(f.ring)
    decreases |ways|
  {
    if |ways| > 0 {
      FeaturesClosed(ways[..|ways| - 1], table);
    }
  }

  /**
   * A way yields a feature exactly when it has at least 3 references of which
   * at least 3 resolve; the ring is the resolved positions, with the first
   * appended only when the last differs from it.
   */
  lemma WayFeatureShape(way: Way, table: map<int, LatLon>)
    ensures var f, coords := WayFeature(way, table), Resolve(way.nodes, table);
      (f.Some? <==> |way.nodes| >= 3 && |coords| >= 3)
      && (f.Some? ==> f.value.ring[..|coords|] == coords
                      && (|f.value.ring| == |coords| <==> coords[0] == coords[|coords| - 1])
                      && |f.value.ring| <= |coords| + 1)
  {
  }

  /** With every referenced node known, the ring's positions are those nodes' `[lon, lat]`, in order. */
  lemma {:induction false} ResolveAllKnown(ids: seq<int>, table: map<int, LatLon>)
    requires forall k :: 0 <= k < |ids| ==> ids[k] in table
    ensures |Resolve(ids, table)| == |ids|
    ensures forall k :: 0 <= k < |ids| ==> Resolve(ids, table)[k] == PositionOf(table[ids[k]])
    decreases |ids|
  {
    if |ids| > 0 {
      ResolveAllKnown(ids[1..], table);
    }
  }

  /** Every resolved position comes from a referenced node the table knows. */
  lemma {:induction false} ResolveFromTable(ids: seq<int>, table: map<int, LatLon>)
    ensures |Resolve(ids, table)| <= |ids|
    ensures forall p :: p in Resolve(ids, table) ==>
      exists k :: 0 <= k < |ids| && ids[k] in table && p == PositionOf(table[ids[k]])
    decreases |ids|
  {
    if |ids| > 0 {
      ResolveFromTable(ids[1..], table);
      forall p | p in Resolve(ids, table)
        ensures exists k :: 0 <= k < |ids| && ids[k] in table && p == PositionOf(table[ids[k]])
      {
        if !(ids[0] in table && p == PositionOf(table[ids[0]])) {
          assert p in Resolve(ids[1..], table);
          var k :| 0 <= k < |ids[1..]| && ids[1..][k] in table && p == PositionOf(table[ids[1..][k]]);
          assert ids[k + 1] == ids[1..][k];
        }
      }
    }
  }

  /**
   * The node table holds an id exactly when some node element has it, and the
   * value is the one of the last such node.
   */
  lemma {:induction false} NodeTableLookup(elements: seq<OverpassElement>, k: nat)
    requires k < |elements| && elements[k].NodeElement?
    requires forall j :: k < j < |elements| ==> !(elements[j].NodeElement? && elements[j].id == elements[k].id)
    ensures var e := elements[k];
      e.id in NodeTable(elements) && NodeTable(elements)[e.id] == LatLon(e.lat, e.lon)
    decreases |elements|
  {
    if k < |elements| - 1 {
      NodeTableLookup(elements[..|elements| - 1], k);
    }
  }

  /** An id no node element carries is not in the table. */
  lemma {:induction false} NodeTableUnknown(elements: seq<OverpassElement>, id: int)
    requires forall j :: 0 <= j < |elements| ==> !(elements[j].NodeElement? && elements[j].id == id)
    ensures id !in NodeTable(elements)
    decreases |elements|
  {
    if |elements| > 0 {
      NodeTableUnknown(elements[..|elements| - 1], id);
    }
  }

  /**
   * The properties hold every tag as given (a tag overrides its default, even
   * when empty); a missing name or building tag takes its default.
   */
  lemma PropertiesOfTags(tags: map<string, string>)
    ensures var p := Properties(tags);
      "name" in p && "building" in p
      && (forall key :: key in tags ==> key in p && p[key] == tags[key])
      && ("name" !in tags ==> p["name"] == "university building")
      && ("building" !in tags ==> p["building"] == "yes")
      && p.Keys == tags.Keys + {"name", "building"}
  {
  }

  // ---------------------------------------------------------------------------
  // Star rating
  // ---------------------------------------------------------------------------

  const FullStar: char := '\U{2605}'
  const EmptyStar: char := '\U{2606}'

  /** `n` copies of a character. */
  function Repeat(c: char, n: nat): (r: string)
    ensures |r| == n && forall i :: 0 <= i < n ==> r[i] == c
  {
    seq(n, _ => c)
  }

  /** `s.slice(0, end)`: a negative end counts back from the end of `s`. */
  function SliceTo(s: string, end: int): (r: string)
    ensures |r| <= |s| && r == s[..|r|]
  {
    if end >= |s| then s
    else if end >= 0 then s[..end]
    else if |s| + end > 0 then s[..|s| + end]
    else ""
  }

  /**
   * `buildRatingStars`: full stars for the whole part, empty stars for the
   * rest of five. Whatever the rating, the text is stars only, at most ten,
   * with every full star before every empty one.
   */
  function BuildRatingStars(rating: real): (r: string)
    ensures |r| <= 10
    ensures forall i :: 0 <= i < |r| ==> r[i] == FullStar || r[i] == EmptyStar
    ensures forall i, j :: 0 <= i < j < |r| && r[j] == FullStar ==> r[i] == FullStar
  {
    var full := rating.Floor;
    SliceTo(Repeat(FullStar, 5), full) + SliceTo(Repeat(EmptyStar, 5), 5 - full)
  }

  /**
   * For a rating from 0 up to (not including) 6 the text is five stars: as
   * many full stars as the rating's whole part (at most five), the rest empty.
   */
  lemma RatingStarsInRange(rating: real)
    requires 0.0 <= rating < 6.0
    ensures var full: nat := if rating.Floor < 5 then rating.Floor else 5;
      BuildRatingStars(rating) == Repeat(FullStar, full) + Repeat(EmptyStar, 5 - full)
  {
    var full := rating.Floor;
    assert 0 <= full <= 5;
  }

  /** The fraction never shows: a rating reads like its whole part. */
  lemma RatingStarsIgnoreFraction(rating: real)
    ensures BuildRatingStars(rating) == BuildRatingStars(rating.Floor as real)
  {
    assert (rating.Floor as real).Floor == rating.Floor;
  }

  // ---------------------------------------------------------------------------
  // Event titles
  // ---------------------------------------------------------------------------

  /** The length of the leading run of non-white-space characters. */
  function LeadingWordLength(s: string): (k: nat)
    ensures k <= |s| && (forall i :: 0 <= i < k ==> !IsSpace(s[i])) && (k < |s| ==> IsSpace(s[k]))
    decreases |s|
  {
    if |s| == 0 || IsSpace(s[0]) then 0 else 1 + LeadingWordLength(s[1..])
  }

  /**
   * `stripEmojiFromTitle`: "" for a non-string; otherwise a leading word
   * followed by white space is dropped with that white space, then the rest
   * is trimmed.
   */
  function StripEmojiFromTitle(title: Option<string>): (r: string)
    ensures r == [] || (!IsSpace(r[0]) && !IsSpace(r[|r| - 1]))
    ensures forall c :: c in r ==> title.Some? && c in title.value
  {
    if title.None? then ""
    else
      var s := title.value;
      var k := LeadingWordLength(s);
      if 0 < k < |s| then Trim(TrimStart(s[k..])) else Trim(s)
  }

  /** A word followed by white space and more text: the word is exactly the leading run. */
  lemma {:induction false} LeadingWordOf(word: string, rest: string)
    requires forall i :: 0 <= i < |word| ==> !IsSpace(word[i])
    requires |rest| > 0 && IsSpace(rest[0])
    ensures LeadingWordLength(word + rest) == |word|
    decreases |word|
  {
    if |word| > 0 {
      assert (word + rest)[1..] == word[1..] + rest;
      LeadingWordOf(word[1..], rest);
    } else {
      assert word + rest == rest;
    }
  }

  /**
   * Stripping a title made as emoji, space and name gives the name back, for
   * an emoji without white space and a name with none at either end.
   */
  lemma StripSampleTitle(emoji: string, name: string)
    requires |emoji| > 0 && forall i :: 0 <= i < |emoji| ==> !IsSpace(emoji[i])
    requires Trim(name) == name
    ensures StripEmojiFromTitle(Some(emoji + " " + name)) == name
  {
    var s := emoji + " " + name;
    LeadingWordOf(emoji, " " + name);
    assert s == emoji + (" " + name);
    assert s[|emoji|..] == " " + name;
    assert (" " + name)[1..] == name;
    var t := TrimStart(name);
    assert TrimStart(t) == t;
    assert Trim(t) == TrimEnd(TrimStart(t));
  }

  /**
   * The general rule: a leading run without white space, followed by white
   * space, is dropped, and what follows is trimmed at both ends, however
   * many spaces separate or follow it.
   */
  lemma StripLeadingWord(word: string, rest: string)
    requires |word| > 0 && forall i :: 0 <= i < |word| ==> !IsSpace(word[i])
    requires |rest| > 0 && IsSpace(rest[0])
    ensures StripEmojiFromTitle(Some(word + rest)) == Trim(rest)
  {
    LeadingWordOf(word, rest);
    assert (word + rest)[|word|..] == rest;
    var t := TrimStart(rest);
    assert TrimStart(t) == t;
  }

  /** A title that starts with white space has no leading word: it is only trimmed. */
  lemma StripLeadingSpace(title: string)
    requires |title| > 0 && IsSpace(title[0])
    ensures StripEmojiFromTitle(Some(title)) == Trim(title)
  {
  }

  /** A title that is one word with no white space keeps all of itself. */
  lemma StripSingleWord(s: string)
    requires forall i :: 0 <= i < |s| ==> !IsSpace(s[i])
    ensures StripEmojiFromTitle(Some(s)) == s
  {
  }

  // ---------------------------------------------------------------------------
  // Location to building
  // ---------------------------------------------------------------------------

  predicate HasBuildingKey(data: seq<BuildingEntry>, key: string) {
    exists i :: 0 <= i < |data| && data[i].key == key
  }

  /** Some location's lower-cased name equals `lowered`. */
  predicate HoldsLocation(locations: seq<Location>, lowered: string) {
    exists j :: 0 <= j < |locations| && Lower(locations[j].name) == lowered
  }

  /** The key of the first building holding a location named `lowered`. */
  function FirstHolder(data: seq<BuildingEntry>, lowered: string): Option<string>
    decreases |data|
  {
    if |data| == 0 then None
    else if HoldsLocation(data[0].building.locations, lowered) then Some(data[0].key)
    else FirstHolder(data[1..], lowered)
  }

  /** The first key whose lower-cased text equals `lowered`. */
  function FirstKeyLike(data: seq<BuildingEntry>, lowered: string): Option<string>
    decreases |data|
  {
    if |data| == 0 then None
    else if Lower(data[0].key) == lowered then Some(data[0].key)
    else FirstKeyLike(data[1..], lowered)
  }

  /** The trimmed text after the first comma, or nothing when there is no comma. */
  function AfterComma(s: string): Option<string> {
    var comma := IndexOf(Lower(s), ',');
    if comma > -1 then Some(Trim(s[comma + 1..])) else None
  }

  /**
   * `resolveBuildingNameForLocation`: the building key a location text names,
   * trying in turn the text after a comma as an exact key, a location name,
   * and a key, both compared lower-cased (the text itself is not trimmed).
   */
  function ResolveBuildingName(locationName: string, data: Option<seq<BuildingEntry>>): (r: Option<string>)
    ensures r.Some? ==> data.Some? && HasBuildingKey(data.value, r.value)
  {
    if locationName == "" || data.None? then None
    else
      SearchesGiveKeys(data.value, Lower(locationName));
      var named := AfterComma(locationName);
      var lowered := Lower(locationName);
      if named.Some? && HasBuildingKey(data.value, named.value) then named
      else if FirstHolder(data.value, lowered).Some? then FirstHolder(data.value, lowered)
      else FirstKeyLike(data.value, lowered)
  }

  /** The source's loops with early returns, proved to compute ResolveBuildingName. */
  method ResolveBuildingNameForLocation(locationName: string, data: Option<seq<BuildingEntry>>)
    returns (r: Option<string>)
    ensures r == ResolveBuildingName(locationName, data)
    ensures r.Some? ==> data.Some? && HasBuildingKey(data.value, r.value)
  {
    if locationName == "" {
      return None;
    }
    var normalized := Lower(locationName);
    var comma := IndexOf(normalized, ',');
    if comma > -1 {
      var buildingName := Trim(locationName[comma + 1..]);
      if data.Some? && HasBuildingKey(data.value, buildingName) {
        return Some(buildingName);
      }
    }
    if data.None? {
      return None;
    }
    r := FindHolder(data.value, normalized);
    if r.None? {
      r := FindKeyLike(data.value, normalized);
    }
  }

  /** The loop over the buildings' locations, returning at the first building that holds the name. */
  method FindHolder(entries: seq<BuildingEntry>, normalized: string) returns (r: Option<string>)
    ensures r == FirstHolder(entries, normalized)
  {
    var i := 0;
    while i < |entries|
      invariant 0 <= i <= |entries|
      invariant FirstHolder(entries, normalized) == FirstHolder(entries[i..], normalized)
    {
      if HoldsLocation(entries[i].building.locations, normalized) {
        return Some(entries[i].key);
      }
      assert entries[i..][1..] == entries[i + 1..];
      i := i + 1;
    }
    return None;
  }

  /** The loop over the keys, returning at the first one equal to the name ignoring case. */
  method FindKeyLike(entries: seq<BuildingEntry>, normalized: string) returns (r: Option<string>)
    ensures r == FirstKeyLike(entries, normalized)
  {
    var i := 0;
    while i < |entries|
      invariant 0 <= i <= |entries|
      invariant FirstKeyLike(entries, normalized) == FirstKeyLike(entries[i..], normalized)
    {
      if Lower(entries[i].key) == normalized {
        return Some(entries[i].key);
      }
      assert entries[i..][1..] == entries[i + 1..];
      i := i + 1;
    }
    return None;
  }

  /** The first holder is the building at the lowest index holding the location. */
  lemma {:induction false} FirstHolderIsFirst(data: seq<BuildingEntry>, lowered: string, i: nat)
    requires i < |data| && HoldsLocation(data[i].building.locations, lowered)
    requires forall j :: 0 <= j < i ==> !HoldsLocation(data[j].building.locations, lowered)
    ensures FirstHolder(data, lowered) == Some(data[i].key)
    decreases i
  {
    if i > 0 {
      FirstHolderIsFirst(data[1..], lowered, i - 1);
    }
  }

  /** No building holds the location: there is no holder. */
  lemma {:induction false} NoHolder(data: seq<BuildingEntry>, lowered: string)
    requires forall j :: 0 <= j < |data| ==> !HoldsLocation(data[j].building.locations, lowered)
    ensures FirstHolder(data, lowered) == None
    decreases |data|
  {
    if |data| > 0 {
      NoHolder(data[1..], lowered);
    }
  }

  /** Both searches answer with a key of the data. */
  lemma {:induction false} SearchesGiveKeys(data: seq<BuildingEntry>, lowered: string)
    ensures FirstHolder(data, lowered).Some? ==> HasBuildingKey(data, FirstHolder(data, lowered).value)
    ensures FirstKeyLike(data, lowered).Some? ==> HasBuildingKey(data, FirstKeyLike(data, lowered).value)
    ensures FirstKeyLike(data, lowered).Some? ==> Lower(FirstKeyLike(data, lowered).value) == lowered
    decreases |data|
  {
    if |data| > 0 {
      SearchesGiveKeys(data[1..], lowered);
      if FirstHolder(data[1..], lowered).Some? {
        var j :| 0 <= j < |data[1..]| && data[1..][j].key == FirstHolder(data[1..], lowered).value;
        assert data[j + 1] == data[1..][j];
      }
      if FirstKeyLike(data[1..], lowered).Some? {
        var j :| 0 <= j < |data[1..]| && data[1..][j].key == FirstKeyLike(data[1..], lowered).value;
        assert data[j + 1] == data[1..][j];
      }
    }
  }

  /**
   * First priority: when the trimmed text after the first comma is a key, it
   * is the answer, whatever location or key the whole text would match.
   */
  lemma ResolveByComma(locationName: string, data: seq<BuildingEntry>)
    requires locationName != ""
    requires AfterComma(locationName).Some? && HasBuildingKey(data, AfterComma(locationName).value)
    ensures ResolveBuildingName(locationName, Some(data)) == AfterComma(locationName)
  {
  }

  /**
   * Priority: with no comma match, a location name held by some building
   * resolves to the first such building, before any key comparison.
   */
  lemma ResolveByLocation(locationName: string, data: seq<BuildingEntry>, i: nat)
    requires locationName != ""
    requires AfterComma(locationName).None? || !HasBuildingKey(data, AfterComma(locationName).value)
    requires i < |data| && HoldsLocation(data[i].building.locations, Lower(locationName))
    requires forall j :: 0 <= j < i ==> !HoldsLocation(data[j].building.locations, Lower(locationName))
    ensures ResolveBuildingName(locationName, Some(data)) == Some(data[i].key)
  {
    FirstHolderIsFirst(data, Lower(locationName), i);
  }

  /**
   * With no comma match and no building holding the location, the result is
   * a key equal to the text ignoring case, or nothing when no key is.
   */
  lemma ResolveByKey(locationName: string, data: seq<BuildingEntry>)
    requires locationName != ""
    requires AfterComma(locationName).None? || !HasBuildingKey(data, AfterComma(locationName).value)
    requires forall j :: 0 <= j < |data| ==> !HoldsLocation(data[j].building.locations, Lower(locationName))
    ensures var r := ResolveBuildingName(locationName, Some(data));
      (r.Some? ==> Lower(r.value) == Lower(locationName))
      && (r.None? <==> forall j :: 0 <= j < |data| ==> Lower(data[j].key) != Lower(locationName))
  {
    NoHolder(data, Lower(locationName));
    SearchesGiveKeys(data, Lower(locationName));
    FirstKeyLikeNone(data, Lower(locationName));
  }

  lemma {:induction false} FirstKeyLikeNone(data: seq<BuildingEntry>, lowered: string)
    ensures FirstKeyLike(data, lowered).None? <==> forall j :: 0 <= j < |data| ==> Lower(data[j].key) != lowered
    decreases |data|
  {
    if |data| > 0 {
      FirstKeyLikeNone(data[1..], lowered);
      if FirstKeyLike(data, lowered).None? {
        forall j | 0 <= j < |data| ensures Lower(data[j].key) != lowered {
          if j > 0 {
            assert data[j] == data[1..][j - 1];
          }
        }
      }
    }
  }

  // ---------------------------------------------------------------------------
  // Marker offsets
  // ---------------------------------------------------------------------------

  /** A marker offset in steps of 0.0001 degrees. */
  datatype MarkerOffset = MarkerOffset(lat: int, lng: int)

  const BaseOffsets: seq<MarkerOffset> :=
    [MarkerOffset(1, 1), MarkerOffset(1, -1), MarkerOffset(-1, 1), MarkerOffset(-1, -1)]

  /** The table entry `getEventOffsetForIndex` picks: a negative index counts as 0. */
  function EventOffsetSlot(index: int): (k: nat)
    ensures k < |BaseOffsets|
  {
    if index >= 0 then index % 4 else 0
  }

  /** `getEventOffsetForIndex`: always one of the four diagonal unit offsets. */
  function GetEventOffsetForIndex(index: int): (r: MarkerOffset)
    ensures (r.lat == 1 || r.lat == -1) && (r.lng == 1 || r.lng == -1)
  {
    BaseOffsets[EventOffsetSlot(index)]
  }

  /** The offsets repeat every four indices, and every negative index gets the first one. */
  lemma EventOffsetPeriodic(index: int)
    ensures index >= 0 ==> GetEventOffsetForIndex(index + 4) == GetEventOffsetForIndex(index)
    ensures index < 0 ==> GetEventOffsetForIndex(index) == GetEventOffsetForIndex(0)
  {
  }

  /** Four consecutive markers get four different offsets. */
  lemma EventOffsetsDistinct(i: int, j: int)
    requires 0 <= i < j < i + 4
    ensures GetEventOffsetForIndex(i) != GetEventOffsetForIndex(j)
  {
    assert EventOffsetSlot(i) != EventOffsetSlot(j);
  }

  // ---------------------------------------------------------------------------
  // Ranked search
  // ---------------------------------------------------------------------------

  datatype ResultKind = FriendHit | BuildingHit | LocationHit

  /** The record a result points at. */
  datatype ResultData = FriendData(friend: Friend) | BuildingData(building: Building) | LocationData(location: Location)

  /** A search result; `buildingName` is present on location results only. */
  datatype SearchResult = SearchResult(kind: ResultKind, name: string, buildingName: Option<string>, data: ResultData)

  /** `typeOrder`: friends, then buildings, then locations. */
  function KindRank(k: ResultKind): nat {
    match k
    case FriendHit => 0
    case BuildingHit => 1
    case LocationHit => 2
  }

  /** The comparator: `a` may stand before `b`. */
  predicate RanksBefore(a: SearchResult, b: SearchResult) {
    KindRank(a.kind) < KindRank(b.kind) || (KindRank(a.kind) == KindRank(b.kind) && LexLessEq(a.name, b.name))
  }

  predicate SortedResults(rs: seq<SearchResult>) {
    forall i, j :: 0 <= i < j < |rs| ==> RanksBefore(rs[i], rs[j])
  }

  /** `query.toLowerCase().trim()` for a string, "" for anything else. */
  function NormalizeQuery(query: Option<string>): string {
    if query.Some? then Trim(Lower(query.value)) else ""
  }

  /** A non-empty name containing the query, ignoring case. */
  predicate NameMatches(name: string, q: string) {
    name != "" && Contains(Lower(name), q)
  }

  function FriendResults(friends: seq<Friend>, q: string): seq<SearchResult>
    decreases |friends|
  {
    if |friends| == 0 then []
    else
      var f := friends[|friends| - 1];
      FriendResults(friends[..|friends| - 1], q)
      + (if NameMatches(f.name, q) then [SearchResult(FriendHit, f.name, None, FriendData(f))] else [])
  }

  /** The name a building is listed under: its own name, or its key when it has none. */
  function BuildingDisplayName(entry: BuildingEntry): string {
    if entry.building.name != "" then entry.building.name else entry.key
  }

  function LocationResults(locations: seq<Location>, buildingName: string, q: string): seq<SearchResult>
    decreases |locations|
  {
    if |locations| == 0 then []
    else
      var loc := locations[|locations| - 1];
      LocationResults(locations[..|locations| - 1], buildingName, q)
      + (if NameMatches(loc.name, q) then [SearchResult(LocationHit, loc.name, Some(buildingName), LocationData(loc))] else [])
  }

  /** A building's own result, if its listed name matches. */
  function BuildingResult(entry: BuildingEntry, q: string): seq<SearchResult> {
    var name := BuildingDisplayName(entry);
    if Contains(Lower(name), q) then [SearchResult(BuildingHit, name, None, BuildingData(entry.building))] else []
  }

  function EntryResults(entry: BuildingEntry, q: string): seq<SearchResult> {
    BuildingResult(entry, q) + LocationResults(entry.building.locations, BuildingDisplayName(entry), q)
  }

  function BuildingResults(data: seq<BuildingEntry>, q: string): seq<SearchResult>
    decreases |data|
  {
    if |data| == 0 then [] else BuildingResults(data[..|data| - 1], q) + EntryResults(data[|data| - 1], q)
  }

  /** The results in the order the source collects them, before sorting. */
  function Collected(q: string, friends: seq<Friend>, data: Option<seq<BuildingEntry>>): (r: seq<SearchResult>)
    ensures forall x :: x in r ==> Contains(Lower(x.name), q)
  {
    FriendResultsMatch(friends, q);
    if data.Some? then
      BuildingResultsMatch(data.value, q);
      FriendResults(friends, q) + BuildingResults(data.value, q)
    else FriendResults(friends, q)
  }

  /** Inserts `x` before the first element it may precede. */
  function InsertResult(x: SearchResult, sorted: seq<SearchResult>): (r: seq<SearchResult>)
    ensures |r| == |sorted| + 1
    decreases |sorted|
  {
    if |sorted| == 0 || RanksBefore(x, sorted[0]) then [x] + sorted
    else [sorted[0]] + InsertResult(x, sorted[1..])
  }

  /** `results.sort(...)` with the source's comparator, as an insertion sort. */
  function SortResults(rs: seq<SearchResult>): (r: seq<SearchResult>)
    ensures |r| == |rs|
    decreases |rs|
  {
    if |rs| == 0 then [] else InsertResult(rs[0], SortResults(rs[1..]))
  }

  /**
   * `searchMapEntities`: nothing for a blank query; otherwise the matching
   * friends, buildings and locations, ordered by kind and then by name.
   */
  method SearchMapEntities(query: Option<string>, friends: MaybeList<Friend>, buildingsData: Option<seq<BuildingEntry>>)
    returns (results: seq<SearchResult>)
    ensures NormalizeQuery(query) == "" ==> results == []
    ensures NormalizeQuery(query) != "" ==>
      multiset(results) == multiset(Collected(NormalizeQuery(query), friends.Items(), buildingsData))
    ensures NormalizeQuery(query) != "" ==>
      results == SortResults(Collected(NormalizeQuery(query), friends.Items(), buildingsData))
    ensures SortedResults(results)
    ensures forall x :: OfRank(results, x) == OfRank(if NormalizeQuery(query) == "" then []
                                                  else Collected(NormalizeQuery(query), friends.Items(), buildingsData), x)
    ensures forall r :: r in results ==> Contains(Lower(r.name), NormalizeQuery(query))
  {
    var q := if query.Some? then Trim(Lower(query.value)) else "";
    if q == "" {
      return [];
    }
    var found := CollectFriends(friends.Items(), q);
    if buildingsData.Some? {
      found := CollectBuildings(found, buildingsData.value, q);
    }
    assert found == Collected(q, friends.Items(), buildingsData);
    results := SortResults(found);
    SortResultsSorted(found);
    forall x {
      SortResultsStable(found, x);
    }
    forall r | r in results
      ensures Contains(Lower(r.name), q)
    {
      assert r in multiset(results);
    }
  }

  /** The friends loop: each friend with a matching name, in order. */
  method CollectFriends(friends: seq<Friend>, q: string) returns (found: seq<SearchResult>)
    ensures found == FriendResults(friends, q)
  {
    found := [];
    var i := 0;
    while i < |friends|
      invariant 0 <= i <= |friends|
      invariant found == FriendResults(friends[..i], q)
    {
      var f := friends[i];
      if f.name != "" && Contains(Lower(f.name), q) {
        found := found + [SearchResult(FriendHit, f.name, None, FriendData(f))];
      }
      assert friends[..i + 1][..i] == friends[..i];
      i := i + 1;
    }
    assert friends[..i] == friends;
  }

  /** The buildings loop, in key order, appended to what was found so far. */
  method CollectBuildings(found: seq<SearchResult>, entries: seq<BuildingEntry>, q: string) returns (r: seq<SearchResult>)
    ensures r == found + BuildingResults(entries, q)
  {
    var acc := [];
    var b := 0;
    while b < |entries|
      invariant 0 <= b <= |entries|
      invariant acc == BuildingResults(entries[..b], q)
    {
      acc := CollectEntry(acc, entries[b], q);
      BuildingResultsSnoc(entries, b, q);
      b := b + 1;
    }
    assert entries[..b] == entries;
    r := found + acc;
  }

  lemma BuildingResultsSnoc(entries: seq<BuildingEntry>, b: nat, q: string)
    requires b < |entries|
    ensures BuildingResults(entries[..b + 1], q) == BuildingResults(entries[..b], q) + EntryResults(entries[b], q)
  {
    assert entries[..b + 1][..b] == entries[..b];
  }

  /** One building's step of the search: its own result, then its locations'. */
  method CollectEntry(found: seq<SearchResult>, entry: BuildingEntry, q: string) returns (r: seq<SearchResult>)
    ensures r == found + EntryResults(entry, q)
  {
    var buildingName := BuildingDisplayName(entry);
    r := found;
    if Contains(Lower(buildingName), q) {
      r := r + [SearchResult(BuildingHit, buildingName, None, BuildingData(entry.building))];
    }
    assert r == found + BuildingResult(entry, q);
    var locations := entry.building.locations;
    var l := 0;
    while l < |locations|
      invariant 0 <= l <= |locations|
      invariant r == found + BuildingResult(entry, q) + LocationResults(locations[..l], buildingName, q)
    {
      var loc := locations[l];
      if loc.name != "" && Contains(Lower(loc.name), q) {
        r := r + [SearchResult(LocationHit, loc.name, Some(buildingName), LocationData(loc))];
      }
      assert locations[..l + 1][..l] == locations[..l];
      l := l + 1;
    }
    assert locations[..l] == locations;
  }

  lemma RanksTotal(a: SearchResult, b: SearchResult)
    ensures RanksBefore(a, b) || RanksBefore(b, a)
  {
    LexTotal(a.name, b.name);
  }

  lemma RanksTransitive(a: SearchResult, b: SearchResult, c: SearchResult)
    requires RanksBefore(a, b) && RanksBefore(b, c)
    ensures RanksBefore(a, c)
  {
    if KindRank(a.kind) == KindRank(b.kind) == KindRank(c.kind) {
      LexTransitive(a.name, b.name, c.name);
    }
  }

  /** Inserting adds exactly the one element. */
  lemma {:induction false} InsertPermutation(x: SearchResult, s: seq<SearchResult>)
    ensures multiset(InsertResult(x, s)) == multiset(s) + multiset{x}
    decreases |s|
  {
    if |s| > 0 && !RanksBefore(x, s[0]) {
      InsertPermutation(x, s[1..]);
      assert s == [s[0]] + s[1..];
    }
  }

  /** An element that may precede everything in a sorted list may be put in front of it. */
  lemma PrependSorted(y: SearchResult, s: seq<SearchResult>)
    requires SortedResults(s) && forall z :: z in s ==> RanksBefore(y, z)
    ensures SortedResults([y] + s)
  {
    var r := [y] + s;
    forall i, j | 0 <= i < j < |r| ensures RanksBefore(r[i], r[j]) {
      assert r[j] == s[j - 1];
      if i > 0 {
        assert r[i] == s[i - 1];
      }
    }
  }

  /** Inserting into a sorted list keeps it sorted. */
  lemma {:induction false} InsertSorted(x: SearchResult, s: seq<SearchResult>)
    requires SortedResults(s)
    ensures SortedResults(InsertResult(x, s))
    decreases |s|
  {
    if |s| == 0 || RanksBefore(x, s[0]) {
      forall z | z in s ensures RanksBefore(x, z) {
        var j :| 0 <= j < |s| && s[j] == z;
        if j > 0 {
          RanksTransitive(x, s[0], z);
        }
      }
      PrependSorted(x, s);
    } else {
      var tail := s[1..];
      assert SortedResults(tail) by {
        forall i, j | 0 <= i < j < |tail| ensures RanksBefore(tail[i], tail[j]) {
          assert tail[i] == s[i + 1] && tail[j] == s[j + 1];
        }
      }
      InsertSorted(x, tail);
      InsertPermutation(x, tail);
      RanksTotal(x, s[0]);
      var rest := InsertResult(x, tail);
      forall y | y in rest ensures RanksBefore(s[0], y) {
        assert y in multiset(rest);
        if y != x {
          var j :| 0 <= j < |tail| && tail[j] == y;
          assert s[j + 1] == y;
        }
      }
      PrependSorted(s[0], rest);
    }
  }

  /** The sort yields a sorted permutation of its input. */
  lemma {:induction false} SortResultsSorted(rs: seq<SearchResult>)
    ensures SortedResults(SortResults(rs))
    ensures multiset(SortResults(rs)) == multiset(rs)
    decreases |rs|
  {
    if |rs| > 0 {
      SortResultsSorted(rs[1..]);
      InsertSorted(rs[0], SortResults(rs[1..]));
      InsertPermutation(rs[0], SortResults(rs[1..]));
      assert rs == [rs[0]] + rs[1..];
    }
  }

  /** The comparator returns 0: same kind rank and the same name. */
  predicate SameRank(a: SearchResult, b: SearchResult) {
    KindRank(a.kind) == KindRank(b.kind) && a.name == b.name
  }

  /** The results that rank equal to `x`, in their order in `rs`. */
  function OfRank(rs: seq<SearchResult>, x: SearchResult): seq<SearchResult>
    decreases |rs|
  {
    if |rs| == 0 then [] else (if SameRank(rs[0], x) then [rs[0]] else []) + OfRank(rs[1..], x)
  }

  /** Inserting `z` puts it ahead of every result that ranks equal to it. */
  lemma {:induction false} InsertOfRank(z: SearchResult, s: seq<SearchResult>, x: SearchResult)
    ensures OfRank(InsertResult(z, s), x) == (if SameRank(z, x) then [z] else []) + OfRank(s, x)
    decreases |s|
  {
    if |s| == 0 || RanksBefore(z, s[0]) {
      assert ([z] + s)[1..] == s;
    } else {
      InsertOfRank(z, s[1..], x);
      assert ([s[0]] + InsertResult(z, s[1..]))[1..] == InsertResult(z, s[1..]);
      LexReflexive(z.name);
      assert !(SameRank(z, x) && SameRank(s[0], x));
    }
  }

  /**
   * The sort is stable, as `Array.prototype.sort` is: results the comparator
   * calls equal keep the order in which they were collected.
   */
  lemma {:induction false} SortResultsStable(rs: seq<SearchResult>, x: SearchResult)
    ensures OfRank(SortResults(rs), x) == OfRank(rs, x)
    decreases |rs|
  {
    if |rs| > 0 {
      SortResultsStable(rs[1..], x);
      InsertOfRank(rs[0], SortResults(rs[1..]), x);
    }
  }

  /**
   * A friend is found exactly when their name matches, and a friend result
   * carries that friend and their name.
   */
  lemma {:induction false} FriendResultsMatch(friends: seq<Friend>, q: string)
    ensures forall r :: r in FriendResults(friends, q) ==>
      r.kind == FriendHit && r.data.FriendData? && r.data.friend in friends
      && r.name == r.data.friend.name && NameMatches(r.name, q)
    ensures forall f :: f in friends && NameMatches(f.name, q) ==>
      SearchResult(FriendHit, f.name, None, FriendData(f)) in FriendResults(friends, q)
    decreases |friends|
  {
    if |friends| > 0 {
      var init := friends[..|friends| - 1];
      FriendResultsMatch(init, q);
      assert friends == init + [friends[|friends| - 1]];
    }
  }

  lemma {:induction false} LocationResultsMatch(locations: seq<Location>, buildingName: string, q: string)
    ensures forall r :: r in LocationResults(locations, buildingName, q) ==>
      r.kind == LocationHit && r.buildingName == Some(buildingName) && NameMatches(r.name, q)
    decreases |locations|
  {
    if |locations| > 0 {
      LocationResultsMatch(locations[..|locations| - 1], buildingName, q);
    }
  }

  lemma {:induction false} BuildingResultsMatch(data: seq<BuildingEntry>, q: string)
    ensures forall r :: r in BuildingResults(data, q) ==> Contains(Lower(r.name), q)
    decreases |data|
  {
    if |data| > 0 {
      var entry := data[|data| - 1];
      BuildingResultsMatch(data[..|data| - 1], q);
      LocationResultsMatch(entry.building.locations, BuildingDisplayName(entry), q);
    }
  }

  /** In a sorted result list no later result has a lower kind: friends, then buildings, then locations. */
  lemma SortedKindOrder(rs: seq<SearchResult>, i: nat, j: nat)
    requires SortedResults(rs) && i < j < |rs|
    ensures KindRank(rs[i].kind) <= KindRank(rs[j].kind)
    ensures rs[i].kind == rs[j].kind ==> LexLessEq(rs[i].name, rs[j].name)
  {
    assert RanksBefore(rs[i], rs[j]);
  }
}
