/** Merging the lock files into the expected distributions, and selecting a wheel for each. */
module Release {
  import opened Ordering
  import opened Text

  /** A lock item; a marker, name or version that is not a string is `None`. */
  datatype Item = NotAnObject | Item(marker: Option<Str>, name: Option<Str>, version: Option<Str>)

  /** A lock asset: its distributions, or `None` when it is not an object with a list of them. */
  type Asset = Option<seq<Item>>

  /** The loop passes over the item on this platform. */
  predicate Skips(item: Item, system: Str)
    requires item.Item?
  {
    || (item.marker == Some(U("sys_platform == \"win32\"")) && system != U("win32"))
    || (item.marker == Some(U("sys_platform != \"win32\"")) && system == U("win32"))
  }

  /** The item counts on this platform: it asks for Windows only on Windows, and for the rest only elsewhere. */
  predicate Applies(item: Item, system: Str) {
    && item.Item?
    && (system == U("win32") ==> item.marker != Some(U("sys_platform != \"win32\"")))
    && (system != U("win32") ==> item.marker != Some(U("sys_platform == \"win32\"")))
  }

  predicate WellFormedItem(item: Item, system: Str) {
    item.Item? && (Applies(item, system) ==> item.name.Some? && item.version.Some?)
  }

  predicate WellFormedAsset(asset: Asset, system: Str) {
    asset.Some? && forall i :: 0 <= i < |asset.value| ==> WellFormedItem(asset.value[i], system)
  }

  /** Some asset pins `name` to `version` on this platform. */
  ghost predicate Pins(assets: seq<Asset>, system: Str, name: Str, version: Str) {
    exists a, item :: a in assets && a.Some? && item in a.value && PinsItem(item, system, name, version)
  }

  predicate PinsItem(item: Item, system: Str, name: Str, version: Str) {
    Applies(item, system) && item.name == Some(name) && item.version == Some(version)
  }

  /** Every asset is well formed and no name is pinned to two versions. */
  ghost predicate Mergeable(assets: seq<Asset>, system: Str) {
    && (forall a :: a in assets ==> WellFormedAsset(a, system))
    && (forall n, v, w :: Pins(assets, system, n, v) && Pins(assets, system, n, w) ==> v == w)
  }

  predicate Holds(m: map<Str, Str>, name: Str, version: Str) {
    name in m && m[name] == version
  }

  /** `expected` maps each pinned name to its version, and nothing else. */
  ghost predicate IsMerge(assets: seq<Asset>, system: Str, expected: map<Str, Str>) {
    forall n, v :: Holds(expected, n, v) <==> Pins(assets, system, n, v)
  }

  /** The pin is in `before` or among the first `k` items. */
  ghost predicate Offered(before: map<Str, Str>, items: seq<Item>, system: Str, k: nat, n: Str, v: Str)
    requires k <= |items|
  {
    Holds(before, n, v) || exists i :: 0 <= i < k && PinsItem(items[i], system, n, v)
  }

  lemma OfferedStep(before: map<Str, Str>, items: seq<Item>, system: Str, k: nat, n: Str, v: Str)
    requires k < |items|
    ensures Offered(before, items, system, k + 1, n, v) <==>
            Offered(before, items, system, k, n, v) || PinsItem(items[k], system, n, v)
  {
  }

  ghost predicate Conflicting(before: map<Str, Str>, items: seq<Item>, system: Str) {
    exists n, v, w ::
      v != w && Offered(before, items, system, |items|, n, v) && Offered(before, items, system, |items|, n, w)
  }

  lemma OfferedLater(before: map<Str, Str>, items: seq<Item>, system: Str, k: nat, n: Str, v: Str)
    requires k <= |items| && Offered(before, items, system, k, n, v)
    ensures Offered(before, items, system, |items|, n, v)
  {
  }

  /** The inner loop of `_expected_downloads`; `None` stands for the failure it raises. */
  method MergeAsset(before: map<Str, Str>, items: seq<Item>, system: Str) returns (r: Option<map<Str, Str>>)
    ensures r.Some? <==>
      (forall i :: 0 <= i < |items| ==> WellFormedItem(items[i], system)) && !Conflicting(before, items, system)
    ensures r.Some? ==> forall n, v :: Holds(r.value, n, v) <==> Offered(before, items, system, |items|, n, v)
  {
    hide Offered;
    var expected := before;
    NoneOffered(before, items, system);
    var i := 0;
    while i < |items|
      invariant 0 <= i <= |items|
      invariant forall n, v :: Holds(expected, n, v) <==> Offered(before, items, system, i, n, v)
      invariant forall k :: 0 <= k < i ==> WellFormedItem(items[k], system)
    {
      var item := items[i];
      forall n, v { OfferedStep(before, items, system, i, n, v); }
      if item.NotAnObject? {
        return None;
      }
      if !Skips(item, system) {
        if item.name.None? || item.version.None? {
          return None;
        }
        var name, version := item.name.value, item.version.value;
        assert PinsItem(item, system, name, version);
        if name in expected && expected[name] != version {
          var other := expected[name];
          assert Holds(expected, name, other);
          OfferedLater(before, items, system, i, name, other);
          OfferedLater(before, items, system, i + 1, name, version);
          return None;
        }
        forall n, v
          ensures Holds(expected[name := version], n, v) <==> Holds(expected, n, v) || PinsItem(item, system, n, v)
        {
        }
        expected := expected[name := version];
      }
      forall n, v ensures Holds(expected, n, v) <==> Offered(before, items, system, i + 1, n, v) {
        OfferedStep(before, items, system, i, n, v);
      }
      i := i + 1;
    }
    r := Some(expected);
  }

  lemma NoneOffered(before: map<Str, Str>, items: seq<Item>, system: Str)
    ensures forall n, v :: Offered(before, items, system, 0, n, v) <==> Holds(before, n, v)
  {
  }

  /** The assets before the `k`-th pin `name` to `version`. */
  ghost predicate PinsBefore(assets: seq<Asset>, system: Str, k: nat, name: Str, version: Str)
    requires k <= |assets|
  {
    Pins(assets[..k], system, name, version)
  }

  lemma PinsStep(assets: seq<Asset>, system: Str, k: nat, before: map<Str, Str>, n: Str, v: Str)
    requires k < |assets| && assets[k].Some?
    requires Holds(before, n, v) <==> PinsBefore(assets, system, k, n, v)
    ensures Offered(before, assets[k].value, system, |assets[k].value|, n, v) <==>
      PinsBefore(assets, system, k + 1, n, v)
  {
  }

  lemma PinsGrow(assets: seq<Asset>, system: Str, k: nat, n: Str, v: Str)
    requires k <= |assets| && PinsBefore(assets, system, k, n, v)
    ensures Pins(assets, system, n, v)
  {
  }

  /** `_expected_downloads` after the interpreter lookup: merges the assets, or fails. */
  method ExpectedDownloads(assets: seq<Asset>, system: Str) returns (r: Option<map<Str, Str>>)
    ensures r.Some? <==> Mergeable(assets, system)
    ensures r.Some? ==> IsMerge(assets, system, r.value)
  {
    hide Pins, Offered, Holds;
    var expected: map<Str, Str> := map[];
    var k := 0;
    forall n, v
      ensures Holds(expected, n, v) <==> PinsBefore(assets, system, 0, n, v)
    {
      NoPins(assets, system, n, v);
    }
    while k < |assets|
      invariant 0 <= k <= |assets|
      invariant forall n, v :: Holds(expected, n, v) <==> PinsBefore(assets, system, k, n, v)
      invariant forall i :: 0 <= i < k ==> WellFormedAsset(assets[i], system)
    {
      var asset := assets[k];
      assert asset in assets;
      if asset.None? {
        return None;
      }
      var merged := MergeAsset(expected, asset.value, system);
      forall n, v { PinsStep(assets, system, k, expected, n, v); }
      if merged.None? {
        if WellFormedAsset(asset, system) {
          ghost var n, v, w :| v != w && Offered(expected, asset.value, system, |asset.value|, n, v)
            && Offered(expected, asset.value, system, |asset.value|, n, w);
          PinsStep(assets, system, k, expected, n, v);
          PinsStep(assets, system, k, expected, n, w);
          PinsGrow(assets, system, k + 1, n, v);
          PinsGrow(assets, system, k + 1, n, w);
        }
        return None;
      }
      forall n, v ensures Holds(merged.value, n, v) <==> PinsBefore(assets, system, k + 1, n, v) {
        PinsStep(assets, system, k, expected, n, v);
      }
      expected := merged.value;
      k := k + 1;
    }
    assert assets[..k] == assets;
    HoldsOne(expected);
    forall n, v ensures Holds(expected, n, v) <==> Pins(assets, system, n, v) {
      assert PinsBefore(assets, system, k, n, v) <==> Pins(assets, system, n, v);
    }
    r := Some(expected);
  }

  lemma NoPins(assets: seq<Asset>, system: Str, n: Str, v: Str)
    ensures !PinsBefore(assets, system, 0, n, v) && !Holds(map[], n, v)
  {
  }

  lemma HoldsOne(m: map<Str, Str>)
    ensures forall n, v, w :: Holds(m, n, v) && Holds(m, n, w) ==> v == w
  {
  }

  /** The order of the assets decides neither the verdict nor the merge. */
  lemma AssetOrderIrrelevant(a: seq<Asset>, b: seq<Asset>, system: Str, x: map<Str, Str>, y: map<Str, Str>)
    requires multiset(a) == multiset(b)
    ensures Mergeable(a, system) <==> Mergeable(b, system)
    ensures IsMerge(a, system, x) && IsMerge(b, system, y) ==> x == y
  {
    SameElements(a, b);
    forall n, v ensures Pins(a, system, n, v) <==> Pins(b, system, n, v) {}
    if IsMerge(a, system, x) && IsMerge(b, system, y) {
      forall n ensures n in x <==> n in y {
        if n in x { assert Holds(x, n, x[n]) && Holds(y, n, x[n]); }
        if n in y { assert Holds(y, n, y[n]) && Holds(x, n, y[n]); }
      }
      forall n | n in x ensures x[n] == y[n] { assert Holds(x, n, x[n]) && Holds(y, n, x[n]); }
    }
  }

  // ---- selecting wheels --------------------------------------------------------------------------

  /** A wheel file with the name and version its metadata state. */
  datatype Wheel = Wheel(path: Str, name: Str, version: Str)

  /** The positions of the candidates for `name`. */
  function Candidates(wheels: seq<Wheel>, name: Str): set<nat> {
    set i: nat | i < |wheels| && wheels[i].name == name
  }

  /** Every expected name has exactly one candidate, and that one has the expected version. */
  ghost predicate ExactCover(wheels: seq<Wheel>, expected: map<Str, Str>) {
    forall n :: n in expected ==> exists i: nat :: Candidates(wheels, n) == {i} && wheels[i].version == expected[n]
  }

  /** The selection holds, for each expected name, its one candidate. */
  ghost predicate Selects(wheels: seq<Wheel>, expected: map<Str, Str>, selected: map<Str, Wheel>) {
    && selected.Keys == expected.Keys
    && forall n :: n in selected ==>
        exists i: nat :: Candidates(wheels, n) == {i} && selected[n] == wheels[i] && wheels[i].version == expected[n]
  }

  /** `selected` is right about the first `k` candidates. */
  ghost predicate SelectedSoFar(wheels: seq<Wheel>, expected: map<Str, Str>, k: nat, selected: map<Str, Wheel>)
    requires k <= |wheels|
  {
    && selected.Keys <= expected.Keys
    && (forall i :: 0 <= i < k && wheels[i].name in expected ==>
          wheels[i].name in selected && selected[wheels[i].name] == wheels[i]
            && wheels[i].version == expected[wheels[i].name])
    && (forall n :: n in selected ==> exists i :: 0 <= i < k && wheels[i].name == n && selected[n] == wheels[i])
    && (forall i, j :: 0 <= i < j < k && wheels[i].name in expected ==> wheels[i].name != wheels[j].name)
  }

  /** The wheel-selection loop; `None` stands for the failure it raises. */
  method SelectWheels(wheels: seq<Wheel>, expected: map<Str, Str>) returns (r: Option<map<Str, Wheel>>)
    ensures r.Some? <==> ExactCover(wheels, expected)
    ensures r.Some? ==> Selects(wheels, expected, r.value)
  {
    hide ExactCover, Selects;
    var selected: map<Str, Wheel> := map[];
    var k := 0;
    while k < |wheels|
      invariant 0 <= k <= |wheels|
      invariant SelectedSoFar(wheels, expected, k, selected)
    {
      var w := wheels[k];
      if w.name in expected {
        if expected[w.name] != w.version || w.name in selected {
          NotCovered(wheels, expected, k, selected);
          return None;
        }
        selected := selected[w.name := w];
      }
      k := k + 1;
    }
    if selected.Keys != expected.Keys {
      Uncovered(wheels, expected, selected);
      return None;
    }
    Covered(wheels, expected, selected);
    r := Some(selected);
  }

  lemma NotCovered(wheels: seq<Wheel>, expected: map<Str, Str>, k: nat, selected: map<Str, Wheel>)
    requires k < |wheels| && SelectedSoFar(wheels, expected, k, selected) && wheels[k].name in expected
    requires expected[wheels[k].name] != wheels[k].version || wheels[k].name in selected
    ensures !ExactCover(wheels, expected)
  {
    var n := wheels[k].name;
    assert k in Candidates(wheels, n);
    if n in selected {
      var i :| 0 <= i < k && wheels[i].name == n;
      assert i in Candidates(wheels, n);
    }
  }

  lemma Uncovered(wheels: seq<Wheel>, expected: map<Str, Str>, selected: map<Str, Wheel>)
    requires SelectedSoFar(wheels, expected, |wheels|, selected) && selected.Keys != expected.Keys
    ensures !ExactCover(wheels, expected)
  {
  }

  lemma Covered(wheels: seq<Wheel>, expected: map<Str, Str>, selected: map<Str, Wheel>)
    requires SelectedSoFar(wheels, expected, |wheels|, selected) && selected.Keys == expected.Keys
    ensures ExactCover(wheels, expected) && Selects(wheels, expected, selected)
  {
    forall n | n in expected
      ensures exists i: nat ::
        Candidates(wheels, n) == {i} && selected[n] == wheels[i] && wheels[i].version == expected[n]
    {
      var i :| 0 <= i < |wheels| && wheels[i].name == n && selected[n] == wheels[i];
      assert Candidates(wheels, n) == {i};
    }
  }

  /** Both selections of `_prepare` and the check that they share no name. */
  method PrepareSelections(wheels: seq<Wheel>, expected: map<Str, Str>, kit: seq<Wheel>, kitExpected: map<Str, Str>)
    returns (r: Option<(map<Str, Wheel>, map<Str, Wheel>)>)
    ensures r.Some? <==>
      ExactCover(wheels, expected) && ExactCover(kit, kitExpected) && expected.Keys !! kitExpected.Keys
    ensures r.Some? ==>
      Selects(wheels, expected, r.value.0) && Selects(kit, kitExpected, r.value.1) && r.value.0.Keys !! r.value.1.Keys
  {
    hide ExactCover, Selects;
    SelectsKeys(wheels, expected);
    SelectsKeys(kit, kitExpected);
    var selected := SelectWheels(wheels, expected);
    if selected.None? {
      return None;
    }
    var qualification := SelectWheels(kit, kitExpected);
    if qualification.None? {
      return None;
    }
    assert selected.value.Keys == expected.Keys && qualification.value.Keys == kitExpected.Keys;
    Disjointness(expected.Keys, kitExpected.Keys);
    if selected.value.Keys * qualification.value.Keys != {} {
      return None;
    }
    r := Some((selected.value, qualification.value));
  }

  lemma Disjointness(a: set<Str>, b: set<Str>)
    ensures a !! b <==> a * b == {}
  {
    if a * b == {} {
      forall n | n in a ensures n !in b { assert n !in a * b; }
    }
  }

  lemma SelectsKeys(wheels: seq<Wheel>, expected: map<Str, Str>)
    ensures forall selected :: Selects(wheels, expected, selected) ==> selected.Keys == expected.Keys
  {
  }

  /** The selected wheel is the only candidate of its name. */
  lemma SelectedIsOnly(wheels: seq<Wheel>, expected: map<Str, Str>, selected: map<Str, Wheel>, n: Str, w: Wheel)
    requires Selects(wheels, expected, selected) && n in selected
    ensures selected[n] in wheels && selected[n].name == n
    ensures w in wheels && w.name == n ==> w == selected[n]
  {
    var i: nat :| Candidates(wheels, n) == {i} && selected[n] == wheels[i];
    assert i in Candidates(wheels, n);
    if w in wheels && w.name == n {
      var k :| 0 <= k < |wheels| && wheels[k] == w;
      assert k in Candidates(wheels, n);
    }
  }

  /** The candidates' order does not decide what is selected. */
  lemma CandidateOrderIrrelevant(a: seq<Wheel>, b: seq<Wheel>, expected: map<Str, Str>,
      x: map<Str, Wheel>, y: map<Str, Wheel>)
    requires multiset(a) == multiset(b) && Selects(a, expected, x) && Selects(b, expected, y)
    ensures x == y
  {
    hide Selects;
    SameElements(a, b);
    SelectsKeys(a, expected);
    SelectsKeys(b, expected);
    forall n | n in x ensures x[n] == y[n] {
      SelectedIsOnly(a, expected, x, n, x[n]);
      SelectedIsOnly(b, expected, y, n, x[n]);
    }
  }
}
