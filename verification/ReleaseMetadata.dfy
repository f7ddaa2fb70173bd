/** `get_release_metadata`: from the GitHub asset list to the sorted list of assets to mirror. */
module ReleaseMetadata {
  import opened Prelude
  import opened Ordering
  import opened ReleaseStore

  datatype Stage = Assets | Finalize

  // One element of the GitHub asset list. A field is None when it is absent or has the wrong type or shape.
  datatype Listed =
    | NotAnObject
    | Listed(name: Option<string>, size: Option<int>, uploaded: bool, digest: Option<Sha256>)

  datatype MetadataError = InvalidMetadata(at: nat) | NoAssets

  // The assets stage leaves unfinished uploads to the finalize stage.
  predicate Skipped(l: Listed, stage: Stage) {
    l.Listed? && stage.Assets? && !l.uploaded
  }

  predicate Acceptable(l: Listed) {
    && l.Listed?
    && l.name.Some? && l.name.value != "" && l.name.value != RELEASE_METADATA_NAME
    && l.size.Some? && l.size.value >= 0
    && l.uploaded && l.digest.Some?
  }

  function ToAsset(l: Listed): Asset
    requires Acceptable(l)
  {
    Asset(l.name.value, l.size.value, l.digest.value)
  }

  predicate SameName(a: Listed, b: Listed) {
    Acceptable(a) && Acceptable(b) && a.name == b.name
  }

  // element i stops the run: malformed, or a name seen before
  predicate Offends(list: seq<Listed>, stage: Stage, i: nat)
    requires i < |list|
  {
    !Skipped(list[i], stage) &&
    (!Acceptable(list[i]) || exists j | 0 <= j < i :: !Skipped(list[j], stage) && SameName(list[j], list[i]))
  }

  // Element i contributes an asset.
  predicate Contributes(list: seq<Listed>, stage: Stage, i: nat)
    requires i < |list|
  {
    !Skipped(list[i], stage) && Acceptable(list[i])
  }

  predicate SortedByName(assets: seq<Asset>) {
    forall i, j | 0 <= i < j < |assets| :: StringLess(assets[i].name, assets[j].name)
  }

  // sorted(expected.values(), key=lambda asset: asset.path.name)
  function ByName(expected: map<string, Asset>): (assets: seq<Asset>)
    requires forall n | n in expected :: expected[n].name == n
    ensures SortedByName(assets)
    ensures forall a :: a in assets <==> a.name in expected && expected[a.name] == a
  {
    var names := SortedStrings(expected.Keys);
    SortedStringsSorted(expected.Keys);
    assert forall i | 0 <= i < |names| :: names[i] in names;
    var assets := seq(|names|, i requires 0 <= i < |names| => expected[names[i]]);
    assert forall a: Asset :: a.name in expected && expected[a.name] == a ==> a in assets by {
      forall a: Asset | a.name in expected && expected[a.name] == a ensures a in assets {
        assert a.name in names;
        var p :| 0 <= p < |names| && names[p] == a.name;
        assert assets[p] == a;
      }
    }
    assets
  }

  // `expected` after the first k elements, none of which offends
  ghost predicate Collected(list: seq<Listed>, stage: Stage, k: nat, expected: map<string, Asset>)
    requires k <= |list|
  {
    && (forall n | n in expected :: expected[n].name == n)
    && (forall n | n in expected ::
          exists i | 0 <= i < k :: Contributes(list, stage, i) && expected[n] == ToAsset(list[i]))
    && (forall i | 0 <= i < k :: Contributes(list, stage, i) ==>
          list[i].name.value in expected && expected[list[i].name.value] == ToAsset(list[i]))
  }

  lemma CollectNext(list: seq<Listed>, stage: Stage, k: nat, expected: map<string, Asset>)
    requires k < |list| && Collected(list, stage, k, expected) && Contributes(list, stage, k)
    requires list[k].name.value !in expected
    ensures Collected(list, stage, k + 1, expected[list[k].name.value := ToAsset(list[k])])
  {
    var next := expected[list[k].name.value := ToAsset(list[k])];
    forall n | n in next
      ensures exists i | 0 <= i < k + 1 :: Contributes(list, stage, i) && next[n] == ToAsset(list[i])
    {
      if n != list[k].name.value {
        var i :| 0 <= i < k && Contributes(list, stage, i) && expected[n] == ToAsset(list[i]);
      }
    }
  }

  lemma RepeatedNameOffends(list: seq<Listed>, stage: Stage, k: nat, expected: map<string, Asset>)
    requires k < |list| && Collected(list, stage, k, expected)
    requires Contributes(list, stage, k) && list[k].name.value in expected
    ensures Offends(list, stage, k)
  {
    var i :| 0 <= i < k && Contributes(list, stage, i) && expected[list[k].name.value] == ToAsset(list[i]);
    assert SameName(list[i], list[k]);
  }

  lemma CollectedAll(list: seq<Listed>, stage: Stage, expected: map<string, Asset>)
    requires Collected(list, stage, |list|, expected) && expected != map[]
    ensures exists i | 0 <= i < |list| :: Contributes(list, stage, i)
    ensures forall a ::
      a in ByName(expected) <==> exists i | 0 <= i < |list| :: Contributes(list, stage, i) && a == ToAsset(list[i])
  {
    var n :| n in expected;
    var i :| 0 <= i < |list| && Contributes(list, stage, i) && expected[n] == ToAsset(list[i]);
    forall a
      ensures a in ByName(expected) <==>
        exists i | 0 <= i < |list| :: Contributes(list, stage, i) && a == ToAsset(list[i])
    {
      if a in ByName(expected) {
        assert a.name in expected && expected[a.name] == a;
      }
    }
  }

  method GetReleaseMetadata(list: seq<Listed>, stage: Stage) returns (r: Result<seq<Asset>, MetadataError>)
    ensures r.Ok? <==>
      (forall i | 0 <= i < |list| :: !Offends(list, stage, i))
        && exists i | 0 <= i < |list| :: Contributes(list, stage, i)
    ensures r.Ok? ==> AcceptedAs(list, stage, r.value) && Distinguished(r.value)
    ensures r.Err? && r.error.InvalidMetadata? ==>
      r.error.at < |list| && Offends(list, stage, r.error.at)
        && forall i | 0 <= i < r.error.at :: !Offends(list, stage, i)
    ensures r.Err? && r.error.NoAssets? ==>
      forall i | 0 <= i < |list| :: !Offends(list, stage, i) && !Contributes(list, stage, i)
  {
    var expected: map<string, Asset> := map[];
    for k := 0 to |list|
      invariant forall i | 0 <= i < k :: !Offends(list, stage, i)
      invariant Collected(list, stage, k, expected)
    {
      var l := list[k];
      if l.NotAnObject? {
        assert Offends(list, stage, k);
        return Err(InvalidMetadata(k));
      }
      if stage.Assets? && !l.uploaded {
        continue;
      }
      if l.name.None? || l.name.value == "" || l.name.value == RELEASE_METADATA_NAME || l.name.value in expected
        || l.size.None? || l.size.value < 0 || !l.uploaded || l.digest.None?
      {
        if Acceptable(l) { RepeatedNameOffends(list, stage, k, expected); }
        assert Offends(list, stage, k);
        return Err(InvalidMetadata(k));
      }
      CollectNext(list, stage, k, expected);
      expected := expected[l.name.value := ToAsset(l)];
    }
    if expected == map[] {
      return Err(NoAssets);
    }
    CollectedAll(list, stage, expected);
    r := Ok(ByName(expected));
    MetadataNames(list, stage, r.value);
  }

  // What publishing relies on: asset names are distinct and none is release.json.
  ghost predicate Distinguished(assets: seq<Asset>) {
    && (forall i, j | 0 <= i < j < |assets| :: assets[i].name != assets[j].name)
    && forall i | 0 <= i < |assets| :: assets[i].name != RELEASE_METADATA_NAME
  }

  // the assets of a listing that was accepted for a stage
  ghost predicate AcceptedAs(list: seq<Listed>, stage: Stage, assets: seq<Asset>) {
    && SortedByName(assets)
    && forall a :: a in assets <==> exists i | 0 <= i < |list| :: Contributes(list, stage, i) && a == ToAsset(list[i])
  }

  lemma MetadataNames(list: seq<Listed>, stage: Stage, assets: seq<Asset>)
    requires AcceptedAs(list, stage, assets)
    ensures Distinguished(assets) && forall i | 0 <= i < |assets| :: assets[i].name != ""
  {
    forall i, j | 0 <= i < j < |assets| ensures assets[i].name != assets[j].name {
      StringLessIrreflexive(assets[i].name);
    }
    forall i | 0 <= i < |assets| ensures assets[i].name != "" && assets[i].name != RELEASE_METADATA_NAME {
      assert assets[i] in assets;
    }
  }
}
