/** What a successful finalize run needs beforehand and what it leaves behind. */
module ReleasePublished {
  import opened Prelude
  import opened ReleaseStore
  import opened ReleaseMetadata
  import opened ReleaseProtocol

  function KeyOf(job: Job, i: nat): string
    requires i < |job.assets|
  {
    AssetKey(job.version, job.assets[i].name)
  }

  predicate Present(store: Store, job: Job, i: nat)
    requires i < |job.assets|
  {
    Matches(store, KeyOf(job, i), job.assets[i].size, job.assets[i].sha256)
  }

  predicate Downloads(files: map<string, File>, a: Asset) {
    a.name in files && Validates(files[a.name], a)
  }

  // Asset i is in place already, or its key is free and its download is good.
  predicate Placeable(store: Store, job: Job, files: map<string, File>, i: nat)
    requires i < |job.assets|
  {
    Present(store, job, i) || (KeyOf(job, i) !in store && Downloads(files, job.assets[i]))
  }

  predicate InstallerReady(job: Job, files: map<string, File>, k: nat)
    requires k < |INSTALLER_NAMES|
  {
    var at := FindAsset(job.assets, INSTALLER_NAMES[k]);
    at.Some? && Downloads(files, job.assets[at.value])
  }

  predicate ManifestPlaceable(store: Store, job: Job) {
    ManifestKey(job.version) !in store
    || Matches(store, ManifestKey(job.version), Size(ManifestFile(job)), Sha256(ManifestFile(job)))
  }

  // What a caller can check beforehand to know that finalizing will succeed.
  predicate CanPublish(store: Store, job: Job, files: map<string, File>) {
    && (forall i | 0 <= i < |job.assets| :: Placeable(store, job, files, i))
    && ManifestPlaceable(store, job)
    && (!job.prerelease ==> forall k | 0 <= k < |INSTALLER_NAMES| :: InstallerReady(job, files, k))
  }

  // The store once the first n assets have been looked after.
  function FillUpTo(store: Store, job: Job, files: map<string, File>, n: nat): Store
    requires n <= |job.assets|
  {
    if n == 0 then store
    else
      var before, asset := FillUpTo(store, job, files, n - 1), job.assets[n - 1];
      if Downloads(files, asset) then PutIfAbsent(before, KeyOf(job, n - 1), files[asset.name], asset.sha256)
        else before
  }

  lemma {:induction false} FillUpToKeys(store: Store, job: Job, files: map<string, File>, n: nat, key: string)
    requires n <= |job.assets|
    ensures key in store ==> key in FillUpTo(store, job, files, n) && FillUpTo(store, job, files, n)[key] == store[key]
    ensures key in FillUpTo(store, job, files, n) && key !in store ==> exists i | 0 <= i < n :: key == KeyOf(job, i)
  {
    if n > 0 {
      FillUpToKeys(store, job, files, n - 1, key);
      if key == KeyOf(job, n - 1) {
        assert n - 1 < n;
      } else if key in FillUpTo(store, job, files, n) && key !in store {
        var i :| 0 <= i < n - 1 && key == KeyOf(job, i);
      }
    }
  }

  // Looking after other assets leaves this one's key, and the key of release.json, as they were.
  lemma FillUpToApart(store: Store, job: Job, files: map<string, File>, n: nat, name: string)
    requires n <= |job.assets| && forall i | 0 <= i < n :: job.assets[i].name != name
    ensures var key, after := AssetKey(job.version, name), FillUpTo(store, job, files, n);
      (key in after <==> key in store) && (key in store ==> after[key] == store[key])
  {
    var key := AssetKey(job.version, name);
    FillUpToKeys(store, job, files, n, key);
    if key in FillUpTo(store, job, files, n) && key !in store {
      var i :| 0 <= i < n && key == KeyOf(job, i);
      AssetKeyInjective(job.version, name, job.assets[i].name);
    }
  }

  // The store once the first k installer aliases have been replaced.
  function InstallUpTo(store: Store, job: Job, files: map<string, File>, k: nat): Store
    requires k <= |INSTALLER_NAMES| && forall i | 0 <= i < k :: InstallerReady(job, files, i)
  {
    if k == 0 then store
    else
      assert InstallerReady(job, files, k - 1);
      var name := INSTALLER_NAMES[k - 1];
      var at := FindAsset(job.assets, name);
      Put(InstallUpTo(store, job, files, k - 1), InstallerKey(name), files[name], job.assets[at.value].sha256)
  }

  ghost predicate SameExceptInstallers(before: Store, after: Store) {
    forall key | (forall i | 0 <= i < |INSTALLER_NAMES| :: key != InstallerKey(INSTALLER_NAMES[i])) ::
      (key in before <==> key in after) && (key in before ==> after[key] == before[key])
  }

  // The store once the first k channel pointers have been advanced.
  function AdvanceUpTo(store: Store, job: Job, k: nat): Store
    requires k <= |Channels(job)|
  {
    if k == 0 then store
    else Put(AdvanceUpTo(store, job, k - 1), ChannelKey(Channels(job)[k - 1]), ManifestFile(job),
      Sha256(ManifestFile(job)))
  }

  // The store after release.json, the installers and the channels have been written.
  function Pointed(store: Store, job: Job, files: map<string, File>): Store
    requires !job.prerelease ==> forall k | 0 <= k < |INSTALLER_NAMES| :: InstallerReady(job, files, k)
  {
    var listed := PutIfAbsent(store, ManifestKey(job.version), ManifestFile(job), Sha256(ManifestFile(job)));
    var installed := if job.prerelease then listed else InstallUpTo(listed, job, files, |INSTALLER_NAMES|);
    AdvanceUpTo(installed, job, |Channels(job)|)
  }

  // The store after a successful finalize run.
  function PublishedStore(store: Store, job: Job, files: map<string, File>): Store
    requires CanPublish(store, job, files)
  {
    Pointed(FillUpTo(store, job, files, |job.assets|), job, files)
  }

  ghost predicate SameChannels(before: Store, after: Store) {
    forall c: string :: (ChannelKey(c) in before <==> ChannelKey(c) in after)
      && (ChannelKey(c) in before ==> after[ChannelKey(c)] == before[ChannelKey(c)])
  }

  // ---------------------------------------------------------------- the condition, key by key

  // The object that should hold an asset does, or can still be written from the download.
  predicate AssetSettled(store: Store, job: Job, files: map<string, File>, a: Asset) {
    var key := "codex/releases/" + job.version + "/" + a.name;
    if key in store then Size(store[key].file) == a.size && store[key].sha256 == a.sha256
    else a.name in files && Size(files[a.name]) == a.size && Sha256(files[a.name]) == a.sha256
  }

  // release.json is free or was written by a run with this version and these assets.
  predicate ManifestSettled(store: Store, job: Job) {
    var key := "codex/releases/" + job.version + "/release.json";
    key in store ==> Lists(store[key].sha256.of, job) && Size(store[key].file) == Size(store[key].sha256.of)
  }

  // the release.json of this version and these assets
  predicate Lists(file: File, job: Job) {
    && file.ReleaseJson?
    && file.tag == "rust-v" + job.version
    && |file.entries| == |job.assets|
    && forall i | 0 <= i < |file.entries| :: file.entries[i] == Entry(job.assets[i].name, job.assets[i].sha256)
  }

  // The release has this installer among its assets, and its download is the asset.
  predicate InstallerSettled(job: Job, files: map<string, File>, name: string) {
    && name in files
    && exists i | 0 <= i < |job.assets| ::
        job.assets[i].name == name && job.assets[i].size == Size(files[name])
        && job.assets[i].sha256 == Sha256(files[name])
  }

  lemma FoundAsset(assets: seq<Asset>, i: nat)
    requires Distinguished(assets) && i < |assets|
    ensures FindAsset(assets, assets[i].name) == Some(i)
  {
    FindsLast(assets, i);
    assert forall j, k | 0 <= j < k < |assets| :: assets[j].name != assets[k].name;
  }

  lemma {:induction false} FindsLast(assets: seq<Asset>, i: nat)
    requires i < |assets|
    ensures FindAsset(assets, assets[i].name).Some? && i <= FindAsset(assets, assets[i].name).value
  {
    if i < |assets| - 1 { FindsLast(assets[..|assets| - 1], i); }
  }

  lemma InstallerReadyMeaning(job: Job, files: map<string, File>, k: nat)
    requires Distinguished(job.assets) && k < |INSTALLER_NAMES|
    ensures InstallerReady(job, files, k) <==> InstallerSettled(job, files, INSTALLER_NAMES[k])
  {
    var name := INSTALLER_NAMES[k];
    if InstallerSettled(job, files, name) {
      var i :| 0 <= i < |job.assets| && job.assets[i].name == name && job.assets[i].size == Size(files[name])
        && job.assets[i].sha256 == Sha256(files[name]);
      FoundAsset(job.assets, i);
    }
  }

  lemma ListsOne(file: File, job: Job)
    ensures Lists(file, job) <==> file == ManifestFile(job)
  {
    if Lists(file, job) { assert file.entries == ManifestFile(job).entries; }
  }

  // The condition of success says, of each object and download, what a reader of the bucket would look for.
  lemma CanPublishMeaning(store: Store, job: Job, files: map<string, File>)
    requires Distinguished(job.assets)
    ensures CanPublish(store, job, files) <==>
      && (forall i | 0 <= i < |job.assets| :: AssetSettled(store, job, files, job.assets[i]))
      && ManifestSettled(store, job)
      && (job.prerelease
          || (InstallerSettled(job, files, "install.sh") && InstallerSettled(job, files, "install.ps1")))
  {
    assert INSTALLER_NAMES[0] == "install.sh" && INSTALLER_NAMES[1] == "install.ps1";
    InstallerReadyMeaning(job, files, 0);
    InstallerReadyMeaning(job, files, 1);
    ManifestPlaceableMeaning(store, job);
    hide InstallerReady, InstallerSettled, ManifestPlaceable, ManifestSettled;
    assert forall i | 0 <= i < |job.assets| ::
      Placeable(store, job, files, i) <==> AssetSettled(store, job, files, job.assets[i]);
  }

  lemma ManifestPlaceableMeaning(store: Store, job: Job)
    ensures ManifestPlaceable(store, job) <==> ManifestSettled(store, job)
  {
    var key := ManifestKey(job.version);
    assert key == "codex/releases/" + job.version + "/release.json";
    if key in store { ListsOne(store[key].sha256.of, job); }
  }

  // ---------------------------------------------------------------- the result, key by key

  predicate SameAt(before: Store, after: Store, key: string) {
    (key in after <==> key in before) && (key in before ==> after[key] == before[key])
  }

  predicate HoldsManifest(store: Store, key: string, job: Job) {
    key in store && Lists(store[key].file, job) && store[key].sha256 == Sha256(store[key].file)
  }

  // What the bucket holds under one key when the run has succeeded.
  ghost predicate HoldsAsset(before: Store, after: Store, job: Job, files: map<string, File>, a: Asset) {
    var key := "codex/releases/" + job.version + "/" + a.name;
    && key in after && after[key].sha256 == a.sha256 && Size(after[key].file) == a.size
    && if key in before then after[key] == before[key] else a.name in files && after[key].file == files[a.name]
  }

  // The manifest was there already, going by its attached digest, or has been written.
  predicate HoldsReleaseJson(before: Store, after: Store, job: Job) {
    var key := "codex/releases/" + job.version + "/release.json";
    if key in before then Lists(before[key].sha256.of, job) && SameAt(before, after, key)
    else HoldsManifest(after, key, job)
  }

  ghost predicate HoldsInstaller(after: Store, files: map<string, File>, name: string) {
    name in files && "codex/" + name in after
      && after["codex/" + name] == Object(files[name], Sha256(files[name]))
  }

  predicate Channel(job: Job, key: string) {
    (job.makeLatest && key == "codex/channels/latest") || (job.prerelease && key == "codex/channels/prerelease")
  }

  predicate Alias(job: Job, key: string) {
    !job.prerelease && (key == "codex/install.sh" || key == "codex/install.ps1")
  }

  predicate Versioned(job: Job, key: string) {
    || key == "codex/releases/" + job.version + "/release.json"
    || exists i | 0 <= i < |job.assets| :: key == "codex/releases/" + job.version + "/" + job.assets[i].name
  }

  ghost predicate ChannelsMoved(before: Store, after: Store, job: Job) {
    && (job.makeLatest ==> HoldsManifest(after, "codex/channels/latest", job))
    && (job.prerelease ==> HoldsManifest(after, "codex/channels/prerelease", job))
    && forall key | !Channel(job, key) :: SameAt(before, after, key)
  }

  // Every object of the release is in place, release.json lists them, the channels that the flags ask for and, for a
  // stable release, both installers are replaced, and nothing else has changed.
  ghost predicate Completed(before: Store, after: Store, job: Job, files: map<string, File>) {
    && (forall i | 0 <= i < |job.assets| :: HoldsAsset(before, after, job, files, job.assets[i]))
    && HoldsReleaseJson(before, after, job)
    && (!job.prerelease ==> HoldsInstaller(after, files, "install.sh") && HoldsInstaller(after, files, "install.ps1"))
    && (job.makeLatest ==> HoldsManifest(after, "codex/channels/latest", job))
    && (job.prerelease ==> HoldsManifest(after, "codex/channels/prerelease", job))
    && (forall key :: Versioned(job, key) || Alias(job, key) || Channel(job, key) || SameAt(before, after, key))
  }

  lemma AdvancedChannels(store: Store, job: Job)
    ensures ChannelsMoved(store, AdvanceUpTo(store, job, |Channels(job)|), job)
  {
    ListsOne(ManifestFile(job), job);
    hide ManifestFile, Lists;
    assert ChannelKey("latest") == "codex/channels/latest" && ChannelKey("prerelease") == "codex/channels/prerelease";
    assert ChannelKey("latest")[|"codex/channels/"|] == 'l' && ChannelKey("prerelease")[|"codex/channels/"|] == 'p';
    var pointer := Object(ManifestFile(job), Sha256(ManifestFile(job)));
    if job.makeLatest {
      assert AdvanceUpTo(store, job, 1) == store["codex/channels/latest" := pointer];
      if job.prerelease { assert Channels(job)[1] == "prerelease"; }
    } else if job.prerelease {
      assert AdvanceUpTo(store, job, 1) == store["codex/channels/prerelease" := pointer];
    }
  }

  lemma InstalledAliases(store: Store, job: Job, files: map<string, File>)
    requires forall k | 0 <= k < |INSTALLER_NAMES| :: InstallerReady(job, files, k)
    ensures var after := InstallUpTo(store, job, files, |INSTALLER_NAMES|);
      && HoldsInstaller(after, files, "install.sh") && HoldsInstaller(after, files, "install.ps1")
      && forall key | key != "codex/install.sh" && key != "codex/install.ps1" :: SameAt(store, after, key)
  {
    var sh, ps := INSTALLER_NAMES[0], INSTALLER_NAMES[1];
    assert InstallerReady(job, files, 0) && InstallerReady(job, files, 1);
    assert InstallerKey(sh) == "codex/install.sh" && InstallerKey(ps) == "codex/install.ps1";
    assert InstallerKey(sh)[|"codex/install."|] == 's' && InstallerKey(ps)[|"codex/install."|] == 'p';
    hide FindAsset, Size;
    assert InstallUpTo(store, job, files, 1) == store[InstallerKey(sh) := Object(files[sh], Sha256(files[sh]))];
  }

  lemma {:induction false} FilledAsset(store: Store, job: Job, files: map<string, File>, n: nat, i: nat)
    requires i < n <= |job.assets| && Distinguished(job.assets) && Placeable(store, job, files, i)
    ensures HoldsAsset(store, FillUpTo(store, job, files, n), job, files, job.assets[i])
  {
    assert KeyOf(job, i) == "codex/releases/" + job.version + "/" + job.assets[i].name;
    if i < n - 1 {
      FilledAsset(store, job, files, n - 1, i);
    } else {
      FillUpToApart(store, job, files, i, job.assets[i].name);
    }
  }

  // Everything behind the assets is written elsewhere.
  lemma PointedKeys(store: Store, job: Job, files: map<string, File>, key: string)
    requires !job.prerelease ==> forall k | 0 <= k < |INSTALLER_NAMES| :: InstallerReady(job, files, k)
    requires key != "codex/releases/" + job.version + "/release.json" && !Alias(job, key) && !Channel(job, key)
    ensures SameAt(store, Pointed(store, job, files), key)
  {
    var listed := PutIfAbsent(store, ManifestKey(job.version), ManifestFile(job), Sha256(ManifestFile(job)));
    var installed := if job.prerelease then listed else InstallUpTo(listed, job, files, |INSTALLER_NAMES|);
    if !job.prerelease { InstalledAliases(listed, job, files); }
    AdvancedChannels(installed, job);
    assert ManifestKey(job.version) == "codex/releases/" + job.version + "/release.json";
    hide InstallUpTo, AdvanceUpTo, ManifestKey, ManifestFile, InstallerReady, HoldsInstaller, HoldsManifest, Channels;
    assert SameAt(store, listed, key) && SameAt(listed, installed, key);
    assert SameAt(installed, Pointed(store, job, files), key);
  }

  lemma FilledKeys(store: Store, job: Job, files: map<string, File>, key: string)
    requires !Versioned(job, key)
    ensures SameAt(store, FillUpTo(store, job, files, |job.assets|), key)
  {
    FillUpToKeys(store, job, files, |job.assets|, key);
  }

  lemma VersionedApart(job: Job, key: string)
    requires Versioned(job, key)
    ensures !Alias(job, key) && !Channel(job, key)
  {
    assert key[|"codex/"|] == 'r';
  }

  lemma AliasesApart(job: Job)
    ensures !Channel(job, "codex/install.sh") && !Channel(job, "codex/install.ps1")
  {
    assert "codex/install.sh"[|"codex/"|] == 'i' && "codex/install.ps1"[|"codex/"|] == 'i';
    assert "codex/channels/latest"[|"codex/"|] == 'c' && "codex/channels/prerelease"[|"codex/"|] == 'c';
  }

  // release.json, the installers and the channels once they have been written
  lemma PointedPointers(store: Store, job: Job, files: map<string, File>)
    requires !job.prerelease ==> forall k | 0 <= k < |INSTALLER_NAMES| :: InstallerReady(job, files, k)
    ensures var after, key := Pointed(store, job, files), "codex/releases/" + job.version + "/release.json";
      && (if key in store then SameAt(store, after, key) else HoldsManifest(after, key, job))
      && (job.makeLatest ==> HoldsManifest(after, "codex/channels/latest", job))
      && (job.prerelease ==> HoldsManifest(after, "codex/channels/prerelease", job))
      && (!job.prerelease ==> HoldsInstaller(after, files, "install.sh") && HoldsInstaller(after, files, "install.ps1"))
  {
    var key, after := "codex/releases/" + job.version + "/release.json", Pointed(store, job, files);
    assert key == ManifestKey(job.version);
    var listed := PutIfAbsent(store, key, ManifestFile(job), Sha256(ManifestFile(job)));
    var installed := if job.prerelease then listed else InstallUpTo(listed, job, files, |INSTALLER_NAMES|);
    ListsOne(ManifestFile(job), job);
    VersionedApart(job, key);
    AliasesApart(job);
    if !job.prerelease { InstalledAliases(listed, job, files); }
    AdvancedChannels(installed, job);
    hide InstallUpTo, AdvanceUpTo, ManifestKey, ManifestFile, InstallerReady, Lists, Channels, Channel, RELEASE_PREFIX,
      InstallerKey;
    if !job.prerelease {
      assert key != "codex/install.sh" && key != "codex/install.ps1";
      assert SameAt(installed, after, "codex/install.sh") && SameAt(installed, after, "codex/install.ps1");
    }
    assert SameAt(listed, installed, key) && SameAt(installed, after, key);
  }

  lemma PublishedAsset(store: Store, job: Job, files: map<string, File>, i: nat)
    requires Distinguished(job.assets) && CanPublish(store, job, files) && i < |job.assets|
    ensures HoldsAsset(store, PublishedStore(store, job, files), job, files, job.assets[i])
  {
    var key := "codex/releases/" + job.version + "/" + job.assets[i].name;
    assert Placeable(store, job, files, i);
    FilledAsset(store, job, files, |job.assets|, i);
    VersionedApart(job, key);
    hide FillUpTo, Pointed, Versioned, Alias, Channel, InstallerReady, ManifestPlaceable, Placeable;
    assert AssetKey(job.version, RELEASE_METADATA_NAME) == "codex/releases/" + job.version + "/release.json";
    if key == AssetKey(job.version, RELEASE_METADATA_NAME) {
      AssetKeyInjective(job.version, job.assets[i].name, RELEASE_METADATA_NAME);
    }
    PointedKeys(FillUpTo(store, job, files, |job.assets|), job, files, key);
  }

  lemma PublishedManifest(store: Store, job: Job, files: map<string, File>)
    requires Distinguished(job.assets) && CanPublish(store, job, files)
    ensures HoldsReleaseJson(store, PublishedStore(store, job, files), job)
  {
    var filled := FillUpTo(store, job, files, |job.assets|);
    PointedPointers(filled, job, files);
    ManifestPlaceableMeaning(store, job);
    FillUpToApart(store, job, files, |job.assets|, RELEASE_METADATA_NAME);
    hide FillUpTo, Pointed, HoldsInstaller, Alias, Channel, InstallerReady, ManifestPlaceable, Placeable;
    assert ManifestKey(job.version) == "codex/releases/" + job.version + "/release.json";
    assert SameAt(store, filled, ManifestKey(job.version));
  }

  lemma PublishedOthers(store: Store, job: Job, files: map<string, File>, key: string)
    requires CanPublish(store, job, files)
    ensures Versioned(job, key) || Alias(job, key) || Channel(job, key) ||
      SameAt(store, PublishedStore(store, job, files), key)
  {
    if !Versioned(job, key) && !Alias(job, key) && !Channel(job, key) {
      FilledKeys(store, job, files, key);
      hide FillUpTo, Pointed, Alias, Channel, InstallerReady, ManifestPlaceable, Placeable;
      PointedKeys(FillUpTo(store, job, files, |job.assets|), job, files, key);
    }
  }

  // What a successful run leaves, key by key.
  lemma PublishedMeaning(store: Store, job: Job, files: map<string, File>)
    requires Distinguished(job.assets) && CanPublish(store, job, files)
    ensures Completed(store, PublishedStore(store, job, files), job, files)
  {
    PointedPointers(FillUpTo(store, job, files, |job.assets|), job, files);
    PublishedManifest(store, job, files);
    hide Distinguished, FillUpTo, Pointed, InstallerReady, ManifestPlaceable, Placeable, HoldsAsset, HoldsInstaller,
      HoldsManifest, HoldsReleaseJson, Versioned, Alias, Channel, SameAt;
    forall i | 0 <= i < |job.assets|
      ensures HoldsAsset(store, PublishedStore(store, job, files), job, files, job.assets[i])
    {
      PublishedAsset(store, job, files, i);
    }
    forall key
      ensures Versioned(job, key) || Alias(job, key) || Channel(job, key) ||
        SameAt(store, PublishedStore(store, job, files), key)
    {
      PublishedOthers(store, job, files, key);
    }
  }
}
