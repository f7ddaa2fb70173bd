/** Publication can always be taken up again: whatever publishers of either stage do and wherever they stop, a store
    that a finalize run could complete stays able to be completed, as long as what they write under its keys is what
    it would write there itself. */
module ReleaseRecovery {
  import opened Prelude
  import opened ReleaseStore
  import opened ReleaseMetadata
  import opened ReleaseProtocol
  import opened ReleasePublished
  import opened ReleaseFinalize

  // What another job writes under this job's keys are this job's assets and this job's release.json. An assets stage
  // may list fewer assets, since it writes no release.json.
  ghost predicate Fits(other: Job, job: Job) {
    && (forall at | 0 <= at < |other.assets| :: AssetFits(other, at, job))
    && (other.stage.Finalize? ==> ManifestFits(other, job))
  }

  ghost predicate AssetFits(other: Job, at: nat, job: Job)
    requires at < |other.assets|
  {
    || NotOurs(AssetKey(other.version, other.assets[at].name), job)
    || (other.version == job.version && other.assets[at] in job.assets)
  }

  ghost predicate ManifestFits(other: Job, job: Job) {
    NotOurs(ManifestKey(other.version), job) || (other.version == job.version && other.assets == job.assets)
  }

  ghost predicate NotOurs(key: string, job: Job) {
    key != ManifestKey(job.version) && forall i | 0 <= i < |job.assets| :: key != KeyOf(job, i)
  }

  // Every versioned key of the job is free or holds what the job would put there.
  ghost predicate Open(store: Store, job: Job) {
    && (forall i | 0 <= i < |job.assets| :: Present(store, job, i) || KeyOf(job, i) !in store)
    && ManifestPlaceable(store, job)
  }

  // Keys of the job are distinct from each other.
  lemma KeysApart(job: Job, i: nat, j: nat)
    requires Distinguished(job.assets) && i < |job.assets| && j < |job.assets|
    ensures KeyOf(job, i) == KeyOf(job, j) ==> i == j
    ensures KeyOf(job, i) != ManifestKey(job.version)
  {
    if KeyOf(job, i) == KeyOf(job, j) { AssetKeyInjective(job.version, job.assets[i].name, job.assets[j].name); }
    if KeyOf(job, i) == ManifestKey(job.version) {
      AssetKeyInjective(job.version, job.assets[i].name, RELEASE_METADATA_NAME);
    }
  }

  lemma ElsewhereOpen(before: Store, after: Store, job: Job, key: string)
    requires Open(before, job) && NotOurs(key, job)
      && forall k | k != key :: (k in after <==> k in before) && (k in before ==> after[k] == before[k])
    ensures Open(after, job)
  {
    forall i | 0 <= i < |job.assets| ensures Present(after, job, i) || KeyOf(job, i) !in after {
      assert KeyOf(job, i) != key;
    }
  }

  lemma AssetOpen(store: Store, job: Job, at: nat, file: File)
    requires Open(store, job) && Distinguished(job.assets) && at < |job.assets| && Validates(file, job.assets[at])
    ensures Open(PutIfAbsent(store, KeyOf(job, at), file, job.assets[at].sha256), job)
  {
    var after := PutIfAbsent(store, KeyOf(job, at), file, job.assets[at].sha256);
    forall i | 0 <= i < |job.assets| ensures Present(after, job, i) || KeyOf(job, i) !in after {
      KeysApart(job, at, i);
    }
    KeysApart(job, at, at);
  }

  lemma ManifestOpen(store: Store, job: Job)
    requires Open(store, job) && Distinguished(job.assets)
    ensures Open(PutIfAbsent(store, ManifestKey(job.version), ManifestFile(job), Sha256(ManifestFile(job))), job)
  {
    var after := PutIfAbsent(store, ManifestKey(job.version), ManifestFile(job), Sha256(ManifestFile(job)));
    forall i | 0 <= i < |job.assets| ensures Present(after, job, i) || KeyOf(job, i) !in after {
      KeysApart(job, i, i);
    }
  }

  lemma PointerNotOurs(key: string, job: Job)
    requires !IsReleaseKey(key)
    ensures NotOurs(key, job)
  {
    KeySpaces(job.version, RELEASE_METADATA_NAME, "");
    forall i | 0 <= i < |job.assets| ensures key != KeyOf(job, i) { KeySpaces(job.version, job.assets[i].name, ""); }
  }

  // Only finalizing jobs write release.json.
  ghost predicate RequestFits(r: Request, job: Job) {
    Fits(r.job, job) && (r.ForManifest? ==> r.job.stage.Finalize?)
  }

  // A request of a fitting job leaves the job's keys free or right, whenever it takes effect.
  lemma DeliverOpen(store: Store, r: Request, job: Job)
    requires Open(store, job) && Distinguished(job.assets) && RequestShape(r) && RequestFits(r, job)
    ensures Open(Deliver(store, r), job)
  {
    match r
    case ForAsset(other, at, file) =>
      assert AssetFits(other, at, job);
      hide Open, Distinguished, NotOurs, Validates, IsReleaseKey;
      if NotOurs(AssetKey(other.version, other.assets[at].name), job) {
        ElsewhereOpen(store, Deliver(store, r), job, AssetKey(other.version, other.assets[at].name));
      } else {
        var i :| 0 <= i < |job.assets| && job.assets[i] == other.assets[at];
        AssetOpen(store, job, i, file);
      }
    case ForManifest(other) =>
      hide Open, Distinguished, NotOurs, Validates, IsReleaseKey;
      if NotOurs(ManifestKey(other.version), job) {
        ElsewhereOpen(store, Deliver(store, r), job, ManifestKey(other.version));
      } else {
        ManifestOpen(store, job);
      }
    case ForInstaller(other, k, at, file) =>
      hide Open, Distinguished, NotOurs, Validates, IsReleaseKey;
      KeySpaces("", "", "");
      PointerNotOurs(InstallerKey(INSTALLER_NAMES[k]), job);
      ElsewhereOpen(store, Deliver(store, r), job, InstallerKey(INSTALLER_NAMES[k]));
    case ForChannel(other, channel) =>
      hide Open, Distinguished, NotOurs, Validates, IsReleaseKey;
      KeySpaces("", "", channel);
      PointerNotOurs(ChannelKey(channel), job);
      ElsewhereOpen(store, Deliver(store, r), job, ChannelKey(channel));
  }

  ghost predicate AllFit(s: System, job: Job) {
    && (forall pid | pid in s.processes :: Fits(s.processes[pid].job, job))
    && forall k | 0 <= k < |s.requests| :: RequestFits(s.requests[k], job)
  }

  // A process of the assets stage never gets as far as release.json.
  lemma SentFits(store: Store, p: Process, act: Action, job: Job)
    requires ProcessOk(store, p) && Sent(p, act).Some? && Fits(p.job, job)
    ensures RequestFits(Sent(p, act).value, job)
  {
    hide Fits, Stored, Published;
  }

  lemma NextOpen(s: System, e: Event, job: Job)
    requires Safe(s) && Open(s.store, job) && Distinguished(job.assets) && AllFit(s, job)
    requires e.Start? ==> Fits(e.job, job)
    ensures Open(Next(s, e).store, job) && AllFit(Next(s, e), job)
  {
    if e.Act? && e.pid in s.processes {
      var p := s.processes[e.pid];
      StepDelivers(s.store, p, e.action);
      if Sent(p, e.action).Some? {
        SentFits(s.store, p, e.action, job);
        DeliverOpen(s.store, Sent(p, e.action).value, job);
      }
      hide Open, RequestFits, Fits, Safe, Step, Sent, Deliver;
    } else if e.Late? && e.request < |s.requests| && RequestShape(s.requests[e.request]) {
      DeliverOpen(s.store, s.requests[e.request], job);
      hide Open, RequestFits, Fits, Safe, Deliver;
    } else {
      hide Open, RequestFits, Fits, Safe;
    }
  }

  lemma {:induction false} RunOpen(s: System, events: seq<Event>, job: Job)
    requires Safe(s) && Open(s.store, job) && Distinguished(job.assets) && AllFit(s, job)
    requires forall k | 0 <= k < |events| :: events[k].Start? ==> Fits(events[k].job, job)
    ensures Open(Run(s, events).store, job)
    decreases |events|
  {
    hide Safe, Open, Fits, AllFit, Next;
    if events != [] {
      NextOpen(s, events[0], job);
      NextSafe(s, events[0]);
      RunOpen(Next(s, events[0]), events[1..], job);
    }
  }

  lemma CanPublishMeans(store: Store, job: Job, files: map<string, File>)
    ensures CanPublish(store, job, files) <==>
      && Open(store, job)
      && (forall i | 0 <= i < |job.assets| :: KeyOf(job, i) !in store ==> Downloads(files, job.assets[i]))
      && (!job.prerelease ==> forall k | 0 <= k < |INSTALLER_NAMES| :: InstallerReady(job, files, k))
  {
    hide Matches, ManifestPlaceable, Downloads, InstallerReady, KeyOf;
    if CanPublish(store, job, files) {
      forall i | 0 <= i < |job.assets| ensures Present(store, job, i) || KeyOf(job, i) !in store {
        assert Placeable(store, job, files, i);
      }
      forall i | 0 <= i < |job.assets| && KeyOf(job, i) !in store ensures Downloads(files, job.assets[i]) {
        assert Placeable(store, job, files, i);
        PresentIsStored(store, job, i);
      }
    }
  }

  lemma PresentIsStored(store: Store, job: Job, i: nat)
    requires i < |job.assets|
    ensures Present(store, job, i) ==> KeyOf(job, i) in store
  {
  }

  // If a finalize run could succeed, it still could after any events of fitting publishers, crashes and late requests
  // included.
  lemma RerunCanPublish(s: System, events: seq<Event>, job: Job, files: map<string, File>)
    requires Safe(s) && AllFit(s, job) && Distinguished(job.assets) && CanPublish(s.store, job, files)
    requires forall k | 0 <= k < |events| :: events[k].Start? ==> Fits(events[k].job, job)
    ensures CanPublish(Run(s, events).store, job, files)
  {
    hide Safe, AllFit, Distinguished, CanPublish, Open, Fits, Downloads, InstallerReady, Run;
    CanPublishMeans(s.store, job, files);
    RunSafe(s, events);
    RunOpen(s, events, job);
    var after := Run(s, events).store;
    forall i | 0 <= i < |job.assets| && KeyOf(job, i) !in after ensures KeyOf(job, i) !in s.store {
      KeySpaces(job.version, job.assets[i].name, "");
    }
    CanPublishMeans(after, job, files);
  }

  // The two stages of one release fit: what the assets stage was shown as uploaded, the finalize stage is shown too.
  lemma StagesFit(early: Job, job: Job, shown: seq<Listed>, list: seq<Listed>)
    requires early.stage.Assets? && AcceptedAs(shown, Assets, early.assets)
    requires job.stage.Finalize? && AcceptedAs(list, Finalize, job.assets) && early.version == job.version
    requires forall i | 0 <= i < |shown| && Contributes(shown, Assets, i) :: shown[i] in list
    ensures Fits(early, job) && Distinguished(job.assets)
  {
    MetadataNames(list, Finalize, job.assets);
    forall at | 0 <= at < |early.assets| ensures AssetFits(early, at, job) {
      assert early.assets[at] in early.assets;
      var i :| 0 <= i < |shown| && Contributes(shown, Assets, i) && early.assets[at] == ToAsset(shown[i]);
      var k :| 0 <= k < |list| && list[k] == shown[i];
      assert Contributes(list, Finalize, k);
    }
  }

  // A job of another version fits too.
  lemma OtherVersionFits(other: Job, job: Job)
    requires other.version != job.version && '/' !in other.version && '/' !in job.version
    ensures Fits(other, job)
  {
    hide NotOurs;
    forall at | 0 <= at < |other.assets| ensures AssetFits(other, at, job) {
      OtherVersionKey(other.version, other.assets[at].name, job);
    }
    OtherVersionKey(other.version, RELEASE_METADATA_NAME, job);
  }

  lemma OtherVersionKey(version: string, name: string, job: Job)
    requires version != job.version && '/' !in version && '/' !in job.version
    ensures NotOurs(AssetKey(version, name), job)
  {
    VersionInKey(version, name, job.version, RELEASE_METADATA_NAME);
    forall i | 0 <= i < |job.assets| ensures AssetKey(version, name) != KeyOf(job, i) {
      VersionInKey(version, name, job.version, job.assets[i].name);
    }
  }

  // A version without a slash is what a key holds up to its next slash.
  lemma VersionInKey(v: string, a: string, w: string, b: string)
    requires v != w && '/' !in v && '/' !in w
    ensures AssetKey(v, a) != AssetKey(w, b)
  {
    var x, y, n := AssetKey(v, a), AssetKey(w, b), |RELEASE_PREFIX|;
    if x == y {
      assert x[n..] == v + ("/" + a) && y[n..] == w + ("/" + b);
      SlashEndsVersion(v, "/" + a, w, "/" + b);
    }
  }

  lemma SlashEndsVersion(v: string, x: string, w: string, y: string)
    requires v + x == w + y && x != "" && y != "" && x[0] == '/' && y[0] == '/' && '/' !in v && '/' !in w
    ensures v == w
  {
    if |v| < |w| { SlashInside(v, x, w, y); }
    if |w| < |v| { SlashInside(w, y, v, x); }
    assert (v + x)[..|v|] == v && (w + y)[..|w|] == w;
  }

  lemma SlashInside(v: string, x: string, w: string, y: string)
    requires v + x == w + y && x != "" && x[0] == '/' && |v| < |w|
    ensures '/' in w
  {
    assert (v + x)[|v|] == '/' && (w + y)[|v|] == w[|v|];
  }
}
