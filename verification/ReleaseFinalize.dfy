/** The finalize stage as one publisher executes it when nobody else writes to the store: an imperative run
    over a mutable object store, shown to be a run of the protocol and to succeed exactly when it can. */
module ReleaseFinalize {
  import opened Prelude
  import opened ReleaseStore
  import opened ReleaseMetadata
  import opened ReleaseProtocol
  import opened ReleasePublished

  datatype Remote = Absent | Same | Different

  class ObjectStore {
    var objects: Store

    constructor (objects: Store)
      ensures this.objects == objects
    {
      this.objects := objects;
    }

    method PutObject(key: string, file: File, sha256: Sha256, noOverwrite: bool)
      modifies this
      ensures objects == if noOverwrite then PutIfAbsent(old(objects), key, file, sha256)
        else Put(old(objects), key, file, sha256)
    {
      if !(noOverwrite && key in objects) {
        objects := objects[key := Object(file, sha256)];
      }
    }

    method VerifyRemote(key: string, size: nat, sha256: Sha256) returns (r: Remote)
      ensures r.Absent? <==> key !in objects
      ensures r.Same? <==> Matches(objects, key, size, sha256)
    {
      if key !in objects {
        return Absent;
      }
      var o := objects[key];
      r := if Size(o.file) == size && o.sha256 == sha256 then Same else Different;
    }
  }

  // A process after a sequence of its actions, with no one else writing.
  ghost function RunProcess(store: Store, p: Process, acts: seq<Action>): (Store, Process)
    decreases |acts|
  {
    if acts == [] then (store, p)
    else
      var last := |acts| - 1;
      var (s, q) := RunProcess(store, p, acts[..last]);
      Step(s, q, acts[last])
  }

  lemma RunOne(store: Store, p: Process, acts: seq<Action>, act: Action)
    ensures var (s, q) := RunProcess(store, p, acts); RunProcess(store, p, acts + [act]) == Step(s, q, act)
  {
    assert (acts + [act])[..|acts|] == acts;
  }

  lemma {:induction false} RunConcat(s: System, a: seq<Event>, b: seq<Event>)
    ensures Run(s, a + b) == Run(Run(s, a), b)
    decreases |a|
  {
    hide Next;
    if a == [] {
      assert a + b == b;
    } else {
      RunConcat(Next(s, a[0]), a[1..], b);
      assert (a + b)[0] == a[0] && (a + b)[1..] == a[1..] + b;
    }
  }

  lemma RunEvent(s: System, e: Event)
    ensures Run(s, [e]) == Next(s, e)
  {
    hide Next;
    assert [e][1..] == [];
    assert Run(Next(s, e), []) == Next(s, e);
  }

  // the events of one process: its start, and its actions one after the other
  function Alone(pid: nat, job: Job, acts: seq<Action>): seq<Event> {
    [Start(pid, job)] + seq(|acts|, i requires 0 <= i < |acts| => Act(pid, acts[i]))
  }

  // A process that acts alone is a run of the whole protocol.
  lemma {:induction false} AloneIsRun(store: Store, job: Job, acts: seq<Action>, pid: nat)
    ensures var s := Run(System(store, map[], []), Alone(pid, job, acts));
      pid in s.processes && (s.store, s.processes[pid]) == RunProcess(store, Begin(job), acts)
    decreases |acts|
  {
    var first := System(store, map[], []);
    if acts == [] {
      assert Alone(pid, job, acts) == [Start(pid, job)];
      RunEvent(first, Start(pid, job));
    } else {
      var last := |acts| - 1;
      AloneIsRun(store, job, acts[..last], pid);
      assert Alone(pid, job, acts) == Alone(pid, job, acts[..last]) + [Act(pid, acts[last])];
      RunConcat(first, Alone(pid, job, acts[..last]), [Act(pid, acts[last])]);
      RunEvent(Run(first, Alone(pid, job, acts[..last])), Act(pid, acts[last]));
      hide Run, Step, Sent, Alone, Begin;
    }
  }

  // `find_published_assets`: the sorted-out workers, or None when an object of that name differs.
  method FindPublished(store: ObjectStore, job: Job) returns (found: Option<seq<Worker>>, ghost acts: seq<Action>)
    requires job.stage.Finalize?
    ensures found.None? ==>
      exists i | 0 <= i < |job.assets| :: KeyOf(job, i) in store.objects && !Present(store.objects, job, i)
    ensures found.Some? ==> |found.value| == |job.assets|
    ensures found.Some? ==> forall i | 0 <= i < |job.assets| ::
      found.value[i] == (if KeyOf(job, i) in store.objects then Verified else Missing) &&
      (KeyOf(job, i) in store.objects ==> Present(store.objects, job, i))
    ensures RunProcess(store.objects, Begin(job), acts).0 == store.objects
    ensures found.None? ==> RunProcess(store.objects, Begin(job), acts).1.phase.Finding?
    ensures found.Some? ==> RunProcess(store.objects, Begin(job), acts).1 == Process(job, Filling, found.value)
  {
    var workers: seq<Worker> := seq(|job.assets|, _ => Queued);
    acts := [];
    for i := 0 to |job.assets|
      invariant |workers| == |job.assets|
      invariant forall j | 0 <= j < i ::
        workers[j] == (if KeyOf(job, j) in store.objects then Verified else Missing) &&
        (KeyOf(job, j) in store.objects ==> Present(store.objects, job, j))
      invariant forall j | i <= j < |workers| :: workers[j].Queued?
      invariant RunProcess(store.objects, Begin(job), acts) == (store.objects, Process(job, Finding, workers))
    {
      var asset := job.assets[i];
      var remote := store.VerifyRemote(AssetKey(job.version, asset.name), asset.size, asset.sha256);
      if remote.Different? {
        assert KeyOf(job, i) in store.objects && !Present(store.objects, job, i);
        return None, acts;
      }
      RunOne(store.objects, Begin(job), acts, Head(i, true));
      acts := acts + [Head(i, true)];
      workers := workers[i := if remote.Absent? then Missing else Verified];
    }
    RunOne(store.objects, Begin(job), acts, Join);
    acts := acts + [Join];
    found := Some(workers);
  }

  lemma FillNone(store: Store, job: Job, files: map<string, File>)
    ensures FillUpTo(store, job, files, 0) == store
  {
  }

  // Looking after the next asset: nothing to do when its key was taken from the start.
  lemma FillNext(store: Store, job: Job, files: map<string, File>, i: nat)
    requires i < |job.assets| && Distinguished(job.assets)
    ensures KeyOf(job, i) in FillUpTo(store, job, files, i) <==> KeyOf(job, i) in store
    ensures FillUpTo(store, job, files, i + 1) ==
      if KeyOf(job, i) !in store && Downloads(files, job.assets[i])
      then PutIfAbsent(FillUpTo(store, job, files, i), KeyOf(job, i), files[job.assets[i].name], job.assets[i].sha256)
      else FillUpTo(store, job, files, i)
  {
    FillUpToApart(store, job, files, i, job.assets[i].name);
    hide AssetKey, Downloads, Distinguished;
  }

  predicate AllFilesThere(workers: seq<Worker>, job: Job, files: map<string, File>)
    requires |workers| == |job.assets|
  {
    forall i | 0 <= i < |workers| :: workers[i].Missing? ==> job.assets[i].name in files
  }

  predicate MissingAreGood(workers: seq<Worker>, job: Job, files: map<string, File>)
    requires |workers| == |job.assets|
  {
    forall i | 0 <= i < |workers| :: workers[i].Missing? ==> Downloads(files, job.assets[i])
  }

  // `publish_asset`: validate the download, upload it under its versioned key, check the stored object.
  method PublishAsset(store: ObjectStore, job: Job, i: nat, file: File,
                      ghost start: Store, ghost p0: Process, ghost before: seq<Action>, ghost p: Process)
    returns (ok: bool, ghost acts: seq<Action>, ghost q: Process)
    requires p.job == job && i < |p.workers| && i < |job.assets| && p.phase.Filling? && p.workers[i].Missing?
    requires KeyOf(job, i) !in store.objects
    requires RunProcess(start, p0, before) == (store.objects, p)
    modifies store
    ensures ok <==> Validates(file, job.assets[i])
    ensures store.objects ==
      if ok then PutIfAbsent(old(store.objects), KeyOf(job, i), file, job.assets[i].sha256) else old(store.objects)
    ensures RunProcess(start, p0, acts) == (store.objects, q)
    ensures q == SetWorker(p, i, if ok then Verified else Broken)
  {
    RunOne(start, p0, before, Upload(i, file, Acknowledged));
    acts := before + [Upload(i, file, Acknowledged)];
    var asset := job.assets[i];
    if !Validates(file, asset) {
      return false, acts, SetWorker(p, i, Broken);
    }
    store.PutObject(AssetKey(job.version, asset.name), file, asset.sha256, true);
    var remote := store.VerifyRemote(AssetKey(job.version, asset.name), asset.size, asset.sha256);
    ok := remote.Same?;
    RunOne(start, p0, acts, Check(i, true));
    assert p.workers[i := Uploaded][i := Verified] == p.workers[i := Verified];
    acts, q := acts + [Check(i, true)], SetWorker(p, i, Verified);
  }

  lemma JoinVerified(start: Store, p0: Process, acts: seq<Action>, store: Store, p: Process)
    requires RunProcess(start, p0, acts) == (store, p) && p.phase.Filling? && AllAre(p.workers, {Verified})
    ensures RunProcess(start, p0, acts + [Join]) == (store, p.(phase := ManifestPut))
  {
    RunOne(start, p0, acts, Join);
  }

  // `publish_assets` on the remaining assets: every good download is uploaded and checked, even after a bad one.
  method PublishRemaining(store: ObjectStore, job: Job, files: map<string, File>, workers: seq<Worker>,
                          ghost start: Store, ghost before: seq<Action>)
    returns (ok: bool, ghost acts: seq<Action>, ghost p: Process)
    requires Distinguished(job.assets) && |workers| == |job.assets|
    requires forall i | 0 <= i < |workers| ::
      workers[i] == (if KeyOf(job, i) in store.objects then Verified else Missing)
    requires RunProcess(start, Begin(job), before) == (store.objects, Process(job, Filling, workers))
    modifies store
    ensures ok <==> MissingAreGood(workers, job, files)
    ensures store.objects ==
      if AllFilesThere(workers, job, files) then FillUpTo(old(store.objects), job, files, |workers|)
        else old(store.objects)
    ensures RunProcess(start, Begin(job), acts) == (store.objects, p)
    ensures p.job == job && p.phase == if ok then ManifestPut else Filling
  {
    acts, p := before, Process(job, Filling, workers);
    if !AllFilesThere(workers, job, files) {
      return false, acts, p;
    }
    ok, acts, p := PublishMissing(store, job, files, workers, start, before);
    hide RunProcess, FillUpTo, Distinguished, Downloads;
    if ok {
      JoinVerified(start, Begin(job), acts, store.objects, p);
      acts, p := acts + [Join], p.(phase := ManifestPut);
    }
  }

  // The upload workers one after the other.
  method PublishMissing(store: ObjectStore, job: Job, files: map<string, File>, workers: seq<Worker>,
                        ghost start: Store, ghost before: seq<Action>)
    returns (ok: bool, ghost acts: seq<Action>, ghost p: Process)
    requires Distinguished(job.assets) && |workers| == |job.assets| && AllFilesThere(workers, job, files)
    requires forall i | 0 <= i < |workers| ::
      workers[i] == (if KeyOf(job, i) in store.objects then Verified else Missing)
    requires RunProcess(start, Begin(job), before) == (store.objects, Process(job, Filling, workers))
    modifies store
    ensures ok <==> MissingAreGood(workers, job, files)
    ensures store.objects == FillUpTo(old(store.objects), job, files, |workers|)
    ensures RunProcess(start, Begin(job), acts) == (store.objects, p)
    ensures p.job == job && p.phase == Filling && (ok ==> AllAre(p.workers, {Verified}))
  {
    hide RunProcess, FillUpTo, Distinguished, Downloads, PutIfAbsent, KeyOf, Begin, Validates;
    ok, acts, p := true, before, Process(job, Filling, workers);
    ghost var first := store.objects;
    FillNone(first, job, files);
    for i := 0 to |workers|
      invariant ok <==> forall j | 0 <= j < i :: workers[j].Missing? ==> Downloads(files, job.assets[j])
      invariant store.objects == FillUpTo(first, job, files, i)
      invariant RunProcess(start, Begin(job), acts) == (store.objects, p)
      invariant p.job == job && p.phase == Filling && |p.workers| == |workers|
      invariant forall j | i <= j < |workers| :: p.workers[j] == workers[j]
      invariant ok ==> forall j | 0 <= j < i :: p.workers[j].Verified?
    {
      FillNext(first, job, files, i);
      DownloadsIs(files, job.assets[i]);
      if workers[i].Missing? {
        var published: bool;
        published, acts, p := PublishAsset(store, job, i, files[job.assets[i].name], start, Begin(job), acts, p);
        ok := ok && published;
      }
    }
  }

  lemma DownloadsIs(files: map<string, File>, a: Asset)
    ensures Downloads(files, a) <==> a.name in files && Validates(files[a.name], a)
  {
  }

  // `put_object` and `verify_remote` on release.json
  method PublishManifest(store: ObjectStore, job: Job, ghost start: Store, ghost p0: Process, ghost before: seq<Action>,
                         ghost p: Process)
    returns (ok: bool, ghost acts: seq<Action>, ghost q: Process)
    requires p.job == job && p.phase.ManifestPut?
    requires RunProcess(start, p0, before) == (store.objects, p)
    modifies store
    ensures ok <==> ManifestPlaceable(old(store.objects), job)
    ensures store.objects ==
      PutIfAbsent(old(store.objects), ManifestKey(job.version), ManifestFile(job), Sha256(ManifestFile(job)))
    ensures RunProcess(start, p0, acts) == (store.objects, q)
    ensures q == p.(phase := if ok then AfterManifest(job) else Aborted)
  {
    var manifest := ManifestFile(job);
    RunOne(start, p0, before, PutManifest(Acknowledged));
    store.PutObject(ManifestKey(job.version), manifest, Sha256(manifest), true);
    var remote := store.VerifyRemote(ManifestKey(job.version), Size(manifest), Sha256(manifest));
    ok := remote.Same?;
    RunOne(start, p0, before + [PutManifest(Acknowledged)], CheckManifest(true));
    acts := before + [PutManifest(Acknowledged)] + [CheckManifest(true)];
    q := p.(phase := if ok then AfterManifest(job) else Aborted);
  }

  // one alias: validate the download, replace the alias, check it
  method PublishInstaller(store: ObjectStore, job: Job, k: nat, files: map<string, File>,
                          ghost start: Store, ghost p0: Process, ghost before: seq<Action>, ghost p: Process)
    returns (ok: bool, ghost acts: seq<Action>, ghost q: Process)
    requires p.job == job && k < |INSTALLER_NAMES| && p.phase == InstallerPut(k)
    requires FindAsset(job.assets, INSTALLER_NAMES[k]).Some? && INSTALLER_NAMES[k] in files
    requires RunProcess(start, p0, before) == (store.objects, p)
    modifies store
    ensures ok <==> InstallerReady(job, files, k)
    ensures var name := INSTALLER_NAMES[k]; var at := FindAsset(job.assets, name).value;
      store.objects == if ok then Put(old(store.objects), InstallerKey(name), files[name], job.assets[at].sha256)
        else old(store.objects)
    ensures RunProcess(start, p0, acts) == (store.objects, q)
    ensures q ==
      p.(phase := if !ok then Aborted else if k + 1 < |INSTALLER_NAMES| then InstallerPut(k + 1) else FirstChannel(job))
  {
    var name := INSTALLER_NAMES[k];
    var asset, file := job.assets[FindAsset(job.assets, name).value], files[name];
    RunOne(start, p0, before, PutInstaller(file, Acknowledged));
    acts := before + [PutInstaller(file, Acknowledged)];
    if !Validates(file, asset) {
      return false, acts, p.(phase := Aborted);
    }
    store.PutObject(InstallerKey(name), file, asset.sha256, false);
    var remote := store.VerifyRemote(InstallerKey(name), asset.size, asset.sha256);
    ok := remote.Same?;
    RunOne(start, p0, acts, CheckInstaller(true));
    acts := acts + [CheckInstaller(true)];
    q := p.(phase := if k + 1 < |INSTALLER_NAMES| then InstallerPut(k + 1) else FirstChannel(job));
  }

  method PublishInstallers(store: ObjectStore, job: Job, files: map<string, File>,
                           ghost start: Store, ghost p0: Process, ghost before: seq<Action>, ghost p: Process)
    returns (ok: bool, ghost acts: seq<Action>, ghost q: Process)
    requires p.job == job && !job.prerelease && p.phase == AfterManifest(job)
    requires forall k | 0 <= k < |INSTALLER_NAMES| ::
      FindAsset(job.assets, INSTALLER_NAMES[k]).Some? ==> INSTALLER_NAMES[k] in files
    requires RunProcess(start, p0, before) == (store.objects, p)
    modifies store
    ensures ok <==> forall k | 0 <= k < |INSTALLER_NAMES| :: InstallerReady(job, files, k)
    ensures ok ==> store.objects == InstallUpTo(old(store.objects), job, files, |INSTALLER_NAMES|)
    ensures SameExceptInstallers(old(store.objects), store.objects)
    ensures RunProcess(start, p0, acts) == (store.objects, q)
    ensures q == p.(phase := if ok then FirstChannel(job) else Aborted)
  {
    acts, q := before, p;
    if exists i | 0 <= i < |INSTALLER_NAMES| :: FindAsset(job.assets, INSTALLER_NAMES[i]).None? {
      ghost var i :| 0 <= i < |INSTALLER_NAMES| && FindAsset(job.assets, INSTALLER_NAMES[i]).None?;
      assert !InstallerReady(job, files, i);
      return false, acts, q;
    }
    hide RunProcess, InstallUpTo, SameExceptInstallers;
    FirstInstaller(job);
    ok, acts, q := PublishEach(store, job, files, start, p0, before, p);
  }

  lemma FirstInstaller(job: Job)
    requires !job.prerelease && forall i | 0 <= i < |INSTALLER_NAMES| :: FindAsset(job.assets, INSTALLER_NAMES[i]).Some?
    ensures AfterManifest(job) == InstallerPut(0)
  {
  }

  // the loop over the installer names
  method PublishEach(store: ObjectStore, job: Job, files: map<string, File>,
                     ghost start: Store, ghost p0: Process, ghost before: seq<Action>, ghost p: Process)
    returns (ok: bool, ghost acts: seq<Action>, ghost q: Process)
    requires p.job == job && p.phase == InstallerPut(0)
    requires forall k | 0 <= k < |INSTALLER_NAMES| ::
      FindAsset(job.assets, INSTALLER_NAMES[k]).Some? && INSTALLER_NAMES[k] in files
    requires RunProcess(start, p0, before) == (store.objects, p)
    modifies store
    ensures ok <==> AllReady(job, files, |INSTALLER_NAMES|)
    ensures ok ==> store.objects == InstallUpTo(old(store.objects), job, files, |INSTALLER_NAMES|)
    ensures SameExceptInstallers(old(store.objects), store.objects)
    ensures RunProcess(start, p0, acts) == (store.objects, q)
    ensures q == p.(phase := if ok then FirstChannel(job) else Aborted)
  {
    hide RunProcess, FindAsset, FirstChannel, Put, InstallerReady, InstallUpTo, SameExceptInstallers, InstallerKey;
    acts, q := before, p;
    ghost var first := store.objects;
    InstallNone(first, job, files);
    for k := 0 to |INSTALLER_NAMES|
      invariant AllReady(job, files, k)
      invariant store.objects == InstallUpTo(first, job, files, k)
      invariant SameExceptInstallers(first, store.objects)
      invariant RunProcess(start, p0, acts) == (store.objects, q)
      invariant q == p.(phase := if k < |INSTALLER_NAMES| then InstallerPut(k) else FirstChannel(job))
    {
      ghost var installed := store.objects;
      var done: bool;
      done, acts, q := PublishInstaller(store, job, k, files, start, p0, acts, q);
      if !done {
        return false, acts, q;
      }
      InstallNext(first, job, files, k);
      AliasOnly(first, installed, k, files[INSTALLER_NAMES[k]],
        job.assets[FindAsset(job.assets, INSTALLER_NAMES[k]).value].sha256);
    }
    ok := true;
  }

  predicate AllReady(job: Job, files: map<string, File>, k: nat)
    requires k <= |INSTALLER_NAMES|
  {
    forall i | 0 <= i < k :: InstallerReady(job, files, i)
  }

  lemma InstallNone(store: Store, job: Job, files: map<string, File>)
    ensures InstallUpTo(store, job, files, 0) == store && SameExceptInstallers(store, store)
  {
  }

  lemma InstallNext(store: Store, job: Job, files: map<string, File>, k: nat)
    requires k < |INSTALLER_NAMES| && AllReady(job, files, k) && InstallerReady(job, files, k)
    ensures AllReady(job, files, k + 1)
    ensures InstallUpTo(store, job, files, k + 1) ==
      var name := INSTALLER_NAMES[k];
      Put(InstallUpTo(store, job, files, k), InstallerKey(name), files[name],
        job.assets[FindAsset(job.assets, name).value].sha256)
  {
    hide FindAsset, Put;
  }

  lemma AliasOnly(first: Store, store: Store, k: nat, file: File, sha256: Sha256)
    requires k < |INSTALLER_NAMES| && SameExceptInstallers(first, store)
    ensures SameExceptInstallers(first, Put(store, InstallerKey(INSTALLER_NAMES[k]), file, sha256))
  {
    hide InstallerKey;
  }

  // one channel: replace the pointer, check it
  method AdvanceChannel(store: ObjectStore, job: Job, k: nat, ghost start: Store, ghost p0: Process,
                        ghost before: seq<Action>, ghost p: Process)
    returns (ghost acts: seq<Action>, ghost q: Process)
    requires p.job == job && k < |Channels(job)| && p.phase == ChannelPut(k)
    requires RunProcess(start, p0, before) == (store.objects, p)
    modifies store
    ensures store.objects ==
      Put(old(store.objects), ChannelKey(Channels(job)[k]), ManifestFile(job), Sha256(ManifestFile(job)))
    ensures RunProcess(start, p0, acts) == (store.objects, q)
    ensures q == p.(phase := if k + 1 < |Channels(job)| then ChannelPut(k + 1) else Done)
  {
    var channel, manifest := Channels(job)[k], ManifestFile(job);
    RunOne(start, p0, before, PutChannel(Acknowledged));
    store.PutObject(ChannelKey(channel), manifest, Sha256(manifest), false);
    var remote := store.VerifyRemote(ChannelKey(channel), Size(manifest), Sha256(manifest));
    assert remote.Same?;
    RunOne(start, p0, before + [PutChannel(Acknowledged)], CheckChannel(true));
    acts := before + [PutChannel(Acknowledged)] + [CheckChannel(true)];
    q := p.(phase := if k + 1 < |Channels(job)| then ChannelPut(k + 1) else Done);
  }

  method AdvanceChannels(store: ObjectStore, job: Job, ghost start: Store, ghost p0: Process, ghost before: seq<Action>,
                         ghost p: Process)
    returns (ghost acts: seq<Action>, ghost q: Process)
    requires p.job == job && p.phase == FirstChannel(job)
    requires RunProcess(start, p0, before) == (store.objects, p)
    modifies store
    ensures store.objects == AdvanceUpTo(old(store.objects), job, |Channels(job)|)
    ensures ChannelsMoved(old(store.objects), store.objects, job)
    ensures RunProcess(start, p0, acts) == (store.objects, q)
    ensures q == p.(phase := Done)
  {
    acts, q := before, p;
    ghost var first := store.objects;
    AdvancedChannels(first, job);
    hide RunProcess, ManifestFile, ChannelKey, Put, Channels, ChannelsMoved;
    for k := 0 to |Channels(job)|
      invariant store.objects == AdvanceUpTo(first, job, k)
      invariant RunProcess(start, p0, acts) == (store.objects, q)
      invariant q == p.(phase := if k < |Channels(job)| then ChannelPut(k) else Done)
    {
      acts, q := AdvanceChannel(store, job, k, start, p0, acts, q);
    }
  }

  // stable runs also download installers that are in the store already
  predicate InstallersDownloaded(job: Job, files: map<string, File>) {
    job.prerelease || forall k | 0 <= k < |INSTALLER_NAMES| ::
      FindAsset(job.assets, INSTALLER_NAMES[k]).Some? ==> INSTALLER_NAMES[k] in files
  }

  lemma PlaceableMeans(store: Store, job: Job, files: map<string, File>, workers: seq<Worker>)
    requires |workers| == |job.assets|
    requires forall i | 0 <= i < |workers| ::
      workers[i] == (if KeyOf(job, i) in store then Verified else Missing)
        && (KeyOf(job, i) in store ==> Present(store, job, i))
    ensures MissingAreGood(workers, job, files) <==> forall i | 0 <= i < |job.assets| :: Placeable(store, job, files, i)
    ensures MissingAreGood(workers, job, files) ==> AllFilesThere(workers, job, files)
  {
    if MissingAreGood(workers, job, files) {
      forall i | 0 <= i < |job.assets| ensures Placeable(store, job, files, i) {
        if workers[i].Missing? { assert Downloads(files, job.assets[i]); }
      }
    } else {
      var i :| 0 <= i < |workers| && workers[i].Missing? && !Downloads(files, job.assets[i]);
      assert !Placeable(store, job, files, i);
    }
  }

  // Uploading assets touches neither release.json nor any channel.
  lemma FilledApart(store: Store, job: Job, files: map<string, File>)
    requires Distinguished(job.assets)
    ensures var after := FillUpTo(store, job, files, |job.assets|);
      && (ManifestPlaceable(after, job) <==> ManifestPlaceable(store, job))
      && SameChannels(store, after)
  {
    var after := FillUpTo(store, job, files, |job.assets|);
    FillUpToApart(store, job, files, |job.assets|, RELEASE_METADATA_NAME);
    forall c: string
      ensures ChannelKey(c) in store <==> ChannelKey(c) in after
      ensures ChannelKey(c) in store ==> after[ChannelKey(c)] == store[ChannelKey(c)]
    {
      FillUpToKeys(store, job, files, |job.assets|, ChannelKey(c));
      if ChannelKey(c) in after && ChannelKey(c) !in store {
        var i :| 0 <= i < |job.assets| && ChannelKey(c) == KeyOf(job, i);
        KeySpaces(job.version, job.assets[i].name, c);
      }
    }
  }

  lemma SameChannelsKept(before: Store, after: Store)
    requires SameExceptInstallers(before, after)
    ensures SameChannels(before, after)
  {
    forall c: string
      ensures ChannelKey(c) in before <==> ChannelKey(c) in after
      ensures ChannelKey(c) in before ==> after[ChannelKey(c)] == before[ChannelKey(c)]
    {
      KeySpaces("", "", c);
    }
  }

  lemma ManifestKeepsChannels(store: Store, job: Job)
    ensures SameChannels(store,
      PutIfAbsent(store, ManifestKey(job.version), ManifestFile(job), Sha256(ManifestFile(job))))
  {
    var after := PutIfAbsent(store, ManifestKey(job.version), ManifestFile(job), Sha256(ManifestFile(job)));
    forall c: string
      ensures ChannelKey(c) in store <==> ChannelKey(c) in after
      ensures ChannelKey(c) in store ==> after[ChannelKey(c)] == store[ChannelKey(c)]
    {
      KeySpaces(job.version, RELEASE_METADATA_NAME, c);
    }
  }

  // Up to the last asset: what is missing is downloaded, uploaded and checked.
  method FinalizeAssets(store: ObjectStore, job: Job, files: map<string, File>)
    returns (ok: bool, ghost acts: seq<Action>, ghost p: Process)
    requires job.stage.Finalize? && Distinguished(job.assets)
    modifies store
    ensures RunProcess(old(store.objects), Begin(job), acts) == (store.objects, p)
    ensures ok <==>
      InstallersDownloaded(job, files)
        && forall i | 0 <= i < |job.assets| :: Placeable(old(store.objects), job, files, i)
    ensures ok ==>
      store.objects == FillUpTo(old(store.objects), job, files, |job.assets|) && p.job == job && p.phase == ManifestPut
    ensures !ok ==> !p.phase.Done? && SameChannels(old(store.objects), store.objects)
  {
    ghost var first := store.objects;
    var found: Option<seq<Worker>>;
    found, acts := FindPublished(store, job);
    p := RunProcess(first, Begin(job), acts).1;
    hide RunProcess, FillUpTo, Distinguished, Downloads, Present, KeyOf, Begin, ManifestPlaceable;
    if found.None? {
      ghost var i :| 0 <= i < |job.assets| && KeyOf(job, i) in first && !Present(first, job, i);
      assert !Placeable(first, job, files, i);
      return false, acts, p;
    }
    if !InstallersDownloaded(job, files) {
      return false, acts, p;
    }
    hide InstallersDownloaded;
    ok, acts, p := PublishRemaining(store, job, files, found.value, first, acts);
    PlaceableMeans(first, job, files, found.value);
    FilledApart(first, job, files);
  }

  // From release.json on.
  method FinalizePointers(store: ObjectStore, job: Job, files: map<string, File>, ghost start: Store,
                          ghost before: seq<Action>, ghost p0: Process)
    returns (ok: bool, ghost acts: seq<Action>, ghost p: Process)
    requires p0.job == job && p0.phase == ManifestPut && InstallersDownloaded(job, files)
    requires RunProcess(start, Begin(job), before) == (store.objects, p0)
    modifies store
    ensures RunProcess(start, Begin(job), acts) == (store.objects, p)
    ensures ok <==>
      ManifestPlaceable(old(store.objects), job) && (job.prerelease || AllReady(job, files, |INSTALLER_NAMES|))
    ensures ok <==> p.phase.Done?
    ensures ok ==> store.objects == Pointed(old(store.objects), job, files)
    ensures !ok ==> SameChannels(old(store.objects), store.objects)
  {
    ghost var filled := store.objects;
    ok, acts, p := PublishManifest(store, job, start, Begin(job), before, p0);
    ManifestKeepsChannels(filled, job);
    hide RunProcess, FindAsset, FirstChannel, InstallerReady, InstallUpTo, AdvanceUpTo, Begin, ManifestPlaceable,
      PutIfAbsent, ManifestFile;
    if !ok {
      return false, acts, p;
    }
    if !job.prerelease {
      ghost var listed := store.objects;
      ok, acts, p := PublishInstallers(store, job, files, start, Begin(job), acts, p);
      SameChannelsKept(listed, store.objects);
      if !ok {
        return false, acts, p;
      }
    }
    acts, p := AdvanceChannels(store, job, start, Begin(job), acts, p);
  }

  // The finalize stage of `main`, alone on the store: every run of it is a run of the protocol, it succeeds
  // exactly when the store and the downloads allow it, and a failed run moves no channel.
  method Finalize(store: ObjectStore, job: Job, files: map<string, File>)
    returns (ok: bool, ghost acts: seq<Action>, ghost p: Process)
    requires job.stage.Finalize? && Distinguished(job.assets)
    modifies store
    ensures RunProcess(old(store.objects), Begin(job), acts) == (store.objects, p)
    ensures ok <==> CanPublish(old(store.objects), job, files)
    ensures ok <==> p.phase.Done?
    ensures ok ==> store.objects == PublishedStore(old(store.objects), job, files)
    ensures ok ==> Completed(old(store.objects), store.objects, job, files)
    ensures !ok ==> SameChannels(old(store.objects), store.objects)
  {
    ghost var first := store.objects;
    ok, acts, p := FinalizeAssets(store, job, files);
    FilledApart(first, job, files);
    ReadyIsDownloaded(job, files);
    if CanPublish(first, job, files) { PublishedMeaning(first, job, files); }
    hide RunProcess, FillUpTo, Distinguished, Placeable, InstallersDownloaded, InstallerReady, Pointed, Begin,
      ManifestPlaceable, Completed;
    if ok {
      ok, acts, p := FinalizePointers(store, job, files, first, acts, p);
    }
  }

  lemma ReadyIsDownloaded(job: Job, files: map<string, File>)
    ensures (!job.prerelease ==> forall k | 0 <= k < |INSTALLER_NAMES| :: InstallerReady(job, files, k)) ==>
      InstallersDownloaded(job, files)
  {
    hide FindAsset;
    if !job.prerelease && forall k | 0 <= k < |INSTALLER_NAMES| :: InstallerReady(job, files, k) {
      forall k | 0 <= k < |INSTALLER_NAMES| && FindAsset(job.assets, INSTALLER_NAMES[k]).Some?
        ensures INSTALLER_NAMES[k] in files {
        assert InstallerReady(job, files, k);
      }
    }
  }

  lemma {:induction false} RunProcessSafe(store: Store, p: Process, acts: seq<Action>)
    requires SafeStore(store) && ProcessOk(store, p)
    ensures var (after, q) := RunProcess(store, p, acts); SafeStore(after) && ProcessOk(after, q) && q.job == p.job
    decreases |acts|
  {
    if acts != [] {
      var last := |acts| - 1;
      hide SafeStore, ProcessOk, Step;
      RunProcessSafe(store, p, acts[..last]);
      var (s, q) := RunProcess(store, p, acts[..last]);
      StepSafe(s, q, acts[last]);
      StepDelivers(s, q, acts[last]);
    }
  }

  lemma BeginOk(store: Store, job: Job)
    requires job.stage.Finalize?
    ensures ProcessOk(store, Begin(job)) && Begin(job).job == job
  {
  }

  lemma {:induction false} AdvancedChannel(store: Store, job: Job, n: nat, k: nat)
    requires k < n <= |Channels(job)|
    ensures var key, after := ChannelKey(Channels(job)[k]), AdvanceUpTo(store, job, n);
      key in after && after[key].file == ManifestFile(job)
  {
    if k < n - 1 { AdvancedChannel(store, job, n - 1, k); }
  }

  // From a safe store, a successful run leaves a safe store with the release published, and every channel the
  // job asked for points to it.
  lemma PublishedStoreIsPublished(store: Store, job: Job, files: map<string, File>, acts: seq<Action>, p: Process)
    requires SafeStore(store) && job.stage.Finalize? && CanPublish(store, job, files)
    requires RunProcess(store, Begin(job), acts) == (PublishedStore(store, job, files), p) && p.phase.Done?
    ensures var after := PublishedStore(store, job, files);
      SafeStore(after) && Published(after, job)
        && forall k | 0 <= k < |Channels(job)| :: Backs(after, Channels(job)[k], job)
  {
    hide RunProcess, Begin, FillUpTo, InstallUpTo, SafeStore;
    BeginOk(store, job);
    RunProcessSafe(store, Begin(job), acts);
    var after := PublishedStore(store, job, files);
    forall k | 0 <= k < |Channels(job)| ensures Backs(after, Channels(job)[k], job) {
      var filled := FillUpTo(store, job, files, |job.assets|);
      var listed := PutIfAbsent(filled, ManifestKey(job.version), ManifestFile(job), Sha256(ManifestFile(job)));
      AdvancedChannel(if job.prerelease then listed else InstallUpTo(listed, job, files, |INSTALLER_NAMES|), job,
        |Channels(job)|, k);
    }
  }
}
