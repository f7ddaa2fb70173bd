/** A publisher that has failed stays failed, and one that is done stays done: no later action of its own or of others
    changes that. */
module ReleaseFailure {
  import opened Prelude
  import opened ReleaseStore
  import opened ReleaseMetadata
  import opened ReleaseProtocol
  import opened ReleasePublished

  predicate BeforeManifest(phase: Phase) {
    phase.Uploading? || phase.Finding? || phase.Filling?
  }

  // It stopped, or one of its upload workers failed and the others can only finish.
  predicate Failed(p: Process) {
    p.phase.Aborted? || (BeforeManifest(p.phase) && exists i | 0 <= i < |p.workers| :: p.workers[i].Broken?)
  }

  // The object under this key is the expected one, as far as its size and attached digest tell.
  predicate Agrees(store: Store, key: string, size: nat, sha256: Sha256) {
    key in store && Size(store[key].file) == size && store[key].sha256 == sha256
  }

  // The action inspects an object that the process waits for.
  predicate Inspects(p: Process, act: Action) {
    match act
    case Head(i, _) => p.phase.Finding? && i < |p.workers| && i < |p.job.assets| && p.workers[i].Queued?
    case Check(i, _) => p.phase.Filling? && i < |p.workers| && i < |p.job.assets| && p.workers[i].Uploaded?
    case CheckManifest(_) => p.phase.ManifestCheck?
    case CheckInstaller(_) => p.phase.InstallerCheck? && p.phase.i < |INSTALLER_NAMES|
    case CheckChannel(_) => p.phase.ChannelCheck? && p.phase.i < |Channels(p.job)|
    case _ => false
  }

  // It finds what it should; an absent asset is fine when it has not been uploaded yet.
  predicate Finds(store: Store, p: Process, act: Action)
    requires Inspects(p, act)
  {
    match act
    case Head(i, healthy) =>
      var a := p.job.assets[i];
      var key := AssetKey(p.job.version, a.name);
      healthy && (key !in store || Agrees(store, key, a.size, a.sha256))
    case Check(i, healthy) =>
      var a := p.job.assets[i];
      healthy && Agrees(store, AssetKey(p.job.version, a.name), a.size, a.sha256)
    case CheckManifest(healthy) =>
      healthy && Agrees(store, ManifestKey(p.job.version), Size(ManifestFile(p.job)), Sha256(ManifestFile(p.job)))
    case CheckInstaller(healthy) =>
      var at := FindAsset(p.job.assets, INSTALLER_NAMES[p.phase.i]);
      healthy && at.Some? && Agrees(store, InstallerKey(INSTALLER_NAMES[p.phase.i]), p.job.assets[at.value].size,
        p.job.assets[at.value].sha256)
    case CheckChannel(healthy) =>
      healthy && Agrees(store, ChannelKey(Channels(p.job)[p.phase.i]), Size(ManifestFile(p.job)),
        Sha256(ManifestFile(p.job)))
  }

  predicate Unanswered(act: Action) {
    match act
    case Upload(_, _, o) => !o.Acknowledged?
    case PutManifest(o) => !o.Acknowledged?
    case PutInstaller(_, o) => !o.Acknowledged?
    case PutChannel(o) => !o.Acknowledged?
    case _ => false
  }

  lemma WorkerFails(p: Process, i: nat)
    requires i < |p.workers| && BeforeManifest(p.phase)
    ensures Failed(SetWorker(p, i, Broken))
  {
    assert SetWorker(p, i, Broken).workers[i].Broken?;
  }

  // A write that is not acknowledged is a failure, whether it took effect or not.
  lemma UnansweredFails(store: Store, p: Process, act: Action)
    requires Sent(p, act).Some? && Unanswered(act)
    ensures Failed(Step(store, p, act).1)
  {
    if act.Upload? { WorkerFails(p, act.worker); }
    hide Validates, FindAsset, Matches, Failed;
    if !act.Upload? { assert Step(store, p, act).1.phase.Aborted?; AbortedFailed(Step(store, p, act).1); }
  }

  lemma AbortedFailed(p: Process)
    requires p.phase.Aborted?
    ensures Failed(p)
  {
  }

  // a stable release without one of the installers
  predicate LacksInstaller(job: Job) {
    !job.prerelease && (Lacks(job.assets, "install.sh") || Lacks(job.assets, "install.ps1"))
  }

  predicate Lacks(assets: seq<Asset>, name: string) {
    forall i | 0 <= i < |assets| :: assets[i].name != name
  }

  lemma LackingStops(job: Job)
    ensures AfterManifest(job).Aborted? <==> LacksInstaller(job)
  {
    assert INSTALLER_NAMES[0] == "install.sh" && INSTALLER_NAMES[1] == "install.ps1";
    forall k | 0 <= k < |INSTALLER_NAMES|
      ensures FindAsset(job.assets, INSTALLER_NAMES[k]).None? <==> Lacks(job.assets, INSTALLER_NAMES[k])
    {
      if i :| 0 <= i < |job.assets| && job.assets[i].name == INSTALLER_NAMES[k] { FindsLast(job.assets, i); }
    }
    hide FindAsset, Lacks;
  }

  // So is an inspection that finds anything else than what was to be there; and a stable release without its
  // installers fails once release.json is in place.
  lemma InspectionFails(store: Store, p: Process, act: Action)
    requires Inspects(p, act) && !Failed(p)
    ensures Failed(Step(store, p, act).1) <==>
      !Finds(store, p, act) || (act.CheckManifest? && LacksInstaller(p.job))
  {
    LackingStops(p.job);
    hide LacksInstaller;
    if act.Head? || act.Check? {
      WorkerFails(p, act.worker);
      var q := Step(store, p, act).1;
      assert Finds(store, p, act) ==> forall j | 0 <= j < |q.workers| :: !q.workers[j].Broken?;
    }
    hide FindAsset, AfterManifest, FirstChannel;
  }

  // The action is about to upload a download that is not the listed asset.
  predicate UploadsOther(p: Process, act: Action) {
    match act
    case Upload(i, file, _) =>
      && i < |p.workers| && i < |p.job.assets|
      && ((p.phase.Uploading? && p.workers[i].Queued?) || (p.phase.Filling? && p.workers[i].Missing?))
      && !(Size(file) == p.job.assets[i].size && Sha256(file) == p.job.assets[i].sha256)
    case PutInstaller(file, _) =>
      && p.phase.InstallerPut? && p.phase.i < |INSTALLER_NAMES|
      && (var at := FindAsset(p.job.assets, INSTALLER_NAMES[p.phase.i]);
          at.None? || !(Size(file) == p.job.assets[at.value].size && Sha256(file) == p.job.assets[at.value].sha256))
    case _ => false
  }

  // Nothing is written then, and the process has failed.
  lemma OtherDownloadFails(store: Store, p: Process, act: Action)
    requires UploadsOther(p, act)
    ensures Step(store, p, act).0 == store && Failed(Step(store, p, act).1)
  {
    if act.Upload? { WorkerFails(p, act.worker); }
    hide FindAsset, Size;
  }

  // A failed process takes no way back.
  lemma FailedStays(store: Store, p: Process, act: Action)
    requires Failed(p)
    ensures Failed(Step(store, p, act).1)
  {
    var q := Step(store, p, act).1;
    if !p.phase.Aborted? {
      var i :| 0 <= i < |p.workers| && p.workers[i].Broken?;
      if act.Head? || act.Upload? || act.Check? {
        hide Matches, Validates;
        assert q.phase == p.phase && |q.workers| == |p.workers| && q.workers[i].Broken?;
      } else {
        assert p.workers[i] !in {Uploaded} && p.workers[i] !in {Missing, Verified} && p.workers[i] !in {Verified};
        assert JoinStep(p) == p;
      }
    }
  }

  // Over every run: a process that has failed is never done.
  lemma {:induction false} FailedNeverDone(s: System, events: seq<Event>, pid: nat)
    requires pid in s.processes && Failed(s.processes[pid])
    ensures pid in Run(s, events).processes && Failed(Run(s, events).processes[pid])
    ensures !Run(s, events).processes[pid].phase.Done?
    decreases |events|
  {
    if events != [] {
      var e := events[0];
      if e.Act? && e.pid in s.processes && e.pid == pid { FailedStays(s.store, s.processes[pid], e.action); }
      hide Failed, Step, Sent, Deliver, RequestShape;
      FailedNeverDone(Next(s, e), events[1..], pid);
    }
  }

  // When the upload workers are done: the assets stage has succeeded once every upload is acknowledged, the finalize
  // stage goes on once every asset is accounted for, and again once every asset is verified.
  lemma JoinMeaning(store: Store, p: Process)
    ensures Step(store, p, Join) ==
      (store,
       if p.phase.Uploading? && (forall w | w in p.workers :: w.Uploaded?) then p.(phase := Done)
       else if p.phase.Finding? && (forall w | w in p.workers :: w.Missing? || w.Verified?) then p.(phase := Filling)
       else if p.phase.Filling? && (forall w | w in p.workers :: w.Verified?) then p.(phase := ManifestPut)
       else p)
  {
    AllAreMeaning(p.workers, {Uploaded});
    AllAreMeaning(p.workers, {Missing, Verified});
    AllAreMeaning(p.workers, {Verified});
    hide AllAre;
    assert forall w: Worker :: w in {Missing, Verified} <==> w.Missing? || w.Verified?;
  }

  lemma AllAreMeaning(workers: seq<Worker>, allowed: set<Worker>)
    ensures AllAre(workers, allowed) <==> forall w | w in workers :: w in allowed
  {
    if AllAre(workers, allowed) {
      forall w | w in workers ensures w in allowed {
        var i :| 0 <= i < |workers| && workers[i] == w;
      }
    } else {
      var i :| 0 <= i < |workers| && workers[i] !in allowed;
      assert workers[i] in workers;
    }
  }

  // Over every run: a process that is done stays done.
  lemma {:induction false} DoneStays(s: System, events: seq<Event>, pid: nat)
    requires pid in s.processes && s.processes[pid].phase.Done?
    ensures pid in Run(s, events).processes && Run(s, events).processes[pid].phase.Done?
    decreases |events|
  {
    if events != [] {
      var e := events[0];
      if e.Act? && e.pid in s.processes && e.pid == pid { DoneStep(s.store, s.processes[pid], e.action); }
      hide Step, Sent, Deliver, RequestShape;
      DoneStays(Next(s, e), events[1..], pid);
    }
  }

  lemma DoneStep(store: Store, p: Process, act: Action)
    requires p.phase.Done?
    ensures Step(store, p, act).1.phase.Done?
  {
  }
}
