/** The two-stage publication protocol as a state machine over the object store.
    Any number of publisher processes run at once. A process takes one action at a time: one upload worker
    inspects, uploads or checks one object, or the main thread takes its next step. Actions of different
    workers and processes interleave freely, requests fail with or without having taken effect, a request that was
    ever sent may take effect again at any later time, and a process may stop between any two actions. */
module ReleaseProtocol {
  import opened Prelude
  import opened ReleaseStore
  import opened ReleaseMetadata

  datatype Job = Job(version: string, stage: Stage, makeLatest: bool, prerelease: bool, assets: seq<Asset>)

  function Entries(assets: seq<Asset>): seq<Entry> {
    seq(|assets|, i requires 0 <= i < |assets| => Entry(assets[i].name, assets[i].sha256))
  }

  // the release.json that a finalize run of this job renders
  function ManifestFile(job: Job): File {
    ReleaseJson("rust-v" + job.version, Entries(job.assets))
  }

  function Channels(job: Job): seq<string> {
    (if job.makeLatest then ["latest"] else []) + (if job.prerelease then ["prerelease"] else [])
  }

  // one asset's upload worker: not started, absent remotely, uploaded, verified remotely, or failed
  datatype Worker = Queued | Missing | Uploaded | Verified | Broken

  datatype Phase =
    | Uploading
    | Finding | Filling
    | ManifestPut | ManifestCheck
    | InstallerPut(i: nat) | InstallerCheck(i: nat)
    | ChannelPut(i: nat) | ChannelCheck(i: nat)
    | Done | Aborted

  datatype Process = Process(job: Job, phase: Phase, workers: seq<Worker>)

  // How a write request ends: answered, performed but not answered, or not performed.
  datatype Outcome = Acknowledged | Unacknowledged | Rejected

  // `healthy` says that a head request got a well-formed answer.
  datatype Action =
    | Head(worker: nat, healthy: bool)
    | Upload(worker: nat, file: File, outcome: Outcome)
    | Check(worker: nat, healthy: bool)
    | Join
    | PutManifest(outcome: Outcome)
    | CheckManifest(healthy: bool)
    | PutInstaller(file: File, outcome: Outcome)
    | CheckInstaller(healthy: bool)
    | PutChannel(outcome: Outcome)
    | CheckChannel(healthy: bool)
    | Stop

  function Begin(job: Job): Process {
    Process(job, if job.stage.Assets? then Uploading else Finding, seq(|job.assets|, _ => Queued))
  }

  function FindAsset(assets: seq<Asset>, name: string): (r: Option<nat>)
    ensures r.Some? ==> r.value < |assets| && assets[r.value].name == name
  {
    if assets == [] then None
    else if assets[|assets| - 1].name == name then Some(|assets| - 1)
    else FindAsset(assets[..|assets| - 1], name)
  }

  function AfterManifest(job: Job): Phase {
    if job.prerelease then FirstChannel(job)
    else if exists i | 0 <= i < |INSTALLER_NAMES| :: FindAsset(job.assets, INSTALLER_NAMES[i]).None? then Aborted
    else InstallerPut(0)
  }

  function FirstChannel(job: Job): Phase {
    if Channels(job) == [] then Done else ChannelPut(0)
  }

  function SetWorker(p: Process, i: nat, w: Worker): Process
    requires i < |p.workers|
  {
    p.(workers := p.workers[i := w])
  }

  function Written(store: Store, after: Store, o: Outcome): Store {
    if o.Rejected? then store else after
  }

  function CheckedWorker(store: Store, job: Job, a: Asset, healthy: bool): Worker {
    if healthy && Matches(store, AssetKey(job.version, a.name), a.size, a.sha256) then Verified else Broken
  }

  function WorkerStep(store: Store, p: Process, act: Action): (Store, Process)
    requires act.Head? || act.Upload? || act.Check?
    requires act.worker < |p.workers| && act.worker < |p.job.assets|
  {
    var i, job := act.worker, p.job;
    var asset, key := job.assets[i], AssetKey(job.version, job.assets[i].name);
    match act
    case Head(_, healthy) =>
      if !(p.phase.Finding? && p.workers[i].Queued?) then (store, p)
      else if healthy && key !in store then (store, SetWorker(p, i, Missing))
      else (store, SetWorker(p, i, CheckedWorker(store, job, asset, healthy)))
    case Upload(_, file, o) =>
      if !((p.phase.Uploading? && p.workers[i].Queued?) || (p.phase.Filling? && p.workers[i].Missing?)) then (store, p)
      else if !Validates(file, asset) then (store, SetWorker(p, i, Broken))
      else (Written(store, PutIfAbsent(store, key, file, asset.sha256), o),
            SetWorker(p, i, if o.Acknowledged? then Uploaded else Broken))
    case Check(_, healthy) =>
      if !(p.phase.Filling? && p.workers[i].Uploaded?) then (store, p)
      else (store, SetWorker(p, i, CheckedWorker(store, job, asset, healthy)))
  }

  predicate AllAre(workers: seq<Worker>, allowed: set<Worker>) {
    forall i | 0 <= i < |workers| :: workers[i] in allowed
  }

  function JoinStep(p: Process): Process {
    if p.phase.Uploading? && AllAre(p.workers, {Uploaded}) then p.(phase := Done)
    else if p.phase.Finding? && AllAre(p.workers, {Missing, Verified}) then p.(phase := Filling)
    else if p.phase.Filling? && AllAre(p.workers, {Verified}) then p.(phase := ManifestPut)
    else p
  }

  function MainStep(store: Store, p: Process, act: Action): (Store, Process)
    requires !act.Head? && !act.Upload? && !act.Check?
  {
    var job := p.job;
    var manifest, digest := ManifestFile(job), Sha256(ManifestFile(job));
    match act
    case Stop => (store, if p.phase.Done? then p else p.(phase := Aborted))
    case Join => (store, JoinStep(p))
    case PutManifest(o) =>
      if !p.phase.ManifestPut? then (store, p)
      else (Written(store, PutIfAbsent(store, ManifestKey(job.version), manifest, digest), o),
            p.(phase := if o.Acknowledged? then ManifestCheck else Aborted))
    case CheckManifest(healthy) =>
      if !p.phase.ManifestCheck? then (store, p)
      else if healthy && Matches(store, ManifestKey(job.version), Size(manifest), digest)
      then (store, p.(phase := AfterManifest(job)))
      else (store, p.(phase := Aborted))
    case PutInstaller(file, o) =>
      if !(p.phase.InstallerPut? && p.phase.i < |INSTALLER_NAMES|) then (store, p)
      else
        var name := INSTALLER_NAMES[p.phase.i];
        var at := FindAsset(job.assets, name);
        if at.None? || !Validates(file, job.assets[at.value]) then (store, p.(phase := Aborted))
        else (Written(store, Put(store, InstallerKey(name), file, job.assets[at.value].sha256), o),
              p.(phase := if o.Acknowledged? then InstallerCheck(p.phase.i) else Aborted))
    case CheckInstaller(healthy) =>
      if !(p.phase.InstallerCheck? && p.phase.i < |INSTALLER_NAMES|) then (store, p)
      else
        var name := INSTALLER_NAMES[p.phase.i];
        var at := FindAsset(job.assets, name);
        if at.None? || !healthy
          || !Matches(store, InstallerKey(name), job.assets[at.value].size, job.assets[at.value].sha256)
        then (store, p.(phase := Aborted))
        else (store,
          p.(phase := if p.phase.i + 1 < |INSTALLER_NAMES| then InstallerPut(p.phase.i + 1) else FirstChannel(job)))
    case PutChannel(o) =>
      if !(p.phase.ChannelPut? && p.phase.i < |Channels(job)|) then (store, p)
      else (Written(store, Put(store, ChannelKey(Channels(job)[p.phase.i]), manifest, digest), o),
            p.(phase := if o.Acknowledged? then ChannelCheck(p.phase.i) else Aborted))
    case CheckChannel(healthy) =>
      if !(p.phase.ChannelCheck? && p.phase.i < |Channels(job)|) then (store, p)
      else if healthy && Matches(store, ChannelKey(Channels(job)[p.phase.i]), Size(manifest), digest)
      then (store, p.(phase := if p.phase.i + 1 < |Channels(job)| then ChannelPut(p.phase.i + 1) else Done))
      else (store, p.(phase := Aborted))
  }

  // One action of a process; an action that is not enabled changes nothing.
  function Step(store: Store, p: Process, act: Action): (Store, Process) {
    if act.Head? || act.Upload? || act.Check? then
      if act.worker < |p.workers| && act.worker < |p.job.assets| then WorkerStep(store, p, act) else (store, p)
    else MainStep(store, p, act)
  }

  // ---------------------------------------------------------------- the write requests behind the steps

  datatype Request =
    | ForAsset(job: Job, at: nat, file: File)
    | ForManifest(job: Job)
    | ForInstaller(job: Job, k: nat, at: nat, file: File)
    | ForChannel(job: Job, channel: string)

  // Requests name assets and installers that exist.
  predicate RequestShape(r: Request) {
    match r
    case ForAsset(job, at, file) => at < |job.assets| && Validates(file, job.assets[at])
    case ForManifest(_) => true
    case ForInstaller(job, k, at, file) =>
      k < |INSTALLER_NAMES| && at < |job.assets| && job.assets[at].name == INSTALLER_NAMES[k]
        && Validates(file, job.assets[at])
    case ForChannel(job, channel) => channel in Channels(job)
  }

  // What a request does to the store when it takes effect.
  function Deliver(store: Store, r: Request): Store
    requires RequestShape(r)
  {
    match r
    case ForAsset(job, at, file) => PutIfAbsent(store, AssetKey(job.version, job.assets[at].name), file,
      job.assets[at].sha256)
    case ForManifest(job) => PutIfAbsent(store, ManifestKey(job.version), ManifestFile(job), Sha256(ManifestFile(job)))
    case ForInstaller(job, k, at, file) => Put(store, InstallerKey(INSTALLER_NAMES[k]), file, job.assets[at].sha256)
    case ForChannel(job, channel) => Put(store, ChannelKey(channel), ManifestFile(job), Sha256(ManifestFile(job)))
  }

  // The request that an action sends, if it sends one.
  function Sent(p: Process, act: Action): (r: Option<Request>)
    ensures r.Some? ==> RequestShape(r.value) && r.value.job == p.job
  {
    var job := p.job;
    match act
    case Upload(i, file, _) =>
      if i < |p.workers| && i < |job.assets| && Validates(file, job.assets[i])
        && ((p.phase.Uploading? && p.workers[i].Queued?) || (p.phase.Filling? && p.workers[i].Missing?))
      then Some(ForAsset(job, i, file)) else None
    case PutManifest(_) => if p.phase.ManifestPut? then Some(ForManifest(job)) else None
    case PutInstaller(file, _) =>
      if !(p.phase.InstallerPut? && p.phase.i < |INSTALLER_NAMES|) then None
      else
        var at := FindAsset(job.assets, INSTALLER_NAMES[p.phase.i]);
        if at.Some? && Validates(file, job.assets[at.value]) then Some(ForInstaller(job, p.phase.i, at.value, file))
          else None
    case PutChannel(_) =>
      if p.phase.ChannelPut? && p.phase.i < |Channels(job)| then Some(ForChannel(job, Channels(job)[p.phase.i]))
        else None
    case _ => None
  }

  predicate IsRejected(act: Action) {
    match act
    case Upload(_, _, o) => o.Rejected?
    case PutManifest(o) => o.Rejected?
    case PutInstaller(_, o) => o.Rejected?
    case PutChannel(o) => o.Rejected?
    case _ => false
  }

  // A step changes the store only by the effect of the request it sends.
  lemma StepDelivers(store: Store, p: Process, act: Action)
    ensures Step(store, p, act).0 ==
      if Sent(p, act).None? || IsRejected(act) then store else Deliver(store, Sent(p, act).value)
    ensures Step(store, p, act).1.job == p.job
  {
  }

  // ---------------------------------------------------------------- what every step keeps

  ghost predicate Stored(store: Store, version: string, a: Asset) {
    var key := AssetKey(version, a.name);
    key in store && store[key].sha256 == a.sha256 && Size(store[key].file) == a.size
      && Sha256(store[key].file) == a.sha256
  }

  ghost predicate AllStored(store: Store, job: Job) {
    forall i | 0 <= i < |job.assets| :: Stored(store, job.version, job.assets[i])
  }

  // release.json and every asset that it lists are in the store
  ghost predicate Published(store: Store, job: Job) {
    && ManifestKey(job.version) in store
    && store[ManifestKey(job.version)].file == ManifestFile(job)
    && AllStored(store, job)
  }

  ghost predicate Backs(store: Store, channel: string, job: Job) {
    && ChannelKey(channel) in store
    && store[ChannelKey(channel)].file == ManifestFile(job)
    && channel in Channels(job)
    && Published(store, job)
  }

  ghost predicate Supplies(store: Store, name: string, job: Job) {
    && InstallerKey(name) in store
    && !job.prerelease
    && Published(store, job)
    && (exists i | 0 <= i < |job.assets| :: job.assets[i].name == name)
    && AssetKey(job.version, name) in store
    && store[InstallerKey(name)].file == store[AssetKey(job.version, name)].file
  }

  ghost predicate ChannelsBacked(store: Store) {
    forall c: string | ChannelKey(c) in store :: exists job :: Backs(store, c, job)
  }

  ghost predicate InstallersSupplied(store: Store) {
    forall i | 0 <= i < |INSTALLER_NAMES| && InstallerKey(INSTALLER_NAMES[i]) in store ::
      exists job :: Supplies(store, INSTALLER_NAMES[i], job)
  }

  ghost predicate SafeStore(store: Store) {
    Honest(store) && ChannelsBacked(store) && InstallersSupplied(store)
  }

  predicate PastFilling(phase: Phase) {
    !phase.Uploading? && !phase.Finding? && !phase.Filling? && !phase.Aborted?
  }

  predicate PastManifest(phase: Phase) {
    PastFilling(phase) && !phase.ManifestPut? && !phase.ManifestCheck?
  }

  // What a process has established about the store by the time it reaches its phase.
  ghost predicate ProcessOk(store: Store, p: Process) {
    && |p.workers| == |p.job.assets|
    && (forall i | 0 <= i < |p.workers| :: p.workers[i].Verified? ==> Stored(store, p.job.version, p.job.assets[i]))
    && (p.job.stage.Finalize? && PastFilling(p.phase) ==> AllStored(store, p.job))
    && (p.job.stage.Finalize? && PastManifest(p.phase) ==> Published(store, p.job))
    && (p.job.stage.Assets? ==> p.phase.Uploading? || p.phase.Done? || p.phase.Aborted?)
    && (p.job.stage.Finalize? ==> !p.phase.Uploading?)
    && (p.phase.InstallerPut? || p.phase.InstallerCheck? ==> !p.job.prerelease)
  }

  // The facts above survive anything that leaves the versioned objects alone.
  lemma PublishedFrozen(before: Store, after: Store, job: Job)
    requires Frozen(before, after)
    ensures AllStored(before, job) ==> AllStored(after, job)
    ensures Published(before, job) ==> Published(after, job)
  {
    KeySpaces(job.version, RELEASE_METADATA_NAME, "");
    forall i | 0 <= i < |job.assets| && Stored(before, job.version, job.assets[i])
      ensures Stored(after, job.version, job.assets[i])
    {
      KeySpaces(job.version, job.assets[i].name, "");
    }
    if AllStored(before, job) {
      forall i | 0 <= i < |job.assets| ensures Stored(after, job.version, job.assets[i]) {
        assert Stored(before, job.version, job.assets[i]);
      }
    }
  }

  lemma ProcessFrozen(before: Store, after: Store, p: Process)
    requires Frozen(before, after) && ProcessOk(before, p)
    ensures ProcessOk(after, p)
  {
    PublishedFrozen(before, after, p.job);
    forall i | 0 <= i < |p.workers| && p.workers[i].Verified? ensures Stored(after, p.job.version, p.job.assets[i]) {
      assert Stored(before, p.job.version, p.job.assets[i]);
      KeySpaces(p.job.version, p.job.assets[i].name, "");
    }
  }

  // With honest metadata a matching head answer pins down the content.
  lemma MatchMeansStored(store: Store, version: string, a: Asset)
    requires Honest(store) && Matches(store, AssetKey(version, a.name), a.size, a.sha256)
    ensures Stored(store, version, a)
  {
  }

  // A first write under the versioned prefix keeps the store safe.
  lemma PutIfAbsentSafe(store: Store, version: string, name: string, file: File)
    requires SafeStore(store)
    ensures var after := PutIfAbsent(store, AssetKey(version, name), file, Sha256(file));
      SafeStore(after) && Frozen(store, after)
  {
    var after := PutIfAbsent(store, AssetKey(version, name), file, Sha256(file));
    forall c: string | ChannelKey(c) in after ensures exists job :: Backs(after, c, job) {
      KeySpaces(version, name, c);
      var job :| Backs(store, c, job);
      PublishedFrozen(store, after, job);
      assert Backs(after, c, job);
    }
    KeySpaces(version, name, "");
    forall i | 0 <= i < |INSTALLER_NAMES| && InstallerKey(INSTALLER_NAMES[i]) in after
      ensures exists job :: Supplies(after, INSTALLER_NAMES[i], job)
    {
      var job :| Supplies(store, INSTALLER_NAMES[i], job);
      PublishedFrozen(store, after, job);
      assert Supplies(after, INSTALLER_NAMES[i], job);
    }
  }

  // Advancing a channel to a published release keeps the store safe.
  lemma PutChannelSafe(store: Store, channel: string, job: Job)
    requires SafeStore(store) && Published(store, job) && channel in Channels(job)
    ensures var after := Put(store, ChannelKey(channel), ManifestFile(job), Sha256(ManifestFile(job)));
      SafeStore(after) && Frozen(store, after)
  {
    var after := Put(store, ChannelKey(channel), ManifestFile(job), Sha256(ManifestFile(job)));
    KeySpaces(job.version, "", channel);
    forall c: string | ChannelKey(c) in after ensures exists j :: Backs(after, c, j) {
      if ChannelKey(c) == ChannelKey(channel) {
        assert ChannelKey(c)[|"codex/channels/"|..] == c && ChannelKey(channel)[|"codex/channels/"|..] == channel;
        PublishedFrozen(store, after, job);
        assert Backs(after, c, job);
      } else {
        var j :| Backs(store, c, j);
        PublishedFrozen(store, after, j);
        assert Backs(after, c, j);
      }
    }
    forall i | 0 <= i < |INSTALLER_NAMES| && InstallerKey(INSTALLER_NAMES[i]) in after
      ensures exists j :: Supplies(after, INSTALLER_NAMES[i], j)
    {
      var j :| Supplies(store, INSTALLER_NAMES[i], j);
      PublishedFrozen(store, after, j);
      KeySpaces(j.version, INSTALLER_NAMES[i], channel);
      assert Supplies(after, INSTALLER_NAMES[i], j);
    }
  }

  // Replacing an installer alias by a validated asset of a published stable release keeps the store safe.
  lemma PutInstallerSafe(store: Store, k: nat, job: Job, at: nat, file: File)
    requires SafeStore(store) && Published(store, job) && !job.prerelease && k < |INSTALLER_NAMES|
    requires at < |job.assets| && job.assets[at].name == INSTALLER_NAMES[k] && Validates(file, job.assets[at])
    ensures var after := Put(store, InstallerKey(INSTALLER_NAMES[k]), file, job.assets[at].sha256);
      SafeStore(after) && Frozen(store, after)
  {
    var name := INSTALLER_NAMES[k];
    var after := Put(store, InstallerKey(name), file, job.assets[at].sha256);
    KeySpaces(job.version, name, "");
    forall c: string | ChannelKey(c) in after ensures exists j :: Backs(after, c, j) {
      KeySpaces(job.version, name, c);
      var j :| Backs(store, c, j);
      PublishedFrozen(store, after, j);
      assert Backs(after, c, j);
    }
    forall i | 0 <= i < |INSTALLER_NAMES| && InstallerKey(INSTALLER_NAMES[i]) in after
      ensures exists j :: Supplies(after, INSTALLER_NAMES[i], j)
    {
      if i == k {
        assert Stored(store, job.version, job.assets[at]);
        PublishedFrozen(store, after, job);
        assert Supplies(after, name, job);
      } else {
        assert InstallerKey(INSTALLER_NAMES[i]) != InstallerKey(name) by {
          assert InstallerKey(INSTALLER_NAMES[0])[|"codex/install."|] == 's';
          assert InstallerKey(INSTALLER_NAMES[1])[|"codex/install."|] == 'p';
        }
        var j :| Supplies(store, INSTALLER_NAMES[i], j);
        PublishedFrozen(store, after, j);
        KeySpaces(j.version, INSTALLER_NAMES[i], "");
        assert Supplies(after, INSTALLER_NAMES[i], j);
      }
    }
  }

  // A request whose effect is safe now and, since published releases stay, at any later time.
  ghost predicate RequestOk(store: Store, r: Request) {
    && RequestShape(r)
    && (r.ForInstaller? ==> Published(store, r.job) && !r.job.prerelease)
    && (r.ForChannel? ==> Published(store, r.job))
  }

  lemma RequestFrozen(before: Store, after: Store, r: Request)
    requires Frozen(before, after) && RequestOk(before, r)
    ensures RequestOk(after, r)
  {
    PublishedFrozen(before, after, r.job);
  }

  // Whenever such a request takes effect, and however often, the store stays safe.
  lemma DeliverSafe(store: Store, r: Request)
    requires SafeStore(store) && RequestOk(store, r)
    ensures SafeStore(Deliver(store, r)) && Frozen(store, Deliver(store, r))
  {
    match r
    case ForAsset(job, at, file) => PutIfAbsentSafe(store, job.version, job.assets[at].name, file);
    case ForManifest(job) => PutIfAbsentSafe(store, job.version, RELEASE_METADATA_NAME, ManifestFile(job));
    case ForInstaller(job, k, at, file) => PutInstallerSafe(store, k, job, at, file);
    case ForChannel(job, channel) => PutChannelSafe(store, channel, job);
  }

  lemma SentOk(store: Store, p: Process, act: Action)
    requires ProcessOk(store, p) && Sent(p, act).Some?
    ensures RequestOk(store, Sent(p, act).value)
  {
  }

  // ---------------------------------------------------------------- what a process may conclude

  lemma WorkerStepOk(store: Store, after: Store, p: Process, act: Action)
    requires Honest(store) && ProcessOk(store, p) && ProcessOk(after, p) && Frozen(store, after)
    requires (act.Head? || act.Upload? || act.Check?) && act.worker < |p.workers|
    ensures ProcessOk(after, WorkerStep(store, p, act).1)
  {
    var asset := p.job.assets[act.worker];
    if Matches(store, AssetKey(p.job.version, asset.name), asset.size, asset.sha256) {
      MatchMeansStored(store, p.job.version, asset);
      KeySpaces(p.job.version, asset.name, "");
    }
  }

  lemma JoinSafe(store: Store, p: Process)
    requires ProcessOk(store, p)
    ensures ProcessOk(store, JoinStep(p))
  {
    if p.phase.Filling? && AllAre(p.workers, {Verified}) {
      forall i | 0 <= i < |p.job.assets| ensures Stored(store, p.job.version, p.job.assets[i]) {
        assert p.workers[i] in {Verified};
      }
    }
  }

  lemma MainStepOk(store: Store, p: Process, act: Action)
    requires Honest(store) && ProcessOk(store, p) && !act.Head? && !act.Upload? && !act.Check?
    requires !act.PutManifest? && !act.PutInstaller? && !act.PutChannel?
    ensures ProcessOk(store, MainStep(store, p, act).1)
  {
    if act.Join? { JoinSafe(store, p); }
  }

  lemma PutStepOk(store: Store, after: Store, p: Process, act: Action)
    requires ProcessOk(after, p) && (act.PutManifest? || act.PutInstaller? || act.PutChannel?)
    ensures ProcessOk(after, MainStep(store, p, act).1)
  {
  }

  lemma StepSafe(store: Store, p: Process, act: Action)
    requires SafeStore(store) && ProcessOk(store, p)
    ensures var (after, q) := Step(store, p, act); SafeStore(after) && Frozen(store, after) && ProcessOk(after, q)
  {
    var after := Step(store, p, act).0;
    StepDelivers(store, p, act);
    if Sent(p, act).Some? {
      SentOk(store, p, act);
      DeliverSafe(store, Sent(p, act).value);
    }
    hide Sent, Deliver, ChannelsBacked, InstallersSupplied, MainStep, WorkerStep;
    ProcessFrozen(store, after, p);
    hide ProcessOk, Frozen, Honest;
    if act.Head? || act.Upload? || act.Check? {
      if act.worker < |p.workers| && act.worker < |p.job.assets| { WorkerStepOk(store, after, p, act); }
    } else if act.PutManifest? || act.PutInstaller? || act.PutChannel? {
      PutStepOk(store, after, p, act);
    } else {
      MainStepOk(store, p, act);
      StepReads(store, p, act);
    }
  }

  lemma StepReads(store: Store, p: Process, act: Action)
    requires !act.Upload? && !act.PutManifest? && !act.PutInstaller? && !act.PutChannel?
    ensures Step(store, p, act).0 == store
  {
  }

  // ---------------------------------------------------------------- whole runs

  // the store, the processes, and every write request that was ever sent
  datatype System = System(store: Store, processes: map<nat, Process>, requests: seq<Request>)

  // A new process, an action of one, or the effect of an earlier request, late or once more.
  datatype Event = Start(pid: nat, job: Job) | Act(pid: nat, action: Action) | Late(request: nat)

  ghost predicate Safe(s: System) {
    && SafeStore(s.store)
    && (forall pid | pid in s.processes :: ProcessOk(s.store, s.processes[pid]))
    && forall k | 0 <= k < |s.requests| :: RequestOk(s.store, s.requests[k])
  }

  function Next(s: System, e: Event): System {
    match e
    case Start(pid, job) =>
      if pid in s.processes then s else s.(processes := s.processes[pid := Begin(job)])
    case Act(pid, action) =>
      if pid !in s.processes then s
      else
        var (after, p) := Step(s.store, s.processes[pid], action);
        var sent := Sent(s.processes[pid], action);
        System(after, s.processes[pid := p], s.requests + if sent.Some? then [sent.value] else [])
    case Late(k) =>
      if k < |s.requests| && RequestShape(s.requests[k]) then s.(store := Deliver(s.store, s.requests[k])) else s
  }

  // What may happen next: a process starts with nothing done, one takes an action and keeps the request it sent on
  // record, or a request on record takes effect now.
  lemma EventsMeaning(s: System, e: Event)
    requires Safe(s)
    ensures var next := Next(s, e);
      match e
      case Start(pid, job) =>
        next.store == s.store && next.requests == s.requests && pid in next.processes
        && (pid !in s.processes ==>
              next.processes[pid].job == job && next.processes[pid].workers == seq(|job.assets|, _ => Queued))
      case Act(pid, action) =>
        pid in s.processes ==>
          && pid in next.processes && (next.store, next.processes[pid]) == Step(s.store, s.processes[pid], action)
          && next.requests == s.requests + (if Sent(s.processes[pid], action).Some? then
                                              [Sent(s.processes[pid], action).value] else [])
      case Late(k) =>
        next.processes == s.processes && next.requests == s.requests
        && (k < |s.requests| ==> RequestShape(s.requests[k]) && next.store == Deliver(s.store, s.requests[k]))
  {
    hide SafeStore, ProcessOk, Step, Sent, Deliver, RequestShape;
    if e.Late? && e.request < |s.requests| { assert RequestOk(s.store, s.requests[e.request]); }
  }

  // A safe change of the store keeps what the others have established.
  lemma OthersSafe(s: System, after: Store)
    requires Safe(s) && SafeStore(after) && Frozen(s.store, after)
    ensures Safe(s.(store := after))
  {
    hide SafeStore, Frozen, ProcessOk, RequestOk;
    forall pid | pid in s.processes ensures ProcessOk(after, s.processes[pid]) {
      ProcessFrozen(s.store, after, s.processes[pid]);
    }
    forall k | 0 <= k < |s.requests| ensures RequestOk(after, s.requests[k]) {
      RequestFrozen(s.store, after, s.requests[k]);
    }
  }

  lemma NextSafe(s: System, e: Event)
    requires Safe(s)
    ensures Safe(Next(s, e)) && Frozen(s.store, Next(s, e).store)
  {
    if e.Start? {
      hide SafeStore, RequestOk;
    } else if e.Act? && e.pid in s.processes {
      var p := s.processes[e.pid];
      StepSafe(s.store, p, e.action);
      var (after, q) := Step(s.store, p, e.action);
      OthersSafe(s, after);
      if Sent(p, e.action).Some? {
        SentOk(s.store, p, e.action);
        RequestFrozen(s.store, after, Sent(p, e.action).value);
      }
      hide SafeStore, ProcessOk, RequestOk, Step, Sent;
    } else if e.Late? && e.request < |s.requests| {
      DeliverSafe(s.store, s.requests[e.request]);
      OthersSafe(s, Deliver(s.store, s.requests[e.request]));
      hide SafeStore, ProcessOk, Deliver, Published;
    }
  }

  // The system after a whole sequence of events.
  function Run(s: System, events: seq<Event>): System
    decreases |events|
  {
    if events == [] then s else Run(Next(s, events[0]), events[1..])
  }

  // Every run keeps the store safe and never touches a versioned object again.
  lemma {:induction false} RunSafe(s: System, events: seq<Event>)
    requires Safe(s)
    ensures Safe(Run(s, events)) && Frozen(s.store, Run(s, events).store)
    decreases |events|
  {
    if events != [] {
      NextSafe(s, events[0]);
      RunSafe(Next(s, events[0]), events[1..]);
    }
  }

  // The channel holds the stored release.json of the job's version, which lists the job's assets, and each of them is
  // stored with the listed digest and the checked size.
  ghost predicate Installable(store: Store, channel: string, job: Job)
    requires ChannelKey(channel) in store
  {
    var manifest := store[ChannelKey(channel)].file;
    && manifest.ReleaseJson?
    && manifest.tag == "rust-v" + job.version
    && ManifestKey(job.version) in store && store[ManifestKey(job.version)].file == manifest
    && |manifest.entries| == |job.assets|
    && forall i | 0 <= i < |manifest.entries| ::
         var e, key := manifest.entries[i], AssetKey(job.version, manifest.entries[i].name);
         e.name == job.assets[i].name && key in store
         && Sha256(store[key].file) == e.digest && store[key].sha256 == e.digest
         && Size(store[key].file) == job.assets[i].size
  }

  lemma BackedIsInstallable(store: Store, channel: string, job: Job)
    requires Backs(store, channel, job)
    ensures Installable(store, channel, job)
  {
    var manifest := store[ChannelKey(channel)].file;
    forall i | 0 <= i < |manifest.entries|
      ensures var e, key := manifest.entries[i], AssetKey(job.version, manifest.entries[i].name);
        e.name == job.assets[i].name && key in store
        && Sha256(store[key].file) == e.digest && store[key].sha256 == e.digest
        && Size(store[key].file) == job.assets[i].size
    {
      assert Stored(store, job.version, job.assets[i]);
    }
  }

  // ---------------------------------------------------------------- who moved a channel

  // Process pid finalizes a release that asks for this channel, and that release backs what the channel holds.
  ghost predicate MovedBy(s: System, channel: string, pid: nat) {
    pid in s.processes && s.processes[pid].job.stage.Finalize? && Backs(s.store, channel, s.processes[pid].job)
  }

  ghost predicate SentBy(s: System, r: Request, pid: nat) {
    pid in s.processes && s.processes[pid].job == r.job && (r.ForChannel? ==> r.job.stage.Finalize?)
  }

  ghost predicate Moved(s: System, channel: string) {
    exists pid :: MovedBy(s, channel, pid)
  }

  ghost predicate FromRun(s: System, r: Request) {
    exists pid :: SentBy(s, r, pid)
  }

  // Every request in flight and every channel goes back to a process of the run.
  ghost predicate Attributed(s: System) {
    && (forall k | 0 <= k < |s.requests| :: FromRun(s, s.requests[k]))
    && (forall c: string | ChannelKey(c) in s.store :: Moved(s, c))
  }

  lemma ChannelKeyInjective(a: string, b: string)
    requires ChannelKey(a) == ChannelKey(b)
    ensures a == b
  {
    var n := |ChannelKey("")|;
    assert ChannelKey(a)[n..] == a && ChannelKey(b)[n..] == b;
  }

  lemma MoverOf(s: System, channel: string) returns (pid: nat)
    requires Attributed(s) && ChannelKey(channel) in s.store
    ensures MovedBy(s, channel, pid)
  {
    assert Moved(s, channel);
    pid :| MovedBy(s, channel, pid);
  }

  // A channel comes from the request just delivered or holds what it held before.
  lemma DeliveredChannel(store: Store, r: Request, c: string)
    requires RequestShape(r) && ChannelKey(c) in Deliver(store, r)
    ensures (r.ForChannel? && r.channel == c) ||
      (ChannelKey(c) in store && Deliver(store, r)[ChannelKey(c)] == store[ChannelKey(c)])
  {
    hide Validates, FindAsset;
    match r
    case ForAsset(job, at, file) => KeySpaces(job.version, job.assets[at].name, c);
    case ForManifest(job) => KeySpaces(job.version, RELEASE_METADATA_NAME, c);
    case ForInstaller(_, _, _, _) => KeySpaces("", "", c);
    case ForChannel(_, channel) =>
      if ChannelKey(c) == ChannelKey(channel) { ChannelKeyInjective(c, channel); }
  }

  // Delivering a request that process pid sent keeps every channel attributed.
  lemma DeliverAttributed(s: System, r: Request, pid: nat, c: string)
    requires Safe(s) && Attributed(s) && RequestOk(s.store, r) && SentBy(s, r, pid)
    requires ChannelKey(c) in Deliver(s.store, r)
    ensures Moved(s.(store := Deliver(s.store, r)), c)
  {
    var next := s.(store := Deliver(s.store, r));
    DeliveredChannel(s.store, r, c);
    DeliverSafe(s.store, r);
    if r.ForChannel? && r.channel == c {
      PublishedFrozen(s.store, next.store, r.job);
      assert MovedBy(next, c, pid);
    } else {
      var mover := MoverOf(s, c);
      PublishedFrozen(s.store, next.store, s.processes[mover].job);
      assert MovedBy(next, c, mover);
    }
  }

  // Other processes and requests do not disturb what goes back to one of them.
  lemma AttributedBeside(s: System, next: System)
    requires Attributed(s) && next.store == s.store
    requires forall pid | pid in s.processes :: pid in next.processes && next.processes[pid].job == s.processes[pid].job
    requires forall k | 0 <= k < |next.requests| ::
      (k < |s.requests| && next.requests[k] == s.requests[k]) || FromRun(next, next.requests[k])
    ensures Attributed(next)
  {
    forall c: string | ChannelKey(c) in next.store ensures Moved(next, c) {
      var pid := MoverOf(s, c);
      assert MovedBy(next, c, pid);
    }
    forall k | 0 <= k < |next.requests| ensures FromRun(next, next.requests[k]) {
      if k < |s.requests| && next.requests[k] == s.requests[k] {
        assert FromRun(s, s.requests[k]);
        var pid :| SentBy(s, s.requests[k], pid);
        assert SentBy(next, next.requests[k], pid);
      }
    }
  }

  lemma AttributedDelivered(s: System, r: Request, pid: nat)
    requires Safe(s) && Attributed(s) && RequestOk(s.store, r) && SentBy(s, r, pid)
    ensures Attributed(s.(store := Deliver(s.store, r)))
  {
    var next := s.(store := Deliver(s.store, r));
    forall c: string | ChannelKey(c) in next.store ensures Moved(next, c) {
      DeliverAttributed(s, r, pid, c);
    }
    forall k | 0 <= k < |next.requests| ensures FromRun(next, next.requests[k]) {
      assert FromRun(s, s.requests[k]);
      var mover :| SentBy(s, s.requests[k], mover);
      assert SentBy(next, next.requests[k], mover);
    }
  }

  // Only a finalizing process gets as far as a channel.
  lemma SentStage(store: Store, p: Process, act: Action)
    requires ProcessOk(store, p) && Sent(p, act).Some? && Sent(p, act).value.ForChannel?
    ensures p.job.stage.Finalize?
  {
    hide Published, AllStored;
  }

  // An action of process e.pid: first its request takes effect, if it sends one, then the process moves on.
  lemma ActAttributed(s: System, e: Event)
    requires Safe(s) && Attributed(s) && e.Act? && e.pid in s.processes
    ensures Attributed(Next(s, e))
  {
    var p := s.processes[e.pid];
    StepDelivers(s.store, p, e.action);
    var sent := Sent(p, e.action);
    hide Step, Safe, ProcessOk, RequestOk;
    var stored := s;
    if sent.Some? {
      SafeProcess(s, e.pid);
      SentOk(s.store, p, e.action);
      if sent.value.ForChannel? { SentStage(s.store, p, e.action); }
      hide Sent;
      assert SentBy(s, sent.value, e.pid);
      if !IsRejected(e.action) {
        AttributedDelivered(s, sent.value, e.pid);
        stored := s.(store := Deliver(s.store, sent.value));
      }
      assert SentBy(Next(s, e), sent.value, e.pid) && FromRun(Next(s, e), sent.value);
    }
    hide Sent, SentBy, FromRun, Deliver, Attributed, IsRejected;
    AttributedBeside(stored, Next(s, e));
  }

  lemma SafeProcess(s: System, pid: nat)
    requires Safe(s) && pid in s.processes
    ensures ProcessOk(s.store, s.processes[pid])
  {
  }

  lemma NextAttributed(s: System, e: Event)
    requires Safe(s) && Attributed(s)
    ensures Attributed(Next(s, e))
  {
    if e.Act? {
      if e.pid in s.processes { ActAttributed(s, e); }
    } else if e.Start? {
      hide Attributed, Safe;
      AttributedBeside(s, Next(s, e));
    } else if e.request < |s.requests| {
      assert FromRun(s, s.requests[e.request]);
      var pid :| SentBy(s, s.requests[e.request], pid);
      hide Attributed, SentBy;
      AttributedDelivered(s, s.requests[e.request], pid);
    }
  }

  lemma {:induction false} RunAttributed(s: System, events: seq<Event>)
    requires Safe(s) && Attributed(s)
    ensures Attributed(Run(s, events))
    decreases |events|
  {
    if events != [] {
      hide Safe, Attributed;
      NextSafe(s, events[0]);
      NextAttributed(s, events[0]);
      RunAttributed(Next(s, events[0]), events[1..]);
    }
  }

  // Over every run from a store without channels or installers, at every moment: a channel that exists was moved by
  // a finalizing process of the run whose own flag asked for that channel, and can be installed from.
  lemma ChannelsAlwaysInstallable(store: Store, events: seq<Event>, channel: string)
    requires Honest(store)
    requires forall c: string :: ChannelKey(c) !in store
    requires forall i | 0 <= i < |INSTALLER_NAMES| :: InstallerKey(INSTALLER_NAMES[i]) !in store
    ensures var s := Run(System(store, map[], []), events);
      "codex/channels/" + channel in s.store ==>
        exists pid | pid in s.processes && s.processes[pid].job.stage.Finalize? ::
          && ((channel == "latest" && s.processes[pid].job.makeLatest)
              || (channel == "prerelease" && s.processes[pid].job.prerelease))
          && Installable(s.store, channel, s.processes[pid].job)
  {
    var start := System(store, map[], []);
    RunSafe(start, events);
    RunAttributed(start, events);
    var s := Run(start, events);
    if "codex/channels/" + channel in s.store {
      assert ChannelKey(channel) in s.store;
      var pid := MoverOf(s, channel);
      BackedIsInstallable(s.store, channel, s.processes[pid].job);
    }
  }

  // A finalize run that completed stays published whatever happens afterwards.
  lemma CompletedStaysPublished(s: System, events: seq<Event>, pid: nat)
    requires Safe(s) && pid in s.processes
    requires s.processes[pid].job.stage.Finalize? && s.processes[pid].phase.Done?
    ensures Published(Run(s, events).store, s.processes[pid].job)
  {
    RunSafe(s, events);
    PublishedFrozen(s.store, Run(s, events).store, s.processes[pid].job);
  }
}
