/** The object store behind the release mirror, and what the publisher writes into it.
    SHA-256 is taken to be injective: a digest is represented by the file it was computed from. */
module ReleaseStore {

  datatype Sha256 = Sha256(of: File)

  datatype Entry = Entry(name: string, digest: Sha256)

  // A release asset, or the rendered release.json, which stands for the value it parses to.
  datatype File = Blob(bytes: string) | ReleaseJson(tag: string, entries: seq<Entry>)

  // An object's content together with the `sha256` metadata its uploader attached.
  datatype Object = Object(file: File, sha256: Sha256)

  type Store = map<string, Object>

  datatype Asset = Asset(name: string, size: nat, sha256: Sha256)

  const RELEASE_PREFIX := "codex/releases/"
  const RELEASE_METADATA_NAME := "release.json"
  const INSTALLER_NAMES: seq<string> := ["install.sh", "install.ps1"]

  function AssetKey(version: string, name: string): string {
    RELEASE_PREFIX + version + "/" + name
  }

  function ManifestKey(version: string): string {
    AssetKey(version, RELEASE_METADATA_NAME)
  }

  function ChannelKey(channel: string): string {
    "codex/channels/" + channel
  }

  function InstallerKey(name: string): string {
    "codex/" + name
  }

  predicate IsReleaseKey(key: string) {
    RELEASE_PREFIX <= key
  }

  // The versioned prefix is disjoint from the mutable channel and installer keys.
  lemma KeySpaces(version: string, name: string, channel: string)
    ensures IsReleaseKey(AssetKey(version, name))
    ensures !IsReleaseKey(ChannelKey(channel))
    ensures forall i | 0 <= i < |INSTALLER_NAMES| :: !IsReleaseKey(InstallerKey(INSTALLER_NAMES[i]))
    ensures forall i | 0 <= i < |INSTALLER_NAMES| :: InstallerKey(INSTALLER_NAMES[i]) != ChannelKey(channel)
  {
    assert AssetKey(version, name)[..|RELEASE_PREFIX|] == RELEASE_PREFIX;
    assert RELEASE_PREFIX[6] == 'r' && ChannelKey(channel)[6] == 'c';
    assert InstallerKey(INSTALLER_NAMES[0])[6] == 'i' && InstallerKey(INSTALLER_NAMES[1])[6] == 'i';
  }

  // Different asset names of one version have different keys.
  lemma AssetKeyInjective(version: string, a: string, b: string)
    requires AssetKey(version, a) == AssetKey(version, b)
    ensures a == b
  {
    var prefix := RELEASE_PREFIX + version + "/";
    assert AssetKey(version, a)[|prefix|..] == a && AssetKey(version, b)[|prefix|..] == b;
  }

  // args.tag.removeprefix("rust-v")
  function VersionOf(tag: string): string {
    if "rust-v" <= tag then tag[|"rust-v"|..] else tag
  }

  // What an entry adds to the length of release.json: its frame, a digest of 64 digits, the version in the download
  // link, and the name twice. Names are taken to need no escaping.
  function EntriesSize(version: nat, entries: seq<Entry>): nat {
    if entries == [] then 0
    else EntriesSize(version, entries[..|entries| - 1]) + 199 + version + 2 * |entries[|entries| - 1].name|
  }

  function Size(file: File): nat {
    match file
    case Blob(bytes) => |bytes|
    case ReleaseJson(tag, entries) =>
      (if entries == [] then 37 else 39) + |tag| + EntriesSize(|VersionOf(tag)|, entries)
  }

  // ---------------------------------------------------------------- the text of release.json

  ghost function EntryText(version: string, name: string, digits: string): string {
    "    {\n      \"name\": \"" + name + "\",\n" +
    "      \"digest\": \"sha256:" + digits + "\",\n" +
    "      \"browser_download_url\": \"https://releases.openai.com/codex/releases/" + version + "/" + name + "\"\n    }"
  }

  ghost function EntriesText(version: string, entries: seq<Entry>, digits: seq<string>): string
    requires |entries| == |digits|
  {
    if entries == [] then ""
    else
      var last := |entries| - 1;
      EntriesText(version, entries[..last], digits[..last]) + (if last == 0 then "\n" else ",\n")
        + EntryText(version, entries[last].name, digits[last])
  }

  // json.dumps({"assets": ..., "tag_name": ...}, indent=2) + "\n"
  ghost function Text(version: string, entries: seq<Entry>, digits: seq<string>): string
    requires |entries| == |digits|
  {
    "{\n  \"assets\": [" + EntriesText(version, entries, digits) + (if entries == [] then "" else "\n  ")
      + "],\n  \"tag_name\": \"rust-v" + version + "\"\n}\n"
  }

  lemma EntryTextLength(version: string, name: string, digits: string)
    requires |digits| == 64
    ensures |EntryText(version, name, digits)| == 197 + |version| + 2 * |name|
  {
  }

  lemma {:induction false} EntriesTextLength(version: string, entries: seq<Entry>, digits: seq<string>)
    requires |entries| == |digits| && forall i | 0 <= i < |digits| :: |digits[i]| == 64
    ensures |EntriesText(version, entries, digits)| + (if entries == [] then 0 else 1) ==
      EntriesSize(|version|, entries)
  {
    hide EntryText;
    if entries != [] {
      var last := |entries| - 1;
      EntriesTextLength(version, entries[..last], digits[..last]);
      EntryTextLength(version, entries[last].name, digits[last]);
    }
  }

  // The size that uploads are checked against is the length of the text, whatever the digests' digits are.
  lemma SizeIsTextLength(version: string, entries: seq<Entry>, digits: seq<string>)
    requires |entries| == |digits| && forall i | 0 <= i < |digits| :: |digits[i]| == 64
    ensures Size(ReleaseJson("rust-v" + version, entries)) == |Text(version, entries, digits)|
  {
    EntriesTextLength(version, entries, digits);
    assert VersionOf("rust-v" + version) == version;
    hide EntriesText;
  }

  // `validate_asset`: the downloaded file is the one the release metadata describes.
  predicate Validates(file: File, a: Asset) {
    Size(file) == a.size && Sha256(file) == a.sha256
  }

  // `put_object` with --no-overwrite: the first writer of a key wins.
  function PutIfAbsent(store: Store, key: string, file: File, sha256: Sha256): Store {
    if key in store then store else store[key := Object(file, sha256)]
  }

  function Put(store: Store, key: string, file: File, sha256: Sha256): Store {
    store[key := Object(file, sha256)]
  }

  // `verify_remote`, leaving aside the shape of the CRC-64 field
  predicate Matches(store: Store, key: string, size: nat, sha256: Sha256) {
    key in store && Size(store[key].file) == size && store[key].sha256 == sha256
  }

  // Uploaders attach the digest of what they upload.
  ghost predicate Honest(store: Store) {
    forall k | k in store :: store[k].sha256 == Sha256(store[k].file)
  }

  // Objects under the versioned prefix are never removed or replaced.
  ghost predicate Frozen(before: Store, after: Store) {
    forall k | k in before && IsReleaseKey(k) :: k in after && after[k] == before[k]
  }
}
