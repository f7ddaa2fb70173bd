/** Loading agent roles from configuration layers, from lowest to highest. */
module AgentRoles {
  import opened Prelude
  import opened Ordering

  datatype Role = Role(description: Option<string>, configFile: Option<string>, nicknames: Option<seq<string>>)

  datatype Problem =
    | MalformedAgents
    | NoSuchFile(role: string, path: string)
    | MalformedFile(path: string)
    | NoInstructions(path: string)
    | Nameless(path: string)
    | MalformedRole(role: string)
    | DuplicateInLayer(role: string)
    | DuplicateInConfig(role: string)
    | DuplicateDiscovered(role: string)
    | NoDescription(role: string)
    | UnreadableDirectory

  // a declared role: its description and nicknames after normalization, None when that failed
  datatype Declaration = Declaration(configFile: Option<string>, description: Option<Option<string>>,
                                     nicknames: Option<Option<seq<string>>>)

  // a role file as parsed and normalized
  datatype RoleFile =
    | Broken
    | RoleFile(name: Option<string>, description: Option<string>, nicknames: Option<seq<string>>, instructions: bool)

  // the part of the file system that loading reads
  datatype Disk = Disk(files: map<string, RoleFile>)

  datatype Agents = Malformed | Missing | Agents(roles: seq<(string, Declaration)>)

  // the layer's agents table, and what the search of its agents directory yields: None for a layer without a folder
  datatype Layer = Layer(agents: Agents, found: Option<Result<seq<string>, Problem>>)

  // ---------------------------------------------------------------- reading one role

  function Or<T>(a: Option<T>, b: Option<T>): Option<T> {
    if a.Some? then a else b
  }

  function FileOn(disk: Disk, path: string): RoleFile {
    if path in disk.files then disk.files[path] else Broken
  }

  // `read_resolved_agent_role_file`: the role's name and fields
  function ReadRoleFile(disk: Disk, path: string, hint: Option<string>): Result<(string, Role), Problem> {
    var file := FileOn(disk, path);
    if file.Broken? then Err(MalformedFile(path))
    else if hint.None? && !file.instructions then Err(NoInstructions(path))
    else if Or(file.name, hint).None? then Err(Nameless(path))
    else Ok((Or(file.name, hint).value, Role(file.description, Some(path), file.nicknames)))
  }

  // `read_declared_role`
  function ReadDeclared(disk: Disk, name: string, toml: Declaration): Result<(string, Role), Problem> {
    if toml.configFile.Some? && toml.configFile.value !in disk.files then Err(NoSuchFile(name, toml.configFile.value))
    else if toml.description.None? || toml.nicknames.None? then Err(MalformedRole(name))
    else
      var role := Role(toml.description.value, toml.configFile, toml.nicknames.value);
      if toml.configFile.None? then Ok((name, role))
      else
        match ReadRoleFile(disk, toml.configFile.value, Some(name))
        case Err(problem) => Err(problem)
        case Ok(parsed) =>
          Ok((parsed.0, role.(description := Or(parsed.1.description, role.description),
                              nicknames := Or(parsed.1.nicknames, role.nicknames))))
  }

  // ---------------------------------------------------------------- the roles of one layer

  // roles gathered so far, the files they were declared with, and the complaints
  datatype Gathered = Gathered(roles: map<string, Role>, files: set<string>, problems: seq<Problem>)

  function AddRole(g: Gathered, name: string, role: Role, duplicate: Problem): Gathered {
    if name in g.roles then g.(problems := g.problems + [duplicate]) else g.(roles := g.roles[name := role])
  }

  function GatherDeclared(disk: Disk, entries: seq<(string, Declaration)>): Gathered {
    if entries == [] then Gathered(map[], {}, [])
    else
      var g, entry := GatherDeclared(disk, entries[..|entries| - 1]), entries[|entries| - 1];
      match ReadDeclared(disk, entry.0, entry.1)
      case Err(problem) => g.(problems := g.problems + [problem])
      case Ok((name, role)) =>
        AddRole(g.(files := if role.configFile.Some? then g.files + {role.configFile.value} else g.files),
                name, role, DuplicateInLayer(name))
  }

  // `discover_agent_roles_in_dir`, from the sorted files on
  function GatherDiscovered(disk: Disk, paths: seq<string>, declared: set<string>): Gathered {
    if paths == [] then Gathered(map[], {}, [])
    else
      var g, path := GatherDiscovered(disk, paths[..|paths| - 1], declared), paths[|paths| - 1];
      if path in declared then g
      else
        match ReadRoleFile(disk, path, None)
        case Err(problem) => g.(problems := g.problems + [problem])
        case Ok((name, role)) => AddRole(g, name, role, DuplicateDiscovered(name))
  }

  // discovered roles added to the declared ones
  function AddDiscovered(g: Gathered, found: map<string, Role>, names: seq<string>): Gathered
    requires forall n | n in names :: n in found
  {
    if names == [] then g
    else
      var name := names[|names| - 1];
      AddRole(AddDiscovered(g, found, names[..|names| - 1]), name, found[name], DuplicateInLayer(name))
  }

  function Declared(disk: Disk, layer: Layer): Gathered {
    match layer.agents
    case Malformed => Gathered(map[], {}, [MalformedAgents])
    case Missing => Gathered(map[], {}, [])
    case Agents(roles) => GatherDeclared(disk, roles)
  }

  // the layer's own roles and complaints, or the complaints up to a directory that cannot be read
  function LayerRoles(disk: Disk, layer: Layer): Result<Gathered, (seq<Problem>, Problem)> {
    var g := Declared(disk, layer);
    if layer.found.None? then Ok(g)
    else
      match layer.found.value
      case Err(problem) => Err((g.problems, problem))
      case Ok(paths) =>
        var found := GatherDiscovered(disk, paths, g.files);
        SortedStringsSorted(found.roles.Keys);
        Ok(AddDiscovered(g.(problems := g.problems + found.problems), found.roles, SortedStrings(found.roles.Keys)))
  }

  // ---------------------------------------------------------------- merging a layer into the roles below

  // `merge_missing_role_fields`
  function MergeMissing(role: Role, fallback: Role): Role {
    Role(Or(role.description, fallback.description), Or(role.configFile, fallback.configFile),
      Or(role.nicknames, fallback.nicknames))
  }

  datatype Merged = Merged(roles: map<string, Role>, problems: seq<Problem>)

  function MergeNames(below: Merged, here: map<string, Role>, names: seq<string>): Merged
    requires forall n | n in names :: n in here
  {
    if names == [] then below
    else
      var m, name := MergeNames(below, here, names[..|names| - 1]), names[|names| - 1];
      var merged := if name in m.roles then MergeMissing(here[name], m.roles[name]) else here[name];
      if merged.description.None? then m.(problems := m.problems + [NoDescription(name)])
      else m.(roles := m.roles[name := merged])
  }

  function MergeLayer(below: Merged, layer: Gathered): Merged {
    SortedStringsSorted(layer.roles.Keys);
    MergeNames(below.(problems := below.problems + layer.problems), layer.roles, SortedStrings(layer.roles.Keys))
  }

  // the roles of the layers, or the problem that stopped the loading; the complaints either way
  function MergeLayers(disk: Disk, layers: seq<Layer>): (Result<map<string, Role>, Problem>, seq<Problem>) {
    if layers == [] then (Ok(map[]), [])
    else
      var (below, problems) := MergeLayers(disk, layers[..|layers| - 1]);
      if below.Err? then (below, problems)
      else
        match LayerRoles(disk, layers[|layers| - 1])
        case Err((more, problem)) => (Err(problem), problems + more)
        case Ok(own) =>
          var m := MergeLayer(Merged(below.value, problems), own);
          (Ok(m.roles), m.problems)
  }

  // the configuration without layers: every problem is an error
  function WithoutLayers(disk: Disk, entries: seq<(string, Declaration)>): Result<map<string, Role>, Problem> {
    if entries == [] then Ok(map[])
    else
      match WithoutLayers(disk, entries[..|entries| - 1])
      case Err(problem) => Err(problem)
      case Ok(roles) =>
        var entry := entries[|entries| - 1];
        match ReadDeclared(disk, entry.0, entry.1)
        case Err(problem) => Err(problem)
        case Ok((name, role)) =>
          if role.description.None? then Err(NoDescription(name))
          else if name in roles then Err(DuplicateInConfig(name))
          else Ok(roles[name := role])
  }

  // ---------------------------------------------------------------- the loader

  // the `startup_warnings` that the caller passes in
  class StartupWarnings {
    var problems: seq<Problem>

    constructor ()
      ensures problems == []
    {
      problems := [];
    }

    method Push(problem: Problem)
      modifies this
      ensures problems == old(problems) + [problem]
    {
      problems := problems + [problem];
    }
  }

  method DiscoverAgentRoles(disk: Disk, paths: seq<string>, declared: set<string>, warnings: StartupWarnings)
    returns (roles: map<string, Role>)
    modifies warnings
    ensures roles == GatherDiscovered(disk, paths, declared).roles
    ensures warnings.problems == old(warnings.problems) + GatherDiscovered(disk, paths, declared).problems
  {
    hide ReadRoleFile;
    roles := map[];
    for i := 0 to |paths|
      invariant roles == GatherDiscovered(disk, paths[..i], declared).roles
      invariant warnings.problems == old(warnings.problems) + GatherDiscovered(disk, paths[..i], declared).problems
    {
      var path := paths[i];
      assert paths[..i + 1][..i] == paths[..i];
      if path in declared {
        continue;
      }
      var parsed := ReadRoleFile(disk, path, None);
      if parsed.Err? {
        warnings.Push(parsed.error);
        continue;
      }
      var (name, role) := parsed.value;
      if name in roles {
        warnings.Push(DuplicateDiscovered(name));
        continue;
      }
      roles := roles[name := role];
    }
    assert paths[..|paths|] == paths;
  }

  // the declared roles of a layer, with the files they name
  method DeclareAgentRoles(disk: Disk, entries: seq<(string, Declaration)>, warnings: StartupWarnings)
    returns (layerRoles: map<string, Role>, declaredFiles: set<string>)
    modifies warnings
    ensures layerRoles == GatherDeclared(disk, entries).roles && declaredFiles == GatherDeclared(disk, entries).files
    ensures warnings.problems == old(warnings.problems) + GatherDeclared(disk, entries).problems
  {
    hide ReadDeclared;
    layerRoles, declaredFiles := map[], {};
    for i := 0 to |entries|
      invariant layerRoles == GatherDeclared(disk, entries[..i]).roles
      invariant declaredFiles == GatherDeclared(disk, entries[..i]).files
      invariant warnings.problems == old(warnings.problems) + GatherDeclared(disk, entries[..i]).problems
    {
      assert entries[..i + 1][..i] == entries[..i];
      var parsed := ReadDeclared(disk, entries[i].0, entries[i].1);
      if parsed.Err? {
        warnings.Push(parsed.error);
        continue;
      }
      var (name, role) := parsed.value;
      if role.configFile.Some? {
        declaredFiles := declaredFiles + {role.configFile.value};
      }
      if name in layerRoles {
        warnings.Push(DuplicateInLayer(name));
        continue;
      }
      layerRoles := layerRoles[name := role];
    }
    assert entries[..|entries|] == entries;
  }

  // the roles of one layer, declared and discovered
  method LoadLayer(disk: Disk, layer: Layer, warnings: StartupWarnings) returns (r: Result<map<string, Role>, Problem>)
    modifies warnings
    ensures LayerRoles(disk, layer).Ok? ==>
      r == Ok(LayerRoles(disk, layer).value.roles)
      && warnings.problems == old(warnings.problems) + LayerRoles(disk, layer).value.problems
    ensures LayerRoles(disk, layer).Err? ==>
      r == Err(LayerRoles(disk, layer).error.1)
      && warnings.problems == old(warnings.problems) + LayerRoles(disk, layer).error.0
  {
    hide GatherDeclared, GatherDiscovered, SortedStrings;
    var layerRoles: map<string, Role> := map[];
    var declaredFiles: set<string> := {};
    match layer.agents {
      case Malformed => warnings.Push(MalformedAgents);
      case Missing =>
      case Agents(entries) => layerRoles, declaredFiles := DeclareAgentRoles(disk, entries, warnings);
    }
    ghost var g := Declared(disk, layer);
    assert layerRoles == g.roles && declaredFiles == g.files
      && warnings.problems == old(warnings.problems) + g.problems;
    if layer.found.Some? {
      if layer.found.value.Err? {
        return Err(layer.found.value.error);
      }
      var discovered := DiscoverAgentRoles(disk, layer.found.value.value, declaredFiles, warnings);
      ghost var start := g.(problems := g.problems + GatherDiscovered(disk, layer.found.value.value, g.files).problems);
      layerRoles := AddAgentRoles(start, discovered, layerRoles, warnings, old(warnings.problems));
    }
    return Ok(layerRoles);
  }

  method AddAgentRoles(ghost g: Gathered, discovered: map<string, Role>, declared: map<string, Role>,
                       warnings: StartupWarnings, ghost before: seq<Problem>)
    returns (layerRoles: map<string, Role>)
    requires declared == g.roles && warnings.problems == before + g.problems
    modifies warnings
    ensures forall n | n in SortedStrings(discovered.Keys) :: n in discovered
    ensures layerRoles == AddDiscovered(g, discovered, SortedStrings(discovered.Keys)).roles
    ensures warnings.problems == before + AddDiscovered(g, discovered, SortedStrings(discovered.Keys)).problems
  {
    SortedStringsSorted(discovered.Keys);
    hide SortedStrings;
    layerRoles := declared;
    var names := SortedStrings(discovered.Keys);
    for i := 0 to |names|
      invariant layerRoles == AddDiscovered(g, discovered, names[..i]).roles
      invariant warnings.problems == before + AddDiscovered(g, discovered, names[..i]).problems
    {
      assert names[..i + 1][..i] == names[..i];
      assert names[i] in names;
      if names[i] in layerRoles {
        warnings.Push(DuplicateInLayer(names[i]));
        continue;
      }
      layerRoles := layerRoles[names[i] := discovered[names[i]]];
    }
    assert names[..|names|] == names;
  }

  // the inner loop that merges one layer's roles into the roles below it
  method MergeAgentRoles(below: map<string, Role>, layerRoles: map<string, Role>, warnings: StartupWarnings,
                         ghost problems: seq<Problem>)
    returns (roles: map<string, Role>)
    requires warnings.problems == problems
    modifies warnings
    ensures forall n | n in SortedStrings(layerRoles.Keys) :: n in layerRoles
    ensures Merged(roles, warnings.problems) ==
      MergeNames(Merged(below, problems), layerRoles, SortedStrings(layerRoles.Keys))
  {
    SortedStringsSorted(layerRoles.Keys);
    hide SortedStrings;
    roles := below;
    var names := SortedStrings(layerRoles.Keys);
    for i := 0 to |names|
      invariant Merged(roles, warnings.problems) == MergeNames(Merged(below, problems), layerRoles, names[..i])
    {
      assert names[..i + 1][..i] == names[..i];
      var name := names[i];
      assert name in names;
      var mergedRole := layerRoles[name];
      if name in roles {
        mergedRole := MergeMissing(mergedRole, roles[name]);
      }
      if mergedRole.description.None? {
        warnings.Push(NoDescription(name));
        continue;
      }
      roles := roles[name := mergedRole];
    }
    assert names[..|names|] == names;
  }

  // `load_agent_roles_without_layers`
  method LoadAgentRolesWithoutLayers(disk: Disk, entries: seq<(string, Declaration)>)
    returns (r: Result<map<string, Role>, Problem>)
    ensures r == WithoutLayers(disk, entries)
  {
    hide ReadDeclared;
    var roles: map<string, Role> := map[];
    for i := 0 to |entries|
      invariant WithoutLayers(disk, entries[..i]) == Ok(roles)
    {
      assert entries[..i + 1][..i] == entries[..i];
      FirstErrorStays(disk, entries, i + 1);
      var parsed := ReadDeclared(disk, entries[i].0, entries[i].1);
      if parsed.Err? {
        return Err(parsed.error);
      }
      var (name, role) := parsed.value;
      if role.description.None? {
        return Err(NoDescription(name));
      }
      if name in roles {
        return Err(DuplicateInConfig(name));
      }
      roles := roles[name := role];
    }
    assert entries[..|entries|] == entries;
    return Ok(roles);
  }

  lemma {:induction false} FirstErrorStays(disk: Disk, entries: seq<(string, Declaration)>, k: nat)
    requires k <= |entries|
    ensures WithoutLayers(disk, entries[..k]).Err? ==> WithoutLayers(disk, entries) == WithoutLayers(disk, entries[..k])
    decreases |entries|
  {
    if k == |entries| { assert entries[..k] == entries; }
    else {
      FirstErrorStays(disk, entries[..|entries| - 1], k);
      assert entries[..|entries| - 1][..k] == entries[..k];
    }
  }

  // `load_agent_roles`; declared are the roles of the merged configuration, read only when there are no layers.
  method LoadAgentRoles(disk: Disk, declared: seq<(string, Declaration)>, layers: seq<Layer>, warnings: StartupWarnings)
    returns (r: Result<map<string, Role>, Problem>)
    modifies warnings
    ensures layers == [] ==> r == WithoutLayers(disk, declared) && warnings.problems == old(warnings.problems)
    ensures layers != [] ==>
      r == MergeLayers(disk, layers).0 && warnings.problems == old(warnings.problems) + MergeLayers(disk, layers).1
  {
    if layers == [] {
      r := LoadAgentRolesWithoutLayers(disk, declared);
      return;
    }
    hide LayerRoles, MergeLayers, MergeNames;
    NoLayers(disk);
    var roles: map<string, Role> := map[];
    for i := 0 to |layers|
      invariant MergeLayers(disk, layers[..i]).0 == Ok(roles)
      invariant warnings.problems == old(warnings.problems) + MergeLayers(disk, layers[..i]).1
    {
      StoppedStays(disk, layers, i + 1);
      NextLayer(disk, layers, i, old(warnings.problems));
      var loaded := LoadLayer(disk, layers[i], warnings);
      if loaded.Err? {
        return Err(loaded.error);
      }
      roles := MergeAgentRoles(roles, loaded.value, warnings, warnings.problems);
    }
    assert layers[..|layers|] == layers;
    return Ok(roles);
  }

  lemma NoLayers(disk: Disk)
    ensures MergeLayers(disk, []) == (Ok(map[]), [])
  {
  }

  // What one more layer does, with the complaints of the caller in front.
  lemma NextLayer(disk: Disk, layers: seq<Layer>, i: nat, front: seq<Problem>)
    requires i < |layers| && MergeLayers(disk, layers[..i]).0.Ok?
    ensures var (below, problems) := MergeLayers(disk, layers[..i]);
      var (next, complaints) := MergeLayers(disk, layers[..i + 1]);
      var own := LayerRoles(disk, layers[i]);
      && (own.Err? ==> next == Err(own.error.1) && front + complaints == front + problems + own.error.0)
      && (own.Ok? ==> next.Ok? && forall n | n in SortedStrings(own.value.roles.Keys) :: n in own.value.roles)
      && (own.Ok? ==>
            Merged(next.value, front + complaints)
            == MergeNames(Merged(below.value, front + problems + own.value.problems), own.value.roles,
              SortedStrings(own.value.roles.Keys)))
  {
    var (below, problems) := MergeLayers(disk, layers[..i]);
    var own := LayerRoles(disk, layers[i]);
    assert layers[..i + 1][..i] == layers[..i];
    hide LayerRoles, SortedStrings, MergeNames;
    if own.Ok? {
      SortedStringsSorted(own.value.roles.Keys);
      assert front + problems + own.value.problems == front + (problems + own.value.problems);
      MoreProblems(Merged(below.value, problems + own.value.problems), front, own.value.roles,
        SortedStrings(own.value.roles.Keys));
    } else {
      assert front + problems + own.error.0 == front + (problems + own.error.0);
    }
  }

  lemma {:induction false} StoppedStays(disk: Disk, layers: seq<Layer>, k: nat)
    requires k <= |layers|
    ensures MergeLayers(disk, layers[..k]).0.Err? ==> MergeLayers(disk, layers) == MergeLayers(disk, layers[..k])
    decreases |layers|
  {
    if k == |layers| { assert layers[..k] == layers; }
    else {
      StoppedStays(disk, layers[..|layers| - 1], k);
      assert layers[..|layers| - 1][..k] == layers[..k];
    }
  }

  // Earlier complaints stay in front.
  lemma {:induction false} MoreProblems(below: Merged, front: seq<Problem>, here: map<string, Role>, names: seq<string>)
    requires forall n | n in names :: n in here
    ensures var m := MergeNames(below, here, names);
      MergeNames(below.(problems := front + below.problems), here, names) == m.(problems := front + m.problems)
  {
    if names != [] {
      MoreProblems(below, front, here, names[..|names| - 1]);
    }
  }
}
