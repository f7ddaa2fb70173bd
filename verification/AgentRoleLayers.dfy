/** What loading roles from layers means: each role's fields come from the highest layers that set them, down to the
    first layer that described the role. */
module AgentRoleLayers {
  import opened Prelude
  import opened Ordering
  import opened AgentRoles

  // ---------------------------------------------------------------- one layer's own roles

  function Lookup(roles: map<string, Role>, name: string): Option<Role> {
    if name in roles then Some(roles[name]) else None
  }

  // ---------------------------------------------------------------- one role file, one declaration

  // The file can be read, gives its own name or else the declared one, and its own fields; a file that no
  // declaration names must also carry instructions.
  ghost predicate FileGives(disk: Disk, path: string, declared: Option<string>, name: string, role: Role) {
    && path in disk.files && disk.files[path].RoleFile?
    && (disk.files[path].name == Some(name) || (disk.files[path].name.None? && declared == Some(name)))
    && (declared.None? ==> disk.files[path].instructions)
    && role == Role(disk.files[path].description, Some(path), disk.files[path].nicknames)
  }

  lemma RoleFileMeaning(disk: Disk, path: string, declared: Option<string>, name: string, role: Role)
    ensures ReadRoleFile(disk, path, declared) == Ok((name, role)) <==> FileGives(disk, path, declared, name, role)
    ensures ReadRoleFile(disk, path, declared) == Err(MalformedFile(path)) <==>
      path !in disk.files || disk.files[path].Broken?
    ensures ReadRoleFile(disk, path, declared) == Err(NoInstructions(path)) <==>
      path in disk.files && disk.files[path].RoleFile? && declared.None? && !disk.files[path].instructions
    ensures ReadRoleFile(disk, path, declared) == Err(Nameless(path)) <==>
      path in disk.files && disk.files[path].RoleFile? && declared.None? && disk.files[path].instructions
        && disk.files[path].name.None?
  {
  }

  // A declaration is well formed and, when it names a file, that file gives the role: the file's name, description and
  // nicknames win over the declared ones.
  ghost predicate DeclarationGives(disk: Disk, key: string, toml: Declaration, name: string, role: Role) {
    && toml.description.Some? && toml.nicknames.Some? && role.configFile == toml.configFile
    && if toml.configFile.None? then
         name == key && role.description == toml.description.value && role.nicknames == toml.nicknames.value
       else
         var path := toml.configFile.value;
         && path in disk.files && disk.files[path].RoleFile?
         && name == (if disk.files[path].name.Some? then disk.files[path].name.value else key)
         && role.description ==
            (if disk.files[path].description.Some? then disk.files[path].description else toml.description.value)
         && role.nicknames ==
            (if disk.files[path].nicknames.Some? then disk.files[path].nicknames else toml.nicknames.value)
  }

  lemma DeclarationMeaning(disk: Disk, key: string, toml: Declaration, name: string, role: Role)
    ensures ReadDeclared(disk, key, toml) == Ok((name, role)) <==> DeclarationGives(disk, key, toml, name, role)
  {
    if toml.configFile.Some? {
      var parsed := ReadRoleFile(disk, toml.configFile.value, Some(key));
      if parsed.Ok? {
        RoleFileMeaning(disk, toml.configFile.value, Some(key), parsed.value.0, parsed.value.1);
      }
    }
  }

  // The complaint about a declaration that gives no role.
  lemma DeclarationProblem(disk: Disk, key: string, toml: Declaration)
    requires ReadDeclared(disk, key, toml).Err?
    ensures ReadDeclared(disk, key, toml).error ==
      if toml.configFile.Some? && toml.configFile.value !in disk.files then NoSuchFile(key, toml.configFile.value)
      else if toml.description.None? || toml.nicknames.None? then MalformedRole(key)
      else MalformedFile(toml.configFile.value)
  {
  }

  // ---------------------------------------------------------------- the declarations of a layer

  // what declaration k of a layer declares
  ghost predicate Declares(disk: Disk, entries: seq<(string, Declaration)>, k: nat, name: string, role: Role) {
    k < |entries| && DeclarationGives(disk, entries[k].0, entries[k].1, name, role)
  }

  lemma DeclaresMeaning(disk: Disk, entries: seq<(string, Declaration)>, k: nat)
    requires k < |entries|
    ensures forall name, role :: Declares(disk, entries, k, name, role) <==>
      ReadDeclared(disk, entries[k].0, entries[k].1) == Ok((name, role))
  {
    forall name, role
      ensures Declares(disk, entries, k, name, role) <==>
        ReadDeclared(disk, entries[k].0, entries[k].1) == Ok((name, role))
    {
      DeclarationMeaning(disk, entries[k].0, entries[k].1, name, role);
    }
  }

  ghost predicate FirstDeclares(disk: Disk, entries: seq<(string, Declaration)>, k: nat, name: string, role: Role) {
    && Declares(disk, entries, k, name, role)
    && forall j, other | 0 <= j < k :: !Declares(disk, entries, j, name, other)
  }

  // Of the declarations that can be read, the first one of a name counts.
  lemma {:induction false} DeclaredMeaning(disk: Disk, entries: seq<(string, Declaration)>, name: string, role: Role)
    ensures Lookup(GatherDeclared(disk, entries).roles, name) == Some(role) <==>
      exists k: nat :: FirstDeclares(disk, entries, k, name, role)
    decreases |entries|
  {
    hide ReadDeclared, DeclarationGives;
    if entries != [] {
      var init, n := entries[..|entries| - 1], |entries| - 1;
      var g := GatherDeclared(disk, init);
      DeclaresMeaning(disk, entries, n);
      assert forall j: nat, r | j < n :: Declares(disk, entries, j, name, r) == Declares(disk, init, j, name, r);
      assert forall j: nat, r | j >= n :: !Declares(disk, init, j, name, r);
      DeclaredMeaning(disk, init, name, role);
      if Declares(disk, entries, n, name, role) && name !in g.roles {
        forall j: nat, other | j < n ensures !Declares(disk, init, j, name, other) {
          NotDeclared(disk, init, name, j, other);
        }
        assert FirstDeclares(disk, entries, n, name, role);
      }
      if k: nat :| FirstDeclares(disk, init, k, name, role) { assert FirstDeclares(disk, entries, k, name, role); }
      if k: nat :| FirstDeclares(disk, entries, k, name, role) {
        if k < n { assert FirstDeclares(disk, init, k, name, role); }
        else if name in g.roles { DeclaredSomewhere(disk, init, name); }
      }
    }
  }

  lemma {:induction false} NotDeclared(disk: Disk, entries: seq<(string, Declaration)>, name: string, j: nat,
                                       role: Role)
    requires name !in GatherDeclared(disk, entries).roles
    ensures !Declares(disk, entries, j, name, role)
    decreases |entries|
  {
    hide ReadDeclared, DeclarationGives;
    if entries != [] { DeclaresMeaning(disk, entries, |entries| - 1); }
    if entries != [] && j < |entries| - 1 {
      NotDeclared(disk, entries[..|entries| - 1], name, j, role);
      assert Declares(disk, entries, j, name, role) == Declares(disk, entries[..|entries| - 1], j, name, role);
    }
  }

  lemma {:induction false} DeclaredSomewhere(disk: Disk, entries: seq<(string, Declaration)>, name: string)
    requires name in GatherDeclared(disk, entries).roles
    ensures exists j: nat, role :: j < |entries| && Declares(disk, entries, j, name, role)
    decreases |entries|
  {
    hide ReadDeclared, DeclarationGives;
    var init, n := entries[..|entries| - 1], |entries| - 1;
    DeclaresMeaning(disk, entries, n);
    if name in GatherDeclared(disk, init).roles {
      DeclaredSomewhere(disk, init, name);
      var j: nat, role :| j < |init| && Declares(disk, init, j, name, role);
      assert Declares(disk, entries, j, name, role);
    } else {
      assert Declares(disk, entries, n, name, ReadDeclared(disk, entries[n].0, entries[n].1).value.1);
    }
  }

  // an undeclared role file that can be read and names this role
  predicate NamesRole(disk: Disk, path: string, declared: set<string>, name: string) {
    path !in declared && ReadRoleFile(disk, path, None).Ok? && ReadRoleFile(disk, path, None).value.0 == name
  }

  function FirstFile(disk: Disk, paths: seq<string>, declared: set<string>, name: string): (k: Option<nat>)
    ensures k.Some? ==> k.value < |paths| && NamesRole(disk, paths[k.value], declared, name)
    ensures forall j | 0 <= j < (if k.Some? then k.value else |paths|) :: !NamesRole(disk, paths[j], declared, name)
  {
    if paths == [] then None
    else
      var earlier := FirstFile(disk, paths[..|paths| - 1], declared, name);
      if earlier.Some? then earlier
      else if NamesRole(disk, paths[|paths| - 1], declared, name) then Some(|paths| - 1)
      else None
  }

  // Of the files that are not declared and can be read, the first one that names a role counts.
  lemma {:induction false} DiscoveredMeaning(disk: Disk, paths: seq<string>, declared: set<string>, name: string)
    ensures var k := FirstFile(disk, paths, declared, name);
      Lookup(GatherDiscovered(disk, paths, declared).roles, name) ==
        if k.Some? then Some(ReadRoleFile(disk, paths[k.value], None).value.1) else None
    decreases |paths|
  {
    hide ReadRoleFile;
    if paths != [] {
      DiscoveredMeaning(disk, paths[..|paths| - 1], declared, name);
    }
  }

  // Declared roles win over discovered ones of the same name.
  lemma {:induction false} AddDiscoveredMeaning(g: Gathered, found: map<string, Role>, names: seq<string>, name: string)
    requires forall n | n in names :: n in found
    ensures Lookup(AddDiscovered(g, found, names).roles, name) ==
      if name in g.roles then Some(g.roles[name]) else if name in names then Some(found[name]) else None
  {
    if names != [] {
      AddDiscoveredMeaning(g, found, names[..|names| - 1], name);
      assert names == names[..|names| - 1] + [names[|names| - 1]];
    }
  }

  lemma LayerRolesMeaning(disk: Disk, layer: Layer, name: string)
    requires layer.found.Some? && layer.found.value.Ok?
    ensures LayerRoles(disk, layer).Ok? && Lookup(LayerRoles(disk, layer).value.roles, name) ==
      Or(Lookup(Declared(disk, layer).roles, name),
         Lookup(GatherDiscovered(disk, layer.found.value.value, Declared(disk, layer).files).roles, name))
  {
    var g := Declared(disk, layer);
    var found := GatherDiscovered(disk, layer.found.value.value, g.files);
    SortedStringsSorted(found.roles.Keys);
    AddDiscoveredMeaning(g.(problems := g.problems + found.problems), found.roles, SortedStrings(found.roles.Keys),
      name);
    hide Declared, GatherDiscovered, SortedStrings, AddDiscovered;
  }

  // ---------------------------------------------------------------- one name through the layers

  // one layer's effect on one name
  function Stacked(below: Option<Role>, here: Option<Role>): Option<Role> {
    if here.None? then below
    else
      var merged := if below.Some? then MergeMissing(here.value, below.value) else here.value;
      if merged.description.None? then below else Some(merged)
  }

  lemma {:induction false} MergeNamesMeaning(below: Merged, here: map<string, Role>, names: seq<string>, name: string)
    requires (forall n | n in names :: n in here) && (forall i, j | 0 <= i < j < |names| :: names[i] != names[j])
    ensures Lookup(MergeNames(below, here, names).roles, name) ==
      if name in names then Stacked(Lookup(below.roles, name), Some(here[name])) else Lookup(below.roles, name)
  {
    if names != [] {
      var init, last := names[..|names| - 1], names[|names| - 1];
      MergeNamesMeaning(below, here, init, name);
      assert names == init + [last];
      assert last !in init;
    }
  }

  lemma SortedNamesDistinct(s: set<string>)
    ensures var names := SortedStrings(s); forall i, j | 0 <= i < j < |names| :: names[i] != names[j]
  {
    SortedStringsSorted(s);
    var names := SortedStrings(s);
    hide SortedStrings;
    forall i, j | 0 <= i < j < |names| ensures names[i] != names[j] { StringLessIrreflexive(names[i]); }
  }

  lemma MergeLayerMeaning(below: Merged, layer: Gathered, name: string)
    ensures Lookup(MergeLayer(below, layer).roles, name) ==
      Stacked(Lookup(below.roles, name), Lookup(layer.roles, name))
  {
    SortedStringsSorted(layer.roles.Keys);
    SortedNamesDistinct(layer.roles.Keys);
    hide SortedStrings, MergeNames, Stacked;
    MergeNamesMeaning(below.(problems := below.problems + layer.problems), layer.roles,
      SortedStrings(layer.roles.Keys), name);
    StackedNothing(Lookup(below.roles, name));
  }

  lemma StackedNothing(below: Option<Role>)
    ensures Stacked(below, None) == below
  {
  }

  // what the layers say about one name, lowest first
  function Column(disk: Disk, layers: seq<Layer>, name: string): (column: seq<Option<Role>>)
    requires forall l | l in layers :: LayerRoles(disk, l).Ok?
    ensures |column| == |layers|
    ensures forall i | 0 <= i < |layers| :: column[i] == Lookup(LayerRoles(disk, layers[i]).value.roles, name)
  {
    if layers == [] then []
    else Column(disk, layers[..|layers| - 1], name) + [Lookup(LayerRoles(disk, layers[|layers| - 1]).value.roles, name)]
  }

  function Stack(column: seq<Option<Role>>): Option<Role> {
    if column == [] then None else Stacked(Stack(column[..|column| - 1]), column[|column| - 1])
  }

  lemma {:induction false} LayersByName(disk: Disk, layers: seq<Layer>, name: string)
    requires forall l | l in layers :: LayerRoles(disk, l).Ok?
    ensures MergeLayers(disk, layers).0.Ok?
      && Lookup(MergeLayers(disk, layers).0.value, name) == Stack(Column(disk, layers, name))
    decreases |layers|
  {
    hide LayerRoles, MergeLayer, Stacked;
    if layers != [] {
      var init, last := layers[..|layers| - 1], layers[|layers| - 1];
      assert last in layers;
      LayersByName(disk, init, name);
      var (below, problems) := MergeLayers(disk, init);
      MergeLayerMeaning(Merged(below.value, problems), LayerRoles(disk, last).value, name);
      assert Column(disk, layers, name)[..|layers| - 1] == Column(disk, init, name);
    }
  }

  // ---------------------------------------------------------------- the simple specification

  predicate Describes(column: seq<Option<Role>>, i: nat) {
    i < |column| && column[i].Some? && column[i].value.description.Some?
  }

  // the first layer that describes the role
  ghost predicate FirstDescribes(column: seq<Option<Role>>, i: nat) {
    Describes(column, i) && forall j | 0 <= j < i :: !Describes(column, j)
  }

  // what one layer sets for a field
  function Sets<T>(here: Option<Role>, field: Role -> Option<T>): Option<T> {
    if here.Some? then field(here.value) else None
  }

  // The value is the one that the highest layer at or above `first` that sets the field gives it.
  ghost predicate FromHighest<T(!new)>(column: seq<Option<Role>>, first: nat, field: Role -> Option<T>,
                                       value: Option<T>)
  {
    match value
    case None => forall i | first <= i < |column| :: Sets(column[i], field).None?
    case Some(v) =>
      exists i | first <= i < |column| ::
        Sets(column[i], field) == Some(v) && forall j | i < j < |column| :: Sets(column[j], field).None?
  }

  lemma HighestNext<T(!new)>(column: seq<Option<Role>>, first: nat, field: Role -> Option<T>, value: Option<T>)
    requires column != [] && first < |column| && FromHighest(column[..|column| - 1], first, field, value)
    ensures FromHighest(column, first, field, Or(Sets(column[|column| - 1], field), value))
  {
    var init, last := column[..|column| - 1], column[|column| - 1];
    hide Sets;
    assert forall i | 0 <= i < |init| :: Sets(column[i], field) == Sets(init[i], field);
    if Sets(last, field).Some? {
      assert Sets(column[|column| - 1], field) == Sets(last, field);
    } else if value.Some? {
      var i :| first <= i < |init| && Sets(init[i], field) == value
        && forall j | i < j < |init| :: Sets(init[j], field).None?;
      assert Sets(column[i], field) == value;
      assert forall j | i < j < |column| :: Sets(column[j], field).None?;
    }
  }

  // From the first describing layer itself.
  lemma HighestStart<T(!new)>(column: seq<Option<Role>>, first: nat, field: Role -> Option<T>)
    requires |column| == first + 1
    ensures FromHighest(column, first, field, Sets(column[first], field))
  {
  }

  ghost predicate FieldsFrom(column: seq<Option<Role>>, first: nat, role: Role) {
    && FirstDescribes(column, first)
    && FromHighest(column, first, (r: Role) => r.description, role.description)
    && FromHighest(column, first, (r: Role) => r.configFile, role.configFile)
    && FromHighest(column, first, (r: Role) => r.nicknames, role.nicknames)
  }

  ghost predicate Specified(column: seq<Option<Role>>, role: Option<Role>) {
    && (role.Some? <==> exists i: nat :: FirstDescribes(column, i))
    && (role.Some? ==> role.value.description.Some?)
    && (role.Some? ==> exists first: nat :: FieldsFrom(column, first, role.value))
  }

  lemma FirstStays(column: seq<Option<Role>>, i: nat)
    requires column != []
    ensures FirstDescribes(column[..|column| - 1], i) ==> FirstDescribes(column, i)
    ensures FirstDescribes(column, i) ==> FirstDescribes(column[..|column| - 1], i) || i == |column| - 1
  {
    var init := column[..|column| - 1];
    assert forall j | 0 <= j < |init| :: Describes(column, j) == Describes(init, j);
  }

  lemma {:induction false} StackMeaning(column: seq<Option<Role>>)
    ensures Specified(column, Stack(column))
    decreases |column|
  {
    if column == [] {
      assert forall i: nat :: !FirstDescribes(column, i);
    } else {
      var init, here := column[..|column| - 1], column[|column| - 1];
      StackMeaning(init);
      forall i: nat ensures (FirstDescribes(init, i) ==> FirstDescribes(column, i))
        && (FirstDescribes(column, i) ==> FirstDescribes(init, i) || i == |column| - 1)
      {
        FirstStays(column, i);
      }
      if Stack(init).Some? { StackAbove(column, Stack(init).value); } else { StackFirst(column); }
    }
  }

  lemma StackAbove(column: seq<Option<Role>>, below: Role)
    requires column != [] && Stack(column[..|column| - 1]) == Some(below)
      && Specified(column[..|column| - 1], Some(below))
    ensures Specified(column, Stack(column))
  {
    var init, here := column[..|column| - 1], column[|column| - 1];
    var first: nat :| FieldsFrom(init, first, below);
    var merged := if here.Some? then MergeMissing(here.value, below) else below;
    assert Stack(column) == Some(merged);
    FirstStays(column, first);
    hide FromHighest, Stack;
    HighestNext(column, first, (r: Role) => r.description, below.description);
    HighestNext(column, first, (r: Role) => r.configFile, below.configFile);
    HighestNext(column, first, (r: Role) => r.nicknames, below.nicknames);
    assert FieldsFrom(column, first, merged);
  }

  lemma StackFirst(column: seq<Option<Role>>)
    requires column != [] && Stack(column[..|column| - 1]) == None && Specified(column[..|column| - 1], None)
    ensures Specified(column, Stack(column))
  {
    var init, n := column[..|column| - 1], |column| - 1;
    NoneDescribes(init);
    NewDescribes(column, init);
    assert Stack(column) == if Describes(column, n) then column[n] else None;
    hide FromHighest, Stack, Describes, FirstDescribes;
    if Describes(column, n) {
      HighestStart(column, n, (r: Role) => r.description);
      HighestStart(column, n, (r: Role) => r.configFile);
      HighestStart(column, n, (r: Role) => r.nicknames);
      assert FieldsFrom(column, n, column[n].value);
    }
  }

  lemma NewDescribes(column: seq<Option<Role>>, init: seq<Option<Role>>)
    requires column != [] && init == column[..|column| - 1] && forall j: nat :: !Describes(init, j)
    ensures forall i: nat :: FirstDescribes(column, i) <==> i == |column| - 1 && Describes(column, i)
    ensures Describes(column, |column| - 1) ==>
      column[|column| - 1].Some? && column[|column| - 1].value.description.Some?
  {
    assert forall j: nat | j < |column| - 1 :: Describes(column, j) == Describes(init, j);
  }

  lemma {:induction false} NoneDescribes(column: seq<Option<Role>>)
    requires forall i: nat :: !FirstDescribes(column, i)
    ensures forall j: nat :: !Describes(column, j)
  {
    forall j: nat ensures !Describes(column, j) { NotDescribed(column, j); }
  }

  lemma {:induction false} NotDescribed(column: seq<Option<Role>>, j: nat)
    requires forall i: nat :: !FirstDescribes(column, i)
    ensures !Describes(column, j)
    decreases j
  {
    forall i: nat | i < j ensures !Describes(column, i) { NotDescribed(column, i); }
    assert !FirstDescribes(column, j);
  }

  // The loaded roles, when every layer's directory could be read: a name is there exactly when some layer describes it,
  // with a description, and each of its fields comes from the highest layer that sets it at or above the first layer
  // that described it.
  lemma LayeringMeaning(disk: Disk, layers: seq<Layer>, name: string)
    requires forall l | l in layers :: LayerRoles(disk, l).Ok?
    ensures MergeLayers(disk, layers).0.Ok?
    ensures Specified(Column(disk, layers, name), Lookup(MergeLayers(disk, layers).0.value, name))
  {
    LayersByName(disk, layers, name);
    StackMeaning(Column(disk, layers, name));
    hide Specified, Column, MergeLayers, Stack;
  }

  // a declaration that can be read and describes its role
  function Read(disk: Disk, entry: (string, Declaration)): Option<(string, Role)> {
    match ReadDeclared(disk, entry.0, entry.1)
    case Err(_) => None
    case Ok((name, role)) => if role.description.None? then None else Some((name, role))
  }

  lemma WithoutNext(disk: Disk, entries: seq<(string, Declaration)>)
    requires entries != []
    ensures var r, read := WithoutLayers(disk, entries[..|entries| - 1]), Read(disk, entries[|entries| - 1]);
      && (WithoutLayers(disk, entries).Ok? <==> r.Ok? && read.Some? && read.value.0 !in r.value)
      && (WithoutLayers(disk, entries).Ok? ==>
          WithoutLayers(disk, entries).value == r.value[read.value.0 := read.value.1])
  {
    hide ReadDeclared;
  }

  lemma {:induction false} WithoutLayersRoles(disk: Disk, entries: seq<(string, Declaration)>, name: string, role: Role)
    requires WithoutLayers(disk, entries).Ok?
    ensures Lookup(WithoutLayers(disk, entries).value, name) == Some(role) <==>
      exists k | 0 <= k < |entries| :: Read(disk, entries[k]) == Some((name, role))
    decreases |entries|
  {
    if entries != [] {
      var init, n := entries[..|entries| - 1], |entries| - 1;
      WithoutNext(disk, entries);
      hide WithoutLayers, Read;
      WithoutLayersRoles(disk, init, name, role);
      if k :| 0 <= k < n && Read(disk, init[k]) == Some((name, role)) {
        assert Read(disk, entries[k]) == Some((name, role));
      }
      if k :| 0 <= k < |entries| && Read(disk, entries[k]) == Some((name, role)) {
        assert k < n ==> Read(disk, init[k]) == Some((name, role));
      }
    } else {
      assert WithoutLayers(disk, entries).value == map[];
    }
  }

  // every declaration readable, no name twice
  ghost predicate AllReadOnce(disk: Disk, entries: seq<(string, Declaration)>) {
    && (forall k | 0 <= k < |entries| :: Read(disk, entries[k]).Some?)
    && forall j, k | 0 <= j < k < |entries| :: Read(disk, entries[j]).value.0 != Read(disk, entries[k]).value.0
  }

  // A configuration without layers is accepted exactly when every declaration can be read and describes its role, and
  // no name is declared twice.
  lemma {:induction false} WithoutLayersMeaning(disk: Disk, entries: seq<(string, Declaration)>)
    ensures WithoutLayers(disk, entries).Ok? <==> AllReadOnce(disk, entries)
    decreases |entries|
  {
    if entries != [] {
      var init, n := entries[..|entries| - 1], |entries| - 1;
      WithoutNext(disk, entries);
      WithoutLayersMeaning(disk, init);
      hide WithoutLayers, Read;
      assert forall k | 0 <= k < n :: init[k] == entries[k];
      assert AllReadOnce(disk, entries) ==> AllReadOnce(disk, init);
      var read, before := Read(disk, entries[n]), WithoutLayers(disk, init);
      if before.Ok? && read.Some? {
        var name := read.value.0;
        if name in before.value {
          WithoutLayersRoles(disk, init, name, before.value[name]);
          var k :| 0 <= k < n && Read(disk, init[k]) == Some((name, before.value[name]));
          assert Read(disk, entries[k]).value.0 == Read(disk, entries[n]).value.0;
        } else {
          forall k | 0 <= k < n ensures Read(disk, entries[k]).Some? ==> Read(disk, entries[k]).value.0 != name {
            if Read(disk, init[k]).Some? {
              WithoutLayersRoles(disk, init, Read(disk, init[k]).value.0, Read(disk, init[k]).value.1);
            }
          }
        }
      }
    }
  }

  // Loading fails exactly when some layer's directory cannot be read.
  lemma {:induction false} LoadingFails(disk: Disk, layers: seq<Layer>)
    ensures MergeLayers(disk, layers).0.Err? <==> exists l :: l in layers && l.found.Some? && l.found.value.Err?
    decreases |layers|
  {
    if layers != [] {
      var init, last := layers[..|layers| - 1], layers[|layers| - 1];
      LoadingFails(disk, init);
      assert layers == init + [last];
      assert last in layers;
      hide MergeLayer, Declared, GatherDiscovered, AddDiscovered, SortedStrings;
      assert LayerRoles(disk, last).Err? <==> last.found.Some? && last.found.value.Err?;
    }
  }
}
