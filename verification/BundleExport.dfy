/**
  The control plane writes an agent and the resources it refers to as a bundle directory; the
  runtime loads that directory and builds its catalogs. `ExportThenServe` composes the three:
  what is exported loads, except for an agent whose enabled memory names the empty policy.
*/
module BundleExport {
  import opened Prelude
  import opened Strings

  const API_VERSION := "osa/v1alpha1"

  datatype Kind = Model | Tool | Skill | Mcp | MemoryPolicy

  const KINDS: seq<Kind> := [Model, Tool, Skill, Mcp, MemoryPolicy]

  function Index(kind: Kind): (k: nat)
    ensures k < |KINDS| && KINDS[k] == kind
  {
    match kind
    case Model => 0
    case Tool => 1
    case Skill => 2
    case Mcp => 3
    case MemoryPolicy => 4
  }

  function KindName(kind: Kind): string {
    match kind
    case Model => "Model"
    case Tool => "Tool"
    case Skill => "Skill"
    case Mcp => "Mcp"
    case MemoryPolicy => "MemoryPolicy"
  }

  function DirectoryName(kind: Kind): string {
    match kind
    case Model => "models"
    case Tool => "tools"
    case Skill => "skills"
    case Mcp => "mcps"
    case MemoryPolicy => "memory-policies"
  }

  /** Neither a directory nor the kind written in a document stands for two kinds. */
  lemma NamesTellKindsApart(a: Kind, b: Kind)
    ensures DirectoryName(a) == DirectoryName(b) ==> a == b
    ensures KindName(a) == KindName(b) ==> a == b
  {
    assert DirectoryName(a) == DirectoryName(b) ==>
      DirectoryName(a)[0] == DirectoryName(b)[0] && |DirectoryName(a)| == |DirectoryName(b)|;
    assert KindName(a) == KindName(b) ==> KindName(a)[0] == KindName(b)[0] && |KindName(a)| == |KindName(b)|;
  }

  /** One value for each of the five kinds. */
  datatype PerKind<T> = PerKind(models: T, tools: T, skills: T, mcps: T, memoryPolicies: T) {
    function Get(kind: Kind): T {
      match kind
      case Model => models
      case Tool => tools
      case Skill => skills
      case Mcp => mcps
      case MemoryPolicy => memoryPolicies
    }

    function With(kind: Kind, value: T): (r: PerKind<T>)
      ensures forall k: Kind :: r.Get(k) == if k == kind then value else Get(k)
    {
      match kind
      case Model => this.(models := value)
      case Tool => this.(tools := value)
      case Skill => this.(skills := value)
      case Mcp => this.(mcps := value)
      case MemoryPolicy => this.(memoryPolicies := value)
    }
  }

  /** A resource definition: its name and everything else. */
  datatype Definition = Definition(name: string, body: string)

  type Catalog = map<string, Definition>

  datatype Spec = Spec(
    model: Option<string>,
    tools: seq<string>,
    skills: seq<string>,
    mcps: seq<string>,
    memoryEnabled: bool,
    memoryPolicy: Option<string>)

  datatype Agent = Agent(name: string, spec: Spec)

  datatype Document = Document(apiVersion: string, kind: string, spec: Definition)

  type Path = (string, string)   // directory and file name

  datatype Directory = Directory(agent: Option<Agent>, files: map<Path, Document>)

  function Elements(s: seq<string>): (r: set<string>)
    ensures forall x :: x in r <==> x in s
  {
    set x | x in s
  }

  /** The resources the exporter collects; an empty model or policy name is told apart only for the policy. */
  function Wanted(spec: Spec, kind: Kind): set<string> {
    match kind
    case Model => if spec.model.Some? then {spec.model.value} else {}
    case Tool => Elements(spec.tools)
    case Skill => Elements(spec.skills)
    case Mcp => Elements(spec.mcps)
    case MemoryPolicy =>
      if spec.memoryEnabled && spec.memoryPolicy.Some? && spec.memoryPolicy.value != ""
      then {spec.memoryPolicy.value} else {}
  }

  /** The references the runtime insists on. */
  predicate Referenced(spec: Spec, kind: Kind, name: string) {
    match kind
    case Model => spec.model == Some(name)
    case Tool => name in spec.tools
    case Skill => name in spec.skills
    case Mcp => name in spec.mcps
    case MemoryPolicy => spec.memoryEnabled && spec.memoryPolicy == Some(name)
  }

  /** The two sides differ on exactly one reference: the empty name of an enabled memory policy. */
  lemma WantedIsReferenced(spec: Spec, kind: Kind, name: string)
    ensures name in Wanted(spec, kind) <==> Referenced(spec, kind, name) && !(kind == MemoryPolicy && name == "")
  {
  }

  // ---------------------------------------------------------------------------
  // Export
  // ---------------------------------------------------------------------------

  datatype Exported = ExportedTo(directory: Directory) | DeploymentError(kind: Kind, name: string)

  datatype Resource = Resource(kind: Kind, name: string)

  ghost predicate Injective(digest: string -> string) {
    forall a, b :: digest(a) == digest(b) ==> a == b
  }

  function PathOf(digest: string -> string, r: Resource): Path {
    (DirectoryName(r.kind), digest(r.name) + ".yaml")
  }

  lemma PathsDiffer(digest: string -> string, a: Resource, b: Resource)
    requires Injective(digest) && PathOf(digest, a) == PathOf(digest, b)
    ensures a == b
  {
    assert DirectoryName(a.kind)[0] == DirectoryName(b.kind)[0] && |DirectoryName(a.kind)| == |DirectoryName(b.kind)|;
    assert (digest(a.name) + ".yaml")[..|digest(a.name)|] == digest(a.name);
    assert (digest(b.name) + ".yaml")[..|digest(b.name)|] == digest(b.name);
  }

  function DocumentOf(catalogs: PerKind<Catalog>, r: Resource): Document
    requires r.name in catalogs.Get(r.kind)
  {
    Document(API_VERSION, KindName(r.kind), catalogs.Get(r.kind)[r.name])
  }

  /** The files of the resources in `done`, one each and no others. */
  ghost predicate Holds(
    files: map<Path, Document>, catalogs: PerKind<Catalog>, digest: string -> string, done: set<Resource>)
  {
    && (forall r :: r in done ==>
          && r.name in catalogs.Get(r.kind) && PathOf(digest, r) in files
          && files[PathOf(digest, r)] == DocumentOf(catalogs, r))
    && (forall path :: path in files ==> exists r :: r in done && path == PathOf(digest, r))
  }

  function OfKind(kind: Kind, names: set<string>): (resources: set<Resource>)
    ensures forall r :: r in resources <==> r.kind == kind && r.name in names
  {
    set name | name in names :: Resource(kind, name)
  }

  /** Everything the exporter looks for, up to the k-th kind. */
  function WantedBefore(spec: Spec, k: nat): (resources: set<Resource>)
    requires k <= |KINDS|
    ensures forall r :: r in resources <==> Index(r.kind) < k && r.name in Wanted(spec, r.kind)
  {
    if k == 0 then {} else WantedBefore(spec, k - 1) + OfKind(KINDS[k - 1], Wanted(spec, KINDS[k - 1]))
  }

  function WantedResources(spec: Spec): (resources: set<Resource>)
    ensures forall r :: r in resources <==> r.name in Wanted(spec, r.kind)
  {
    WantedBefore(spec, |KINDS|)
  }

  ghost predicate ExportOf(d: Directory, agent: Agent, catalogs: PerKind<Catalog>, digest: string -> string) {
    d.agent == Some(agent) && Holds(d.files, catalogs, digest, WantedResources(agent.spec))
  }

  lemma HoldsExtends(
    files: map<Path, Document>, catalogs: PerKind<Catalog>, digest: string -> string, done: set<Resource>, r: Resource)
    requires Injective(digest) && Holds(files, catalogs, digest, done) && r.name in catalogs.Get(r.kind)
    ensures Holds(
      files[PathOf(digest, r) := DocumentOf(catalogs, r)],
      catalogs, digest, done + {r})
  {
    var after := files[PathOf(digest, r) := DocumentOf(catalogs, r)];
    forall q | q in done + {r}
      ensures q.name in catalogs.Get(q.kind) && PathOf(digest, q) in after
        && after[PathOf(digest, q)] == DocumentOf(catalogs, q)
    {
      if PathOf(digest, q) == PathOf(digest, r) {
        PathsDiffer(digest, q, r);
      }
    }
    forall path | path in after ensures exists q :: q in done + {r} && path == PathOf(digest, q) {
      if path == PathOf(digest, r) {
        assert r in done + {r};
      } else {
        var q :| q in done && path == PathOf(digest, q);
        assert q in done + {r};
      }
    }
  }

  lemma OfKindAdds(before: set<Resource>, kind: Kind, names: set<string>, name: string)
    ensures before + OfKind(kind, names + {name}) == before + OfKind(kind, names) + {Resource(kind, name)}
  {
    assert OfKind(kind, names + {name}) == OfKind(kind, names) + {Resource(kind, name)};
  }

  lemma FileWritten(
    files: map<Path, Document>, catalogs: PerKind<Catalog>, digest: string -> string,
    before: set<Resource>, kind: Kind, names: set<string>, name: string)
    requires Injective(digest) && name in catalogs.Get(kind)
    requires Holds(files, catalogs, digest, before + OfKind(kind, names))
    ensures Holds(
      files[PathOf(digest, Resource(kind, name)) := DocumentOf(catalogs, Resource(kind, name))],
      catalogs, digest, before + OfKind(kind, names + {name}))
  {
    OfKindAdds(before, kind, names, name);
    HoldsExtends(files, catalogs, digest, before + OfKind(kind, names), Resource(kind, name));
  }

  /** One directory of resource files, up to the first name the catalog does not have. */
  method ExportKind(
    kind: Kind, wanted: set<string>, catalogs: PerKind<Catalog>, digest: string -> string,
    written: map<Path, Document>, ghost before: set<Resource>)
    returns (files: map<Path, Document>, missing: Option<string>)
    requires Injective(digest) && Holds(written, catalogs, digest, before)
    ensures missing.None? ==> Holds(files, catalogs, digest, before + OfKind(kind, wanted))
    ensures missing.Some? ==> missing.value in wanted && missing.value !in catalogs.Get(kind)
  {
    files := written;
    var names := wanted;
    ghost var done: set<string> := {};
    assert before + OfKind(kind, done) == before;
    while names != {}
      invariant done + names == wanted
      invariant Holds(files, catalogs, digest, before + OfKind(kind, done))
      decreases |names|
    {
      var name :| name in names;
      if name !in catalogs.Get(kind) {
        return files, Some(name);
      }
      FileWritten(files, catalogs, digest, before, kind, done, name);
      files := files[(DirectoryName(kind), digest(name) + ".yaml") := DocumentOf(catalogs, Resource(kind, name))];
      names, done := names - {name}, done + {name};
    }
    assert done == wanted;
    missing := None;
  }

  /** The first missing resource stops the export and nothing is left behind. */
  method ExportBundle(agent: Agent, catalogs: PerKind<Catalog>, digest: string -> string) returns (result: Exported)
    requires Injective(digest)
    ensures result.ExportedTo? ==> ExportOf(result.directory, agent, catalogs, digest)
    ensures result.DeploymentError? ==>
      result.name in Wanted(agent.spec, result.kind) && result.name !in catalogs.Get(result.kind)
  {
    var files: map<Path, Document> := map[];
    for k := 0 to |KINDS|
      invariant Holds(files, catalogs, digest, WantedBefore(agent.spec, k))
    {
      var kind := KINDS[k];
      var missing;
      files, missing := ExportKind(kind, Wanted(agent.spec, kind), catalogs, digest, files,
                                   WantedBefore(agent.spec, k));
      if missing.Some? {
        return DeploymentError(kind, missing.value);
      }
    }
    result := ExportedTo(Directory(Some(agent), files));
  }

  // ---------------------------------------------------------------------------
  // Load
  // ---------------------------------------------------------------------------

  datatype Bundle = Bundle(agent: Agent, resources: PerKind<seq<Definition>>)

  datatype Loaded = LoadedBundle(bundle: Bundle) | InvalidBundle

  /** The names of the resource files in a kind's directory, in the order the loader visits them. */
  ghost predicate Lists(d: Directory, kind: Kind, names: seq<string>) {
    && (forall i, j :: 0 <= i < j < |names| ==> names[i] != names[j])
    && (forall name :: name in names <==>
          (DirectoryName(kind), name) in d.files && (EndsWith(name, ".yaml") || EndsWith(name, ".yml")))
  }

  /** A document of the kind its directory stands for. */
  predicate Acceptable(document: Document, kind: Kind) {
    document.apiVersion == API_VERSION && document.kind == KindName(kind)
  }

  ghost predicate AllAcceptable(d: Directory, kind: Kind, names: seq<string>)
    requires Lists(d, kind, names)
  {
    forall i :: 0 <= i < |names| ==> Acceptable(d.files[(DirectoryName(kind), names[i])], kind)
  }

  ghost predicate ReadFrom(d: Directory, kind: Kind, names: seq<string>, items: seq<Definition>)
    requires Lists(d, kind, names)
  {
    |items| == |names| && forall i :: 0 <= i < |names| ==> items[i] == d.files[(DirectoryName(kind), names[i])].spec
  }

  ghost predicate ListsAll(d: Directory, listing: PerKind<seq<string>>) {
    forall kind: Kind :: Lists(d, kind, listing.Get(kind))
  }

  /** Globbing a directory: its resource files in some order. */
  method ListDirectory(d: Directory, kind: Kind) returns (names: seq<string>)
    ensures Lists(d, kind, names)
  {
    names := [];
    var todo := d.files.Keys;
    while todo != {}
      invariant todo <= d.files.Keys
      invariant forall i, j :: 0 <= i < j < |names| ==> names[i] != names[j]
      invariant forall name :: name in names <==>
        (DirectoryName(kind), name) in d.files.Keys - todo && (EndsWith(name, ".yaml") || EndsWith(name, ".yml"))
      decreases |todo|
    {
      var path :| path in todo;
      if path.0 == DirectoryName(kind) && (EndsWith(path.1, ".yaml") || EndsWith(path.1, ".yml")) {
        assert path == (DirectoryName(kind), path.1);
        names := names + [path.1];
      }
      todo := todo - {path};
    }
  }

  method LoadKind(d: Directory, kind: Kind, names: seq<string>) returns (items: Option<seq<Definition>>)
    requires Lists(d, kind, names)
    ensures items.Some? <==> AllAcceptable(d, kind, names)
    ensures items.Some? ==> ReadFrom(d, kind, names, items.value)
  {
    var read: seq<Definition> := [];
    for i := 0 to |names|
      invariant |read| == i
      invariant forall j :: 0 <= j < i ==> Acceptable(d.files[(DirectoryName(kind), names[j])], kind)
      invariant forall j :: 0 <= j < i ==> read[j] == d.files[(DirectoryName(kind), names[j])].spec
    {
      var document := d.files[(DirectoryName(kind), names[i])];
      if document.apiVersion != API_VERSION || document.kind != KindName(kind) {
        return None;
      }
      read := read + [document.spec];
    }
    items := Some(read);
  }

  /** An unknown kind or version, or a document in the wrong directory, makes the bundle invalid. */
  method LoadBundleDirectory(d: Directory, listing: PerKind<seq<string>>) returns (result: Loaded)
    requires ListsAll(d, listing)
    ensures result.LoadedBundle? <==>
      d.agent.Some? && forall kind: Kind :: AllAcceptable(d, kind, listing.Get(kind))
    ensures result.LoadedBundle? ==> d.agent == Some(result.bundle.agent)
    ensures result.LoadedBundle? ==>
      forall kind: Kind :: ReadFrom(d, kind, listing.Get(kind), result.bundle.resources.Get(kind))
  {
    if d.agent.None? {
      return InvalidBundle;
    }
    var resources: PerKind<seq<Definition>> := PerKind([], [], [], [], []);
    for k := 0 to |KINDS|
      invariant forall kind: Kind :: Index(kind) < k ==> AllAcceptable(d, kind, listing.Get(kind))
      invariant forall kind: Kind :: Index(kind) < k ==> ReadFrom(d, kind, listing.Get(kind), resources.Get(kind))
    {
      var items := LoadKind(d, KINDS[k], listing.Get(KINDS[k]));
      if items.None? {
        return InvalidBundle;
      }
      resources := resources.With(KINDS[k], items.value);
    }
    result := LoadedBundle(Bundle(d.agent.value, resources));
  }

  // ---------------------------------------------------------------------------
  // Catalogs
  // ---------------------------------------------------------------------------

  datatype Built = Catalogs(catalogs: PerKind<Catalog>) | DuplicateResource(kind: Kind, name: string)
                 | UnknownReference(kind: Kind, name: string)

  ghost predicate DistinctNames(items: seq<Definition>) {
    forall i, j :: 0 <= i < j < |items| ==> items[i].name != items[j].name
  }

  /** Every item under its own name and nothing else. */
  ghost predicate CatalogOf(catalog: Catalog, items: seq<Definition>) {
    && (forall i :: 0 <= i < |items| ==> items[i].name in catalog && catalog[items[i].name] == items[i])
    && (forall name :: name in catalog ==> exists i :: 0 <= i < |items| && items[i].name == name)
  }

  ghost predicate Closed(spec: Spec, resources: PerKind<seq<Definition>>) {
    forall kind, name :: Referenced(spec, kind, name) ==> NameIn(resources.Get(kind), name)
  }

  ghost predicate NameIn(items: seq<Definition>, name: string) {
    exists i :: 0 <= i < |items| && items[i].name == name
  }

  method RegisterAll(items: seq<Definition>) returns (catalog: Catalog, duplicate: Option<string>)
    ensures duplicate.None? <==> DistinctNames(items)
    ensures duplicate.None? ==> CatalogOf(catalog, items)
    ensures duplicate.Some? ==>
      exists i, j :: 0 <= i < j < |items| && items[i].name == items[j].name == duplicate.value
  {
    catalog, duplicate := map[], None;
    for i := 0 to |items|
      invariant forall j :: 0 <= j < i ==> items[j].name in catalog && catalog[items[j].name] == items[j]
      invariant forall name :: name in catalog ==> exists j :: 0 <= j < i && items[j].name == name
      invariant forall j, k :: 0 <= j < k < i ==> items[j].name != items[k].name
    {
      var item := items[i];
      if item.name in catalog {
        return catalog, Some(item.name);
      }
      catalog := catalog[item.name := item];
    }
  }

  method FirstMissing(names: seq<string>, catalog: Catalog) returns (missing: Option<string>)
    ensures missing.None? <==> forall name :: name in names ==> name in catalog
    ensures missing.Some? ==> missing.value in names && missing.value !in catalog
  {
    for i := 0 to |names|
      invariant forall name :: name in names[..i] ==> name in catalog
    {
      if names[i] !in catalog {
        return Some(names[i]);
      }
    }
    assert names[..|names|] == names;
    missing := None;
  }

  function ReferenceList(spec: Spec, kind: Kind): (r: seq<string>)
    ensures forall name :: name in r <==> Referenced(spec, kind, name)
  {
    match kind
    case Model => if spec.model.Some? then [spec.model.value] else []
    case Tool => spec.tools
    case Skill => spec.skills
    case Mcp => spec.mcps
    case MemoryPolicy => if spec.memoryEnabled && spec.memoryPolicy.Some? then [spec.memoryPolicy.value] else []
  }

  lemma CatalogNames(catalog: Catalog, items: seq<Definition>, name: string)
    requires CatalogOf(catalog, items)
    ensures name in catalog <==> NameIn(items, name)
  {
  }

  method ValidateReferences(spec: Spec, catalogs: PerKind<Catalog>) returns (unknown: Option<Resource>)
    ensures unknown.None? <==> forall kind, name :: Referenced(spec, kind, name) ==> name in catalogs.Get(kind)
    ensures unknown.Some? ==>
      Referenced(spec, unknown.value.kind, unknown.value.name)
        && unknown.value.name !in catalogs.Get(unknown.value.kind)
  {
    for k := 0 to |KINDS|
      invariant forall kind: Kind, name :: Index(kind) < k && Referenced(spec, kind, name) ==>
        name in catalogs.Get(kind)
    {
      var missing := FirstMissing(ReferenceList(spec, KINDS[k]), catalogs.Get(KINDS[k]));
      if missing.Some? {
        return Some(Resource(KINDS[k], missing.value));
      }
    }
    unknown := None;
  }

  /** Registration of all kinds first, then the references of the agent. */
  method BuildCatalogs(bundle: Bundle) returns (result: Built)
    ensures result.DuplicateResource? ==> !DistinctNames(bundle.resources.Get(result.kind))
    ensures !result.DuplicateResource? ==> forall kind: Kind :: DistinctNames(bundle.resources.Get(kind))
    ensures result.UnknownReference? ==>
      Referenced(bundle.agent.spec, result.kind, result.name) && !NameIn(bundle.resources.Get(result.kind), result.name)
    ensures result.Catalogs? ==> Closed(bundle.agent.spec, bundle.resources)
    ensures result.Catalogs? ==> forall kind: Kind :: CatalogOf(result.catalogs.Get(kind), bundle.resources.Get(kind))
  {
    var catalogs: PerKind<Catalog> := PerKind(map[], map[], map[], map[], map[]);
    for k := 0 to |KINDS|
      invariant forall kind: Kind :: Index(kind) < k ==> DistinctNames(bundle.resources.Get(kind))
      invariant forall kind: Kind :: Index(kind) < k ==> CatalogOf(catalogs.Get(kind), bundle.resources.Get(kind))
    {
      var catalog, duplicate := RegisterAll(bundle.resources.Get(KINDS[k]));
      if duplicate.Some? {
        return DuplicateResource(KINDS[k], duplicate.value);
      }
      catalogs := catalogs.With(KINDS[k], catalog);
    }
    forall kind: Kind, name ensures name in catalogs.Get(kind) <==> NameIn(bundle.resources.Get(kind), name) {
      CatalogNames(catalogs.Get(kind), bundle.resources.Get(kind), name);
    }
    var unknown := ValidateReferences(bundle.agent.spec, catalogs);
    if unknown.Some? {
      return UnknownReference(unknown.value.kind, unknown.value.name);
    }
    result := Catalogs(catalogs);
  }

  // ---------------------------------------------------------------------------
  // Export, then load
  // ---------------------------------------------------------------------------

  /** A catalog files each definition under its name. */
  ghost predicate WellKeyed(catalogs: PerKind<Catalog>) {
    forall kind: Kind, name :: name in catalogs.Get(kind) ==> catalogs.Get(kind)[name].name == name
  }

  /** The resource behind the i-th file of a listed directory. */
  lemma ListedFile(
    d: Directory, agent: Agent, catalogs: PerKind<Catalog>, digest: string -> string, kind: Kind, names: seq<string>,
    i: nat)
    returns (name: string)
    requires Injective(digest) && ExportOf(d, agent, catalogs, digest) && Lists(d, kind, names) && i < |names|
    ensures name in Wanted(agent.spec, kind) && name in catalogs.Get(kind)
    ensures names[i] == digest(name) + ".yaml"
    ensures d.files[(DirectoryName(kind), names[i])] == Document(API_VERSION, KindName(kind), catalogs.Get(kind)[name])
  {
    assert names[i] in names;
    var r :| r in WantedResources(agent.spec) && (DirectoryName(kind), names[i]) == PathOf(digest, r);
    DirectoriesDiffer(r.kind, kind);
    name := r.name;
  }

  lemma DirectoriesDiffer(a: Kind, b: Kind)
    requires DirectoryName(a) == DirectoryName(b)
    ensures a == b
  {
    assert DirectoryName(a)[0] == DirectoryName(b)[0] && |DirectoryName(a)| == |DirectoryName(b)|;
  }

  lemma WantedIsListed(
    d: Directory, agent: Agent, catalogs: PerKind<Catalog>, digest: string -> string, kind: Kind, names: seq<string>,
    name: string)
    returns (i: nat)
    requires Injective(digest) && ExportOf(d, agent, catalogs, digest) && Lists(d, kind, names)
    requires name in Wanted(agent.spec, kind)
    ensures name in catalogs.Get(kind) && i < |names| && names[i] == digest(name) + ".yaml"
  {
    var r := Resource(kind, name);
    assert r in WantedResources(agent.spec);
    assert EndsWith(digest(name) + ".yaml", ".yaml");
    assert digest(name) + ".yaml" in names;
    i :| 0 <= i < |names| && names[i] == digest(name) + ".yaml";
  }

  /** Every exported file is accepted, names do not repeat, and exactly the wanted names come back. */
  lemma ExportReadsBack(
    d: Directory, agent: Agent, catalogs: PerKind<Catalog>, digest: string -> string, kind: Kind, names: seq<string>,
    items: seq<Definition>)
    requires Injective(digest) && WellKeyed(catalogs) && ExportOf(d, agent, catalogs, digest)
    requires Lists(d, kind, names) && ReadFrom(d, kind, names, items)
    ensures AllAcceptable(d, kind, names)
    ensures DistinctNames(items)
    ensures forall i :: 0 <= i < |items| ==>
      items[i].name in catalogs.Get(kind) && catalogs.Get(kind)[items[i].name] == items[i]
    ensures forall name :: NameIn(items, name) <==> name in Wanted(agent.spec, kind)
  {
    forall i | 0 <= i < |items|
      ensures Acceptable(d.files[(DirectoryName(kind), names[i])], kind)
      ensures items[i].name in Wanted(agent.spec, kind) && names[i] == digest(items[i].name) + ".yaml"
      ensures items[i].name in catalogs.Get(kind) && catalogs.Get(kind)[items[i].name] == items[i]
    {
      var name := ListedFile(d, agent, catalogs, digest, kind, names, i);
    }
    forall name | name in Wanted(agent.spec, kind) ensures NameIn(items, name) {
      var i := WantedIsListed(d, agent, catalogs, digest, kind, names, name);
      var name' := ListedFile(d, agent, catalogs, digest, kind, names, i);
      PathsDiffer(digest, Resource(kind, name), Resource(kind, name'));
      assert items[i].name == name;
    }
  }

  /** What the runtime ends up with: the wanted part of each catalog. */
  function Restricted(catalog: Catalog, names: set<string>): Catalog {
    map name | name in catalog && name in names :: catalog[name]
  }

  predicate EmptyPolicy(spec: Spec) {
    spec.memoryEnabled && spec.memoryPolicy == Some("")
  }

  ghost function SpecsAt(d: Directory, kind: Kind, names: seq<string>): (items: seq<Definition>)
    requires Lists(d, kind, names)
    ensures ReadFrom(d, kind, names, items)
  {
    seq(|names|, i requires 0 <= i < |names| => assert names[i] in names; d.files[(DirectoryName(kind), names[i])].spec)
  }

  ghost function SpecsOf(d: Directory, listing: PerKind<seq<string>>): (specs: PerKind<seq<Definition>>)
    requires ListsAll(d, listing)
    ensures forall kind: Kind :: ReadFrom(d, kind, listing.Get(kind), specs.Get(kind))
  {
    PerKind(SpecsAt(d, Model, listing.Get(Model)), SpecsAt(d, Tool, listing.Get(Tool)),
            SpecsAt(d, Skill, listing.Get(Skill)),
            SpecsAt(d, Mcp, listing.Get(Mcp)), SpecsAt(d, MemoryPolicy, listing.Get(MemoryPolicy)))
  }

  /** A bundle that holds exactly the wanted resources, once each, as the catalogs have them. */
  ghost predicate Carries(resources: PerKind<seq<Definition>>, spec: Spec, catalogs: PerKind<Catalog>) {
    forall kind: Kind :: CarriesKind(resources.Get(kind), Wanted(spec, kind), catalogs.Get(kind))
  }

  ghost predicate CarriesKind(items: seq<Definition>, names: set<string>, catalog: Catalog) {
    && DistinctNames(items)
    && (forall i :: 0 <= i < |items| ==> items[i].name in catalog && catalog[items[i].name] == items[i])
    && (forall name :: NameIn(items, name) <==> name in names)
  }

  lemma RestrictionIsUnique(catalog: Catalog, names: set<string>, built: Catalog, items: seq<Definition>)
    requires CatalogOf(built, items) && CarriesKind(items, names, catalog)
    ensures built == Restricted(catalog, names)
  {
    forall name ensures name in built <==> name in catalog && name in names {
      CatalogNames(built, items, name);
    }
  }

  /** What the runtime gets to see of an exported directory, whatever the order of the files. */
  method LoadExported(d: Directory, agent: Agent, catalogs: PerKind<Catalog>, digest: string -> string)
    returns (bundle: Bundle)
    requires Injective(digest) && WellKeyed(catalogs) && ExportOf(d, agent, catalogs, digest)
    ensures bundle.agent == agent && Carries(bundle.resources, agent.spec, catalogs)
  {
    var models := ListDirectory(d, Model);
    var tools := ListDirectory(d, Tool);
    var skills := ListDirectory(d, Skill);
    var mcps := ListDirectory(d, Mcp);
    var policies := ListDirectory(d, MemoryPolicy);
    var listing := PerKind(models, tools, skills, mcps, policies);
    assert ListsAll(d, listing) && d.agent == Some(agent);
    hide Lists, AllAcceptable, ReadFrom, ExportOf, WellKeyed, Injective, CarriesKind, Wanted;
    forall kind: Kind ensures AllAcceptable(d, kind, listing.Get(kind)) {
      ExportReadsBack(d, agent, catalogs, digest, kind, listing.Get(kind), SpecsOf(d, listing).Get(kind));
    }
    var loaded := LoadBundleDirectory(d, listing);
    bundle := loaded.bundle;
    forall kind: Kind ensures CarriesKind(bundle.resources.Get(kind), Wanted(agent.spec, kind), catalogs.Get(kind)) {
      ExportReadsBack(d, agent, catalogs, digest, kind, listing.Get(kind), bundle.resources.Get(kind));
    }
  }

  lemma OnlyTheEmptyPolicyIsUnknown(bundle: Bundle, catalogs: PerKind<Catalog>, kind: Kind, name: string)
    requires Carries(bundle.resources, bundle.agent.spec, catalogs)
    ensures Referenced(bundle.agent.spec, kind, name) && !NameIn(bundle.resources.Get(kind), name)
      <==> EmptyPolicy(bundle.agent.spec) && kind == MemoryPolicy && name == ""
  {
    WantedIsReferenced(bundle.agent.spec, kind, name);
    assert CarriesKind(bundle.resources.Get(kind), Wanted(bundle.agent.spec, kind), catalogs.Get(kind));
  }

  ghost predicate ServesExactly(built: Built, spec: Spec, catalogs: PerKind<Catalog>) {
    built.Catalogs? && forall kind: Kind ::
      built.catalogs.Get(kind) == Restricted(catalogs.Get(kind), Wanted(spec, kind))
  }

  method BuildExported(bundle: Bundle, ghost catalogs: PerKind<Catalog>) returns (built: Built)
    requires Carries(bundle.resources, bundle.agent.spec, catalogs)
    ensures if EmptyPolicy(bundle.agent.spec) then built == UnknownReference(MemoryPolicy, "")
            else ServesExactly(built, bundle.agent.spec, catalogs)
  {
    built := BuildCatalogs(bundle);
    OnlyTheEmptyPolicyIsUnknown(bundle, catalogs, MemoryPolicy, "");
    forall kind: Kind ensures DistinctNames(bundle.resources.Get(kind)) {
      assert CarriesKind(bundle.resources.Get(kind), Wanted(bundle.agent.spec, kind), catalogs.Get(kind));
    }
    match built
    case DuplicateResource(_, _) =>
      assert false;
    case UnknownReference(kind, name) =>
      OnlyTheEmptyPolicyIsUnknown(bundle, catalogs, kind, name);
    case Catalogs(_) =>
      forall kind: Kind
        ensures built.catalogs.Get(kind) == Restricted(catalogs.Get(kind), Wanted(bundle.agent.spec, kind))
      {
        RestrictionIsUnique(
          catalogs.Get(kind), Wanted(bundle.agent.spec, kind), built.catalogs.Get(kind), bundle.resources.Get(kind));
      }
  }

  /**
    The whole way, for every agent, all well-keyed catalogs and every order in which files are
    listed: a successful export always loads, and its catalogs are built with exactly the
    referenced resources of all five kinds unless memory is enabled with the empty policy name,
    which the exporter skips and the runtime then reports as unknown.
  */
  method ExportThenServe(agent: Agent, catalogs: PerKind<Catalog>, digest: string -> string)
    returns (exported: Exported, built: Option<Built>)
    requires Injective(digest) && WellKeyed(catalogs)
    ensures exported.DeploymentError? ==>
      built == None && exported.name in Wanted(agent.spec, exported.kind)
        && exported.name !in catalogs.Get(exported.kind)
    ensures exported.ExportedTo? && EmptyPolicy(agent.spec) ==> built == Some(UnknownReference(MemoryPolicy, ""))
    ensures exported.ExportedTo? && !EmptyPolicy(agent.spec) ==>
      built.Some? && ServesExactly(built.value, agent.spec, catalogs)
  {
    exported := ExportBundle(agent, catalogs, digest);
    if exported.DeploymentError? {
      return exported, None;
    }
    var bundle := LoadExported(exported.directory, agent, catalogs, digest);
    var result := BuildExported(bundle, catalogs);
    built := Some(result);
  }
}
