/** Loading new versions and rebinding relocations while the program runs:
    ObjectDynamic::patchable, relocate and update (src/object/dynamic.cpp),
    ObjectIdentity::update (src/object/identity.cpp) and Loader::update (src/loader.cpp). */
module LiveUpdate {
  import opened Common
  import opened Symbols

  function ModeOf(l: Loader, f: FileId, r: Reloc): (m: Mode)
    requires f in l.files
  {
    if r.copy then ExceptObject else if l.files[f].bindDeep then ObjectFirst else Default
  }

  /** What the relocation r of a version of file f resolves to now. */
  ghost function Bind(l: Loader, f: FileId, r: Reloc): (s: Option<Symbol>)
    requires Searchable(l, Some(f))
  {
    Resolve(l, r.name, l.files[f].ns, Some(f), ModeOf(l, f, r))
  }

  /** The files a relocation of f is searched in, whatever its mode. */
  predicate InScope(l: Loader, f: FileId, g: FileId)
    requires f in l.files && |l.files[f].versions| > 0
  {
    || g == f
    || (g in l.lookup && Global(l, g, l.files[f].ns))
    || (Current(l, f) in l.objects && g in l.objects[Current(l, f)].deps)
  }

  predicate Defines(l: Loader, f: FileId, name: string)
    requires f in l.files && |l.files[f].versions| > 0
  {
    Current(l, f) in l.objects && name in l.objects[Current(l, f)].defs
  }

  lemma ScopeMembers(l: Loader, f: FileId, r: Reloc, g: FileId)
    requires Searchable(l, Some(f))
    ensures g in Scope(l, l.files[f].ns, Some(f), ModeOf(l, f, r)) <==> InScope(l, f, g)
  {
    GlobalScopeMembers(l, l.lookup, l.files[f].ns);
    WithoutMembers(GlobalScope(l, l.lookup, l.files[f].ns), f);
    WithoutMembers(Dependencies(l, f), f);
  }

  /** A relocation resolves exactly when some file in scope defines the name, and then to
      the current version of such a file. */
  lemma BindFinds(l: Loader, f: FileId, r: Reloc)
    requires Searchable(l, Some(f))
    ensures Bind(l, f, r).Some? <==> exists g :: g in l.files && |l.files[g].versions| > 0 && InScope(l, f, g) && Defines(l, g, r.name)
    ensures Bind(l, f, r).Some? ==>
              exists g :: g in l.files && |l.files[g].versions| > 0 && InScope(l, f, g) && Defines(l, g, r.name) &&
                Bind(l, f, r).value.owner == Current(l, g) && Bind(l, f, r).value.name == r.name
  {
    var ns, mode := l.files[f].ns, ModeOf(l, f, r);
    ResolveFinds(l, r.name, ns, Some(f), mode);
    forall g ensures g in Scope(l, ns, Some(f), mode) <==> InScope(l, f, g) {
      ScopeMembers(l, f, r, g);
    }
    ScopeKnown(l, ns, Some(f), mode);
    if g :| g in l.files && |l.files[g].versions| > 0 && InScope(l, f, g) && Defines(l, g, r.name) {
      assert Definition(l, r.name, g).Some?;
    }
    if Bind(l, f, r).Some? {
      var g :| g in Scope(l, ns, Some(f), mode) && Definition(l, r.name, g) == Bind(l, f, r);
      assert InScope(l, f, g);
    }
  }

  // ---------------------------------------------------------------------------
  // Relocating one entry; resolution ignores the caches

  /** Two loaders that differ in relocation caches only. */
  ghost predicate SameButCaches(l: Loader, k: Loader) {
    && k.lookup == l.lookup && k.files == l.files && k.dynamicWeak == l.dynamicWeak
    && k.objects.Keys == l.objects.Keys
    && forall o <- l.objects :: k.objects[o] == l.objects[o].(relocs := k.objects[o].relocs)
  }

  lemma {:induction false} MatchesIgnoreCaches(l: Loader, k: Loader, name: string, fs: seq<FileId>)
    requires SameButCaches(l, k) && Known(l, fs)
    ensures Known(k, fs) && Matches(l, name, fs) == Matches(k, name, fs)
  {
    if fs != [] {
      MatchesIgnoreCaches(l, k, name, fs[..|fs| - 1]);
    }
  }

  lemma {:induction false} FirstStrongIgnoresCaches(l: Loader, k: Loader, ms: seq<Symbol>)
    requires SameButCaches(l, k)
    ensures FirstStrong(l, ms) == FirstStrong(k, ms)
  {
    if ms != [] {
      FirstStrongIgnoresCaches(l, k, ms[..|ms| - 1]);
    }
  }

  lemma {:induction false} GlobalScopeIgnoresCaches(l: Loader, k: Loader, fs: seq<FileId>, ns: int)
    requires SameButCaches(l, k)
    ensures GlobalScope(l, fs, ns) == GlobalScope(k, fs, ns)
  {
    if fs != [] {
      GlobalScopeIgnoresCaches(l, k, fs[..|fs| - 1], ns);
    }
  }

  lemma BindIgnoresCaches(l: Loader, k: Loader, f: FileId, r: Reloc)
    requires SameButCaches(l, k) && Searchable(l, Some(f))
    ensures Searchable(k, Some(f)) && Bind(k, f, r) == Bind(l, f, r)
  {
    var ns, mode := l.files[f].ns, ModeOf(l, f, r);
    GlobalScopeIgnoresCaches(l, k, l.lookup, ns);
    var fs := Scope(l, ns, Some(f), mode);
    assert fs == Scope(k, ns, Some(f), mode);
    ScopeKnown(l, ns, Some(f), mode);
    MatchesIgnoreCaches(l, k, r.name, fs);
    FirstStrongIgnoresCaches(l, k, Matches(l, r.name, fs));
  }

  ghost function SetReloc(l: Loader, o: ObjectId, r: Reloc, s: Symbol): (k: Loader)
    requires o in l.objects
    ensures SameButCaches(l, k)
  {
    l.(objects := l.objects[o := l.objects[o].(relocs := l.objects[o].relocs[r := s])])
  }

  /** The cache after ObjectDynamic::relocate: replaced when the symbol is found, else kept. */
  ghost function Relocated(l: Loader, o: ObjectId, r: Reloc): (k: Loader)
    requires o in l.objects && Searchable(l, Some(l.objects[o].file))
    ensures SameButCaches(l, k)
  {
    match Bind(l, l.objects[o].file, r)
    case Some(s) => SetReloc(l, o, r, s)
    case None => l
  }

  // ---------------------------------------------------------------------------
  // Update

  /** ObjectDynamic::update rebinds an entry that does not point to a latest version, but
      leaves the shared data of an outdated object to its latest version. */
  predicate NeedsRebind(l: Loader, o: ObjectId, r: Reloc)
    requires o in l.objects && r in l.objects[o].relocs
  {
    !Latest(l, l.objects[o].relocs[r].owner) && (Latest(l, o) || !r.inData)
  }

  ghost function Rebound(l: Loader, o: ObjectId, r: Reloc): (s: Symbol)
    requires Valid(l) && o in l.objects && r in l.objects[o].relocs
  {
    ValidSearchable(l, l.objects[o].file);
    var b := Bind(l, l.objects[o].file, r);
    if NeedsRebind(l, o, r) && b.Some? then b.value else l.objects[o].relocs[r]
  }

  lemma ValidSearchable(l: Loader, f: FileId)
    requires Valid(l) && f in l.files
    ensures Searchable(l, Some(f))
  {
    assert Current(l, f) in l.files[f].versions;
  }

  /** Objects whose relocations ObjectIdentity::update visits. */
  predicate Visited(l: Loader, o: ObjectId) {
    o in l.objects && (Latest(l, o) || (l.objects[o].file in l.files && l.files[l.objects[o].file].updateOutdated))
  }

  /** The loader after Loader::update. */
  ghost function Updated(l: Loader): (k: Loader)
    requires Valid(l)
    ensures SameButCaches(l, k)
  {
    l.(objects := map o | o in l.objects ::
         if Visited(l, o) then l.objects[o].(relocs := map r | r in l.objects[o].relocs :: Rebound(l, o, r))
         else l.objects[o])
  }

  /** No relocation of a latest version refers to an outdated version. */
  ghost predicate StaleFree(l: Loader) {
    forall o, r :: o in l.objects && Latest(l, o) && r in l.objects[o].relocs ==> Latest(l, l.objects[o].relocs[r].owner)
  }

  /** Some file in the scope of o still defines the name that r needs. */
  ghost predicate StillDefined(l: Loader, o: ObjectId, r: Reloc)
    requires Valid(l) && o in l.objects
  {
    exists g :: g in l.files && InScope(l, l.objects[o].file, g) && Defines(l, g, r.name)
  }

  /** Exactly which visited entries point to a latest version after an update. */
  lemma UpdatedEntry(l: Loader, o: ObjectId, r: Reloc)
    requires Valid(l) && Visited(l, o) && r in l.objects[o].relocs
    ensures var k := Updated(l);
            && k.objects[o].relocs.Keys == l.objects[o].relocs.Keys
            && (Latest(k, k.objects[o].relocs[r].owner) <==>
                  || Latest(l, l.objects[o].relocs[r].owner)
                  || ((Latest(l, o) || !r.inData) && StillDefined(l, o, r)))
  {
    var f := l.objects[o].file;
    ValidSearchable(l, f);
    BindFinds(l, f, r);
    LatestIgnoresCaches(l, Updated(l));
    if g :| g in l.files && InScope(l, f, g) && Defines(l, g, r.name) {
      assert |l.files[g].versions| > 0;
    }
    if NeedsRebind(l, o, r) && Bind(l, f, r).Some? {
      var g :| g in l.files && |l.files[g].versions| > 0 && InScope(l, f, g) && Defines(l, g, r.name) &&
        Bind(l, f, r).value.owner == Current(l, g);
      assert Current(l, g) in l.files[g].versions;
    }
  }

  lemma LatestIgnoresCaches(l: Loader, k: Loader)
    requires SameButCaches(l, k)
    ensures forall o :: Latest(l, o) <==> Latest(k, o)
  {
  }

  /** Every outdated binding of a latest version has a name that its scope still defines. */
  ghost predicate AllStillDefined(l: Loader)
    requires Valid(l)
  {
    forall o, r | o in l.objects && Latest(l, o) && r in l.objects[o].relocs && !Latest(l, l.objects[o].relocs[r].owner) ::
      StillDefined(l, o, r)
  }

  /** An update leaves no stale binding exactly when every outdated binding of a latest
      version has a name that some file in its scope still defines. */
  lemma UpdateStaleFreeIff(l: Loader)
    requires Valid(l)
    ensures StaleFree(Updated(l)) <==> AllStillDefined(l)
  {
    var k := Updated(l);
    LatestIgnoresCaches(l, k);
    if StaleFree(k) {
      forall o, r | o in l.objects && Latest(l, o) && r in l.objects[o].relocs && !Latest(l, l.objects[o].relocs[r].owner)
        ensures StillDefined(l, o, r)
      {
        UpdatedEntry(l, o, r);
      }
    }
    if AllStillDefined(l) {
      forall o, r | o in k.objects && Latest(k, o) && r in k.objects[o].relocs
        ensures Latest(k, k.objects[o].relocs[r].owner)
      {
        UpdatedKeys(l, o);
        UpdatedEntry(l, o, r);
      }
    }
  }

  lemma UpdatedKeys(l: Loader, o: ObjectId)
    requires Valid(l) && o in l.objects
    ensures Updated(l).objects[o].relocs.Keys == l.objects[o].relocs.Keys
  {
  }

  // ---------------------------------------------------------------------------
  // Loading a new version

  /** A new version of a loaded file. `compatible` is the outcome of the header, content
      and debug-hash comparisons. */
  datatype Version = Version(file: FileId, id: ObjectId, defs: map<string, bool>, deps: seq<FileId>, needs: seq<Reloc>, compatible: bool)

  /** The symbol gate of ObjectDynamic::patchable: every symbol that any version of any
      file took from the version to be replaced exists in the new one. */
  ghost predicate Patchable(l: Loader, v: Version)
    requires v.file in l.files && |l.files[v.file].versions| > 0
  {
    forall o, r :: o in l.objects && r in l.objects[o].relocs && l.objects[o].relocs[r].owner == Current(l, v.file) ==>
      l.objects[o].relocs[r].name in v.defs
  }

  ghost function NewVersion(l: Loader, v: Version): (k: Loader)
    requires v.file in l.files
  {
    l.(files := l.files[v.file := l.files[v.file].(versions := [v.id] + l.files[v.file].versions)],
       objects := l.objects[v.id := Object(v.file, v.defs, v.deps, map[])])
  }

  /** ObjectDynamic::prepare: relocate all entries, stop at a missing strong symbol. */
  ghost function Prepared(l: Loader, o: ObjectId, needs: seq<Reloc>): (k: Loader)
    requires o in l.objects && Searchable(l, Some(l.objects[o].file))
    ensures SameButCaches(l, k)
    decreases |needs|
  {
    if needs == [] || (Bind(l, l.objects[o].file, needs[0]).None? && !needs[0].weak) then l
    else
      SearchableIgnoresCaches(l, Relocated(l, o, needs[0]), l.objects[o].file);
      Prepared(Relocated(l, o, needs[0]), o, needs[1..])
  }

  lemma SearchableIgnoresCaches(l: Loader, k: Loader, f: FileId)
    requires SameButCaches(l, k) && Searchable(l, Some(f))
    ensures Searchable(k, Some(f))
  {
  }

  ghost predicate CanLoad(l: Loader, v: Version) {
    && v.file in l.files && v.id !in l.objects
    && forall d <- v.deps :: d in l.lookup
  }

  ghost function Loaded(l: Loader, v: Version): (k: Loader)
    requires Valid(l) && CanLoad(l, v)
  {
    if !v.compatible || !Patchable(l, v) then l
    else
      NewVersionValid(l, v);
      ValidSearchable(NewVersion(l, v), v.file);
      Prepared(NewVersion(l, v), v.id, v.needs)
  }

  lemma NewVersionValid(l: Loader, v: Version)
    requires Valid(l) && CanLoad(l, v)
    ensures Valid(NewVersion(l, v))
  {
  }

  // ---------------------------------------------------------------------------
  // Runs

  datatype Step =
    | Open(pos: nat, file: FileId, id: ObjectId, ns: int, bindGlobal: bool, bindDeep: bool, updateOutdated: bool, defs: map<string, bool>)
    | AddDependency(user: ObjectId, dep: FileId)
    | Reopen(file: FileId, bindGlobal: bool, bindDeep: bool)
    | Touch(user: ObjectId, reloc: Reloc)
    | Load(version: Version)
    | Update

  ghost predicate Enabled(l: Loader, s: Step) {
    match s
    case Open(pos, f, o, _, _, _, _, _) => pos <= |l.lookup| && f !in l.files && o !in l.objects
    case AddDependency(o, d) => o in l.objects && d in l.files
    case Reopen(f, _, _) => f in l.files
    case Touch(o, _) => o in l.objects
    case Load(v) => CanLoad(l, v)
    case Update => true
  }

  /** A file with its first version, put into the lookup list. */
  ghost function Opened(l: Loader, pos: nat, f: FileId, file: File, o: ObjectId, obj: Object): (k: Loader)
    requires pos <= |l.lookup|
  {
    l.(lookup := l.lookup[..pos] + [f] + l.lookup[pos..], files := l.files[f := file], objects := l.objects[o := obj])
  }

  ghost function WithDependency(l: Loader, o: ObjectId, d: FileId): (k: Loader)
    requires o in l.objects
  {
    l.(objects := l.objects[o := l.objects[o].(deps := l.objects[o].deps + [d])])
  }

  ghost function Reopened(l: Loader, f: FileId, global: bool, deep: bool): (k: Loader)
    requires f in l.files
  {
    l.(files := l.files[f := l.files[f].(bindGlobal := global, bindDeep := deep)])
  }

  ghost function Next(l: Loader, s: Step): (k: Loader)
    requires Valid(l) && Enabled(l, s)
  {
    match s
    case Open(pos, f, o, ns, global, deep, outdated, defs) =>
      Opened(l, pos, f, File(ns, global, deep, outdated, [o]), o, Object(f, defs, [], map[]))
    case AddDependency(o, d) => WithDependency(l, o, d)
    case Reopen(f, global, deep) => Reopened(l, f, global, deep)
    case Touch(o, r) =>
      ValidSearchable(l, l.objects[o].file);
      Relocated(l, o, r)
    case Load(v) => Loaded(l, v)
    case Update => Updated(l)
  }

  /** Files that got a new version since the last update. */
  ghost function Pending(l: Loader, pending: set<FileId>, s: Step): (r: set<FileId>)
    requires Valid(l) && Enabled(l, s)
  {
    match s
    case Load(v) => if Loaded(l, v) == l then pending else pending + {v.file}
    case Update => {}
    case _ => pending
  }

  /** A binding of a latest version: made in scope, its name is defined by the current version
      of the file it came from, and it is outdated only if that file has a pending version. */
  ghost predicate GoodBinding(l: Loader, pending: set<FileId>, f: FileId, r: Reloc, s: Symbol)
    requires Valid(l) && f in l.files
  {
    && s.name == r.name
    && s.owner in l.objects
    && var g := l.objects[s.owner].file;
       && InScope(l, f, g)
       && Defines(l, g, r.name)
       && (Latest(l, s.owner) || g in pending)
  }

  ghost predicate GoodCaches(l: Loader, pending: set<FileId>) {
    && Valid(l)
    && forall o, r :: o in l.objects && Latest(l, o) && r in l.objects[o].relocs ==>
         GoodBinding(l, pending, l.objects[o].file, r, l.objects[o].relocs[r])
  }

  /** A fresh resolution is a good binding. */
  lemma BindIsGood(l: Loader, pending: set<FileId>, f: FileId, r: Reloc)
    requires Valid(l) && f in l.files
    ensures Searchable(l, Some(f))
    ensures Bind(l, f, r).Some? ==>
              GoodBinding(l, pending, f, r, Bind(l, f, r).value) && Latest(l, Bind(l, f, r).value.owner)
  {
    ValidSearchable(l, f);
    BindFinds(l, f, r);
    if Bind(l, f, r).Some? {
      var g :| g in l.files && |l.files[g].versions| > 0 && InScope(l, f, g) && Defines(l, g, r.name) &&
        Bind(l, f, r).value.owner == Current(l, g) && Bind(l, f, r).value.name == r.name;
      assert Current(l, g) in l.files[g].versions;
    }
  }

  lemma GoodBindingIgnoresCaches(l: Loader, k: Loader, pending: set<FileId>, f: FileId, r: Reloc, s: Symbol)
    requires SameButCaches(l, k) && Valid(l) && f in l.files
    ensures Valid(k) && (GoodBinding(l, pending, f, r, s) <==> GoodBinding(k, pending, f, r, s))
  {
    ValidIgnoresCaches(l, k);
    LatestIgnoresCaches(l, k);
    if s.owner in l.objects {
      var g := l.objects[s.owner].file;
      InScopeIgnoresCaches(l, k, f, g);
      DefinesIgnoresCaches(l, k, g, r.name);
    }
  }

  lemma InScopeIgnoresCaches(l: Loader, k: Loader, f: FileId, g: FileId)
    requires SameButCaches(l, k) && Valid(l) && f in l.files
    ensures InScope(l, f, g) <==> InScope(k, f, g)
  {
  }

  lemma DefinesIgnoresCaches(l: Loader, k: Loader, g: FileId, name: string)
    requires SameButCaches(l, k) && Valid(l) && g in l.files
    ensures Defines(l, g, name) <==> Defines(k, g, name)
  {
  }

  /** One entry after a relocation: it is the new binding, or as before. */
  lemma RelocatedEntry(l: Loader, o: ObjectId, r: Reloc, o': ObjectId, r': Reloc)
    requires o in l.objects && Searchable(l, Some(l.objects[o].file))
    requires var k := Relocated(l, o, r); o' in k.objects && r' in k.objects[o'].relocs
    ensures var k := Relocated(l, o, r); var b := Bind(l, l.objects[o].file, r);
            if o' == o && r' == r && b.Some? then k.objects[o'].relocs[r'] == b.value
            else r' in l.objects[o'].relocs && k.objects[o'].relocs[r'] == l.objects[o'].relocs[r']
  {
  }

  lemma RelocatedBinding(l: Loader, pending: set<FileId>, o: ObjectId, r: Reloc, o': ObjectId, r': Reloc)
    requires GoodCaches(l, pending) && o in l.objects && Searchable(l, Some(l.objects[o].file))
    requires var k := Relocated(l, o, r); o' in k.objects && Latest(l, o') && r' in k.objects[o'].relocs
    ensures GoodBinding(l, pending, l.objects[o'].file, r', Relocated(l, o, r).objects[o'].relocs[r'])
  {
    RelocatedEntry(l, o, r, o', r');
    BindIsGood(l, pending, l.objects[o].file, r);
  }

  lemma RelocatedGood(l: Loader, pending: set<FileId>, o: ObjectId, r: Reloc)
    requires GoodCaches(l, pending) && o in l.objects
    ensures Searchable(l, Some(l.objects[o].file)) && GoodCaches(Relocated(l, o, r), pending)
  {
    ValidSearchable(l, l.objects[o].file);
    var k := Relocated(l, o, r);
    ValidIgnoresCaches(l, k);
    forall o', r' | o' in k.objects && Latest(k, o') && r' in k.objects[o'].relocs
      ensures GoodBinding(k, pending, k.objects[o'].file, r', k.objects[o'].relocs[r'])
    {
      LatestIgnoresCaches(l, k);
      RelocatedBinding(l, pending, o, r, o', r');
      GoodBindingIgnoresCaches(l, k, pending, l.objects[o'].file, r', k.objects[o'].relocs[r']);
    }
  }

  lemma {:induction false} PreparedGood(l: Loader, pending: set<FileId>, o: ObjectId, needs: seq<Reloc>)
    requires GoodCaches(l, pending) && o in l.objects
    ensures Searchable(l, Some(l.objects[o].file)) && GoodCaches(Prepared(l, o, needs), pending)
    decreases |needs|
  {
    ValidSearchable(l, l.objects[o].file);
    if needs != [] && (Bind(l, l.objects[o].file, needs[0]).Some? || needs[0].weak) {
      RelocatedGood(l, pending, o, needs[0]);
      PreparedGood(Relocated(l, o, needs[0]), pending, o, needs[1..]);
    }
  }

  /** The gate keeps a binding of a latest version defined, provided it is not already
      outdated with respect to the file that gets a new version. */
  lemma NewVersionKeepsBinding(l: Loader, pending: set<FileId>, v: Version, o: ObjectId, r: Reloc)
    requires GoodCaches(l, pending) && CanLoad(l, v) && Patchable(l, v) && v.file !in pending
    requires o in l.objects && Latest(l, o) && l.objects[o].file != v.file && r in l.objects[o].relocs
    ensures Valid(NewVersion(l, v))
    ensures GoodBinding(NewVersion(l, v), pending + {v.file}, l.objects[o].file, r, l.objects[o].relocs[r])
  {
    NewVersionValid(l, v);
    var f, s := l.objects[o].file, l.objects[o].relocs[r];
    assert GoodBinding(l, pending, f, r, s);
    var g := l.objects[s.owner].file;
    if g == v.file {
      assert s.owner == Current(l, v.file);
    }
    assert Current(l, f) in l.files[f].versions;
    assert Current(l, g) in l.files[g].versions;
  }

  lemma NewVersionGood(l: Loader, pending: set<FileId>, v: Version)
    requires GoodCaches(l, pending) && CanLoad(l, v) && Patchable(l, v) && v.file !in pending
    ensures GoodCaches(NewVersion(l, v), pending + {v.file})
  {
    NewVersionValid(l, v);
    var k := NewVersion(l, v);
    forall o, r | o in k.objects && Latest(k, o) && r in k.objects[o].relocs
      ensures GoodBinding(k, pending + {v.file}, k.objects[o].file, r, k.objects[o].relocs[r])
    {
      NewVersionKeepsBinding(l, pending, v, o, r);
    }
  }

  lemma UpdatedBindingGood(l: Loader, pending: set<FileId>, o: ObjectId, r: Reloc)
    requires GoodCaches(l, pending) && o in l.objects && Latest(l, o) && r in l.objects[o].relocs
    ensures GoodBinding(l, {}, l.objects[o].file, r, Rebound(l, o, r)) && Latest(l, Rebound(l, o, r).owner)
  {
    var f, s := l.objects[o].file, l.objects[o].relocs[r];
    BindIsGood(l, {}, f, r);
    assert GoodBinding(l, pending, f, r, s);
    BindFinds(l, f, r);
  }

  lemma UpdatedGood(l: Loader, pending: set<FileId>)
    requires GoodCaches(l, pending)
    ensures GoodCaches(Updated(l), {}) && StaleFree(Updated(l))
  {
    var k := Updated(l);
    LatestIgnoresCaches(l, k);
    ValidIgnoresCaches(l, k);
    forall o, r | o in k.objects && Latest(k, o) && r in k.objects[o].relocs
      ensures GoodBinding(k, {}, k.objects[o].file, r, k.objects[o].relocs[r])
      ensures Latest(k, k.objects[o].relocs[r].owner)
    {
      UpdatedKeys(l, o);
      UpdatedBindingGood(l, pending, o, r);
      GoodBindingIgnoresCaches(l, k, {}, l.objects[o].file, r, k.objects[o].relocs[r]);
    }
  }

  lemma ValidIgnoresCaches(l: Loader, k: Loader)
    requires SameButCaches(l, k) && Valid(l)
    ensures Valid(k)
  {
  }

  /** `k` has all that `l` has: files keep their versions and namespace and stay global, objects keep
      their file, definitions, dependencies and caches. */
  ghost predicate Extends(l: Loader, k: Loader) {
    && (forall f <- l.files :: f in k.files && ExtendsFile(l.files[f], k.files[f]))
    && (forall o <- l.objects :: o in k.objects && ExtendsObject(l.objects[o], k.objects[o]))
    && (forall o <- k.objects :: o in l.objects || k.objects[o].relocs == map[])
  }

  predicate ExtendsFile(f: File, g: File) {
    g.versions == f.versions && g.ns == f.ns && (f.bindGlobal ==> g.bindGlobal)
  }

  predicate ExtendsObject(o: Object, p: Object) {
    p.file == o.file && p.defs == o.defs && p.relocs == o.relocs && o.deps <= p.deps
  }

  lemma ExtendsScope(l: Loader, k: Loader, f: FileId, g: FileId)
    requires Valid(l) && Valid(k) && Extends(l, k) && f in l.files && InScope(l, f, g)
    ensures InScope(k, f, g)
  {
    assert ExtendsFile(l.files[f], k.files[f]);
    var o := Current(l, f);
    assert o in l.files[f].versions;
    if g in l.objects[o].deps {
      assert ExtendsObject(l.objects[o], k.objects[o]);
    }
  }

  lemma ExtendsBinding(l: Loader, k: Loader, pending: set<FileId>, f: FileId, r: Reloc, s: Symbol)
    requires Valid(l) && Valid(k) && Extends(l, k) && f in l.files && GoodBinding(l, pending, f, r, s)
    ensures GoodBinding(k, pending, f, r, s)
  {
    var g := l.objects[s.owner].file;
    ExtendsScope(l, k, f, g);
    assert ExtendsObject(l.objects[s.owner], k.objects[s.owner]) && ExtendsFile(l.files[g], k.files[g]);
    var o := Current(l, g);
    assert o in l.files[g].versions;
    assert ExtendsObject(l.objects[o], k.objects[o]);
  }

  lemma ExtendsLatest(l: Loader, k: Loader, o: ObjectId)
    requires Valid(l) && Extends(l, k) && o in l.objects && Latest(k, o)
    ensures Latest(l, o)
  {
    var f := l.objects[o].file;
    assert ExtendsObject(l.objects[o], k.objects[o]) && ExtendsFile(l.files[f], k.files[f]);
  }

  /** Good bindings stay good when things are added only. */
  lemma ExtendsGood(l: Loader, k: Loader, pending: set<FileId>)
    requires GoodCaches(l, pending) && Valid(k) && Extends(l, k)
    ensures GoodCaches(k, pending)
  {
    forall o, r | o in k.objects && Latest(k, o) && r in k.objects[o].relocs
      ensures GoodBinding(k, pending, k.objects[o].file, r, k.objects[o].relocs[r])
    {
      assert o in l.objects && ExtendsObject(l.objects[o], k.objects[o]);
      ExtendsLatest(l, k, o);
      ExtendsBinding(l, k, pending, l.objects[o].file, r, l.objects[o].relocs[r]);
    }
  }

  lemma OpenedValid(l: Loader, pos: nat, f: FileId, file: File, o: ObjectId, obj: Object)
    requires Valid(l) && pos <= |l.lookup| && f !in l.files && o !in l.objects
    requires file.versions == [o] && obj.file == f && obj.deps == []
    ensures Valid(Opened(l, pos, f, file, o, obj))
  {
    var k := Opened(l, pos, f, file, o, obj);
    forall g ensures g in k.lookup <==> g in l.lookup || g == f {
      assert l.lookup == l.lookup[..pos] + l.lookup[pos..];
    }
  }

  lemma OpenedExtends(l: Loader, pos: nat, f: FileId, file: File, o: ObjectId, obj: Object)
    requires pos <= |l.lookup| && f !in l.files && o !in l.objects && obj.relocs == map[]
    ensures Extends(l, Opened(l, pos, f, file, o, obj))
  {
  }

  lemma WithDependencyValid(l: Loader, o: ObjectId, d: FileId)
    requires Valid(l) && o in l.objects && d in l.files
    ensures Valid(WithDependency(l, o, d))
  {
  }

  lemma WithDependencyExtends(l: Loader, o: ObjectId, d: FileId)
    requires o in l.objects
    ensures Extends(l, WithDependency(l, o, d))
  {
  }

  lemma ReopenedValid(l: Loader, f: FileId, global: bool, deep: bool)
    requires Valid(l) && f in l.files
    ensures Valid(Reopened(l, f, global, deep))
  {
  }

  /** Reopening a file with other flags keeps every file in scope that a latest version is bound to. Clearing
      bind_global can take one out. */
  ghost predicate KeepsScopes(l: Loader, s: Step)
    requires Valid(l) && s.Reopen? && Enabled(l, s)
  {
    var k := Reopened(l, s.file, s.bindGlobal, s.bindDeep);
    forall o, r :: o in l.objects && Latest(l, o) && r in l.objects[o].relocs && l.objects[o].relocs[r].owner in l.objects ==>
      StaysInScope(k, l.objects[o].file, l.objects[l.objects[o].relocs[r].owner].file)
  }

  ghost predicate StaysInScope(k: Loader, f: FileId, g: FileId) {
    f in k.files && |k.files[f].versions| > 0 && InScope(k, f, g)
  }

  lemma ReopenedBinding(l: Loader, pending: set<FileId>, f: FileId, global: bool, deep: bool, user: FileId, r: Reloc, s: Symbol)
    requires Valid(l) && f in l.files && user in l.files && GoodBinding(l, pending, user, r, s)
    requires Valid(Reopened(l, f, global, deep)) && StaysInScope(Reopened(l, f, global, deep), user, l.objects[s.owner].file)
    ensures GoodBinding(Reopened(l, f, global, deep), pending, user, r, s)
  {
    var k, g := Reopened(l, f, global, deep), l.objects[s.owner].file;
    assert k.files[g].versions == l.files[g].versions;
  }

  lemma ReopenedGood(l: Loader, pending: set<FileId>, s: Step)
    requires GoodCaches(l, pending) && s.Reopen? && Enabled(l, s) && KeepsScopes(l, s)
    ensures GoodCaches(Reopened(l, s.file, s.bindGlobal, s.bindDeep), pending)
  {
    var k := Reopened(l, s.file, s.bindGlobal, s.bindDeep);
    ReopenedValid(l, s.file, s.bindGlobal, s.bindDeep);
    forall o, r | o in k.objects && Latest(k, o) && r in k.objects[o].relocs
      ensures GoodBinding(k, pending, k.objects[o].file, r, k.objects[o].relocs[r])
    {
      assert Latest(l, o) && GoodBinding(l, pending, l.objects[o].file, r, l.objects[o].relocs[r]);
      ReopenedBinding(l, pending, s.file, s.bindGlobal, s.bindDeep, l.objects[o].file, r, l.objects[o].relocs[r]);
    }
  }

  lemma GlobalStays(l: Loader, f: FileId, global: bool, deep: bool, user: FileId, g: FileId)
    requires Valid(l) && f in l.files && (l.files[f].bindGlobal ==> global) && user in l.files && InScope(l, user, g)
    ensures StaysInScope(Reopened(l, f, global, deep), user, g)
  {
    var k := Reopened(l, f, global, deep);
    assert k.files[user].versions == l.files[user].versions && k.files[user].ns == l.files[user].ns;
  }

  /** Making a file global, or leaving it as it is, keeps all scopes. */
  lemma GlobalKeepsScopes(l: Loader, pending: set<FileId>, s: Step)
    requires GoodCaches(l, pending) && s.Reopen? && Enabled(l, s) && (l.files[s.file].bindGlobal ==> s.bindGlobal)
    ensures KeepsScopes(l, s)
  {
    forall o, r | o in l.objects && Latest(l, o) && r in l.objects[o].relocs && l.objects[o].relocs[r].owner in l.objects
      ensures StaysInScope(Reopened(l, s.file, s.bindGlobal, s.bindDeep), l.objects[o].file, l.objects[l.objects[o].relocs[r].owner].file)
    {
      var f, t := l.objects[o].file, l.objects[o].relocs[r];
      assert GoodBinding(l, pending, f, r, t);
      GlobalStays(l, s.file, s.bindGlobal, s.bindDeep, f, l.objects[t.owner].file);
    }
  }

  lemma LoadedGood(l: Loader, pending: set<FileId>, v: Version)
    requires GoodCaches(l, pending) && CanLoad(l, v) && v.file !in pending
    ensures GoodCaches(Loaded(l, v), if Loaded(l, v) == l then pending else pending + {v.file})
  {
    if v.compatible && Patchable(l, v) {
      NewVersionGood(l, pending, v);
      PreparedGood(NewVersion(l, v), pending + {v.file}, v.id, v.needs);
    }
  }

  /** Every step keeps all bindings of latest versions good, if no file is loaded twice
      between two updates and no needed file leaves a scope. */
  lemma StepKeepsCachesGood(l: Loader, pending: set<FileId>, s: Step)
    requires GoodCaches(l, pending) && Enabled(l, s)
    requires s.Load? ==> s.version.file !in pending
    requires s.Reopen? ==> KeepsScopes(l, s)
    ensures GoodCaches(Next(l, s), Pending(l, pending, s))
    ensures s.Update? ==> StaleFree(Next(l, s))
  {
    match s
    case Open(pos, f, o, ns, global, deep, outdated, defs) =>
      OpenedValid(l, pos, f, File(ns, global, deep, outdated, [o]), o, Object(f, defs, [], map[]));
      OpenedExtends(l, pos, f, File(ns, global, deep, outdated, [o]), o, Object(f, defs, [], map[]));
      ExtendsGood(l, Next(l, s), pending);
    case AddDependency(o, d) =>
      WithDependencyValid(l, o, d);
      WithDependencyExtends(l, o, d);
      ExtendsGood(l, Next(l, s), pending);
    case Reopen(_, _, _) => ReopenedGood(l, pending, s);
    case Touch(o, r) => RelocatedGood(l, pending, o, r);
    case Load(v) => LoadedGood(l, pending, v);
    case Update => UpdatedGood(l, pending);
  }

  /** steps leads from l to end. */
  ghost predicate Run(l: Loader, steps: seq<Step>, end: Loader)
    decreases |steps|
  {
    Valid(l) &&
    if steps == [] then end == l
    else Enabled(l, steps[0]) && Run(Next(l, steps[0]), steps[1..], end)
  }

  /** No file gets a second new version before an update, and no reopening takes a file out of a scope in which
      it is needed. */
  ghost predicate Orderly(l: Loader, pending: set<FileId>, steps: seq<Step>)
    decreases |steps|
  {
    steps != [] && Valid(l) && Enabled(l, steps[0]) ==>
      && (steps[0].Load? ==> steps[0].version.file !in pending)
      && (steps[0].Reopen? ==> KeepsScopes(l, steps[0]))
      && Orderly(Next(l, steps[0]), Pending(l, pending, steps[0]), steps[1..])
  }

  /** In every orderly run from good caches, no binding of a latest version is stale right after an
      update. */
  lemma {:induction false} NoStaleBindings(l: Loader, pending: set<FileId>, steps: seq<Step>, end: Loader)
    requires GoodCaches(l, pending) && Run(l, steps, end) && Orderly(l, pending, steps)
    requires steps != [] && steps[|steps| - 1].Update?
    ensures StaleFree(end)
    decreases |steps|
  {
    StepKeepsCachesGood(l, pending, steps[0]);
    if |steps| > 1 {
      NoStaleBindings(Next(l, steps[0]), Pending(l, pending, steps[0]), steps[1..], end);
    }
  }

  /** Two new versions of a file without an update in between: the first is acceptable, the
      second provides nothing at all. */
  ghost predicate TwoLoads(l: Loader, o: ObjectId, r: Reloc, v1: Version, v2: Version) {
    && GoodCaches(l, {}) && o in l.objects && Latest(l, o) && r in l.objects[o].relocs
    && CanLoad(l, v1) && v1.compatible && Patchable(l, v1) && v1.needs == []
    && v2 == Version(v1.file, v2.id, map[], [], [], true) && v2.id !in l.objects && v2.id != v1.id
    && l.objects[o].file != v1.file
    && l.objects[o].relocs[r].owner == Current(l, v1.file)
    && (forall o', r' :: o' in l.objects && r' in l.objects[o'].relocs ==> l.objects[o'].relocs[r'].owner != v1.id)
    && (forall g :: g in l.files && g != v1.file ==> !Defines(l, g, r.name))
  }

  /** What a new version changes: it becomes current for its file. */
  lemma NewVersionCurrent(l: Loader, v: Version, g: FileId, o: ObjectId)
    requires Valid(l) && CanLoad(l, v) && g in l.files && o in l.objects
    ensures var k := NewVersion(l, v);
            && Valid(k)
            && Current(k, g) == (if g == v.file then v.id else Current(l, g))
            && (forall name :: Defines(k, g, name) <==> if g == v.file then name in v.defs else Defines(l, g, name))
            && (Latest(k, o) <==> Latest(l, o) && l.objects[o].file != v.file)
  {
    NewVersionValid(l, v);
    assert Current(l, g) in l.files[g].versions;
  }

  lemma LoadSucceeds(l: Loader, v: Version)
    requires Valid(l) && CanLoad(l, v) && v.compatible && Patchable(l, v) && v.needs == []
    ensures Next(l, Load(v)) == NewVersion(l, v)
  {
    NewVersionValid(l, v);
  }

  /** The gate lets the second version pass: it only asks for symbols taken from the first. */
  lemma SecondGateOpen(l: Loader, o: ObjectId, r: Reloc, v1: Version, v2: Version)
    requires TwoLoads(l, o, r, v1, v2)
    ensures CanLoad(NewVersion(l, v1), v2) && Valid(NewVersion(l, v1)) && Patchable(NewVersion(l, v1), v2)
  {
    NewVersionCurrent(l, v1, v1.file, o);
  }

  lemma NameGone(l: Loader, o: ObjectId, r: Reloc, v1: Version, v2: Version)
    requires TwoLoads(l, o, r, v1, v2)
    ensures var l2 := NewVersion(NewVersion(l, v1), v2);
            && Valid(l2) && Latest(l2, o) && r in l2.objects[o].relocs
            && !Latest(l2, l2.objects[o].relocs[r].owner) && !StillDefined(l2, o, r)
  {
    var l1 := NewVersion(l, v1);
    SecondGateOpen(l, o, r, v1, v2);
    var l2 := NewVersion(l1, v2);
    var owner := l.objects[o].relocs[r].owner;
    assert owner in l.files[v1.file].versions;
    NewVersionCurrent(l, v1, v1.file, o);
    NewVersionCurrent(l1, v2, v1.file, o);
    NewVersionCurrent(l1, v2, v1.file, owner);
    forall g | g in l2.files ensures !Defines(l2, g, r.name) {
      NewVersionCurrent(l, v1, g, o);
      NewVersionCurrent(l1, v2, g, o);
    }
  }

  lemma RunStep(l: Loader, s: Step, rest: seq<Step>, end: Loader)
    requires Valid(l) && Enabled(l, s) && Run(Next(l, s), rest, end)
    ensures Run(l, [s] + rest, end)
  {
    assert ([s] + rest)[1..] == rest;
  }

  lemma RunTwoAndUpdate(l: Loader, s1: Step, s2: Step, l1: Loader, l2: Loader) returns (steps: seq<Step>, end: Loader)
    requires Valid(l) && Enabled(l, s1) && Next(l, s1) == l1
    requires Valid(l1) && Enabled(l1, s2) && Next(l1, s2) == l2
    requires Valid(l2)
    ensures |steps| == 3 && steps[0] == s1 && steps[1] == s2 && steps[2].Update?
    ensures end == Updated(l2) && Run(l, steps, end)
  {
    end := Updated(l2);
    ValidIgnoresCaches(l2, end);
    steps := [Update] + [];
    RunStep(l2, Update, [], end);
    RunStep(l1, s2, steps, end);
    steps := [s2] + steps;
    RunStep(l, s1, steps, end);
    steps := [s1] + steps;
  }

  lemma StaleAfterTwoLoads(l: Loader, o: ObjectId, r: Reloc, v1: Version, v2: Version)
    requires TwoLoads(l, o, r, v1, v2)
    ensures Valid(NewVersion(NewVersion(l, v1), v2)) && !StaleFree(Updated(NewVersion(NewVersion(l, v1), v2)))
  {
    var l2 := NewVersion(NewVersion(l, v1), v2);
    NameGone(l, o, r, v1, v2);
    UpdateStaleFreeIff(l2);
  }

  lemma TwoLoadsSucceed(l: Loader, o: ObjectId, r: Reloc, v1: Version, v2: Version, l1: Loader, l2: Loader)
    requires TwoLoads(l, o, r, v1, v2) && l1 == NewVersion(l, v1) && l2 == NewVersion(l1, v2)
    ensures Enabled(l, Load(v1)) && Next(l, Load(v1)) == l1
    ensures Valid(l1) && Enabled(l1, Load(v2)) && Next(l1, Load(v2)) == l2
  {
    SecondGateOpen(l, o, r, v1, v2);
    LoadSucceeds(l, v1);
    LoadSucceeds(l1, v2);
  }

  /** An update after two such loads leaves the binding to the oldest version in place. */
  lemma SecondLoadLeavesStaleBinding(l: Loader, o: ObjectId, r: Reloc, v1: Version, v2: Version)
    returns (steps: seq<Step>, end: Loader)
    requires TwoLoads(l, o, r, v1, v2)
    ensures |steps| == 3 && steps[0] == Load(v1) && steps[1] == Load(v2) && steps[2].Update?
    ensures Run(l, steps, end) && !StaleFree(end)
  {
    var l1 := NewVersion(l, v1);
    var l2 := NewVersion(l1, v2);
    StaleAfterTwoLoads(l, o, r, v1, v2);
    TwoLoadsSucceed(l, o, r, v1, v2, l1, l2);
    steps, end := RunTwoAndUpdate(l, Load(v1), Load(v2), l1, l2);
  }

  ghost function Example(r: Reloc): (l: Loader) {
    Loader([0, 1],
           map[0 := File(0, true, false, false, [10]), 1 := File(0, true, false, false, [20])],
           map[10 := Object(0, map[], [1], map[r := Symbol(20, r.name, false)]), 20 := Object(1, map[r.name := false], [], map[])],
           false)
  }

  lemma ExampleGood(r: Reloc)
    ensures GoodCaches(Example(r), {})
  {
    assert Valid(Example(r));
  }

  /** An application bound to a symbol of a library is such a case. */
  lemma TwoLoadsHappen(r: Reloc)
    ensures TwoLoads(Example(r), 10, r, Version(1, 21, map[r.name := false], [], [], true), Version(1, 22, map[], [], [], true))
  {
    ExampleGood(r);
  }

  /** An application bound to a library that is global, but no dependency of it. */
  ghost function GlobalExample(r: Reloc): (l: Loader) {
    Loader([0, 1],
           map[0 := File(0, true, false, false, [10]), 1 := File(0, true, false, false, [20])],
           map[10 := Object(0, map[], [], map[r := Symbol(20, r.name, false)]), 20 := Object(1, map[r.name := false], [], map[])],
           false)
  }

  lemma GlobalExampleGood(r: Reloc)
    ensures GoodCaches(GlobalExample(r), {})
  {
    assert Valid(GlobalExample(r));
  }

  /** The same after the library was opened again without bind_global, and after a new version of it was loaded. */
  ghost function Reopening(r: Reloc): (l: Loader) {
    Loader([0, 1],
           map[0 := File(0, true, false, false, [10]), 1 := File(0, false, false, false, [20])],
           map[10 := Object(0, map[], [], map[r := Symbol(20, r.name, false)]), 20 := Object(1, map[r.name := false], [], map[])],
           false)
  }

  ghost function Renewed(r: Reloc): (l: Loader) {
    Loader([0, 1],
           map[0 := File(0, true, false, false, [10]), 1 := File(0, false, false, false, [21, 20])],
           map[10 := Object(0, map[], [], map[r := Symbol(20, r.name, false)]), 20 := Object(1, map[r.name := false], [], map[]),
               21 := Object(1, map[r.name := false], [], map[])],
           false)
  }

  lemma ReopeningValid(r: Reloc)
    ensures Valid(Reopening(r))
  {
  }

  lemma RenewedValid(r: Reloc)
    ensures Valid(Renewed(r))
  {
  }

  lemma ReopeningStep(r: Reloc)
    ensures Valid(GlobalExample(r)) && Enabled(GlobalExample(r), Reopen(1, false, false))
    ensures Next(GlobalExample(r), Reopen(1, false, false)) == Reopening(r)
  {
    GlobalExampleGood(r);
    var k := Reopened(GlobalExample(r), 1, false, false);
    assert k.files == Reopening(r).files;
  }

  lemma RenewedGate(r: Reloc, v: Version)
    requires v == Version(1, 21, map[r.name := false], [], [], true)
    ensures CanLoad(Reopening(r), v) && Patchable(Reopening(r), v)
  {
  }

  lemma RenewedIsNew(r: Reloc, v: Version)
    requires v == Version(1, 21, map[r.name := false], [], [], true)
    ensures NewVersion(Reopening(r), v) == Renewed(r)
  {
    var k := NewVersion(Reopening(r), v);
    assert [v.id] + [20] == [21, 20];
    assert k.files == Renewed(r).files;
    assert k.objects == Renewed(r).objects;
  }

  lemma RenewedStep(r: Reloc, v: Version)
    requires v == Version(1, 21, map[r.name := false], [], [], true)
    ensures Valid(Reopening(r)) && Enabled(Reopening(r), Load(v)) && Next(Reopening(r), Load(v)) == Renewed(r)
  {
    ReopeningValid(r);
    RenewedGate(r, v);
    RenewedIsNew(r, v);
    LoadSucceeds(Reopening(r), v);
  }

  /** The library is in no scope of the application any more. */
  lemma RenewedStale(r: Reloc)
    ensures Valid(Renewed(r)) && !StaleFree(Updated(Renewed(r)))
  {
    var l := Renewed(r);
    RenewedValid(r);
    assert Latest(l, 10) && r in l.objects[10].relocs && !Latest(l, l.objects[10].relocs[r].owner);
    forall g | g in l.files ensures !(InScope(l, 0, g) && Defines(l, g, r.name)) {
      assert g == 0 || g == 1;
    }
    assert !StillDefined(l, 10, r);
    UpdateStaleFreeIff(l);
  }

  /** When the library is opened again without bind_global, an update to a new version that still defines the name
      leaves the binding to the old one. */
  lemma ClearedGlobalLeavesStaleBinding(r: Reloc) returns (steps: seq<Step>, end: Loader)
    ensures |steps| == 3 && steps[0] == Reopen(1, false, false) && steps[1].Load? && steps[2].Update?
    ensures Run(GlobalExample(r), steps, end) && !StaleFree(end)
  {
    var v := Version(1, 21, map[r.name := false], [], [], true);
    ReopeningStep(r);
    RenewedStep(r, v);
    RenewedStale(r);
    steps, end := RunTwoAndUpdate(GlobalExample(r), Reopen(1, false, false), Load(v), Reopening(r), Renewed(r));
  }
}
