/** The loader state as it is updated in place: relocation caches are replaced entry by
    entry, versions are prepended, and the loops of ObjectDynamic::update, patchable and
    prepare run over lists and hash maps. Each method is proved against LiveUpdate. */
module Linker {
  import opened Common
  import opened Symbols
  import opened LiveUpdate

  ghost function UpdatedObject(l: Loader, o: ObjectId): (r: Object)
    requires Valid(l) && o in l.objects
  {
    l.objects[o].(relocs := map r | r in l.objects[o].relocs :: Rebound(l, o, r))
  }

  lemma ReboundIgnoresOthers(l: Loader, k: Loader, o: ObjectId, r: Reloc)
    requires Valid(l) && Valid(k) && SameButCaches(l, k) && o in l.objects
    requires r in l.objects[o].relocs && r in k.objects[o].relocs && k.objects[o].relocs[r] == l.objects[o].relocs[r]
    ensures Rebound(k, o, r) == Rebound(l, o, r)
  {
    LatestIgnoresCaches(l, k);
    ValidSearchable(l, l.objects[o].file);
    BindIgnoresCaches(l, k, l.objects[o].file, r);
  }

  /** A cache on its way from `before` to `after`, with the entries in todo still to do. */
  ghost predicate Between(before: map<Reloc, Symbol>, after: map<Reloc, Symbol>, todo: set<Reloc>, now: map<Reloc, Symbol>) {
    && todo <= before.Keys == after.Keys == now.Keys
    && forall r <- now :: now[r] == if r in todo then before[r] else after[r]
  }

  ghost function WithCache(l: Loader, o: ObjectId, cache: map<Reloc, Symbol>): (k: Loader)
    requires o in l.objects
    ensures SameButCaches(l, k)
  {
    l.(objects := l.objects[o := l.objects[o].(relocs := cache)])
  }

  /** One round of the loop over the cache of o puts the rebound symbol into the entry. */
  lemma EntryRebound(k: Loader, o: ObjectId, r: Reloc)
    requires Valid(k) && o in k.objects && r in k.objects[o].relocs
    ensures Searchable(k, Some(k.objects[o].file))
    ensures (if NeedsRebind(k, o, r) then Relocated(k, o, r) else k) ==
              WithCache(k, o, k.objects[o].relocs[r := Rebound(k, o, r)])
  {
    ValidSearchable(k, k.objects[o].file);
    if !NeedsRebind(k, o, r) || Bind(k, k.objects[o].file, r).None? {
      SameCache(k, o, r);
    }
  }

  lemma SameCache(k: Loader, o: ObjectId, r: Reloc)
    requires o in k.objects && r in k.objects[o].relocs
    ensures WithCache(k, o, k.objects[o].relocs[r := k.objects[o].relocs[r]]) == k
  {
    assert k.objects[o].relocs[r := k.objects[o].relocs[r]] == k.objects[o].relocs;
    assert k.objects[o := k.objects[o]] == k.objects;
  }

  lemma WithSameCache(k: Loader, o: ObjectId)
    requires o in k.objects
    ensures WithCache(k, o, k.objects[o].relocs) == k
  {
    assert k.objects[o := k.objects[o]] == k.objects;
  }

  lemma WithCacheTwice(l: Loader, o: ObjectId, c: map<Reloc, Symbol>, d: map<Reloc, Symbol>)
    requires o in l.objects
    ensures WithCache(WithCache(l, o, c), o, d) == WithCache(l, o, d)
  {
  }

  lemma BetweenNext(before: map<Reloc, Symbol>, after: map<Reloc, Symbol>, todo: set<Reloc>, now: map<Reloc, Symbol>, r: Reloc, s: Symbol)
    requires Between(before, after, todo, now) && r in todo && r in after && s == after[r]
    ensures Between(before, after, todo - {r}, now[r := s])
  {
  }

  lemma WithCacheValid(l: Loader, o: ObjectId, now: map<Reloc, Symbol>)
    requires Valid(l) && o in l.objects && now.Keys == l.objects[o].relocs.Keys
    ensures Valid(WithCache(l, o, now)) && SameButCaches(l, WithCache(l, o, now))
  {
    ValidIgnoresCaches(l, WithCache(l, o, now));
  }

  lemma EntryDone(l: Loader, o: ObjectId, now: map<Reloc, Symbol>, todo: set<Reloc>, r: Reloc)
    requires Valid(l) && o in l.objects && r in todo
    requires Between(l.objects[o].relocs, UpdatedObject(l, o).relocs, todo, now)
    ensures Valid(WithCache(l, o, now))
    ensures Between(l.objects[o].relocs, UpdatedObject(l, o).relocs, todo - {r}, now[r := Rebound(WithCache(l, o, now), o, r)])
  {
    WithCacheValid(l, o, now);
    var k := WithCache(l, o, now);
    ReboundIgnoresOthers(l, k, o, r);
    BetweenNext(l.objects[o].relocs, UpdatedObject(l, o).relocs, todo, now, r, Rebound(k, o, r));
  }

  /** Each file occurs once in the lookup list, each version once in its chain. */
  ghost predicate Distinct(l: Loader) {
    && (forall i, j :: 0 <= i < j < |l.lookup| ==> l.lookup[i] != l.lookup[j])
    && (forall f <- l.files :: forall i, j :: 0 <= i < j < |l.files[f].versions| ==> l.files[f].versions[i] != l.files[f].versions[j])
  }

  /** k is l with exactly the objects in done updated. */
  ghost predicate PartlyUpdated(l: Loader, k: Loader, done: set<ObjectId>)
    requires Valid(l)
  {
    && SameButCaches(l, k)
    && forall o <- l.objects :: k.objects[o] == if o in done then UpdatedObject(l, o) else l.objects[o]
  }

  lemma PartlyUpdatedStep(l: Loader, k: Loader, done: set<ObjectId>, o: ObjectId)
    requires Valid(l) && PartlyUpdated(l, k, done) && o in l.objects && o !in done && Valid(k)
    ensures PartlyUpdated(l, WithCache(k, o, UpdatedObject(k, o).relocs), done + {o})
  {
    forall r | r in l.objects[o].relocs ensures Rebound(k, o, r) == Rebound(l, o, r) {
      ReboundIgnoresOthers(l, k, o, r);
    }
    assert UpdatedObject(k, o).relocs == UpdatedObject(l, o).relocs;
  }

  ghost function Members(os: seq<ObjectId>): (r: set<ObjectId>) {
    set o | o in os
  }

  lemma NextVersion(vs: seq<ObjectId>, i: nat, done: set<ObjectId>)
    requires i < |vs| && forall o <- vs :: o !in done
    requires forall i, j :: 0 <= i < j < |vs| ==> vs[i] != vs[j]
    ensures vs[i] !in done + Members(vs[..i])
    ensures done + Members(vs[..i]) + {vs[i]} == done + Members(vs[..i + 1])
  {
    assert vs[..i + 1] == vs[..i] + [vs[i]];
  }

  lemma TakeOne<T>(s: seq<T>)
    requires s != []
    ensures s[..1] == [s[0]]
  {
  }

  /** The visited objects of a list of files. */
  ghost function VisitedIn(l: Loader, fs: seq<FileId>): (os: set<ObjectId>) {
    set o | o in l.objects && Visited(l, o) && l.objects[o].file in fs
  }

  lemma AllVisited(l: Loader, k: Loader)
    requires Valid(l) && PartlyUpdated(l, k, VisitedIn(l, l.lookup))
    ensures k == Updated(l)
  {
    assert k.objects == Updated(l).objects;
  }

  /** The versions of one file are visited in order, up to the first or to the last. */
  lemma VersionsVisited(l: Loader, i: nat)
    requires Valid(l) && i < |l.lookup|
    ensures var f := l.lookup[i];
            var vs := l.files[f].versions;
            VisitedIn(l, l.lookup[i..]) ==
              VisitedIn(l, l.lookup[i + 1..]) + Members(if l.files[f].updateOutdated then vs else [vs[0]])
  {
    var f := l.lookup[i];
    var vs := l.files[f].versions;
    assert l.lookup[i..] == [f] + l.lookup[i + 1..];
    assert vs[0] in vs;
  }

  /** All symbols that o took from version prev are among defs. */
  ghost predicate Provides(o: Object, prev: ObjectId, defs: map<string, bool>) {
    forall r :: r in o.relocs && o.relocs[r].owner == prev ==> o.relocs[r].name in defs
  }

  lemma SameButCachesTransitive(l: Loader, k: Loader, k': Loader)
    requires SameButCaches(l, k) && SameButCaches(k, k')
    ensures SameButCaches(l, k')
  {
  }

  lemma TakeNothing<T>(s: seq<T>)
    ensures s[0..] == s
  {
  }

  lemma DropNext<T>(s: seq<T>, i: nat)
    requires i < |s|
    ensures s[i..] != [] && s[i..][0] == s[i] && s[i..][1..] == s[i + 1..]
  {
  }

  class Linker {
    var lookup: seq<FileId>
    var files: map<FileId, File>
    var objects: map<ObjectId, Object>
    const dynamicWeak: bool

    /** Nothing is loaded yet, and all bindings are good. */
    constructor (dynamicWeak: bool)
      ensures View() == Loader([], map[], map[], dynamicWeak) && Distinct(View()) && GoodCaches(View(), {})
    {
      lookup, files, objects := [], map[], map[];
      this.dynamicWeak := dynamicWeak;
    }

    function View(): (l: Loader)
      reads this
    {
      Loader(lookup, files, objects, dynamicWeak)
    }

    /** Loader::open: a file with its first version gets its place in the lookup list. */
    method Open(pos: nat, f: FileId, file: File, o: ObjectId, obj: Object)
      requires pos <= |lookup|
      modifies this`lookup, this`files, this`objects
      ensures View() == Opened(old(View()), pos, f, file, o, obj)
    {
      lookup := lookup[..pos] + [f] + lookup[pos..];
      files := files[f := file];
      objects := objects[o := obj];
    }

    /** The flags that Loader::dlopen sets for a file that is there. */
    method Reopen(f: FileId, global: bool, deep: bool)
      requires f in files
      modifies this`files
      ensures View() == Reopened(old(View()), f, global, deep)
    {
      files := files[f := files[f].(bindGlobal := global, bindDeep := deep)];
    }

    /** ObjectDynamic::relocate for one entry; fatal when a strong symbol is missing. */
    method Relocate(o: ObjectId, r: Reloc) returns (fatal: bool)
      requires o in objects && Searchable(View(), Some(objects[o].file))
      modifies this`objects
      ensures View() == Relocated(old(View()), o, r)
      ensures fatal <==> Bind(old(View()), old(objects[o].file), r).None? && !r.weak
    {
      var f := objects[o].file;
      var symbol := ResolveSymbol(View(), r.name, files[f].ns, Some(f), ModeOf(View(), f, r));
      if symbol.Some? {
        objects := objects[o := objects[o].(relocs := objects[o].relocs[r := symbol.value])];
        fatal := false;
      } else {
        fatal := !r.weak;
      }
    }

    /** One entry of the loop in ObjectDynamic::update. */
    method UpdateEntry(o: ObjectId, r: Reloc)
      requires Valid(View()) && o in objects && r in objects[o].relocs
      modifies this`objects
      ensures View() == WithCache(old(View()), o, old(objects[o].relocs)[r := Rebound(old(View()), o, r)])
    {
      EntryRebound(View(), o, r);
      if NeedsRebind(View(), o, r) {
        var _ := Relocate(o, r);
      }
    }

    /** ObjectDynamic::update: walk the cache and relocate outdated entries. */
    method UpdateObject(o: ObjectId)
      requires Valid(View()) && o in objects
      modifies this`objects
      ensures View() == WithCache(old(View()), o, UpdatedObject(old(View()), o).relocs)
    {
      ghost var l := View();
      var todo := objects[o].relocs.Keys;
      ghost var now := objects[o].relocs;
      WithSameCache(l, o);
      while todo != {}
        invariant Between(l.objects[o].relocs, UpdatedObject(l, o).relocs, todo, now)
        invariant View() == WithCache(l, o, now)
        decreases todo
      {
        var r :| r in todo;
        EntryDone(l, o, now, todo, r);
        ghost var next := now[r := Rebound(View(), o, r)];
        WithCacheTwice(l, o, now, next);
        UpdateEntry(o, r);
        now := next;
        todo := todo - {r};
      }
      assert now == UpdatedObject(l, o).relocs;
    }

    method UpdateVersion(o: ObjectId, ghost l: Loader, ghost done: set<ObjectId>)
      requires Valid(l) && PartlyUpdated(l, View(), done) && o in l.objects && o !in done
      modifies this`objects
      ensures PartlyUpdated(l, View(), done + {o})
    {
      ValidIgnoresCaches(l, View());
      PartlyUpdatedStep(l, View(), done, o);
      UpdateObject(o);
    }

    /** ObjectIdentity::update: the current version, and the older ones if they are to be rewritten. */
    method UpdateFile(f: FileId, ghost l: Loader, ghost done: set<ObjectId>)
      requires Valid(l) && Distinct(l) && PartlyUpdated(l, View(), done) && f in l.files
      requires forall o <- l.files[f].versions :: o !in done
      modifies this`objects
      ensures PartlyUpdated(l, View(), done + Members(if l.files[f].updateOutdated then l.files[f].versions else [Current(l, f)]))
    {
      var vs := files[f].versions;
      for i := 0 to |vs|
        invariant PartlyUpdated(l, View(), done + Members(vs[..i]))
        invariant i > 0 ==> l.files[f].updateOutdated
      {
        NextVersion(vs, i, done);
        UpdateVersion(vs[i], l, done + Members(vs[..i]));
        if !files[f].updateOutdated {
          TakeOne(vs);
          return;
        }
      }
      TakeAll(vs);
    }

    /** The update loop of Loader::relocate over all files, last loaded first. */
    method Update()
      requires Valid(View()) && Distinct(View())
      modifies this`objects
      ensures View() == Updated(old(View()))
    {
      ghost var l := View();
      var i := |lookup|;
      assert PartlyUpdated(l, l, VisitedIn(l, l.lookup[i..]));
      while i > 0
        invariant i <= |l.lookup|
        invariant PartlyUpdated(l, View(), VisitedIn(l, l.lookup[i..]))
      {
        i := i - 1;
        assert lookup[i] !in lookup[i + 1..];
        UpdateFile(lookup[i], l, VisitedIn(l, l.lookup[i + 1..]));
        VersionsVisited(l, i);
      }
      assert l.lookup[0..] == l.lookup;
      AllVisited(l, View());
    }

    /** The innermost loop of ObjectDynamic::patchable, over the cache of one object. */
    method ProvidesAll(o: ObjectId, prev: ObjectId, defs: map<string, bool>) returns (ok: bool)
      requires o in objects
      ensures ok <==> Provides(objects[o], prev, defs)
    {
      var todo := objects[o].relocs.Keys;
      while todo != {}
        invariant todo <= objects[o].relocs.Keys
        invariant forall r :: r in objects[o].relocs && r !in todo && objects[o].relocs[r].owner == prev ==>
                    objects[o].relocs[r].name in defs
        decreases todo
      {
        var r :| r in todo;
        if objects[o].relocs[r].owner == prev && objects[o].relocs[r].name !in defs {
          return false;
        }
        todo := todo - {r};
      }
      ok := true;
    }

    method VersionsProvideAll(f: FileId, prev: ObjectId, defs: map<string, bool>) returns (ok: bool)
      requires f in files && forall o <- files[f].versions :: o in objects
      ensures ok <==> forall o <- files[f].versions :: Provides(objects[o], prev, defs)
    {
      var vs := files[f].versions;
      for i := 0 to |vs|
        invariant forall o <- vs[..i] :: Provides(objects[o], prev, defs)
      {
        ok := ProvidesAll(vs[i], prev, defs);
        if !ok {
          return;
        }
      }
      ok := true;
      TakeAll(vs);
    }

    /** The gate of ObjectDynamic::patchable. */
    method CheckPatchable(v: Version) returns (ok: bool)
      requires Valid(View()) && v.file in files
      ensures ok <==> Patchable(View(), v)
    {
      var prev := files[v.file].versions[0];
      for i := 0 to |lookup|
        invariant forall f <- lookup[..i] :: forall o <- files[f].versions :: Provides(objects[o], prev, v.defs)
      {
        ok := VersionsProvideAll(lookup[i], prev, v.defs);
        if !ok {
          return;
        }
      }
      ok := true;
      TakeAll(lookup);
    }

    /** ObjectDynamic::prepare for a new version. */
    method Prepare(o: ObjectId, needs: seq<Reloc>)
      requires o in objects && Searchable(View(), Some(objects[o].file))
      modifies this`objects
      ensures View() == Prepared(old(View()), o, needs)
    {
      ghost var l := View();
      TakeNothing(needs);
      for i := 0 to |needs|
        invariant SameButCaches(l, View())
        invariant Searchable(View(), Some(objects[o].file))
        invariant Prepared(View(), o, needs[i..]) == Prepared(l, o, needs)
      {
        ghost var k := View();
        DropNext(needs, i);
        var fatal := Relocate(o, needs[i]);
        if fatal {
          return;
        }
        SearchableIgnoresCaches(k, View(), k.objects[o].file);
        SameButCachesTransitive(l, k, View());
      }
    }

    /** ObjectIdentity::create for an update: either the new version is current and prepared,
        or nothing has changed. */
    method Load(v: Version) returns (ok: bool)
      requires Valid(View()) && CanLoad(View(), v)
      modifies this`files, this`objects
      ensures View() == Loaded(old(View()), v)
      ensures ok <==> v.compatible && Patchable(old(View()), v)
    {
      ok := v.compatible;
      if ok {
        ok := CheckPatchable(v);
      }
      if ok {
        NewVersionValid(View(), v);
        files := files[v.file := files[v.file].(versions := [v.id] + files[v.file].versions)];
        objects := objects[v.id := Object(v.file, v.defs, v.deps, map[])];
        ValidSearchable(View(), v.file);
        Prepare(v.id, v.needs);
      }
    }
  }
}
