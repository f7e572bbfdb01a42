/** Which definition a relocation is bound to (src/object/dynamic.cpp, src/loader.cpp), in terms of the load order, the
    flags and the dependencies of files. */
module Binding {
  import opened Common
  import opened Symbols
  import opened LiveUpdate

  /** The files of a list that are in a set, in order. */
  ghost function Kept(fs: seq<FileId>, keep: set<FileId>): (r: seq<FileId>) {
    if fs == [] then []
    else
      var n := |fs| - 1;
      Kept(fs[..n], keep) + if fs[n] in keep then [fs[n]] else []
  }

  lemma {:induction false} KeptMembers(fs: seq<FileId>, keep: set<FileId>)
    ensures forall g :: g in Kept(fs, keep) <==> g in fs && g in keep
  {
    if fs != [] {
      KeptMembers(fs[..|fs| - 1], keep);
      assert fs == fs[..|fs| - 1] + [fs[|fs| - 1]];
    }
  }

  lemma KeptStep(fs: seq<FileId>, g: FileId, keep: set<FileId>)
    ensures Kept(fs + [g], keep) == Kept(fs, keep) + if g in keep then [g] else []
  {
    assert (fs + [g])[..|fs|] == fs;
  }

  lemma {:induction false} KeptConcat(fs: seq<FileId>, gs: seq<FileId>, keep: set<FileId>)
    ensures Kept(fs + gs, keep) == Kept(fs, keep) + Kept(gs, keep)
  {
    if gs == [] {
      assert fs + gs == fs;
    } else {
      var n := |gs| - 1;
      KeptConcat(fs, gs[..n], keep);
      assert fs + gs == (fs + gs[..n]) + [gs[n]];
      KeptStep(fs + gs[..n], gs[n], keep);
    }
  }

  lemma KeptKnown(l: Loader, fs: seq<FileId>, keep: set<FileId>)
    requires Known(l, fs)
    ensures Known(l, Kept(fs, keep))
  {
    KeptMembers(fs, keep);
  }

  lemma {:induction false} GlobalIsKept(l: Loader, fs: seq<FileId>, ns: int, keep: set<FileId>)
    requires forall f <- fs :: f in keep <==> Global(l, f, ns)
    ensures GlobalScope(l, fs, ns) == Kept(fs, keep)
  {
    if fs != [] {
      GlobalIsKept(l, fs[..|fs| - 1], ns, keep);
    }
  }

  lemma {:induction false} WithoutIsKept(fs: seq<FileId>, f: FileId, keep: set<FileId>)
    requires forall g <- fs :: g in keep <==> g != f
    ensures Without(fs, f) == Kept(fs, keep)
  {
    if fs != [] {
      WithoutIsKept(fs[..|fs| - 1], f, keep);
    }
  }

  lemma WithoutStep(fs: seq<FileId>, g: FileId, f: FileId)
    ensures Without(fs + [g], f) == Without(fs, f) + if g == f then [] else [g]
  {
    assert (fs + [g])[..|fs|] == fs;
  }

  lemma {:induction false} KeptTwice(fs: seq<FileId>, keep: set<FileId>, f: FileId)
    ensures Without(Kept(fs, keep), f) == Kept(fs, keep - {f})
  {
    if fs != [] {
      var n := |fs| - 1;
      KeptTwice(fs[..n], keep, f);
      var ks := Kept(fs[..n], keep);
      if fs[n] in keep {
        WithoutStep(ks, fs[n], f);
        assert Kept(fs, keep) == ks + [fs[n]];
      } else {
        assert Kept(fs, keep) == ks;
      }
    }
  }

  /** No file of the list that is in the set defines the name. */
  ghost predicate Undefined(l: Loader, name: string, fs: seq<FileId>, keep: set<FileId>)
    requires Known(l, fs)
  {
    forall g <- fs :: g in keep ==> !Defines(l, g, name)
  }

  lemma KeptNone(l: Loader, name: string, fs: seq<FileId>, keep: set<FileId>)
    requires Known(l, fs) && Undefined(l, name, fs, keep)
    ensures Known(l, Kept(fs, keep)) && Matches(l, name, Kept(fs, keep)) == []
  {
    var ks := Kept(fs, keep);
    KeptMembers(fs, keep);
    forall i | 0 <= i < |ks| ensures Definition(l, name, ks[i]).None? {
      assert ks[i] in ks;
    }
    NoMatches(l, name, ks);
  }

  /** The k-th file of the list is the first one in the set that defines the name. */
  ghost predicate IsFirst(l: Loader, name: string, fs: seq<FileId>, keep: set<FileId>, k: nat)
    requires Known(l, fs)
  {
    k < |fs| && fs[k] in keep && Defines(l, fs[k], name) && Undefined(l, name, fs[..k], keep)
  }

  lemma KeptFirst(l: Loader, name: string, fs: seq<FileId>, keep: set<FileId>, k: nat)
    requires Known(l, fs) && IsFirst(l, name, fs, keep, k)
    ensures Known(l, Kept(fs, keep)) && Matches(l, name, Kept(fs, keep)) != []
    ensures Some(Matches(l, name, Kept(fs, keep))[0]) == Definition(l, name, fs[k])
  {
    var a, b := fs[..k], fs[k + 1..];
    assert fs == (a + [fs[k]]) + b;
    KeptConcat(a + [fs[k]], b, keep);
    KeptStep(a, fs[k], keep);
    KeptNone(l, name, a, keep);
    KeptKnown(l, b, keep);
    MatchesStep(l, name, Kept(a, keep), fs[k]);
    MatchesConcat(l, name, Kept(a, keep) + [fs[k]], Kept(b, keep));
  }

  /** The global files of the namespace that a relocation is searched in: a COPY relocation skips its own file. */
  ghost function Globals(l: Loader, f: FileId, r: Reloc): (gs: set<FileId>)
    requires f in l.files
  {
    set g | g in l.lookup && g in l.files && l.files[g].bindGlobal && l.files[g].ns == l.files[f].ns && (r.copy ==> g != f)
  }

  /** The same for the dependencies. */
  ghost function Needed(l: Loader, f: FileId, r: Reloc): (ds: set<FileId>)
    requires Searchable(l, Some(f))
  {
    set d | d in Dependencies(l, f) && (r.copy ==> d != f)
  }

  /** The own file comes first for a file bound deeply, but not for a COPY relocation. */
  predicate OwnFirst(l: Loader, f: FileId, r: Reloc)
    requires f in l.files
  {
    l.files[f].bindDeep && !r.copy
  }

  lemma {:induction false} AllKept(fs: seq<FileId>, keep: set<FileId>)
    requires forall f <- fs :: f in keep
    ensures Kept(fs, keep) == fs
  {
    if fs != [] {
      var n := |fs| - 1;
      AllKept(fs[..n], keep);
      assert fs[n] in fs;
      assert fs == fs[..n] + [fs[n]];
    }
  }

  lemma GlobalPartIs(l: Loader, f: FileId, r: Reloc)
    requires Searchable(l, Some(f))
    ensures GlobalPart(l, l.lookup, l.files[f].ns, Some(f), ModeOf(l, f, r)) == Kept(l.lookup, Globals(l, f, r))
  {
    var all := set g | g in l.lookup && Global(l, g, l.files[f].ns);
    GlobalIsKept(l, l.lookup, l.files[f].ns, all);
    KeptTwice(l.lookup, all, f);
    assert Globals(l, f, r) == if r.copy then all - {f} else all;
  }

  lemma DependencyPartIs(l: Loader, f: FileId, r: Reloc)
    requires Searchable(l, Some(f))
    ensures DependencyPart(Dependencies(l, f), f, ModeOf(l, f, r)) == Kept(Dependencies(l, f), Needed(l, f, r))
  {
    var ds := Dependencies(l, f);
    if r.copy {
      WithoutIsKept(ds, f, Needed(l, f, r));
    } else {
      AllKept(ds, Needed(l, f, r));
    }
  }

  ghost function Front(l: Loader, f: FileId, r: Reloc): (fs: seq<FileId>)
    requires f in l.files
  {
    if OwnFirst(l, f, r) then [f] else []
  }

  lemma ScopeIs(l: Loader, f: FileId, r: Reloc)
    requires Searchable(l, Some(f))
    ensures var fs := Front(l, f, r) + Kept(l.lookup, Globals(l, f, r)) + Kept(Dependencies(l, f), Needed(l, f, r));
            Scope(l, l.files[f].ns, Some(f), ModeOf(l, f, r)) == if OwnFirst(l, f, r) then fs else fs + [f]
  {
    GlobalPartIs(l, f, r);
    DependencyPartIs(l, f, r);
  }

  lemma {:induction false} FirstIsStrong(l: Loader, ms: seq<Symbol>)
    requires !l.dynamicWeak && ms != []
    ensures FirstStrong(l, ms) == Some(ms[0])
  {
    if |ms| > 1 {
      FirstIsStrong(l, ms[..|ms| - 1]);
    }
  }

  /** The definitions along the scope, part by part. */
  lemma BindIs(l: Loader, f: FileId, r: Reloc)
    requires Searchable(l, Some(f)) && !l.dynamicWeak
    ensures Known(l, Kept(l.lookup, Globals(l, f, r))) && Known(l, Kept(Dependencies(l, f), Needed(l, f, r)))
    ensures var ms := Matches(l, r.name, Front(l, f, r)) + Matches(l, r.name, Kept(l.lookup, Globals(l, f, r))) +
                      Matches(l, r.name, Kept(Dependencies(l, f), Needed(l, f, r))) + Matches(l, r.name, [f]);
            Bind(l, f, r) == if ms == [] then None else Some(ms[0])
  {
    var a, b, c := Front(l, f, r), Kept(l.lookup, Globals(l, f, r)), Kept(Dependencies(l, f), Needed(l, f, r));
    ScopeIs(l, f, r);
    KeptKnown(l, l.lookup, Globals(l, f, r));
    KeptKnown(l, Dependencies(l, f), Needed(l, f, r));
    MatchesConcat(l, r.name, a, b);
    MatchesConcat(l, r.name, a + b, c);
    MatchesConcat(l, r.name, a + b + c, [f]);
    var ms := Matches(l, r.name, Scope(l, l.files[f].ns, Some(f), ModeOf(l, f, r)));
    if ms != [] {
      FirstIsStrong(l, ms);
    }
    MatchesOne(l, r.name, f);
  }

  lemma MatchesOne(l: Loader, name: string, f: FileId)
    requires Known(l, [f])
    ensures Matches(l, name, [f]) == match Definition(l, name, f) case Some(s) => [s] case None => []
  {
    assert [f][..0] == [];
  }

  /** What the current version of the file defines. */
  function DefinitionOf(l: Loader, f: FileId, name: string): (s: Symbol)
    requires f in l.files && |l.files[f].versions| > 0 && Defines(l, f, name)
  {
    Symbol(l.files[f].versions[0], name, l.objects[l.files[f].versions[0]].defs[name])
  }

  /** A name that a deeply bound file defines is bound to that file, unless it is copied. */
  lemma BoundDeeply(l: Loader, f: FileId, r: Reloc)
    requires Searchable(l, Some(f)) && !l.dynamicWeak && l.files[f].bindDeep && !r.copy && Defines(l, f, r.name)
    ensures Bind(l, f, r) == Some(DefinitionOf(l, f, r.name))
  {
    BindIs(l, f, r);
    MatchesOne(l, r.name, f);
  }

  /** Otherwise it is bound to the first global file in load order that defines it, for a COPY relocation to the first
      other one. */
  lemma BoundGlobally(l: Loader, f: FileId, r: Reloc, k: nat)
    requires Searchable(l, Some(f)) && !l.dynamicWeak && (l.files[f].bindDeep && !r.copy ==> !Defines(l, f, r.name))
    requires IsFirst(l, r.name, l.lookup, Globals(l, f, r), k)
    ensures Bind(l, f, r) == Some(DefinitionOf(l, l.lookup[k], r.name))
  {
    BindIs(l, f, r);
    MatchesOne(l, r.name, f);
    KeptFirst(l, r.name, l.lookup, Globals(l, f, r), k);
  }

  /** If there is none, to the first of its dependencies that does. */
  lemma BoundToDependency(l: Loader, f: FileId, r: Reloc, k: nat)
    requires Searchable(l, Some(f)) && !l.dynamicWeak && (l.files[f].bindDeep && !r.copy ==> !Defines(l, f, r.name))
    requires Undefined(l, r.name, l.lookup, Globals(l, f, r)) && IsFirst(l, r.name, Dependencies(l, f), Needed(l, f, r), k)
    ensures Bind(l, f, r) == Some(DefinitionOf(l, Dependencies(l, f)[k], r.name))
  {
    BindIs(l, f, r);
    MatchesOne(l, r.name, f);
    KeptNone(l, r.name, l.lookup, Globals(l, f, r));
    KeptFirst(l, r.name, Dependencies(l, f), Needed(l, f, r), k);
  }

  /** If there is none either, to the own file, in particular the last resort of a COPY relocation. */
  lemma BoundToOwn(l: Loader, f: FileId, r: Reloc)
    requires Searchable(l, Some(f)) && !l.dynamicWeak && Defines(l, f, r.name)
    requires Undefined(l, r.name, l.lookup, Globals(l, f, r)) && Undefined(l, r.name, Dependencies(l, f), Needed(l, f, r))
    ensures Bind(l, f, r) == Some(DefinitionOf(l, f, r.name))
  {
    BindIs(l, f, r);
    MatchesOne(l, r.name, f);
    KeptNone(l, r.name, l.lookup, Globals(l, f, r));
    KeptNone(l, r.name, Dependencies(l, f), Needed(l, f, r));
  }

  // ---------------------------------------------------------------------------
  // Searches of the program

  lemma AfterStep(fs: seq<FileId>, g: FileId, f: FileId)
    ensures After(fs + [g], f) == if f in fs then After(fs, f) + [g] else []
  {
    assert (fs + [g])[..|fs|] == fs;
  }

  lemma {:induction false} AfterConcat(fs: seq<FileId>, f: FileId, gs: seq<FileId>)
    requires f !in fs
    ensures After(fs + [f] + gs, f) == gs
  {
    if gs == [] {
      assert fs + [f] + gs == fs + [f];
      AfterStep(fs, f, f);
    } else {
      var n := |gs| - 1;
      var init := fs + [f] + gs[..n];
      AfterConcat(fs, f, gs[..n]);
      assert init[|fs|] == f;
      assert fs + [f] + gs == init + [gs[n]];
      AfterStep(init, gs[n], f);
    }
  }

  lemma AfterIsKept(fs: seq<FileId>, keep: set<FileId>, f: FileId, gs: seq<FileId>)
    requires f in keep && f !in fs
    ensures After(Kept(fs + [f] + gs, keep), f) == Kept(gs, keep)
  {
    KeptMembers(fs, keep);
    KeptConcat(fs + [f], gs, keep);
    KeptStep(fs, f, keep);
    AfterConcat(Kept(fs, keep), f, Kept(gs, keep));
  }

  /** The global files of a namespace. */
  ghost function GlobalFiles(l: Loader, ns: int): (gs: set<FileId>) {
    set g | g in l.lookup && g in l.files && l.files[g].bindGlobal && l.files[g].ns == ns
  }

  lemma ChosenFirst(l: Loader, name: string, fs: seq<FileId>, gs: seq<FileId>)
    requires !l.dynamicWeak && Known(l, fs) && Known(l, gs) && Matches(l, name, fs) != []
    ensures Known(l, fs + gs) && Choose(l, Matches(l, name, fs + gs)) == Some(Matches(l, name, fs)[0])
  {
    MatchesConcat(l, name, fs, gs);
    FirstIsStrong(l, Matches(l, name, fs + gs));
  }

  lemma GlobalAfter(l: Loader, ns: int, f: FileId, j: nat)
    requires Searchable(l, Some(f)) && f in GlobalFiles(l, ns) && j < |l.lookup| && l.lookup[j] == f && f !in l.lookup[..j]
    ensures After(GlobalScope(l, l.lookup, ns), f) == Kept(l.lookup[j + 1..], GlobalFiles(l, ns))
  {
    var keep := GlobalFiles(l, ns);
    GlobalIsKept(l, l.lookup, ns, keep);
    assert l.lookup == l.lookup[..j] + [f] + l.lookup[j + 1..];
    AfterIsKept(l.lookup[..j], keep, f, l.lookup[j + 1..]);
  }

  lemma Regroup(a: seq<FileId>, b: seq<FileId>, c: seq<FileId>)
    ensures [] + a + b + c == a + (b + c)
  {
  }

  lemma AfterScope(l: Loader, ns: int, f: FileId, j: nat)
    requires Searchable(l, Some(f)) && f in GlobalFiles(l, ns) && j < |l.lookup| && l.lookup[j] == f && f !in l.lookup[..j]
    ensures Scope(l, ns, Some(f), AfterObject) == Kept(l.lookup[j + 1..], GlobalFiles(l, ns)) + (Dependencies(l, f) + [f])
  {
    GlobalAfter(l, ns, f, j);
    Regroup(Kept(l.lookup[j + 1..], GlobalFiles(l, ns)), Dependencies(l, f), [f]);
  }

  /** A search after a global file finds the first global file behind it in load order that defines the name. */
  lemma FoundAfter(l: Loader, name: string, ns: int, f: FileId, j: nat, k: nat)
    requires Searchable(l, Some(f)) && !l.dynamicWeak && f in GlobalFiles(l, ns)
    requires j < |l.lookup| && l.lookup[j] == f && f !in l.lookup[..j]
    requires IsFirst(l, name, l.lookup[j + 1..], GlobalFiles(l, ns), k)
    ensures Resolve(l, name, ns, Some(f), AfterObject) == Some(DefinitionOf(l, l.lookup[j + 1..][k], name))
  {
    AfterScope(l, ns, f, j);
    KeptFirst(l, name, l.lookup[j + 1..], GlobalFiles(l, ns), k);
    ChosenFirst(l, name, Kept(l.lookup[j + 1..], GlobalFiles(l, ns)), Dependencies(l, f) + [f]);
  }

  lemma OwnScope(l: Loader, ns: int, f: FileId)
    requires Searchable(l, Some(f))
    ensures Scope(l, ns, Some(f), NoDependencies) == Kept(l.lookup, GlobalFiles(l, ns)) + [f]
  {
    GlobalIsKept(l, l.lookup, ns, GlobalFiles(l, ns));
  }

  /** A search without dependencies finds the first global file that defines the name. */
  lemma FoundWithoutDependencies(l: Loader, name: string, ns: int, f: FileId, k: nat)
    requires Searchable(l, Some(f)) && !l.dynamicWeak && IsFirst(l, name, l.lookup, GlobalFiles(l, ns), k)
    ensures Resolve(l, name, ns, Some(f), NoDependencies) == Some(DefinitionOf(l, l.lookup[k], name))
  {
    OwnScope(l, ns, f);
    KeptFirst(l, name, l.lookup, GlobalFiles(l, ns), k);
    ChosenFirst(l, name, Kept(l.lookup, GlobalFiles(l, ns)), [f]);
  }

  /** If there is none, it finds the own file or nothing, whatever the dependencies define. */
  lemma DependenciesIgnored(l: Loader, name: string, ns: int, f: FileId)
    requires Searchable(l, Some(f)) && !l.dynamicWeak && Undefined(l, name, l.lookup, GlobalFiles(l, ns))
    ensures Resolve(l, name, ns, Some(f), NoDependencies) == if Defines(l, f, name) then Some(DefinitionOf(l, f, name)) else None
  {
    OwnScope(l, ns, f);
    MatchesOne(l, name, f);
    KeptNone(l, name, l.lookup, GlobalFiles(l, ns));
    MatchesConcat(l, name, Kept(l.lookup, GlobalFiles(l, ns)), [f]);
    if Defines(l, f, name) {
      FirstIsStrong(l, Matches(l, name, [f]));
    }
  }

  // ---------------------------------------------------------------------------
  // Weak definitions

  /** The loader without its weak definitions. */
  ghost function StrongOnly(l: Loader): (k: Loader) {
    l.(objects := map o | o in l.objects :: l.objects[o].(defs := map n | n in l.objects[o].defs && !l.objects[o].defs[n] :: false),
       dynamicWeak := false)
  }

  lemma {:induction false} GlobalsStay(l: Loader, fs: seq<FileId>, ns: int)
    ensures GlobalScope(StrongOnly(l), fs, ns) == GlobalScope(l, fs, ns)
  {
    if fs != [] {
      GlobalsStay(l, fs[..|fs| - 1], ns);
    }
  }

  lemma ScopeStays(l: Loader, f: FileId, r: Reloc)
    requires Searchable(l, Some(f))
    ensures Searchable(StrongOnly(l), Some(f))
    ensures Scope(StrongOnly(l), l.files[f].ns, Some(f), ModeOf(l, f, r)) == Scope(l, l.files[f].ns, Some(f), ModeOf(l, f, r))
  {
    GlobalsStay(l, l.lookup, l.files[f].ns);
  }

  lemma StrongDefinition(l: Loader, name: string, f: FileId)
    requires l.dynamicWeak && f in l.files && |l.files[f].versions| > 0
    ensures var d := Definition(l, name, f);
            Definition(StrongOnly(l), name, f) == if d.Some? && !d.value.weak then d else None
  {
  }

  lemma StrongOne(l: Loader, s: Symbol)
    requires l.dynamicWeak
    ensures FirstStrong(l, [s]) == if s.weak then None else Some(s)
  {
    assert [s][..0] == [];
  }

  lemma {:induction false} StrongMatches(l: Loader, name: string, fs: seq<FileId>)
    requires l.dynamicWeak && Known(l, fs)
    ensures Known(StrongOnly(l), fs)
    ensures var ms := Matches(StrongOnly(l), name, fs);
            FirstStrong(l, Matches(l, name, fs)) == if ms == [] then None else Some(ms[0])
  {
    if fs != [] {
      var n := |fs| - 1;
      var init, g := fs[..n], fs[n];
      assert fs == init + [g];
      StrongMatches(l, name, init);
      StrongDefinition(l, name, g);
      MatchesStep(l, name, init, g);
      MatchesStep(StrongOnly(l), name, init, g);
      var d := Definition(l, name, g);
      if d.Some? {
        FirstStrongConcat(l, Matches(l, name, init), [d.value]);
        StrongOne(l, d.value);
      }
    }
  }

  /** Some file in scope has a strong definition of the name. */
  ghost predicate StronglyDefined(l: Loader, f: FileId, r: Reloc)
    requires Searchable(l, Some(f))
  {
    exists g :: g in l.files && |l.files[g].versions| > 0 && InScope(l, f, g) && Defines(l, g, r.name) && !DefinitionOf(l, g, r.name).weak
  }

  lemma StronglyDefinedIff(l: Loader, f: FileId, r: Reloc)
    requires Searchable(l, Some(f)) && l.dynamicWeak
    ensures Known(l, Scope(l, l.files[f].ns, Some(f), ModeOf(l, f, r)))
    ensures StronglyDefined(l, f, r) <==> FirstStrong(l, Matches(l, r.name, Scope(l, l.files[f].ns, Some(f), ModeOf(l, f, r)))).Some?
  {
    var fs := Scope(l, l.files[f].ns, Some(f), ModeOf(l, f, r));
    ScopeKnown(l, l.files[f].ns, Some(f), ModeOf(l, f, r));
    var ms := Matches(l, r.name, fs);
    FirstStrongIn(l, ms);
    if FirstStrong(l, ms).Some? {
      var s := FirstStrong(l, ms).value;
      MatchesSound(l, r.name, fs, s);
      var g :| g in fs && Definition(l, r.name, g) == Some(s);
      ScopeMembers(l, f, r, g);
    }
    if g :| g in l.files && |l.files[g].versions| > 0 && InScope(l, f, g) && Defines(l, g, r.name) && !DefinitionOf(l, g, r.name).weak {
      ScopeMembers(l, f, r, g);
      MatchesComplete(l, r.name, fs, g);
    }
  }

  lemma {:induction false} SameGlobals(l: Loader, fs: seq<FileId>, ns: int)
    ensures GlobalScope(l.(dynamicWeak := false), fs, ns) == GlobalScope(l, fs, ns)
  {
    if fs != [] {
      SameGlobals(l, fs[..|fs| - 1], ns);
    }
  }

  lemma {:induction false} SameMatches(l: Loader, name: string, fs: seq<FileId>)
    requires Known(l, fs)
    ensures Known(l.(dynamicWeak := false), fs) && Matches(l.(dynamicWeak := false), name, fs) == Matches(l, name, fs)
  {
    if fs != [] {
      SameMatches(l, name, fs[..|fs| - 1]);
    }
  }

  lemma WeakOnlyBinding(l: Loader, f: FileId, r: Reloc)
    requires Searchable(l, Some(f)) && l.dynamicWeak && !StronglyDefined(l, f, r)
    ensures Searchable(l.(dynamicWeak := false), Some(f)) && Bind(l, f, r) == Bind(l.(dynamicWeak := false), f, r)
  {
    var k, ns, mode := l.(dynamicWeak := false), l.files[f].ns, ModeOf(l, f, r);
    var fs := Scope(l, ns, Some(f), mode);
    StronglyDefinedIff(l, f, r);
    SameGlobals(l, l.lookup, ns);
    assert Scope(k, ns, Some(f), mode) == fs;
    SameMatches(l, r.name, fs);
    if Matches(k, r.name, fs) != [] {
      FirstIsStrong(k, Matches(k, r.name, fs));
    }
  }

  lemma StrongBinding(l: Loader, f: FileId, r: Reloc)
    requires Searchable(l, Some(f)) && l.dynamicWeak && StronglyDefined(l, f, r)
    ensures Searchable(StrongOnly(l), Some(f)) && Bind(l, f, r) == Bind(StrongOnly(l), f, r)
    ensures Bind(l, f, r).Some? && !Bind(l, f, r).value.weak
  {
    var k, fs := StrongOnly(l), Scope(l, l.files[f].ns, Some(f), ModeOf(l, f, r));
    StronglyDefinedIff(l, f, r);
    ScopeStays(l, f, r);
    StrongMatches(l, r.name, fs);
    FirstStrongIn(l, Matches(l, r.name, fs));
    FirstIsStrong(k, Matches(k, r.name, fs));
  }

  /** With `dynamic_weak`, a strong definition beats all weak ones, however early: if there is one, the binding is what it
      would be without any weak definition. Otherwise it is what it would be without `dynamic_weak`. */
  lemma WeakGivesWay(l: Loader, f: FileId, r: Reloc)
    requires Searchable(l, Some(f)) && l.dynamicWeak
    ensures Searchable(StrongOnly(l), Some(f)) && Searchable(l.(dynamicWeak := false), Some(f))
    ensures Bind(l, f, r) == Bind(if StronglyDefined(l, f, r) then StrongOnly(l) else l.(dynamicWeak := false), f, r)
    ensures StronglyDefined(l, f, r) ==> Bind(l, f, r).Some? && !Bind(l, f, r).value.weak
  {
    ScopeStays(l, f, r);
    if StronglyDefined(l, f, r) {
      StrongBinding(l, f, r);
    } else {
      WeakOnlyBinding(l, f, r);
    }
  }

  // ---------------------------------------------------------------------------
  // What the operations of the loader do to the load order and to each cached binding

  /** A new file gets its place in the load order, and the others keep theirs. */
  lemma OpenedOrder(l: Loader, pos: nat, f: FileId, file: File, o: ObjectId, obj: Object, i: nat)
    requires pos <= |l.lookup| && i <= |l.lookup|
    ensures var k := Opened(l, pos, f, file, o, obj);
            && |k.lookup| == |l.lookup| + 1
            && k.lookup[i] == if i < pos then l.lookup[i] else if i == pos then f else l.lookup[i - 1]
  {
  }

  /** The load order after a file was put in but could not be loaded: the last entry is taken out again. */
  function GivenUp(lookup: seq<FileId>, pos: nat, f: FileId): (r: seq<FileId>)
    requires pos <= |lookup|
  {
    (lookup[..pos] + [f] + lookup[pos..])[..|lookup|]
  }

  /** That restores the order if and only if the file was put at the end; otherwise it stays, and the last file is
      forgotten. */
  lemma GivenUpRestoresIff(lookup: seq<FileId>, pos: nat, f: FileId)
    requires pos <= |lookup| && f !in lookup
    ensures GivenUp(lookup, pos, f) == lookup <==> pos == |lookup|
    ensures pos < |lookup| ==> GivenUp(lookup, pos, f) == lookup[..pos] + [f] + lookup[pos..|lookup| - 1]
  {
    if pos < |lookup| {
      assert GivenUp(lookup, pos, f)[pos] == f != lookup[pos];
      assert lookup[pos..] == lookup[pos..|lookup| - 1] + [lookup[|lookup| - 1]];
    } else {
      assert lookup[..pos] == lookup;
    }
  }

  /** A dependency is searched after the ones added before it. */
  lemma DependencyAdded(l: Loader, f: FileId, d: FileId)
    requires Valid(l) && f in l.files && d in l.files
    ensures var k := WithDependency(l, Current(l, f), d);
            && Searchable(k, Some(f)) && Searchable(l, Some(f)) && Dependencies(k, f) == Dependencies(l, f) + [d] && k.lookup == l.lookup && k.files == l.files
  {
    ValidSearchable(l, f);
    WithDependencyValid(l, Current(l, f), d);
    ValidSearchable(WithDependency(l, Current(l, f), d), f);
  }

  /** After dlopen with deep binding, what the file defines is bound to it, and after one with global binding, its
      definitions can be found by all files of its namespace. */
  lemma ReopenedBinds(l: Loader, f: FileId, global: bool, deep: bool, r: Reloc, g: FileId)
    requires Valid(l) && f in l.files && !l.dynamicWeak && g in l.files && l.files[g].ns == l.files[f].ns
    ensures var k := Reopened(l, f, global, deep);
            && Searchable(k, Some(f)) && Searchable(k, Some(g)) && k.lookup == l.lookup && k.objects == l.objects
            && (deep && !r.copy && Defines(k, f, r.name) ==> Bind(k, f, r) == Some(DefinitionOf(l, f, r.name)))
            && (f in Globals(k, g, r) <==> global && (r.copy ==> f != g))
  {
    var k := Reopened(l, f, global, deep);
    ReopenedValid(l, f, global, deep);
    ValidSearchable(k, f);
    ValidSearchable(k, g);
    if deep && !r.copy && Defines(k, f, r.name) {
      BoundDeeply(k, f, r);
    }
  }

  /** An update changes exactly the outdated bindings of latest versions, and those outside of data of the other
      versions that are to be rewritten, if the name can be resolved, to what a fresh search gives. */
  lemma UpdatedEntryIs(l: Loader, o: ObjectId, r: Reloc)
    requires Valid(l) && o in l.objects && r in l.objects[o].relocs
    ensures var f, k, s := l.objects[o].file, Updated(l), l.objects[o].relocs[r];
            && Searchable(k, Some(f)) && o in k.objects && r in k.objects[o].relocs
            && (if !Latest(k, s.owner) && (Latest(k, o) || (l.files[f].updateOutdated && !r.inData)) && Bind(k, f, r).Some?
                then k.objects[o].relocs[r] == Bind(k, f, r).value
                else k.objects[o].relocs[r] == s)
  {
    var f, k := l.objects[o].file, Updated(l);
    ValidSearchable(l, f);
    BindIgnoresCaches(l, k, f, r);
    LatestIgnoresCaches(l, k);
    UpdatedKeys(l, o);
  }

  /** A new version is accepted if and only if it is compatible and defines every name that some version of some file took
      from the version it replaces. Then it is current; otherwise nothing changes. */
  lemma LoadedIff(l: Loader, v: Version)
    requires Valid(l) && CanLoad(l, v)
    ensures var k, prev := Loaded(l, v), l.files[v.file].versions[0];
            && (v.id in k.objects <==>
                  && v.compatible
                  && forall o, r :: o in l.objects && r in l.objects[o].relocs && l.objects[o].relocs[r].owner == prev ==> l.objects[o].relocs[r].name in v.defs)
            && (v.id in k.objects ==> k.files == l.files[v.file := l.files[v.file].(versions := [v.id] + l.files[v.file].versions)])
            && (v.id !in k.objects ==> k == l)
  {
    if v.compatible && Patchable(l, v) {
      NewVersionValid(l, v);
      ValidSearchable(NewVersion(l, v), v.file);
    }
  }

  /** The needs up to i can be bound or done without. */
  ghost predicate Satisfied(l: Loader, f: FileId, needs: seq<Reloc>, i: nat)
    requires Searchable(l, Some(f)) && i <= |needs|
  {
    forall j :: 0 <= j < i ==> needs[j].weak || Bind(l, f, needs[j]).Some?
  }

  lemma RelocatedCache(l: Loader, o: ObjectId, r: Reloc)
    requires o in l.objects && Searchable(l, Some(l.objects[o].file))
    ensures var b := Bind(l, l.objects[o].file, r);
            Relocated(l, o, r).objects[o].relocs == if b.Some? then l.objects[o].relocs[r := b.value] else l.objects[o].relocs
  {
  }

  lemma SatisfiedNext(l: Loader, k: Loader, f: FileId, needs: seq<Reloc>, i: nat)
    requires Searchable(l, Some(f)) && SameButCaches(l, k) && 0 < i <= |needs| && Satisfied(l, f, needs, i)
    ensures Searchable(k, Some(f)) && Satisfied(k, f, needs[1..], i - 1)
  {
    SearchableIgnoresCaches(l, k, f);
    forall j | 0 <= j < i - 1 ensures needs[1..][j].weak || Bind(k, f, needs[1..][j]).Some? {
      BindIgnoresCaches(l, k, f, needs[j + 1]);
    }
  }

  /** A binding that is in the cache as a fresh search gives it stays. */
  lemma {:induction false} PreparedKeeps(l: Loader, o: ObjectId, needs: seq<Reloc>, r: Reloc)
    requires o in l.objects && Searchable(l, Some(l.objects[o].file))
    requires r in l.objects[o].relocs && Bind(l, l.objects[o].file, r) == Some(l.objects[o].relocs[r])
    ensures var k := Prepared(l, o, needs); r in k.objects[o].relocs && k.objects[o].relocs[r] == l.objects[o].relocs[r]
    decreases |needs|
  {
    var f := l.objects[o].file;
    if needs != [] && (Bind(l, f, needs[0]).Some? || needs[0].weak) {
      var k := Relocated(l, o, needs[0]);
      BindIgnoresCaches(l, k, f, r);
      RelocatedCache(l, o, needs[0]);
      PreparedKeeps(k, o, needs[1..], r);
    }
  }

  /** Preparing a version binds every need before the first missing one that resolves, as a fresh search gives it. */
  lemma {:induction false} PreparedBinds(l: Loader, o: ObjectId, needs: seq<Reloc>, i: nat)
    requires o in l.objects && Searchable(l, Some(l.objects[o].file)) && i < |needs|
    requires Satisfied(l, l.objects[o].file, needs, i) && Bind(l, l.objects[o].file, needs[i]).Some?
    ensures var k := Prepared(l, o, needs);
            needs[i] in k.objects[o].relocs && Some(k.objects[o].relocs[needs[i]]) == Bind(l, l.objects[o].file, needs[i])
    decreases |needs|
  {
    var f := l.objects[o].file;
    var k := Relocated(l, o, needs[0]);
    RelocatedCache(l, o, needs[0]);
    BindIgnoresCaches(l, k, f, needs[i]);
    if i == 0 {
      PreparedKeeps(k, o, needs[1..], needs[0]);
    } else {
      SatisfiedNext(l, k, f, needs, i);
      PreparedBinds(k, o, needs[1..], i - 1);
    }
  }

  lemma PreparedNext(l: Loader, o: ObjectId, needs: seq<Reloc>)
    requires o in l.objects && Searchable(l, Some(l.objects[o].file)) && needs != []
    requires Bind(l, l.objects[o].file, needs[0]).Some? || needs[0].weak
    ensures Searchable(Relocated(l, o, needs[0]), Some(l.objects[o].file))
    ensures Prepared(l, o, needs) == Prepared(Relocated(l, o, needs[0]), o, needs[1..])
  {
    SearchableIgnoresCaches(l, Relocated(l, o, needs[0]), l.objects[o].file);
  }

  lemma PreparedStuck(l: Loader, o: ObjectId, needs: seq<Reloc>)
    requires o in l.objects && Searchable(l, Some(l.objects[o].file)) && needs != []
    requires Bind(l, l.objects[o].file, needs[0]).None? && !needs[0].weak
    ensures Prepared(l, o, needs) == l
  {
  }

  lemma SliceTail(needs: seq<Reloc>, i: nat)
    requires 0 < i < |needs|
    ensures needs[1..][..i - 1] == needs[1..i] && needs[1..][i - 1] == needs[i]
  {
  }

  lemma PreparedShorter(l: Loader, o: ObjectId, needs: seq<Reloc>, i: nat)
    requires o in l.objects && Searchable(l, Some(l.objects[o].file)) && 0 < i < |needs|
    requires Bind(l, l.objects[o].file, needs[0]).Some? || needs[0].weak
    requires var k := Relocated(l, o, needs[0]);
             Searchable(k, Some(l.objects[o].file)) && Prepared(k, o, needs[1..]) == Prepared(k, o, needs[1..i])
    ensures Prepared(l, o, needs) == Prepared(l, o, needs[..i])
  {
    PreparedNext(l, o, needs);
    PreparedNext(l, o, needs[..i]);
    assert needs[..i][1..] == needs[1..i];
  }

  /** A missing strong symbol ends it: the rest is not looked at. */
  lemma {:induction false} PreparedStops(l: Loader, o: ObjectId, needs: seq<Reloc>, i: nat)
    requires o in l.objects && Searchable(l, Some(l.objects[o].file)) && i < |needs|
    requires Bind(l, l.objects[o].file, needs[i]).None? && !needs[i].weak
    ensures Prepared(l, o, needs) == Prepared(l, o, needs[..i])
    decreases |needs|
  {
    var f := l.objects[o].file;
    if i == 0 {
      PreparedStuck(l, o, needs);
    } else if Bind(l, f, needs[0]).Some? || needs[0].weak {
      var k := Relocated(l, o, needs[0]);
      SearchableIgnoresCaches(l, k, f);
      BindIgnoresCaches(l, k, f, needs[i]);
      SliceTail(needs, i);
      PreparedStops(k, o, needs[1..], i - 1);
      PreparedShorter(l, o, needs, i);
    } else {
      PreparedStuck(l, o, needs);
      PreparedStuck(l, o, needs[..i]);
    }
  }

  /** Nothing but needs is bound, and no other version changes. */
  lemma {:induction false} PreparedOnly(l: Loader, o: ObjectId, needs: seq<Reloc>, o': ObjectId, r: Reloc)
    requires o in l.objects && Searchable(l, Some(l.objects[o].file)) && o' in l.objects && (o' != o || r !in needs)
    ensures var k := Prepared(l, o, needs);
            && (r in k.objects[o'].relocs <==> r in l.objects[o'].relocs)
            && (r in l.objects[o'].relocs ==> k.objects[o'].relocs[r] == l.objects[o'].relocs[r])
    decreases |needs|
  {
    var f := l.objects[o].file;
    if needs != [] && (Bind(l, f, needs[0]).Some? || needs[0].weak) {
      var k := Relocated(l, o, needs[0]);
      SearchableIgnoresCaches(l, k, f);
      PreparedOnly(k, o, needs[1..], o', r);
    }
  }
}
