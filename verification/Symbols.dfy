/** Loaded files, their versions and the symbol search of Loader::resolve_symbol
    (src/loader.cpp) and Object::has_symbol (src/object/base.cpp). */
module Symbols {
  import opened Common

  type FileId = nat
  type ObjectId = nat

  /** A symbol found in an object. */
  datatype Symbol = Symbol(owner: ObjectId, name: string, weak: bool)

  /** A relocation of an object: the symbol it needs (possibly weakly), whether it is a COPY
      relocation and whether its target lies in a writable segment. */
  datatype Reloc = Reloc(offset: nat, name: string, weak: bool, copy: bool, inData: bool)

  /** One version of a file: exported definitions (name to weak binding), dependencies and
      the cache of resolved relocations. */
  datatype Object = Object(file: FileId, defs: map<string, bool>, deps: seq<FileId>, relocs: map<Reloc, Symbol>)

  /** A file with its versions, latest first. */
  datatype File = File(ns: int, bindGlobal: bool, bindDeep: bool, updateOutdated: bool, versions: seq<ObjectId>)

  datatype Loader = Loader(lookup: seq<FileId>, files: map<FileId, File>, objects: map<ObjectId, Object>, dynamicWeak: bool)

  datatype Mode = Default | AfterObject | ExceptObject | ObjectFirst | NoDependencies

  /** The lookup list holds exactly the known files. Every file has a current version and owns its
      versions; dependencies are loaded. */
  ghost predicate Valid(l: Loader) {
    && (forall f :: f in l.lookup <==> f in l.files)
    && (forall f <- l.files :: |l.files[f].versions| > 0)
    && (forall f <- l.files :: forall o <- l.files[f].versions :: o in l.objects && l.objects[o].file == f)
    && (forall o <- l.objects :: l.objects[o].file in l.files && o in l.files[l.objects[o].file].versions)
    && (forall o <- l.objects :: forall d <- l.objects[o].deps :: d in l.lookup)
  }

  function Current(l: Loader, f: FileId): (o: ObjectId)
    requires f in l.files && |l.files[f].versions| > 0
  {
    l.files[f].versions[0]
  }

  /** Object::is_latest_version. */
  predicate Latest(l: Loader, o: ObjectId) {
    o in l.objects && l.objects[o].file in l.files &&
    |l.files[l.objects[o].file].versions| > 0 && Current(l, l.objects[o].file) == o
  }

  function Definition(l: Loader, name: string, f: FileId): (r: Option<Symbol>)
    requires f in l.files && |l.files[f].versions| > 0
  {
    var o := Current(l, f);
    if o in l.objects && name in l.objects[o].defs then Some(Symbol(o, name, l.objects[o].defs[name])) else None
  }

  predicate Strong(l: Loader, s: Symbol) {
    !s.weak || !l.dynamicWeak
  }

  // ---------------------------------------------------------------------------
  // Reference: one flat list of files, first strong match, else first weak match

  ghost predicate Known(l: Loader, fs: seq<FileId>) {
    forall f <- fs :: f in l.files && |l.files[f].versions| > 0
  }

  /** All definitions of the name along a list of files. */
  ghost function Matches(l: Loader, name: string, fs: seq<FileId>): (ms: seq<Symbol>)
    requires Known(l, fs)
  {
    if fs == [] then []
    else
      var n := |fs| - 1;
      Matches(l, name, fs[..n]) + match Definition(l, name, fs[n]) case Some(s) => [s] case None => []
  }

  ghost function FirstStrong(l: Loader, ms: seq<Symbol>): (r: Option<Symbol>) {
    if ms == [] then None
    else
      var n := |ms| - 1;
      if FirstStrong(l, ms[..n]).Some? then FirstStrong(l, ms[..n])
      else if Strong(l, ms[n]) then Some(ms[n])
      else None
  }

  ghost function Choose(l: Loader, ms: seq<Symbol>): (r: Option<Symbol>) {
    if FirstStrong(l, ms).Some? then FirstStrong(l, ms)
    else if ms != [] then Some(ms[0])
    else None
  }

  predicate Global(l: Loader, f: FileId, ns: int) {
    f in l.files && l.files[f].ns == ns && l.files[f].bindGlobal
  }

  /** The global scope of a namespace, in load order. */
  ghost function GlobalScope(l: Loader, fs: seq<FileId>, ns: int): (r: seq<FileId>)
  {
    if fs == [] then []
    else
      var n := |fs| - 1;
      GlobalScope(l, fs[..n], ns) + if Global(l, fs[n], ns) then [fs[n]] else []
  }

  ghost function Without(fs: seq<FileId>, f: FileId): (r: seq<FileId>)
  {
    if fs == [] then []
    else
      var n := |fs| - 1;
      Without(fs[..n], f) + if fs[n] == f then [] else [fs[n]]
  }

  /** What follows f in a list; nothing when f is not in it. */
  ghost function After(fs: seq<FileId>, f: FileId): (r: seq<FileId>)
  {
    if fs == [] then []
    else
      var n := |fs| - 1;
      if f in fs[..n] then After(fs[..n], f) + [fs[n]] else []
  }

  lemma {:induction false} GlobalScopeMembers(l: Loader, fs: seq<FileId>, ns: int)
    ensures forall f :: f in GlobalScope(l, fs, ns) <==> f in fs && Global(l, f, ns)
  {
    if fs != [] {
      GlobalScopeMembers(l, fs[..|fs| - 1], ns);
      assert fs == fs[..|fs| - 1] + [fs[|fs| - 1]];
    }
  }

  lemma {:induction false} WithoutMembers(fs: seq<FileId>, f: FileId)
    ensures forall g :: g in Without(fs, f) <==> g in fs && g != f
  {
    if fs != [] {
      WithoutMembers(fs[..|fs| - 1], f);
      assert fs == fs[..|fs| - 1] + [fs[|fs| - 1]];
    }
  }

  lemma {:induction false} AfterMembers(fs: seq<FileId>, f: FileId)
    ensures forall g :: g in After(fs, f) ==> g in fs
  {
    if fs != [] {
      AfterMembers(fs[..|fs| - 1], f);
      assert fs == fs[..|fs| - 1] + [fs[|fs| - 1]];
    }
  }

  /** What a search on behalf of obj needs: all files it may reach have a current version. */
  ghost predicate Searchable(l: Loader, obj: Option<FileId>) {
    && Known(l, l.lookup)
    && (obj.Some? ==>
          && obj.value in l.files
          && |l.files[obj.value].versions| > 0
          && Current(l, obj.value) in l.objects
          && forall d <- l.objects[Current(l, obj.value)].deps :: d in l.lookup)
  }

  ghost function Dependencies(l: Loader, f: FileId): (ds: seq<FileId>)
    requires Searchable(l, Some(f))
    ensures forall d <- ds :: d in l.lookup
  {
    l.objects[Current(l, f)].deps
  }

  /** The part of the global scope a mode searches, for a prefix of the lookup list. */
  ghost function GlobalPart(l: Loader, fs: seq<FileId>, ns: int, obj: Option<FileId>, mode: Mode): (r: seq<FileId>)
    requires obj.None? ==> mode.Default?
  {
    var global := GlobalScope(l, fs, ns);
    if mode == AfterObject then After(global, obj.value)
    else if mode == ExceptObject then Without(global, obj.value)
    else global
  }

  ghost function DependencyPart(ds: seq<FileId>, f: FileId, mode: Mode): (r: seq<FileId>) {
    if mode == NoDependencies then [] else if mode == ExceptObject then Without(ds, f) else ds
  }

  /** The files searched in each mode, in order: the calling object first for ObjectFirst,
      its share of the global scope, all its dependencies and, unless it came first, the
      calling object. In ExceptObject mode the excluded object is therefore searched last. */
  ghost function Scope(l: Loader, ns: int, obj: Option<FileId>, mode: Mode): (fs: seq<FileId>)
    requires Searchable(l, obj) && (obj.None? ==> mode.Default?)
  {
    var global := (if mode == ObjectFirst then [obj.value] else []) + GlobalPart(l, l.lookup, ns, obj, mode);
    if obj.None? then global
    else
      var deps := DependencyPart(Dependencies(l, obj.value), obj.value, mode);
      if mode == ObjectFirst then global + deps else global + deps + [obj.value]
  }

  lemma ScopeKnown(l: Loader, ns: int, obj: Option<FileId>, mode: Mode)
    requires Searchable(l, obj) && (obj.None? ==> mode.Default?)
    ensures Known(l, Scope(l, ns, obj, mode))
  {
    GlobalScopeMembers(l, l.lookup, ns);
    if obj.Some? {
      AfterMembers(GlobalScope(l, l.lookup, ns), obj.value);
      WithoutMembers(GlobalScope(l, l.lookup, ns), obj.value);
      WithoutMembers(Dependencies(l, obj.value), obj.value);
    }
  }

  /** Search result of the reference. */
  ghost function Resolve(l: Loader, name: string, ns: int, obj: Option<FileId>, mode: Mode): (r: Option<Symbol>)
    requires Searchable(l, obj) && (obj.None? ==> mode.Default?)
  {
    ScopeKnown(l, ns, obj, mode);
    Choose(l, Matches(l, name, Scope(l, ns, obj, mode)))
  }

  // ---------------------------------------------------------------------------
  // Lemmas on the reference

  lemma {:induction false} MatchesConcat(l: Loader, name: string, fs: seq<FileId>, gs: seq<FileId>)
    requires Known(l, fs) && Known(l, gs)
    ensures Known(l, fs + gs) && Matches(l, name, fs + gs) == Matches(l, name, fs) + Matches(l, name, gs)
  {
    if gs == [] {
      assert fs + gs == fs;
    } else {
      assert (fs + gs)[..|fs + gs| - 1] == fs + gs[..|gs| - 1];
      MatchesConcat(l, name, fs, gs[..|gs| - 1]);
    }
  }

  lemma {:induction false} FirstStrongConcat(l: Loader, ms: seq<Symbol>, ns: seq<Symbol>)
    ensures FirstStrong(l, ms + ns) == if FirstStrong(l, ms).Some? then FirstStrong(l, ms) else FirstStrong(l, ns)
  {
    if ns == [] {
      assert ms + ns == ms;
    } else {
      assert (ms + ns)[..|ms + ns| - 1] == ms + ns[..|ns| - 1];
      FirstStrongConcat(l, ms, ns[..|ns| - 1]);
    }
  }

  /** Every match comes from the current version of a searched file that defines the name. */
  lemma {:induction false} MatchesSound(l: Loader, name: string, fs: seq<FileId>, s: Symbol)
    requires Known(l, fs) && s in Matches(l, name, fs)
    ensures exists f :: f in fs && Definition(l, name, f) == Some(s)
  {
    var n := |fs| - 1;
    if Definition(l, name, fs[n]) == Some(s) {
      assert fs[n] in fs;
    } else {
      MatchesSound(l, name, fs[..n], s);
      var f :| f in fs[..n] && Definition(l, name, f) == Some(s);
      assert f in fs;
    }
  }

  lemma {:induction false} MatchesComplete(l: Loader, name: string, fs: seq<FileId>, f: FileId)
    requires Known(l, fs) && f in fs && Definition(l, name, f).Some?
    ensures Definition(l, name, f).value in Matches(l, name, fs)
  {
    var n := |fs| - 1;
    if f != fs[n] {
      MatchesComplete(l, name, fs[..n], f);
    }
  }

  lemma {:induction false} FirstStrongIn(l: Loader, ms: seq<Symbol>)
    ensures FirstStrong(l, ms).Some? ==> FirstStrong(l, ms).value in ms && Strong(l, FirstStrong(l, ms).value)
    ensures FirstStrong(l, ms).None? ==> forall s <- ms :: !Strong(l, s)
  {
    if ms != [] {
      FirstStrongIn(l, ms[..|ms| - 1]);
      assert ms == ms[..|ms| - 1] + [ms[|ms| - 1]];
    }
  }

  /** A search succeeds exactly when some file of the scope defines the name, and then
      yields a definition of the current version of such a file. */
  lemma ResolveFinds(l: Loader, name: string, ns: int, obj: Option<FileId>, mode: Mode)
    requires Searchable(l, obj) && (obj.None? ==> mode.Default?)
    ensures var r := Resolve(l, name, ns, obj, mode);
            && Known(l, Scope(l, ns, obj, mode))
            && (r.Some? <==> exists f :: f in Scope(l, ns, obj, mode) && Definition(l, name, f).Some?)
            && (r.Some? ==> exists f :: f in Scope(l, ns, obj, mode) && Definition(l, name, f) == r)
  {
    var fs := Scope(l, ns, obj, mode);
    ScopeKnown(l, ns, obj, mode);
    var ms := Matches(l, name, fs);
    FirstStrongIn(l, ms);
    var r := Resolve(l, name, ns, obj, mode);
    if r.Some? {
      MatchesSound(l, name, fs, r.value);
    }
    if f :| f in fs && Definition(l, name, f).Some? {
      MatchesComplete(l, name, fs, f);
    }
  }

  /** Without dynamic_weak the first definition along a list of files wins. */
  lemma FirstMatchWins(l: Loader, name: string, fs: seq<FileId>, k: nat)
    requires !l.dynamicWeak && Known(l, fs)
    requires k < |fs| && Definition(l, name, fs[k]).Some? && forall i :: 0 <= i < k ==> Definition(l, name, fs[i]).None?
    ensures Choose(l, Matches(l, name, fs)) == Definition(l, name, fs[k])
  {
    NoMatches(l, name, fs[..k]);
    MatchesStep(l, name, fs[..k], fs[k]);
    var s := Definition(l, name, fs[k]);
    assert FirstStrong(l, [s.value]) == s;
    assert fs == fs[..k] + [fs[k]] + fs[k + 1..];
    FinishedEarly(l, name, fs[..k] + [fs[k]], fs[k + 1..], s);
  }

  lemma {:induction false} NoMatches(l: Loader, name: string, fs: seq<FileId>)
    requires Known(l, fs) && forall i :: 0 <= i < |fs| ==> Definition(l, name, fs[i]).None?
    ensures Matches(l, name, fs) == []
  {
    if fs != [] {
      NoMatches(l, name, fs[..|fs| - 1]);
    }
  }

  // ---------------------------------------------------------------------------
  // The search itself

  /** The state of a search that has gone through `seen` without a strong match. */
  ghost predicate Searching(l: Loader, name: string, seen: seq<FileId>, best: Option<Symbol>) {
    && Known(l, seen)
    && FirstStrong(l, Matches(l, name, seen)).None?
    && best == Choose(l, Matches(l, name, seen))
  }

  /** The search stopped at the end of `seen` with a strong match. */
  ghost predicate Finished(l: Loader, name: string, seen: seq<FileId>, best: Option<Symbol>) {
    && Known(l, seen)
    && best.Some?
    && FirstStrong(l, Matches(l, name, seen)) == best
  }

  lemma MatchesStep(l: Loader, name: string, fs: seq<FileId>, f: FileId)
    requires Known(l, fs) && f in l.files && |l.files[f].versions| > 0
    ensures Known(l, fs + [f])
    ensures Matches(l, name, fs + [f]) == Matches(l, name, fs) + match Definition(l, name, f) case Some(s) => [s] case None => []
    ensures Definition(l, name, f).None? ==> Matches(l, name, fs + [f]) == Matches(l, name, fs)
  {
    assert (fs + [f])[..|fs|] == fs;
  }

  lemma FinishedEarly(l: Loader, name: string, seen: seq<FileId>, rest: seq<FileId>, best: Option<Symbol>)
    requires Finished(l, name, seen, best) && Known(l, rest)
    ensures Choose(l, Matches(l, name, seen + rest)) == best
  {
    MatchesConcat(l, name, seen, rest);
    FirstStrongConcat(l, Matches(l, name, seen), Matches(l, name, rest));
  }

  lemma FinishedPrefix(l: Loader, name: string, seen: seq<FileId>, all: seq<FileId>, best: Option<Symbol>)
    requires Finished(l, name, seen, best) && Known(l, all) && seen <= all
    ensures Finished(l, name, all, best)
  {
    assert all == seen + all[|seen|..];
    MatchesConcat(l, name, seen, all[|seen|..]);
    FirstStrongConcat(l, Matches(l, name, seen), Matches(l, name, all[|seen|..]));
  }

  /** A file that was already searched can be skipped. */
  lemma SkipSeen(l: Loader, name: string, seen: seq<FileId>, f: FileId, best: Option<Symbol>)
    requires Searching(l, name, seen, best) && f in seen
    ensures Searching(l, name, seen + [f], best)
  {
    MatchesStep(l, name, seen, f);
    FirstStrongIn(l, Matches(l, name, seen));
    if Definition(l, name, f).Some? {
      MatchesComplete(l, name, seen, f);
      FirstStrongConcat(l, Matches(l, name, seen), [Definition(l, name, f).value]);
    }
  }

  /** Object::has_symbol on the current version of f. */
  method HasSymbol(l: Loader, name: string, f: FileId, best: Option<Symbol>, ghost seen: seq<FileId>)
    returns (found: bool, result: Option<Symbol>)
    requires Searching(l, name, seen, best) && f in l.files && |l.files[f].versions| > 0
    ensures found ==> Finished(l, name, seen + [f], result)
    ensures !found ==> Searching(l, name, seen + [f], result)
  {
    MatchesStep(l, name, seen, f);
    var tmp := Definition(l, name, f);
    if tmp.Some? {
      var strong := Strong(l, tmp.value);
      ghost var ms := Matches(l, name, seen);
      assert (ms + [tmp.value])[..|ms|] == ms;
      if strong || best.None? {
        return strong, tmp;
      }
    }
    return false, best;
  }

  /** One more file of the lookup list extends the searched part by at most that file. */
  lemma GlobalPartStep(l: Loader, fs: seq<FileId>, g: FileId, ns: int, obj: Option<FileId>, mode: Mode)
    requires obj.None? ==> mode.Default?
    ensures GlobalPart(l, fs + [g], ns, obj, mode) == GlobalPart(l, fs, ns, obj, mode) +
              if Global(l, g, ns) && (mode == AfterObject ==> obj.value in GlobalScope(l, fs, ns))
                 && (mode == ExceptObject ==> obj.value != g) then [g] else []
    ensures obj.Some? ==> (obj.value in GlobalScope(l, fs + [g], ns) <==>
              obj.value in GlobalScope(l, fs, ns) || (Global(l, g, ns) && obj.value == g))
  {
    assert (fs + [g])[..|fs|] == fs;
    if Global(l, g, ns) {
      var gs := GlobalScope(l, fs, ns);
      assert GlobalScope(l, fs + [g], ns) == gs + [g];
      assert (gs + [g])[..|gs|] == gs;
      if mode == AfterObject && obj.value !in gs {
        AfterNothing(gs, obj.value);
      }
    } else {
      assert GlobalScope(l, fs + [g], ns) == GlobalScope(l, fs, ns);
    }
  }

  lemma TakeNext<T>(s: seq<T>, i: nat)
    requires i < |s|
    ensures s[..i + 1] == s[..i] + [s[i]]
  {
  }

  lemma ConcatNext<T>(s: seq<T>, t: seq<T>, x: T)
    ensures s + (t + [x]) == (s + t) + [x]
    ensures s + (t + []) == s + t
  {
    assert t + [] == t;
  }

  lemma ConcatPrefix<T>(s: seq<T>, t: seq<T>, u: seq<T>)
    requires t <= u
    ensures s + t <= s + u
  {
  }

  lemma AfterNothing(fs: seq<FileId>, f: FileId)
    requires f !in fs
    ensures After(fs, f) == []
  {
  }

  lemma {:induction false} GlobalPartPrefix(l: Loader, fs: seq<FileId>, i: nat, ns: int, obj: Option<FileId>, mode: Mode)
    requires i <= |fs| && (obj.None? ==> mode.Default?)
    ensures GlobalPart(l, fs[..i], ns, obj, mode) <= GlobalPart(l, fs, ns, obj, mode)
    decreases |fs| - i
  {
    if i < |fs| {
      GlobalPartPrefix(l, fs, i + 1, ns, obj, mode);
      assert fs[..i + 1] == fs[..i] + [fs[i]];
      GlobalPartStep(l, fs[..i], fs[i], ns, obj, mode);
    } else {
      assert fs[..i] == fs;
    }
  }

  lemma DependencyPartStep(ds: seq<FileId>, d: FileId, f: FileId, mode: Mode)
    ensures DependencyPart(ds + [d], f, mode) == DependencyPart(ds, f, mode) +
              if mode == NoDependencies || (mode == ExceptObject && d == f) then [] else [d]
  {
    assert (ds + [d])[..|ds|] == ds;
  }

  lemma {:induction false} DependencyPartPrefix(ds: seq<FileId>, i: nat, f: FileId, mode: Mode)
    requires i <= |ds|
    ensures DependencyPart(ds[..i], f, mode) <= DependencyPart(ds, f, mode)
    decreases |ds| - i
  {
    if i < |ds| {
      DependencyPartPrefix(ds, i + 1, f, mode);
      assert ds[..i + 1] == ds[..i] + [ds[i]];
      DependencyPartStep(ds[..i], ds[i], f, mode);
    } else {
      assert ds[..i] == ds;
    }
  }

  lemma SeenInGlobalPart(l: Loader, d: FileId, ns: int, f: FileId, mode: Mode, first: seq<FileId>)
    requires d in l.lookup && Global(l, d, ns) && mode != AfterObject && (mode == ExceptObject ==> d != f)
    ensures d in first + GlobalPart(l, l.lookup, ns, Some(f), mode)
  {
    GlobalScopeMembers(l, l.lookup, ns);
    WithoutMembers(GlobalScope(l, l.lookup, ns), f);
  }

  lemma GlobalPartKnown(l: Loader, ns: int, obj: Option<FileId>, mode: Mode)
    requires Known(l, l.lookup) && (obj.None? ==> mode.Default?)
    ensures Known(l, GlobalPart(l, l.lookup, ns, obj, mode))
  {
    GlobalScopeMembers(l, l.lookup, ns);
    if obj.Some? {
      AfterMembers(GlobalScope(l, l.lookup, ns), obj.value);
      WithoutMembers(GlobalScope(l, l.lookup, ns), obj.value);
    }
  }

  lemma FinishedInGlobal(l: Loader, name: string, ns: int, obj: Option<FileId>, mode: Mode, best: Option<Symbol>,
                         first: seq<FileId>, i: nat)
    requires Known(l, l.lookup) && (obj.None? ==> mode.Default?) && i <= |l.lookup| && Known(l, first)
    requires Finished(l, name, first + GlobalPart(l, l.lookup[..i], ns, obj, mode), best)
    ensures Finished(l, name, first + GlobalPart(l, l.lookup, ns, obj, mode), best)
  {
    GlobalPartPrefix(l, l.lookup, i, ns, obj, mode);
    GlobalPartKnown(l, ns, obj, mode);
    ConcatPrefix(first, GlobalPart(l, l.lookup[..i], ns, obj, mode), GlobalPart(l, l.lookup, ns, obj, mode));
    FinishedPrefix(l, name, first + GlobalPart(l, l.lookup[..i], ns, obj, mode),
                   first + GlobalPart(l, l.lookup, ns, obj, mode), best);
  }

  lemma FinishedInDependencies(l: Loader, name: string, f: FileId, mode: Mode, best: Option<Symbol>,
                               seen: seq<FileId>, ds: seq<FileId>, i: nat)
    requires Known(l, ds) && i <= |ds| && Known(l, seen)
    requires Finished(l, name, seen + DependencyPart(ds[..i], f, mode), best)
    ensures Finished(l, name, seen + DependencyPart(ds, f, mode), best)
  {
    DependencyPartPrefix(ds, i, f, mode);
    WithoutMembers(ds, f);
    ConcatPrefix(seen, DependencyPart(ds[..i], f, mode), DependencyPart(ds, f, mode));
    FinishedPrefix(l, name, seen + DependencyPart(ds[..i], f, mode), seen + DependencyPart(ds, f, mode), best);
  }

  /** One file of the lookup list. */
  method SearchGlobalFile(l: Loader, name: string, ns: int, obj: Option<FileId>, mode: Mode, g: FileId, after0: bool,
                          best0: Option<Symbol>, ghost seen: seq<FileId>)
    returns (found: bool, best: Option<Symbol>, after: bool)
    requires g in l.files && |l.files[g].versions| > 0 && Searching(l, name, seen, best0)
    ensures after == (after0 && !(Global(l, g, ns) && obj == Some(g)))
    ensures var skipped := !Global(l, g, ns) || after0 || (mode == ExceptObject && obj == Some(g));
            && (skipped ==> !found && best == best0)
            && (!skipped && found ==> Finished(l, name, seen + [g], best))
            && (!skipped && !found ==> Searching(l, name, seen + [g], best))
  {
    found, best, after := false, best0, after0;
    // other namespaces and files that are not global do not take part
    if Global(l, g, ns) {
      // everything up to and including the object comes too early
      if after {
        if obj == Some(g) {
          after := false;
        }
      } else if mode != ExceptObject || obj != Some(g) {
        found, best := HasSymbol(l, name, g, best, seen);
      }
    }
  }

  /** The global search has gone through fs without a strong match. */
  ghost predicate GlobalSearched(l: Loader, name: string, ns: int, obj: Option<FileId>, mode: Mode,
                                 first: seq<FileId>, fs: seq<FileId>, after: bool, best: Option<Symbol>)
    requires obj.None? ==> mode.Default?
  {
    && Searching(l, name, first + GlobalPart(l, fs, ns, obj, mode), best)
    && after == (mode == AfterObject && obj.value !in GlobalScope(l, fs, ns))
  }

  lemma GlobalFileSearched(l: Loader, name: string, ns: int, obj: Option<FileId>, mode: Mode, first: seq<FileId>, i: nat,
                           after: bool, best: Option<Symbol>, found: bool, best': Option<Symbol>)
    requires Known(l, l.lookup) && (obj.None? ==> mode.Default?) && i < |l.lookup| && Known(l, first)
    requires GlobalSearched(l, name, ns, obj, mode, first, l.lookup[..i], after, best)
    requires var g := l.lookup[i];
             var seen := first + GlobalPart(l, l.lookup[..i], ns, obj, mode);
             var skipped := !Global(l, g, ns) || after || (mode == ExceptObject && obj == Some(g));
             && (skipped ==> !found && best' == best)
             && (!skipped && found ==> Finished(l, name, seen + [g], best'))
             && (!skipped && !found ==> Searching(l, name, seen + [g], best'))
    ensures found ==> Finished(l, name, first + GlobalPart(l, l.lookup, ns, obj, mode), best')
    ensures !found ==> GlobalSearched(l, name, ns, obj, mode, first, l.lookup[..i + 1],
                                      after && !(Global(l, l.lookup[i], ns) && obj == Some(l.lookup[i])), best')
  {
    TakeNext(l.lookup, i);
    GlobalPartStep(l, l.lookup[..i], l.lookup[i], ns, obj, mode);
    ConcatNext(first, GlobalPart(l, l.lookup[..i], ns, obj, mode), l.lookup[i]);
    if found {
      FinishedInGlobal(l, name, ns, obj, mode, best', first, i + 1);
    }
  }

  /** The loop over the lookup list. */
  method SearchGlobal(l: Loader, name: string, ns: int, obj: Option<FileId>, mode: Mode, best0: Option<Symbol>, ghost first: seq<FileId>)
    returns (found: bool, best: Option<Symbol>)
    requires Known(l, l.lookup) && (obj.None? ==> mode.Default?)
    requires Searching(l, name, first, best0)
    ensures found ==> Finished(l, name, first + GlobalPart(l, l.lookup, ns, obj, mode), best)
    ensures !found ==> Searching(l, name, first + GlobalPart(l, l.lookup, ns, obj, mode), best)
  {
    best := best0;
    var after := mode == AfterObject;
    assert first + [] == first;
    for i := 0 to |l.lookup|
      invariant GlobalSearched(l, name, ns, obj, mode, first, l.lookup[..i], after, best)
    {
      ghost var seen := first + GlobalPart(l, l.lookup[..i], ns, obj, mode);
      ghost var best1, after1 := best, after;
      found, best, after := SearchGlobalFile(l, name, ns, obj, mode, l.lookup[i], after, best, seen);
      GlobalFileSearched(l, name, ns, obj, mode, first, i, after1, best1, found, best);
      if found {
        return;
      }
    }
    assert l.lookup[..|l.lookup|] == l.lookup;
    found := false;
  }

  /** One dependency: skipped when it is part of the global scope. */
  method SearchDependency(l: Loader, name: string, ns: int, f: FileId, mode: Mode, d: FileId, best0: Option<Symbol>,
                          ghost first: seq<FileId>, ghost seen: seq<FileId>)
    returns (found: bool, best: Option<Symbol>)
    requires Known(l, l.lookup) && d in l.lookup && mode != NoDependencies
    requires first + GlobalPart(l, l.lookup, ns, Some(f), mode) <= seen && Searching(l, name, seen, best0)
    ensures mode == ExceptObject && d == f ==> !found && best == best0
    ensures !(mode == ExceptObject && d == f) && found ==> Finished(l, name, seen + [d], best)
    ensures !(mode == ExceptObject && d == f) && !found ==> Searching(l, name, seen + [d], best)
  {
    found, best := false, best0;
    if mode != AfterObject && Global(l, d, ns) {
      // searched above, with the global files
      if mode != ExceptObject || d != f {
        SeenInGlobalPart(l, d, ns, f, mode, first);
        SkipSeen(l, name, seen, d, best);
      }
    } else if mode != ExceptObject || f != d {
      found, best := HasSymbol(l, name, d, best, seen);
    }
  }

  lemma NothingSearched(seen: seq<FileId>, ds: seq<FileId>, f: FileId, mode: Mode)
    ensures seen + DependencyPart(ds[..0], f, mode) == seen
  {
  }

  lemma TakeAll<T>(ds: seq<T>)
    ensures ds[..|ds|] == ds
  {
  }

  /** What one more dependency adds to the part searched. */
  lemma DependencySearched(seen: seq<FileId>, ds: seq<FileId>, i: nat, f: FileId, mode: Mode)
    requires i < |ds| && mode != NoDependencies
    ensures var now := seen + DependencyPart(ds[..i], f, mode);
            seen + DependencyPart(ds[..i + 1], f, mode) == if mode == ExceptObject && ds[i] == f then now else now + [ds[i]]
  {
    TakeNext(ds, i);
    DependencyPartStep(ds[..i], ds[i], f, mode);
    ConcatNext(seen, DependencyPart(ds[..i], f, mode), ds[i]);
  }

  /** The loop over the dependencies. */
  method SearchDependencies(l: Loader, name: string, ns: int, f: FileId, mode: Mode, ds: seq<FileId>, best0: Option<Symbol>,
                            ghost first: seq<FileId>, ghost seen: seq<FileId>)
    returns (found: bool, best: Option<Symbol>)
    requires Known(l, l.lookup) && (forall d <- ds :: d in l.lookup) && mode != NoDependencies
    requires seen == first + GlobalPart(l, l.lookup, ns, Some(f), mode) && Searching(l, name, seen, best0)
    ensures found ==> Finished(l, name, seen + DependencyPart(ds, f, mode), best)
    ensures !found ==> Searching(l, name, seen + DependencyPart(ds, f, mode), best)
  {
    best := best0;
    ghost var now := seen;
    NothingSearched(seen, ds, f, mode);
    for i := 0 to |ds|
      invariant now == seen + DependencyPart(ds[..i], f, mode) && Searching(l, name, now, best)
    {
      DependencySearched(seen, ds, i, f, mode);
      found, best := SearchDependency(l, name, ns, f, mode, ds[i], best, first, now);
      now := seen + DependencyPart(ds[..i + 1], f, mode);
      if found {
        FinishedInDependencies(l, name, f, mode, best, seen, ds, i + 1);
        return;
      }
    }
    TakeAll(ds);
    found := false;
  }

  /** Loader::resolve_symbol. */
  method ResolveSymbol(l: Loader, name: string, ns: int, obj: Option<FileId>, mode: Mode) returns (best: Option<Symbol>)
    requires Searchable(l, obj) && (obj.None? ==> mode.Default?)
    ensures best == Resolve(l, name, ns, obj, mode)
  {
    ghost var scope := Scope(l, ns, obj, mode);
    ScopeKnown(l, ns, obj, mode);
    best := None;
    var found := false;
    ghost var seen: seq<FileId> := [];

    // the object itself first, if it prefers its own symbols
    if mode == ObjectFirst {
      found, best := HasSymbol(l, name, obj.value, best, seen);
      seen := [obj.value];
      if found {
        FinishedPrefix(l, name, seen, scope, best);
        return;
      }
    }

    // the global files of the namespace
    ghost var first := seen;
    found, best := SearchGlobal(l, name, ns, obj, mode, best, first);
    seen := first + GlobalPart(l, l.lookup, ns, obj, mode);
    if found {
      FinishedPrefix(l, name, seen, scope, best);
      return;
    }

    if obj.Some? {
      // its dependencies
      if mode != NoDependencies {
        var ds := l.objects[Current(l, obj.value)].deps;
        found, best := SearchDependencies(l, name, ns, obj.value, mode, ds, best, first, seen);
        seen := seen + DependencyPart(ds, obj.value, mode);
        if found {
          FinishedPrefix(l, name, seen, scope, best);
          return;
        }
      } else {
        assert seen + [] == seen;
      }
      // the object itself last, unless it was the first
      if mode != ObjectFirst {
        found, best := HasSymbol(l, name, obj.value, best, seen);
      }
    }
  }
}
