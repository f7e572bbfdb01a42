/**
 * Shared data segments of updatable files (src/object/executable.cpp, src/memory_segment.cpp) and
 * their duplication by fork (src/comp/glibc/fork.cpp).
 *
 * A writable segment of an updatable file lives in a memory file; every later version of the file
 * maps that same memory file at the segment of the same index. Memory files are numbered, and a
 * number stands for the descriptor. All other segments are private. On fork, the child gets a copy of
 * each memory file and maps the segments with a descriptor anew.
 */
module DataAlias {
  import opened Common

  /** No descriptor. */
  const NONE := -1

  type Files = map<int, seq<Byte>>

  /** A segment of `pages` bytes (whole pages) that holds `image` from `start` on: copied into zeroed pages, or as
      part of the pages that are mapped straight from the file. `fd` is the descriptor of its memory file, if it has
      one, and `own` what it holds while it is private; without that it shows its memory file. */
  datatype Segment = Segment(pages: nat, writable: bool, start: nat, image: seq<Byte>, direct: Option<seq<Byte>>,
                             fd: int, own: Option<seq<Byte>>) {
    predicate Fits() {
      && start + |image| <= pages
      && (direct.Some? ==> !writable && |direct.value| == pages && direct.value[start..start + |image|] == image)
    }

    predicate Shared() { own.None? }
  }

  /** A loaded version of the file with this identity. */
  datatype Version = Version(file: nat, segments: seq<Segment>)

  /** The segment of that version and index; versions are listed newest first. */
  function At(vs: seq<Version>, v: nat, m: nat): (r: Segment)
    requires v < |vs| && m < |vs[v].segments|
  {
    vs[v].segments[m]
  }

  ghost predicate Has(vs: seq<Version>, v: int, m: int) {
    0 <= v < |vs| && 0 <= m < |vs[v].segments|
  }

  /** A segment with a descriptor. */
  ghost predicate Backed(vs: seq<Version>, v: int, m: int) {
    Has(vs, v, m) && At(vs, v, m).fd != NONE
  }

  /** Versions of one file have the same number of segments, and a descriptor is never lost
      by a newer version. */
  ghost predicate Inheriting(vs: seq<Version>) {
    && (forall v, w :: 0 <= v < w < |vs| && vs[v].file == vs[w].file ==> |vs[v].segments| == |vs[w].segments|)
    && (forall v, w, m :: 0 <= v < w < |vs| && vs[v].file == vs[w].file && Backed(vs, w, m) ==> Backed(vs, v, m))
  }

  /** Two segments have the same memory file exactly when they have the same index in versions
      of the same file. */
  ghost predicate Separated(vs: seq<Version>) {
    forall v, w, m, n :: Backed(vs, v, m) && Backed(vs, w, n) ==>
      (At(vs, v, m).fd == At(vs, w, n).fd <==> vs[v].file == vs[w].file && m == n)
  }

  /** A segment shows an existing memory file, and only if it is writable, or has its own pages. */
  ghost predicate Held(files: Files, g: Segment) {
    && g.Fits() && (g.fd != NONE ==> g.fd in files)
    && (if g.Shared() then g.writable && g.fd != NONE else |g.own.value| == g.pages)
  }

  ghost predicate Mapped(files: Files, vs: seq<Version>) {
    && NONE !in files
    && (forall v, m :: Has(vs, v, m) ==> Held(files, At(vs, v, m)))
  }

  ghost predicate Aliased(files: Files, vs: seq<Version>) {
    Inheriting(vs) && Separated(vs) && Mapped(files, vs)
  }

  /** The flags of the files: one with memory files was loaded as updatable, and loses that only when dlopen
      takes it away for good; its writable segments are shared unless it did. */
  ghost predicate Flagged(vs: seq<Version>, updatable: set<nat>, dlupdate: bool) {
    forall v, m :: Backed(vs, v, m) ==> FlaggedAt(vs, updatable, dlupdate, v, m)
  }

  ghost predicate FlaggedAt(vs: seq<Version>, updatable: set<nat>, dlupdate: bool, v: nat, m: nat)
    requires Has(vs, v, m)
  {
    && (vs[v].file !in updatable ==> !dlupdate)
    && (vs[v].file in updatable && At(vs, v, m).writable ==> At(vs, v, m).Shared())
  }

  /** The first bytes, as far as there are that many. */
  function Clip(bytes: seq<Byte>, n: nat): (r: seq<Byte>)
    ensures r <= bytes && |r| == Min(n, |bytes|)
  {
    if n <= |bytes| then bytes[..n] else bytes
  }

  /** What is visible through a segment: a shared mapping ends where its memory file ends. */
  function Visible(files: Files, g: Segment): (r: seq<Byte>)
    requires g.Shared() ==> g.fd in files
  {
    if g.Shared() then Clip(files[g.fd], g.pages) else g.own.value
  }

  function Stored(bytes: seq<Byte>, offset: nat, b: Byte): (r: seq<Byte>)
    requires offset < |bytes|
    ensures |r| == |bytes| && r[offset] == b && forall i :: 0 <= i < |r| && i != offset ==> r[i] == bytes[i]
  {
    bytes[..offset] + [b] + bytes[offset + 1..]
  }

  /** The index of the newest version of a file among those from `k` on. */
  function First(vs: seq<Version>, file: nat, k: nat): (r: nat)
    requires exists v :: k <= v < |vs| && vs[v].file == file
    ensures k <= r < |vs| && vs[r].file == file
    ensures forall v :: k <= v < r ==> vs[v].file != file
    decreases |vs| - k
  {
    if vs[k].file == file then k else First(vs, file, k + 1)
  }

  function Newest(vs: seq<Version>, v: nat): (r: nat)
    requires v < |vs|
    ensures r <= v && vs[r].file == vs[v].file
    ensures forall w :: 0 <= w < r ==> vs[w].file != vs[v].file
  {
    First(vs, vs[v].file, 0)
  }

  // ---------------------------------------------------------------------------
  // Loading a version

  /** What a segment holds when it is first mapped: zeros with the image copied into them, or pages of the file. */
  function Initial(g: Segment): (r: seq<Byte>)
    requires g.Fits()
    ensures |r| == g.pages && r[g.start..g.start + |g.image|] == g.image && (g.direct.Some? ==> r == g.direct.value)
    ensures g.direct.None? ==> forall i :: 0 <= i < g.pages && !(g.start <= i < g.start + |g.image|) ==> r[i] == 0
  {
    if g.direct.Some? then g.direct.value
    else seq(g.start, _ => 0) + g.image + seq(g.pages - g.start - |g.image|, _ => 0)
  }

  ghost predicate AllFit(segs: seq<Segment>) {
    forall m :: 0 <= m < |segs| ==> segs[m].Fits()
  }

  /** The descriptor a new segment gets from its predecessor. */
  ghost predicate Inherits(prev: seq<Segment>, segs: seq<Segment>, now: seq<Segment>) {
    && |now| == |segs| == |prev|
    && (forall m :: 0 <= m < |segs| ==> now[m] == segs[m].(fd := if prev[m].fd != NONE then prev[m].fd else segs[m].fd))
  }

  /** A segment after MemorySegment::map: shared if it is writable and its file is updatable, with a new memory file
      if it has none; else private, as its file has it. */
  ghost predicate MappedTo(files: Files, g: Segment, alias: bool, files': Files, g': Segment)
    requires g.Fits()
  {
    if !(g.writable && alias) then g' == g.(own := Some(Initial(g)))
    else if g.fd != NONE then g' == g.(own := None)
    else g' == g.(fd := g'.fd, own := None) && g'.fd !in files && g'.fd in files' && g'.fd != NONE && files'[g'.fd] == Initial(g)
  }

  /** The first `k` segments are mapped; new memory files are different ones. */
  ghost predicate MapsTo(files: Files, segs: seq<Segment>, alias: bool, files': Files, segs': seq<Segment>, k: nat)
    requires AllFit(segs)
  {
    && |segs'| == |segs| && NONE !in files'
    && (forall f :: f in files ==> f in files' && files'[f] == files[f])
    && (forall m :: 0 <= m < |segs| && m >= k ==> segs'[m] == segs[m])
    && (forall m :: 0 <= m < |segs| && m < k ==> MappedTo(files, segs[m], alias, files', segs'[m]))
    && (forall m, n :: 0 <= m < n < |segs| && n < k && segs'[m].fd !in files && segs'[n].fd !in files && segs'[m].fd != NONE ==>
          segs'[m].fd != segs'[n].fd)
  }

  /** Some number is unused by finitely many files. */
  lemma {:induction false} UnusedNumber(s: set<int>) returns (n: nat)
    ensures forall f :: f in s ==> f < n
  {
    if f: int :| f in s {
      n := UnusedNumber(s - {f});
      if n <= f {
        n := f + 1;
      }
      forall g | g in s ensures g < n {
        assert g == f || g in s - {f};
      }
    } else {
      n := 0;
    }
  }

  /** Copies the descriptors of the previous version; refuses when the number of segments differs. */
  method InheritDescriptors(prev: seq<Segment>, segs: seq<Segment>) returns (ok: bool, now: seq<Segment>)
    ensures ok <==> |prev| == |segs|
    ensures ok ==> Inherits(prev, segs, now)
    ensures !ok ==> now == segs
  {
    now := segs;
    if |segs| != |prev| {
      return false, now;
    }
    for m := 0 to |segs|
      invariant |now| == |segs|
      invariant forall j :: m <= j < |segs| ==> now[j] == segs[j]
      invariant forall j :: 0 <= j < m ==> now[j] == segs[j].(fd := if prev[j].fd != NONE then prev[j].fd else segs[j].fd)
    {
      if prev[m].fd != NONE {
        now := now[m := now[m].(fd := prev[m].fd)];
      }
    }
    ok := true;
  }

  /** The segments that a new version of `file` starts from: those given, with inherited descriptors. */
  ghost predicate Prepared(vs: seq<Version>, file: nat, segs: seq<Segment>, now: seq<Segment>) {
    if Known(vs, file) then Inherits(vs[First(vs, file, 0)].segments, segs, now) else now == segs
  }

  predicate Known(vs: seq<Version>, file: nat) {
    exists v :: 0 <= v < |vs| && vs[v].file == file
  }

  /** Segments as parsed from the file, not mapped yet. */
  ghost predicate Parsed(segs: seq<Segment>) {
    forall m :: 0 <= m < |segs| ==> segs[m].Fits() && segs[m].fd == NONE
  }

  lemma PreparedFits(vs: seq<Version>, file: nat, segs: seq<Segment>, now: seq<Segment>)
    requires Parsed(segs) && Prepared(vs, file, segs, now)
    ensures AllFit(now)
  {
    assert |now| == |segs|;
    forall m | 0 <= m < |now| ensures now[m].Fits() {
      assert segs[m].Fits();
    }
  }

  lemma PreparedBacked(files: Files, vs: seq<Version>, file: nat, segs: seq<Segment>, now: seq<Segment>)
    requires Aliased(files, vs) && Parsed(segs) && Prepared(vs, file, segs, now)
    ensures forall m :: 0 <= m < |now| && now[m].fd != NONE ==> now[m].fd in files
  {
    forall m | 0 <= m < |now| && now[m].fd != NONE ensures now[m].fd in files {
      assert segs[m].fd == NONE;
      assert Backed(vs, First(vs, file, 0), m);
    }
  }

  /** A segment of a prepared and mapped version has the memory file of the newest older version at that index, or
      one of its own if it is shared. */
  lemma BackedHow(files: Files, vs: seq<Version>, file: nat, segs: seq<Segment>, alias: bool, now: seq<Segment>,
                  files': Files, segs': seq<Segment>, m: nat)
    requires Aliased(files, vs) && Parsed(segs) && Prepared(vs, file, segs, now)
    requires AllFit(now)
    requires MapsTo(files, now, alias, files', segs', |now|) && m < |segs'|
    ensures |segs'| == |segs| && LoadedFrom(files, vs, file, segs[m], alias, files', segs'[m], m)
  {
    assert segs[m].fd == NONE;
    assert MappedTo(files, now[m], alias, files', segs'[m]);
    if Known(vs, file) && Backed(vs, First(vs, file, 0), m) {
      var w := First(vs, file, 0);
      assert Has(vs, w, m) && Held(files, At(vs, w, m));
      assert now[m] == segs[m].(fd := At(vs, w, m).fd);
    } else {
      if Known(vs, file) {
        assert vs[First(vs, file, 0)].segments[m] == At(vs, First(vs, file, 0), m);
        assert Has(vs, First(vs, file, 0), m);
      }
      assert now[m] == segs[m];
    }
  }

  /** Where segment `m` of a newly loaded version lives. */
  ghost predicate LoadedFrom(files: Files, vs: seq<Version>, file: nat, g: Segment, alias: bool, files': Files, g': Segment, m: nat) {
    && g.Fits() && g' == g.(fd := g'.fd, own := if g.writable && alias then None else Some(Initial(g)))
    && (g'.fd != NONE ==> g'.fd in files')
    && (g.writable && alias ==> g'.fd != NONE)
    && (if Known(vs, file) && Backed(vs, First(vs, file, 0), m) then g'.fd == At(vs, First(vs, file, 0), m).fd
        else if g.writable && alias then g'.fd !in files && g'.fd in files' && files'[g'.fd] == Initial(g)
        else g'.fd == NONE)
  }

  /** Facts about the segments of a list with one version put in front. */
  lemma Shifted(vs: seq<Version>, x: Version, v: nat, m: nat)
    ensures Has([x] + vs, v, m) <==> if v == 0 then m < |x.segments| else Has(vs, v - 1, m)
    ensures Has([x] + vs, v, m) ==> At([x] + vs, v, m) == if v == 0 then x.segments[m] else At(vs, v - 1, m)
  {
  }

  /** The state that loading reaches from `files` and `vs`. */
  ghost predicate Loads(files: Files, vs: seq<Version>, file: nat, segs: seq<Segment>, alias: bool, files': Files, segs': seq<Segment>) {
    && Parsed(segs)
    && exists now :: AllFit(now) && Prepared(vs, file, segs, now) && MapsTo(files, now, alias, files', segs', |now|)
  }

  lemma LoadedAt(files: Files, vs: seq<Version>, file: nat, segs: seq<Segment>, alias: bool, files': Files, segs': seq<Segment>, m: nat)
    requires Aliased(files, vs) && Loads(files, vs, file, segs, alias, files', segs') && m < |segs'|
    ensures |segs'| == |segs| && LoadedFrom(files, vs, file, segs[m], alias, files', segs'[m], m)
  {
    var now :| AllFit(now) && Prepared(vs, file, segs, now) && MapsTo(files, now, alias, files', segs', |now|);
    BackedHow(files, vs, file, segs, alias, now, files', segs', m);
  }

  /** New memory files of one version are different ones. */
  lemma LoadedApart(files: Files, vs: seq<Version>, file: nat, segs: seq<Segment>, alias: bool, files': Files, segs': seq<Segment>, m: nat, n: nat)
    requires Aliased(files, vs) && Loads(files, vs, file, segs, alias, files', segs') && m < n < |segs'|
    requires segs'[m].fd != NONE && segs'[n].fd != NONE
    ensures segs'[m].fd != segs'[n].fd
  {
    LoadedAt(files, vs, file, segs, alias, files', segs', m);
    LoadedAt(files, vs, file, segs, alias, files', segs', n);
    if Known(vs, file) {
      var w := First(vs, file, 0);
      if Backed(vs, w, m) && Backed(vs, w, n) {
        assert At(vs, w, m).fd != At(vs, w, n).fd;
      }
    }
  }

  /** The newest version has the memory file of an older segment exactly when file and index agree. */
  lemma NewestShares(files: Files, vs: seq<Version>, file: nat, m: nat, w: nat, n: nat)
    requires Aliased(files, vs) && Known(vs, file) && Backed(vs, First(vs, file, 0), m) && Backed(vs, w, n)
    ensures At(vs, First(vs, file, 0), m).fd == At(vs, w, n).fd <==> vs[w].file == file && m == n
  {
  }

  lemma NewestHas(files: Files, vs: seq<Version>, file: nat, w: nat, n: nat)
    requires Aliased(files, vs) && Backed(vs, w, n) && vs[w].file == file
    ensures Known(vs, file) && Backed(vs, First(vs, file, 0), n)
  {
  }

  /** Its memory file is that of an older segment exactly when file and index agree. */
  lemma LoadedShares(files: Files, vs: seq<Version>, file: nat, segs: seq<Segment>, alias: bool, files': Files, segs': seq<Segment>, m: nat, w: nat, n: nat)
    requires Aliased(files, vs) && Loads(files, vs, file, segs, alias, files', segs') && m < |segs'|
    requires segs'[m].fd != NONE && Backed(vs, w, n)
    ensures segs'[m].fd == At(vs, w, n).fd <==> vs[w].file == file && m == n
  {
    LoadedAt(files, vs, file, segs, alias, files', segs', m);
    if Known(vs, file) && Backed(vs, First(vs, file, 0), m) {
      NewestShares(files, vs, file, m, w, n);
    } else {
      assert Held(files, At(vs, w, n));
      if vs[w].file == file && m == n {
        NewestHas(files, vs, file, w, n);
      }
    }
  }

  /** It has as many segments as any older version, and keeps what they have. */
  lemma LoadedInherits(files: Files, vs: seq<Version>, file: nat, segs: seq<Segment>, alias: bool, files': Files, segs': seq<Segment>, w: nat)
    requires Aliased(files, vs) && Loads(files, vs, file, segs, alias, files', segs') && w < |vs| && vs[w].file == file
    ensures |segs'| == |vs[w].segments|
    ensures forall m :: Backed(vs, w, m) ==> segs'[m].fd == At(vs, w, m).fd
  {
    var now :| AllFit(now) && Prepared(vs, file, segs, now) && MapsTo(files, now, alias, files', segs', |now|);
    var f := First(vs, file, 0);
    assert |vs[f].segments| == |segs|;
    forall m | Backed(vs, w, m) ensures segs'[m].fd == At(vs, w, m).fd {
      assert Backed(vs, f, m);
      assert At(vs, f, m).fd == At(vs, w, m).fd;
      LoadedAt(files, vs, file, segs, alias, files', segs', m);
    }
  }

  /** The version takes over all that the older versions of its file have. */
  ghost predicate TakesOver(vs: seq<Version>, x: Version, w: int)
    requires 0 <= w < |vs|
  {
    |x.segments| == |vs[w].segments| && forall m :: Backed(vs, w, m) ==> x.segments[m].fd != NONE
  }

  lemma InheritingInFront(vs: seq<Version>, x: Version)
    requires Inheriting(vs) && forall w :: 0 <= w < |vs| && vs[w].file == x.file ==> TakesOver(vs, x, w)
    ensures Inheriting([x] + vs)
  {
    var vs' := [x] + vs;
    forall v, w, m | 0 <= v < w < |vs'| && vs'[v].file == vs'[w].file && Backed(vs', w, m) ensures Backed(vs', v, m) {
      Shifted(vs, x, w, m);
      Shifted(vs, x, v, m);
      assert Backed(vs, w - 1, m);
      if v == 0 {
        assert TakesOver(vs, x, w - 1);
      }
    }
    forall v, w | 0 <= v < w < |vs'| && vs'[v].file == vs'[w].file ensures |vs'[v].segments| == |vs'[w].segments| {
      if v == 0 {
        assert TakesOver(vs, x, w - 1);
      }
    }
  }

  lemma LoadKeepsInheriting(files: Files, vs: seq<Version>, file: nat, segs: seq<Segment>, alias: bool, files': Files, segs': seq<Segment>)
    requires Aliased(files, vs) && Loads(files, vs, file, segs, alias, files', segs')
    ensures Inheriting([Version(file, segs')] + vs)
  {
    var x := Version(file, segs');
    forall w | 0 <= w < |vs| && vs[w].file == file ensures TakesOver(vs, x, w) {
      LoadedInherits(files, vs, file, segs, alias, files', segs', w);
    }
    InheritingInFront(vs, x);
  }

  /** The segments of the version have memory files of their own. */
  ghost predicate OwnApart(x: Version) {
    forall m, n :: 0 <= m < n < |x.segments| && x.segments[m].fd != NONE && x.segments[n].fd != NONE ==>
      x.segments[m].fd != x.segments[n].fd
  }

  ghost predicate SharesWith(vs: seq<Version>, x: Version, m: int, w: int, n: int)
    requires 0 <= m < |x.segments| && Backed(vs, w, n)
  {
    x.segments[m].fd == At(vs, w, n).fd <==> x.file == vs[w].file && m == n
  }

  lemma SeparatedInFront(vs: seq<Version>, x: Version)
    requires Separated(vs) && OwnApart(x)
    requires forall m, w, n :: 0 <= m < |x.segments| && x.segments[m].fd != NONE && Backed(vs, w, n) ==> SharesWith(vs, x, m, w, n)
    ensures Separated([x] + vs)
  {
    var vs' := [x] + vs;
    forall v, w, m, n | Backed(vs', v, m) && Backed(vs', w, n)
      ensures At(vs', v, m).fd == At(vs', w, n).fd <==> vs'[v].file == vs'[w].file && m == n
    {
      Shifted(vs, x, v, m);
      Shifted(vs, x, w, n);
      if v == 0 && w != 0 {
        assert Backed(vs, w - 1, n) && SharesWith(vs, x, m, w - 1, n);
      } else if v != 0 && w == 0 {
        assert Backed(vs, v - 1, m) && SharesWith(vs, x, n, v - 1, m);
      } else if v != 0 {
        assert Backed(vs, v - 1, m) && Backed(vs, w - 1, n);
      }
    }
  }

  lemma LoadKeepsSeparated(files: Files, vs: seq<Version>, file: nat, segs: seq<Segment>, alias: bool, files': Files, segs': seq<Segment>)
    requires Aliased(files, vs) && Loads(files, vs, file, segs, alias, files', segs')
    ensures Separated([Version(file, segs')] + vs)
  {
    var x := Version(file, segs');
    forall m, n | 0 <= m < n < |segs'| && segs'[m].fd != NONE && segs'[n].fd != NONE ensures segs'[m].fd != segs'[n].fd {
      LoadedApart(files, vs, file, segs, alias, files', segs', m, n);
    }
    forall m, w, n | 0 <= m < |segs'| && segs'[m].fd != NONE && Backed(vs, w, n) ensures SharesWith(vs, x, m, w, n) {
      LoadedShares(files, vs, file, segs, alias, files', segs', m, w, n);
    }
    SeparatedInFront(vs, x);
  }

  lemma LoadKeepsMapped(files: Files, vs: seq<Version>, file: nat, segs: seq<Segment>, alias: bool, files': Files, segs': seq<Segment>)
    requires Aliased(files, vs) && Loads(files, vs, file, segs, alias, files', segs')
    ensures Mapped(files', [Version(file, segs')] + vs)
  {
    var x := Version(file, segs');
    var vs' := [x] + vs;
    FilesGrow(files, vs, file, segs, alias, files', segs');
    forall v, m | Has(vs', v, m) ensures Held(files', At(vs', v, m)) {
      Shifted(vs, x, v, m);
      if v == 0 {
        LoadedHeld(files, vs, file, segs, alias, files', segs', m);
      } else {
        OlderHeld(files, vs, files', v - 1, m);
      }
    }
  }

  lemma LoadedHeld(files: Files, vs: seq<Version>, file: nat, segs: seq<Segment>, alias: bool, files': Files, segs': seq<Segment>, m: nat)
    requires Aliased(files, vs) && Loads(files, vs, file, segs, alias, files', segs') && m < |segs'|
    ensures Held(files', segs'[m])
  {
    LoadedAt(files, vs, file, segs, alias, files', segs', m);
  }

  lemma OlderHeld(files: Files, vs: seq<Version>, files': Files, v: nat, m: nat)
    requires Mapped(files, vs) && Has(vs, v, m) && forall f :: f in files ==> f in files'
    ensures Held(files', At(vs, v, m))
  {
    assert Held(files, At(vs, v, m));
  }

  lemma FilesGrow(files: Files, vs: seq<Version>, file: nat, segs: seq<Segment>, alias: bool, files': Files, segs': seq<Segment>)
    requires Loads(files, vs, file, segs, alias, files', segs')
    ensures NONE !in files' && forall f :: f in files ==> f in files' && files'[f] == files[f]
  {
    var now :| AllFit(now) && Prepared(vs, file, segs, now) && MapsTo(files, now, alias, files', segs', |now|);
  }

  /** Loading a version keeps the sharing discipline. */
  lemma LoadKeepsAliased(files: Files, vs: seq<Version>, file: nat, segs: seq<Segment>, alias: bool, files': Files, segs': seq<Segment>)
    requires Aliased(files, vs) && Loads(files, vs, file, segs, alias, files', segs')
    ensures Aliased(files', [Version(file, segs')] + vs)
  {
    LoadKeepsInheriting(files, vs, file, segs, alias, files', segs');
    LoadKeepsSeparated(files, vs, file, segs, alias, files', segs');
    LoadKeepsMapped(files, vs, file, segs, alias, files', segs');
  }

  /** The flags after a load: those of a new file are set first, a known one must be updatable. */
  ghost predicate FlagsFor(vs: seq<Version>, file: nat, updatable: set<nat>, updatable': set<nat>) {
    if Known(vs, file) then file in updatable && updatable' == updatable else updatable' - {file} == updatable - {file}
  }

  lemma LoadKeepsFlagged(files: Files, vs: seq<Version>, file: nat, segs: seq<Segment>, alias: bool, files': Files, segs': seq<Segment>,
                         updatable: set<nat>, updatable': set<nat>, dlupdate: bool)
    requires Aliased(files, vs) && Flagged(vs, updatable, dlupdate) && Loads(files, vs, file, segs, alias, files', segs')
    requires FlagsFor(vs, file, updatable, updatable') && (alias <==> file in updatable')
    ensures Flagged([Version(file, segs')] + vs, updatable', dlupdate)
  {
    forall v, m | Backed(vs, v, m) ensures FlaggedAt(vs, updatable', dlupdate, v, m) {
      OlderFlagged(vs, file, updatable, updatable', dlupdate, v, m);
    }
    forall m | 0 <= m < |segs'| && segs'[m].fd != NONE ensures alias && (segs'[m].writable ==> segs'[m].Shared()) {
      LoadedFlagged(files, vs, file, segs, alias, files', segs', m);
    }
    FlaggedInFront(vs, Version(file, segs'), updatable', dlupdate);
  }

  lemma FlaggedInFront(vs: seq<Version>, x: Version, updatable: set<nat>, dlupdate: bool)
    requires Flagged(vs, updatable, dlupdate)
    requires forall m :: 0 <= m < |x.segments| && x.segments[m].fd != NONE ==>
               x.file in updatable && (x.segments[m].writable ==> x.segments[m].Shared())
    ensures Flagged([x] + vs, updatable, dlupdate)
  {
    var vs' := [x] + vs;
    forall v, m | Backed(vs', v, m) ensures FlaggedAt(vs', updatable, dlupdate, v, m) {
      Shifted(vs, x, v, m);
      if v != 0 {
        assert Backed(vs, v - 1, m) && FlaggedAt(vs, updatable, dlupdate, v - 1, m);
      }
    }
  }

  /** A segment of a new version has a descriptor only if its file is updatable, and is shared then if it is writable. */
  lemma LoadedFlagged(files: Files, vs: seq<Version>, file: nat, segs: seq<Segment>, alias: bool, files': Files, segs': seq<Segment>, m: nat)
    requires Aliased(files, vs) && Loads(files, vs, file, segs, alias, files', segs') && m < |segs'| && (Known(vs, file) ==> alias)
    ensures segs'[m].fd != NONE ==> alias
    ensures alias && segs'[m].writable ==> segs'[m].Shared()
  {
    LoadedAt(files, vs, file, segs, alias, files', segs', m);
  }

  lemma OlderFlagged(vs: seq<Version>, file: nat, updatable: set<nat>, updatable': set<nat>, dlupdate: bool, v: nat, m: nat)
    requires Flagged(vs, updatable, dlupdate) && FlagsFor(vs, file, updatable, updatable') && Backed(vs, v, m)
    ensures FlaggedAt(vs, updatable', dlupdate, v, m)
  {
    assert FlaggedAt(vs, updatable, dlupdate, v, m);
    if vs[v].file == file {
      assert Known(vs, file);
    } else {
      assert vs[v].file in updatable' - {file} <==> vs[v].file in updatable - {file};
    }
  }

  // ---------------------------------------------------------------------------
  // Duplication

  /** shmemdup can copy the memory file of the segment: it is as long as the segment, or the kernel refuses to copy it
      and the pages of a private segment are copied instead. */
  ghost predicate CanCopy(files: Files, g: Segment, refused: set<int>) {
    g.fd in files && (g.pages <= |files[g.fd]| || (g.fd in refused && !g.Shared()))
  }

  /** What it copies. */
  ghost function Copied(files: Files, g: Segment, refused: set<int>): (r: seq<Byte>)
    requires CanCopy(files, g, refused)
  {
    if g.fd in refused && !g.Shared() then g.own.value else files[g.fd][..g.pages]
  }

  /** The newest version's segment decides what is copied. */
  ghost predicate Copyable(files: Files, vs: seq<Version>, refused: set<int>) {
    forall v, m :: Backed(vs, v, m) && v == Newest(vs, v) ==> CanCopy(files, At(vs, v, m), refused)
  }

  /** The replacement of the memory file of that segment is a new file with that copy. */
  ghost predicate Replaced(vs: seq<Version>, refused: set<int>, before: Files, files: Files, replace: map<int, int>, v: int, m: int)
    requires Backed(vs, v, m) && Inheriting(vs)
  {
    var f := At(vs, v, m).fd;
    && Backed(vs, Newest(vs, v), m)
    && f in before && f in replace && replace[f] in files
    && CanCopy(before, At(vs, Newest(vs, v), m), refused)
    && files[replace[f]] == Copied(before, At(vs, Newest(vs, v), m), refused)
  }

  /** `replace` names a new memory file for each descriptor met so far, each its own. */
  ghost predicate Replacing(before: Files, files: Files, replace: map<int, int>) {
    && (forall f :: f in before ==> f in files && files[f] == before[f])
    && (forall f :: f in replace ==> f in before && replace[f] !in before && replace[f] in files && replace[f] != NONE)
    && (forall f, g :: f in replace && g in replace && replace[f] == replace[g] ==> f == g)
    && (forall f :: f in files ==> f in before || IsReplacement(replace, f))
  }

  ghost predicate IsReplacement(replace: map<int, int>, g: int) {
    exists f :: f in replace && replace[f] == g
  }

  /** Every descriptor in `replace` is that of a segment in the first `v` versions or the first `m` segments of the next. */
  ghost predicate FromVisited(vs: seq<Version>, replace: map<int, int>, v: nat, m: nat) {
    forall f :: f in replace ==> exists w, n :: Visited(w, n, v, m) && Backed(vs, w, n) && At(vs, w, n).fd == f
  }

  predicate Visited(w: int, n: int, v: nat, m: nat) {
    w < v || (w == v && n < m)
  }

  /** A descriptor not met so far is met first in the newest version of its file. */
  lemma FirstMet(files: Files, vs: seq<Version>, replace: map<int, int>, v: nat, m: nat)
    requires Aliased(files, vs) && Backed(vs, v, m) && At(vs, v, m).fd !in replace
    requires forall w, n :: Visited(w, n, v, m) && Backed(vs, w, n) ==> At(vs, w, n).fd in replace
    ensures Newest(vs, v) == v
  {
    if Newest(vs, v) < v {
      assert false;
    }
  }

  /** One met before was copied as this segment needs it. */
  lemma MetBefore(vs: seq<Version>, refused: set<int>, before: Files, files: Files, replace: map<int, int>, v: nat, m: nat)
    requires Aliased(before, vs) && Backed(vs, v, m) && At(vs, v, m).fd in replace
    requires FromVisited(vs, replace, v, m)
    requires forall w, n :: Visited(w, n, v, m) && Backed(vs, w, n) ==> Replaced(vs, refused, before, files, replace, w, n)
    ensures Replaced(vs, refused, before, files, replace, v, m)
  {
    var f := At(vs, v, m).fd;
    var w, n :| Visited(w, n, v, m) && Backed(vs, w, n) && At(vs, w, n).fd == f;
    assert vs[w].file == vs[v].file && n == m;
  }

  /** What the copy loop adds for the segment at hand. */
  lemma ReplacedNow(vs: seq<Version>, refused: set<int>, before: Files, files: Files, replace: map<int, int>, v: nat, m: nat, fd: int)
    requires Aliased(before, vs) && Backed(vs, v, m) && Newest(vs, v) == v
    requires Replacing(before, files, replace) && fd !in files && fd != NONE
    requires At(vs, v, m).fd !in replace && CanCopy(before, At(vs, v, m), refused)
    ensures var f := At(vs, v, m).fd; var files' := files[fd := Copied(before, At(vs, v, m), refused)];
            Replacing(before, files', replace[f := fd]) && Replaced(vs, refused, before, files', replace[f := fd], v, m)
  {
    var f := At(vs, v, m).fd;
    var files', replace' := files[fd := Copied(before, At(vs, v, m), refused)], replace[f := fd];
    forall g | g in files' ensures g in before || IsReplacement(replace', g) {
      if g == fd {
        assert replace'[f] == g;
      } else if g !in before {
        var h :| h in replace && replace[h] == g;
        assert replace'[h] == g;
      }
    }
  }

  /** Earlier replacements stay. */
  lemma ReplacedStays(vs: seq<Version>, refused: set<int>, before: Files, files: Files, replace: map<int, int>, f: int, fd: int, bytes: seq<Byte>, v: nat, m: nat)
    requires Inheriting(vs) && Backed(vs, v, m) && Replaced(vs, refused, before, files, replace, v, m)
    requires f !in replace && fd !in files
    ensures Replaced(vs, refused, before, files[fd := bytes], replace[f := fd], v, m)
  {
  }

  /** The copy loops have dealt with the first `v` versions and the first `m` segments of the next. */
  ghost predicate Progress(vs: seq<Version>, refused: set<int>, before: Files, files: Files, replace: map<int, int>, v: nat, m: nat)
    requires Inheriting(vs)
  {
    && Replacing(before, files, replace) && FromVisited(vs, replace, v, m)
    && (forall w, n :: Visited(w, n, v, m) && Backed(vs, w, n) ==> Replaced(vs, refused, before, files, replace, w, n))
  }

  /** Nothing to do for a segment without a descriptor or with one met before. */
  lemma ProgressSkips(vs: seq<Version>, refused: set<int>, before: Files, files: Files, replace: map<int, int>, v: nat, m: nat)
    requires Aliased(before, vs) && Has(vs, v, m) && Progress(vs, refused, before, files, replace, v, m)
    requires At(vs, v, m).fd == NONE || At(vs, v, m).fd in replace
    ensures Progress(vs, refused, before, files, replace, v, m + 1)
  {
    if Backed(vs, v, m) {
      MetBefore(vs, refused, before, files, replace, v, m);
    }
    forall w, n | Visited(w, n, v, m + 1) && Backed(vs, w, n)
      ensures Replaced(vs, refused, before, files, replace, w, n)
    {
      assert Visited(w, n, v, m) || (w == v && n == m);
    }
    forall f | f in replace
      ensures exists w, n :: Visited(w, n, v, m + 1) && Backed(vs, w, n) && At(vs, w, n).fd == f
    {
      var w, n :| Visited(w, n, v, m) && Backed(vs, w, n) && At(vs, w, n).fd == f;
      assert Visited(w, n, v, m + 1);
    }
  }

  /** A descriptor met first gets its copy. */
  lemma ProgressCopies(vs: seq<Version>, refused: set<int>, before: Files, files: Files, replace: map<int, int>, v: nat, m: nat, fd: int)
    requires Aliased(before, vs) && Copyable(before, vs, refused) && Backed(vs, v, m) && Progress(vs, refused, before, files, replace, v, m)
    requires At(vs, v, m).fd !in replace && fd !in files && fd != NONE
    ensures Newest(vs, v) == v && CanCopy(before, At(vs, v, m), refused)
    ensures var f := At(vs, v, m).fd;
            Progress(vs, refused, before, files[fd := Copied(before, At(vs, v, m), refused)], replace[f := fd], v, m + 1)
  {
    FirstMet(before, vs, replace, v, m);
    ReplacedNow(vs, refused, before, files, replace, v, m, fd);
    var f := At(vs, v, m).fd;
    var files', replace' := files[fd := Copied(before, At(vs, v, m), refused)], replace[f := fd];
    forall w, n | Visited(w, n, v, m + 1) && Backed(vs, w, n)
      ensures Replaced(vs, refused, before, files', replace', w, n)
    {
      if Visited(w, n, v, m) {
        ReplacedStays(vs, refused, before, files, replace, f, fd, Copied(before, At(vs, v, m), refused), w, n);
      }
    }
    forall g | g in replace'
      ensures exists w, n :: Visited(w, n, v, m + 1) && Backed(vs, w, n) && At(vs, w, n).fd == g
    {
      if g == f {
        assert Visited(v, m, v, m + 1);
      } else {
        var w, n :| Visited(w, n, v, m) && Backed(vs, w, n) && At(vs, w, n).fd == g;
        assert Visited(w, n, v, m + 1);
      }
    }
  }

  lemma ProgressNext(vs: seq<Version>, refused: set<int>, before: Files, files: Files, replace: map<int, int>, v: nat)
    requires Inheriting(vs) && v < |vs| && Progress(vs, refused, before, files, replace, v, |vs[v].segments|)
    ensures Progress(vs, refused, before, files, replace, v + 1, 0)
  {
    forall w, n | Visited(w, n, v + 1, 0) && Backed(vs, w, n)
      ensures Replaced(vs, refused, before, files, replace, w, n)
    {
      assert Visited(w, n, v, |vs[v].segments|);
    }
    FromVisitedNext(vs, replace, v);
  }

  lemma FromVisitedNext(vs: seq<Version>, replace: map<int, int>, v: nat)
    requires v < |vs| && FromVisited(vs, replace, v, |vs[v].segments|)
    ensures FromVisited(vs, replace, v + 1, 0)
  {
    forall f | f in replace
      ensures exists w, n :: Visited(w, n, v + 1, 0) && Backed(vs, w, n) && At(vs, w, n).fd == f
    {
      var w, n :| Visited(w, n, v, |vs[v].segments|) && Backed(vs, w, n) && At(vs, w, n).fd == f;
      assert Visited(w, n, v + 1, 0);
    }
  }

  /** A segment with a descriptor is mapped anew to the replacement of its memory file; whether it shows that is up to
      MemorySegment::map. */
  function Remapped(replace: map<int, int>, alias: bool, g: Segment): (r: Segment)
    requires g.Fits()
  {
    if g.fd != NONE && g.fd in replace then g.(fd := replace[g.fd], own := if g.writable && alias then None else Some(Initial(g))) else g
  }

  /** The first versions are remapped, the others not. */
  ghost predicate RemappedUpTo(replace: map<int, int>, updatable: set<nat>, vs: seq<Version>, vs': seq<Version>, k: nat) {
    && |vs'| == |vs|
    && (forall v :: 0 <= v < |vs| ==> vs'[v].file == vs[v].file && |vs'[v].segments| == |vs[v].segments|)
    && (forall v, m :: Has(vs, v, m) ==> At(vs, v, m).Fits())
    && (forall v, m :: Has(vs, v, m) ==>
          vs'[v].segments[m] == if v < k then Remapped(replace, vs[v].file in updatable, At(vs, v, m)) else At(vs, v, m))
  }

  lemma RemapNext(replace: map<int, int>, updatable: set<nat>, vs: seq<Version>, now: seq<Version>, next: seq<Version>, v: nat)
    requires v < |vs| && RemappedUpTo(replace, updatable, vs, now, v) && |next| == |now|
    requires next[..v] == now[..v] && next[v + 1..] == now[v + 1..]
    requires next[v].file == now[v].file && |next[v].segments| == |now[v].segments|
    requires forall m :: 0 <= m < |next[v].segments| ==>
               now[v].segments[m].Fits() && next[v].segments[m] == Remapped(replace, now[v].file in updatable, now[v].segments[m])
    ensures RemappedUpTo(replace, updatable, vs, next, v + 1)
  {
    forall w | 0 <= w < |vs| && w != v ensures next[w] == now[w] {
      if w < v {
        assert next[w] == next[..v][w];
      } else {
        assert next[w] == next[v + 1..][w - v - 1];
      }
    }
    forall w, m | Has(vs, w, m)
      ensures next[w].segments[m] == if w < v + 1 then Remapped(replace, vs[w].file in updatable, At(vs, w, m)) else At(vs, w, m)
    {
      assert now[w].segments[m] == if w < v then Remapped(replace, vs[w].file in updatable, At(vs, w, m)) else At(vs, w, m);
    }
  }

  /** The child's memory relates to the parent's: the same versions, with segments as ForkedAt says. */
  ghost predicate Forked(files: Files, vs: seq<Version>, updatable: set<nat>, refused: set<int>, files': Files, vs': seq<Version>)
    requires Aliased(files, vs)
  {
    && |vs'| == |vs|
    && (forall v :: 0 <= v < |vs| ==> vs'[v].file == vs[v].file && |vs'[v].segments| == |vs[v].segments|)
    && (forall v, m :: Has(vs, v, m) ==> ForkedAt(files, vs, updatable, refused, files', vs', v, m))
  }

  /** A segment without a descriptor is a private copy. One with a descriptor gets that of a copy of the memory file, and
      shows it if it is writable and its file is updatable at this time; else it shows what the file of the version has. */
  ghost predicate ForkedAt(files: Files, vs: seq<Version>, updatable: set<nat>, refused: set<int>, files': Files, vs': seq<Version>, v: nat, m: nat)
    requires Aliased(files, vs) && Has(vs, v, m)
  {
    && Has(vs', v, m)
    && var g, g' := At(vs, v, m), At(vs', v, m);
       if g.fd == NONE then g' == g
       else
         && g.Fits() && g' == g.(fd := g'.fd, own := if g.writable && vs[v].file in updatable then None else Some(Initial(g)))
         && g'.fd != NONE && g'.fd in files' && g'.fd !in files && Backed(vs, Newest(vs, v), m)
         && CanCopy(files, At(vs, Newest(vs, v), m), refused)
         && files'[g'.fd] == Copied(files, At(vs, Newest(vs, v), m), refused)
  }

  function Replacements(replace: map<int, int>): (r: set<int>) {
    set f | f in replace :: replace[f]
  }

  function Without(files: Files, closed: set<int>): (r: Files) {
    map f | f in files && f !in closed :: files[f]
  }

  /** Closing the copies leaves the files of before. */
  lemma ClosingRestores(before: Files, files: Files, replace: map<int, int>)
    requires Replacing(before, files, replace)
    ensures Without(files, Replacements(replace)) == before
  {
    var left := Without(files, Replacements(replace));
    forall f | f in before ensures f in left {
      assert f !in Replacements(replace);
    }
    forall f | f in left ensures f in before {
      assert !IsReplacement(replace, f);
    }
    assert forall f :: f in before ==> f in left && left[f] == before[f];
    assert left == before;
  }

  /** What the copies are, the old ones left alone, says when there are none. */
  lemma CopiesAreNew(before: Files, files: Files, replace: map<int, int>)
    requires Replacing(before, files, replace)
    ensures files == before <==> forall f :: f !in replace
  {
    if f :| f in replace {
      assert replace[f] in files && replace[f] !in before;
    } else {
      forall f | f in files ensures f in before {
        assert !IsReplacement(replace, f);
      }
      assert forall f :: f in before ==> f in files && files[f] == before[f];
      assert files == before;
    }
  }

  /** Copying, remapping and closing the old descriptors gives the child's memory. */
  lemma RemappingForks(vs: seq<Version>, updatable: set<nat>, refused: set<int>, before: Files, files: Files, replace: map<int, int>, vs': seq<Version>)
    requires Aliased(before, vs) && Progress(vs, refused, before, files, replace, |vs|, 0) && RemappedUpTo(replace, updatable, vs, vs', |vs|)
    ensures Forked(before, vs, updatable, refused, Without(files, replace.Keys), vs')
  {
    var files' := Without(files, replace.Keys);
    forall v, m | Has(vs, v, m) ensures ForkedAt(before, vs, updatable, refused, files', vs', v, m) {
      assert vs'[v].segments[m] == At(vs', v, m);
      if Backed(vs, v, m) {
        assert Visited(v, m, |vs|, 0);
        assert Replaced(vs, refused, before, files, replace, v, m);
      }
    }
  }

  /** Segments of the child have the same descriptor exactly when those of the parent do. */
  lemma RemappingSeparates(vs: seq<Version>, updatable: set<nat>, refused: set<int>, before: Files, files: Files, replace: map<int, int>, vs': seq<Version>)
    requires Aliased(before, vs) && Progress(vs, refused, before, files, replace, |vs|, 0) && RemappedUpTo(replace, updatable, vs, vs', |vs|)
    ensures Separated(vs')
  {
    RemappingForks(vs, updatable, refused, before, files, replace, vs');
    forall v, w, m, n | Backed(vs', v, m) && Backed(vs', w, n)
      ensures At(vs', v, m).fd == At(vs', w, n).fd <==> vs'[v].file == vs'[w].file && m == n
    {
      RemappedDescriptor(vs, updatable, refused, before, files, replace, vs', v, m);
      RemappedDescriptor(vs, updatable, refused, before, files, replace, vs', w, n);
    }
  }

  lemma RemappedDescriptor(vs: seq<Version>, updatable: set<nat>, refused: set<int>, before: Files, files: Files, replace: map<int, int>,
                           vs': seq<Version>, v: int, m: int)
    requires Aliased(before, vs) && Progress(vs, refused, before, files, replace, |vs|, 0) && RemappedUpTo(replace, updatable, vs, vs', |vs|)
    requires Backed(vs', v, m)
    ensures Backed(vs, v, m) && At(vs, v, m).fd in replace && At(vs', v, m).fd == replace[At(vs, v, m).fd]
  {
    assert Has(vs, v, m);
    assert vs'[v].segments[m] == Remapped(replace, vs[v].file in updatable, At(vs, v, m));
    if Backed(vs, v, m) {
      assert Visited(v, m, |vs|, 0);
      assert Replaced(vs, refused, before, files, replace, v, m);
    }
  }

  lemma ForkedInherits(files: Files, vs: seq<Version>, updatable: set<nat>, refused: set<int>, files': Files, vs': seq<Version>)
    requires Aliased(files, vs) && Forked(files, vs, updatable, refused, files', vs')
    ensures Inheriting(vs')
  {
    forall v, w, m | 0 <= v < w < |vs'| && vs'[v].file == vs'[w].file && Backed(vs', w, m)
      ensures Backed(vs', v, m)
    {
      assert Has(vs, w, m) && ForkedAt(files, vs, updatable, refused, files', vs', w, m);
      assert Backed(vs, v, m) && ForkedAt(files, vs, updatable, refused, files', vs', v, m);
    }
  }

  /** The child starts from a state with the same discipline. */
  lemma ForkKeepsAliased(vs: seq<Version>, updatable: set<nat>, refused: set<int>, before: Files, files: Files, replace: map<int, int>, vs': seq<Version>)
    requires Aliased(before, vs) && Progress(vs, refused, before, files, replace, |vs|, 0) && RemappedUpTo(replace, updatable, vs, vs', |vs|)
    requires NONE !in files
    ensures Aliased(Without(files, replace.Keys), vs')
  {
    var files' := Without(files, replace.Keys);
    RemappingForks(vs, updatable, refused, before, files, replace, vs');
    RemappingSeparates(vs, updatable, refused, before, files, replace, vs');
    ForkedInherits(before, vs, updatable, refused, files', vs');
    forall v, m | Has(vs', v, m) ensures Held(files', At(vs', v, m)) {
      assert Has(vs, v, m);
      ForkedHeld(before, vs, updatable, refused, files', vs', v, m);
    }
  }

  lemma ForkedHeld(files: Files, vs: seq<Version>, updatable: set<nat>, refused: set<int>, files': Files, vs': seq<Version>, v: nat, m: nat)
    requires Aliased(files, vs) && Has(vs, v, m) && ForkedAt(files, vs, updatable, refused, files', vs', v, m)
    ensures Held(files', At(vs', v, m))
  {
    assert Held(files, At(vs, v, m));
  }

  lemma ForkKeepsFlagged(files: Files, vs: seq<Version>, updatable: set<nat>, dlupdate: bool, refused: set<int>, files': Files, vs': seq<Version>)
    requires Aliased(files, vs) && Flagged(vs, updatable, dlupdate) && Forked(files, vs, updatable, refused, files', vs')
    ensures Flagged(vs', updatable, dlupdate)
  {
    forall v, m | Backed(vs', v, m) ensures FlaggedAt(vs', updatable, dlupdate, v, m) {
      assert Has(vs, v, m) && ForkedAt(files, vs, updatable, refused, files', vs', v, m);
      assert Backed(vs, v, m) && FlaggedAt(vs, updatable, dlupdate, v, m);
    }
  }

  // ---------------------------------------------------------------------------
  // What the program sees

  /** Two segments show the same memory file. */
  ghost predicate Together(vs: seq<Version>, v: int, m: int, w: int, n: int) {
    && Has(vs, v, m) && Has(vs, w, n)
    && At(vs, v, m).Shared() && At(vs, w, n).Shared() && At(vs, v, m).fd == At(vs, w, n).fd
  }

  /** Exactly the segments of one index in versions of one file do. */
  lemma TogetherIff(files: Files, vs: seq<Version>, v: nat, m: nat, w: nat, n: nat)
    requires Aliased(files, vs) && Has(vs, v, m) && Has(vs, w, n) && At(vs, v, m).Shared() && At(vs, w, n).Shared()
    ensures Together(vs, v, m, w, n) <==> vs[v].file == vs[w].file && m == n
  {
    assert Held(files, At(vs, v, m)) && Held(files, At(vs, w, n));
    assert Backed(vs, v, m) && Backed(vs, w, n);
  }

  /** The state after a store through a segment: into its memory file, or into its own pages. */
  ghost function StoredFiles(files: Files, g: Segment, offset: nat, b: Byte): (r: Files)
    requires g.Shared() ==> g.fd in files && offset < |files[g.fd]|
  {
    if g.Shared() then files[g.fd := Stored(files[g.fd], offset, b)] else files
  }

  ghost function StoredSegment(g: Segment, offset: nat, b: Byte): (r: Segment)
    requires !g.Shared() ==> offset < |g.own.value|
  {
    if g.Shared() then g else g.(own := Some(Stored(g.own.value, offset, b)))
  }

  /** A byte stored through a segment is read through exactly the segments that show the same memory file, as far
      as they reach, and nothing else changes. */
  lemma StoreSeenByAllVersions(files: Files, vs: seq<Version>, v: nat, m: nat, offset: nat, b: Byte, w: nat, n: nat)
    requires Aliased(files, vs) && Has(vs, v, m) && Has(vs, w, n) && (v, m) != (w, n)
    requires Held(files, At(vs, v, m)) && offset < |Visible(files, At(vs, v, m))|
    ensures Held(files, At(vs, w, n)) && Held(StoredFiles(files, At(vs, v, m), offset, b), At(vs, w, n))
    ensures var seen, seen' := Visible(files, At(vs, w, n)), Visible(StoredFiles(files, At(vs, v, m), offset, b), At(vs, w, n));
            && |seen'| == |seen|
            && (Together(vs, v, m, w, n) && offset < |seen| ==> seen' == Stored(seen, offset, b))
            && (!Together(vs, v, m, w, n) || offset >= |seen| ==> seen' == seen)
  {
    assert Held(files, At(vs, w, n));
    var files' := StoredFiles(files, At(vs, v, m), offset, b);
    var seen, seen' := Visible(files, At(vs, w, n)), Visible(files', At(vs, w, n));
    if Together(vs, v, m, w, n) && offset < |seen| {
      assert seen' == Stored(seen, offset, b);
    } else {
      assert seen' == seen;
    }
  }

  /** An update leaves what is visible. A writable segment of it shows the data of the running versions if they have a
      memory file, any other segment what the file of the version has. */
  lemma UpdateKeepsData(files: Files, vs: seq<Version>, file: nat, segs: seq<Segment>, files': Files, segs': seq<Segment>, w: nat, m: nat)
    requires Aliased(files, vs) && Loads(files, vs, file, segs, true, files', segs')
    requires Has(vs, w, m) && vs[w].file == file
    ensures Held(files, At(vs, w, m)) && Held(files', At(vs, w, m)) && Visible(files', At(vs, w, m)) == Visible(files, At(vs, w, m))
    ensures m < |segs| == |segs'| && Held(files', segs'[m])
    ensures Backed(vs, w, m) && segs[m].writable ==> Visible(files', segs'[m]) == Clip(files[At(vs, w, m).fd], segs[m].pages)
    ensures At(vs, w, m).Shared() && segs[m].writable && segs[m].pages == At(vs, w, m).pages ==>
              Visible(files', segs'[m]) == Visible(files, At(vs, w, m))
    ensures !segs[m].writable ==> Visible(files', segs'[m]) == Initial(segs[m])
  {
    FilesGrow(files, vs, file, segs, true, files', segs');
    OlderHeld(files, vs, files', w, m);
    assert Held(files, At(vs, w, m));
    LoadedInherits(files, vs, file, segs, true, files', segs', w);
    LoadedHeld(files, vs, file, segs, true, files', segs', m);
    LoadedShows(files, vs, file, segs, files', segs', w, m);
  }

  lemma LoadedShows(files: Files, vs: seq<Version>, file: nat, segs: seq<Segment>, files': Files, segs': seq<Segment>, w: nat, m: nat)
    requires Aliased(files, vs) && Loads(files, vs, file, segs, true, files', segs') && m < |segs'| && Held(files', segs'[m])
    requires Has(vs, w, m) && (Backed(vs, w, m) ==> segs'[m].fd == At(vs, w, m).fd)
    requires forall f :: f in files ==> f in files' && files'[f] == files[f]
    ensures |segs| == |segs'| && segs[m].Fits() && segs'[m].pages == segs[m].pages
    ensures At(vs, w, m).fd != NONE ==> At(vs, w, m).fd in files
    ensures Backed(vs, w, m) && segs[m].writable ==> Visible(files', segs'[m]) == Clip(files[At(vs, w, m).fd], segs[m].pages)
    ensures !segs[m].writable ==> Visible(files', segs'[m]) == Initial(segs[m])
  {
    LoadedAt(files, vs, file, segs, true, files', segs', m);
    assert Held(files, At(vs, w, m));
  }

  /** A first version shows what its file has, whether it is updatable or not. */
  lemma FirstVersionShowsImage(files: Files, vs: seq<Version>, file: nat, segs: seq<Segment>, alias: bool, files': Files, segs': seq<Segment>, m: nat)
    requires Aliased(files, vs) && Loads(files, vs, file, segs, alias, files', segs') && !Known(vs, file)
    requires m < |segs'|
    ensures m < |segs| && segs[m].Fits() && Held(files', segs'[m]) && Visible(files', segs'[m]) == Initial(segs[m])
  {
    LoadedAt(files, vs, file, segs, alias, files', segs', m);
  }

  function Min(a: nat, b: nat): (r: nat) {
    if a < b then a else b
  }

  /** The child keeps what is visible through a segment: it has no descriptor; or it will be shared again, and the copy
      has as many bytes, taken from the memory file or equal to it; or it will be private, and was never changed. */
  ghost predicate ForkKeeps(files: Files, vs: seq<Version>, updatable: set<nat>, refused: set<int>, v: nat, m: nat)
    requires Aliased(files, vs) && Has(vs, v, m) && Held(files, At(vs, v, m))
  {
    var g, seen, newest := At(vs, v, m), Visible(files, At(vs, v, m)), vs[Newest(vs, v)].segments;
    g.fd != NONE ==>
      if g.writable && vs[v].file in updatable then
        && m < |newest|
        && (if g.fd in refused && !newest[m].Shared()
            then |seen| == Min(g.pages, newest[m].pages) && seen <= newest[m].own.value
            else |seen| <= newest[m].pages)
      else seen == Initial(g)
  }

  /** That is exactly when it does. */
  lemma ForkKeepsDataIff(files: Files, vs: seq<Version>, updatable: set<nat>, dlupdate: bool, refused: set<int>,
                         files': Files, vs': seq<Version>, v: nat, m: nat)
    requires Aliased(files, vs) && Flagged(vs, updatable, dlupdate) && Forked(files, vs, updatable, refused, files', vs') && Has(vs, v, m)
    ensures Held(files, At(vs, v, m)) && Has(vs', v, m) && Held(files', At(vs', v, m))
    ensures Visible(files', At(vs', v, m)) == Visible(files, At(vs, v, m)) <==> ForkKeeps(files, vs, updatable, refused, v, m)
  {
    var g := At(vs, v, m);
    assert Held(files, g) && ForkedAt(files, vs, updatable, refused, files', vs', v, m);
    ForkedHeld(files, vs, updatable, refused, files', vs', v, m);
    if g.fd != NONE && g.writable && vs[v].file in updatable {
      assert Backed(vs, v, m) && FlaggedAt(vs, updatable, dlupdate, v, m);
      var k := Newest(vs, v);
      assert Backed(vs, k, m) && Held(files, At(vs, k, m)) && At(vs, k, m).fd == g.fd;
      ClippedCopyIff(files[g.fd], files'[At(vs', v, m).fd], g.pages, At(vs, k, m), g.fd in refused);
    }
  }

  /** Two clips of a file and its copy. */
  lemma ClippedCopyIff(f: seq<Byte>, f': seq<Byte>, pages: nat, newest: Segment, refused: bool)
    requires if refused && !newest.Shared() then f' == newest.own.value && |f'| == newest.pages else newest.pages <= |f| && f' == f[..newest.pages]
    ensures var seen := Clip(f, pages);
            Clip(f', pages) == seen <==> if refused && !newest.Shared() then |seen| == Min(pages, newest.pages) && seen <= newest.own.value
                                         else |seen| <= newest.pages
  {
    var seen, seen' := Clip(f, pages), Clip(f', pages);
    if refused && !newest.Shared() {
      assert seen' == f'[..Min(pages, newest.pages)];
      assert seen <= f' ==> seen == f'[..|seen|];
    } else if |seen| <= newest.pages {
      assert seen' == seen;
    } else {
      assert |seen'| < |seen|;
    }
  }

  /** Segments of the child show the same memory file if and only if those of the parent do and their file is still
      updatable. */
  lemma ForkKeepsSharingIff(files: Files, vs: seq<Version>, updatable: set<nat>, dlupdate: bool, refused: set<int>,
                            files': Files, vs': seq<Version>, v: nat, m: nat, w: nat, n: nat)
    requires Aliased(files, vs) && Flagged(vs, updatable, dlupdate) && Forked(files, vs, updatable, refused, files', vs') && Separated(vs')
    requires Has(vs, v, m) && Has(vs, w, n)
    ensures Together(vs', v, m, w, n) <==> Together(vs, v, m, w, n) && vs[v].file in updatable
  {
    assert ForkedAt(files, vs, updatable, refused, files', vs', v, m) && ForkedAt(files, vs, updatable, refused, files', vs', w, n);
    assert Held(files, At(vs, v, m)) && Held(files, At(vs, w, n));
    if Backed(vs, v, m) && Backed(vs, w, n) {
      assert FlaggedAt(vs, updatable, dlupdate, v, m) && FlaggedAt(vs, updatable, dlupdate, w, n);
      assert Backed(vs', v, m) && Backed(vs', w, n);
    }
  }

  /** A file of two pages whose update has one page only. */
  function ShrunkFiles(): (files: Files) {
    map[3 := seq(8192, _ => 0)]
  }

  function ShrunkVersions(): (vs: seq<Version>) {
    [Version(0, [Segment(4096, true, 0, [], None, 3, None)]), Version(0, [Segment(8192, true, 0, [], None, 3, None)])]
  }

  lemma ShrunkHas(v: int, m: int)
    ensures Has(ShrunkVersions(), v, m) <==> 0 <= v < 2 && m == 0
    ensures Has(ShrunkVersions(), v, m) ==>
              At(ShrunkVersions(), v, m) == Segment(if v == 0 then 4096 else 8192, true, 0, [], None, 3, None)
  {
  }

  lemma ShrunkAliased()
    ensures Aliased(ShrunkFiles(), ShrunkVersions()) && Flagged(ShrunkVersions(), {0}, false) && Copyable(ShrunkFiles(), ShrunkVersions(), {})
  {
    var vs := ShrunkVersions();
    forall v, m
      ensures Has(vs, v, m) <==> 0 <= v < 2 && m == 0
      ensures Has(vs, v, m) ==> At(vs, v, m).fd == 3 && Held(ShrunkFiles(), At(vs, v, m)) && At(vs, v, m).pages <= 8192
    {
      ShrunkHas(v, m);
    }
    assert forall v :: 0 <= v < |vs| ==> vs[v].file == 0;
  }

  /** Every child of that process has lost the second page of the first version. */
  lemma ForkLosesSecondPage(files': Files, vs': seq<Version>)
    requires Aliased(ShrunkFiles(), ShrunkVersions()) && Forked(ShrunkFiles(), ShrunkVersions(), {0}, {}, files', vs')
    ensures Has(vs', 1, 0) && Held(files', At(vs', 1, 0)) && Held(ShrunkFiles(), At(ShrunkVersions(), 1, 0))
    ensures |Visible(files', At(vs', 1, 0))| == 4096 < |Visible(ShrunkFiles(), At(ShrunkVersions(), 1, 0))|
  {
    var files, vs := ShrunkFiles(), ShrunkVersions();
    assert Has(vs, 1, 0) && At(vs, 1, 0) == Segment(8192, true, 0, [], None, 3, None);
    assert Newest(vs, 1) == 0;
    assert ForkedAt(files, vs, {0}, {}, files', vs', 1, 0);
    ForkedHeld(files, vs, {0}, {}, files', vs', 1, 0);
  }

  /** When the clone fails, that process is left with a further memory file. */
  lemma FailedCloneKeepsCopy(files': Files, replace: map<int, int>)
    requires Replacing(ShrunkFiles(), files', replace) && forall f :: f in replace <==> InUse(ShrunkVersions(), f)
    ensures files' != ShrunkFiles() && exists f :: f in files' && f !in ShrunkFiles()
  {
    ShrunkHas(0, 0);
    assert Backed(ShrunkVersions(), 0, 0) && InUse(ShrunkVersions(), 3);
    assert replace[3] in files' && replace[3] !in ShrunkFiles();
  }

  /** A library that was loaded as updatable and opened by dlopen, which takes that away by default; the program has
      changed a byte of its data. */
  function OpenedFiles(): (files: Files) {
    map[3 := [7]]
  }

  function OpenedVersions(): (vs: seq<Version>) {
    [Version(0, [Segment(1, true, 0, [], None, 3, None)])]
  }

  lemma OpenedAliased()
    ensures Aliased(OpenedFiles(), OpenedVersions()) && Flagged(OpenedVersions(), {}, false) && Copyable(OpenedFiles(), OpenedVersions(), {})
  {
    var vs := OpenedVersions();
    forall v, m ensures Has(vs, v, m) <==> v == 0 && m == 0 {
    }
    assert Held(OpenedFiles(), At(vs, 0, 0));
  }

  /** Every child of that process has lost it. */
  lemma DlopenedForkLosesData(files': Files, vs': seq<Version>)
    requires Aliased(OpenedFiles(), OpenedVersions()) && Forked(OpenedFiles(), OpenedVersions(), {}, {}, files', vs')
    ensures Has(vs', 0, 0) && Held(files', At(vs', 0, 0)) && Held(OpenedFiles(), At(OpenedVersions(), 0, 0))
    ensures Visible(OpenedFiles(), At(OpenedVersions(), 0, 0)) == [7] && Visible(files', At(vs', 0, 0)) == [0]
  {
    var files, vs := OpenedFiles(), OpenedVersions();
    assert Has(vs, 0, 0) && ForkedAt(files, vs, {}, {}, files', vs', 0, 0);
    ForkedHeld(files, vs, {}, {}, files', vs', 0, 0);
    assert Initial(At(vs, 0, 0)) == [0];
  }

  /** A file that is not updatable any more has lost all its changed data in every child, and its versions share nothing
      there. */
  lemma ForkForgetsWithoutUpdates(files: Files, vs: seq<Version>, updatable: set<nat>, refused: set<int>, files': Files, vs': seq<Version>, v: nat, m: nat)
    requires Aliased(files, vs) && Forked(files, vs, updatable, refused, files', vs')
    requires Backed(vs, v, m) && vs[v].file !in updatable
    ensures Has(vs', v, m) && At(vs, v, m).Fits() && At(vs', v, m).own == Some(Initial(At(vs, v, m)))
  {
    assert ForkedAt(files, vs, updatable, refused, files', vs', v, m);
  }

  /** After the fork, a store on one side is not seen on the other: no memory file is used by both. */
  lemma ForkSeparates(files: Files, vs: seq<Version>, updatable: set<nat>, refused: set<int>, files': Files, vs': seq<Version>, v: nat, m: nat, w: nat, n: nat)
    requires Aliased(files, vs) && Forked(files, vs, updatable, refused, files', vs') && Backed(vs, v, m) && Backed(vs', w, n)
    ensures At(vs', w, n).fd != At(vs, v, m).fd
    ensures At(vs', w, n).fd in files' && At(vs', w, n).fd !in files
  {
    assert Has(vs, w, n) && ForkedAt(files, vs, updatable, refused, files', vs', w, n);
    assert Held(files, At(vs, v, m));
  }

  /** The versions with another segment at that place. */
  function WithSegment(vs: seq<Version>, v: nat, m: nat, g: Segment): (r: seq<Version>)
    requires v < |vs| && m < |vs[v].segments|
    ensures |r| == |vs|
  {
    vs[v := Version(vs[v].file, vs[v].segments[m := g])]
  }

  lemma WithSegmentAt(vs: seq<Version>, v: nat, m: nat, g: Segment, w: int, n: int)
    requires Has(vs, v, m)
    ensures var r := WithSegment(vs, v, m, g);
            && (Has(r, w, n) <==> Has(vs, w, n))
            && (0 <= w < |vs| ==> r[w].file == vs[w].file && |r[w].segments| == |vs[w].segments|)
            && (Has(vs, w, n) ==> At(r, w, n) == if w == v && n == m then g else At(vs, w, n))
  {
  }

  /** A store keeps the discipline: it changes no descriptor. */
  lemma StoreKeeps(files: Files, vs: seq<Version>, updatable: set<nat>, dlupdate: bool, v: nat, m: nat, offset: nat, b: Byte)
    requires Aliased(files, vs) && Flagged(vs, updatable, dlupdate) && Has(vs, v, m) && Held(files, At(vs, v, m))
    requires offset < |Visible(files, At(vs, v, m))|
    ensures var vs' := WithSegment(vs, v, m, StoredSegment(At(vs, v, m), offset, b));
            Aliased(StoredFiles(files, At(vs, v, m), offset, b), vs') && Flagged(vs', updatable, dlupdate)
  {
    var g := StoredSegment(At(vs, v, m), offset, b);
    var files', vs' := StoredFiles(files, At(vs, v, m), offset, b), WithSegment(vs, v, m, g);
    forall w, n ensures Has(vs', w, n) <==> Has(vs, w, n) {
      WithSegmentAt(vs, v, m, g, w, n);
    }
    forall w, n | Has(vs, w, n)
      ensures vs'[w].file == vs[w].file && |vs'[w].segments| == |vs[w].segments|
      ensures At(vs', w, n) == At(vs, w, n).(own := At(vs', w, n).own) && (At(vs', w, n).Shared() <==> At(vs, w, n).Shared())
      ensures Held(files', At(vs', w, n))
    {
      WithSegmentAt(vs, v, m, g, w, n);
      assert Held(files, At(vs, w, n));
    }
    assert forall w, n :: Has(vs, w, n) ==> SameUse(At(vs, w, n), At(vs', w, n));
    SameDescriptors(vs, vs', updatable, dlupdate);
  }

  /** Versions with the same descriptors, sharing and files. */
  lemma SameDescriptors(vs: seq<Version>, vs': seq<Version>, updatable: set<nat>, dlupdate: bool)
    requires Inheriting(vs) && Separated(vs) && Flagged(vs, updatable, dlupdate) && |vs'| == |vs|
    requires forall v :: 0 <= v < |vs| ==> vs'[v].file == vs[v].file && |vs'[v].segments| == |vs[v].segments|
    requires forall v, m :: Has(vs, v, m) ==> SameUse(At(vs, v, m), At(vs', v, m))
    ensures Inheriting(vs') && Separated(vs') && Flagged(vs', updatable, dlupdate)
  {
    forall v, m ensures Backed(vs', v, m) <==> Backed(vs, v, m) {
      assert Has(vs, v, m) <==> Has(vs', v, m);
      if Has(vs, v, m) {
        assert SameUse(At(vs, v, m), At(vs', v, m));
      }
    }
    forall v, w, m, n | Backed(vs', v, m) && Backed(vs', w, n)
      ensures At(vs', v, m).fd == At(vs', w, n).fd <==> vs'[v].file == vs'[w].file && m == n
    {
      assert Backed(vs, v, m) && Backed(vs, w, n);
      assert SameUse(At(vs, v, m), At(vs', v, m)) && SameUse(At(vs, w, n), At(vs', w, n));
    }
    forall v, m | Backed(vs', v, m) ensures FlaggedAt(vs', updatable, dlupdate, v, m) {
      assert Backed(vs, v, m) && FlaggedAt(vs, updatable, dlupdate, v, m) && SameUse(At(vs, v, m), At(vs', v, m));
    }
  }

  predicate SameUse(g: Segment, g': Segment) {
    g'.fd == g.fd && g'.writable == g.writable && (g'.Shared() <==> g.Shared())
  }

  ghost predicate InUse(vs: seq<Version>, f: int) {
    exists v, m :: Backed(vs, v, m) && At(vs, v, m).fd == f
  }

  /** The copies are those of the descriptors in use. */
  lemma CopiedInUse(vs: seq<Version>, refused: set<int>, before: Files, files: Files, replace: map<int, int>)
    requires Inheriting(vs) && Progress(vs, refused, before, files, replace, |vs|, 0)
    ensures forall f :: f in replace <==> InUse(vs, f)
  {
    forall f ensures f in replace <==> InUse(vs, f) {
      if f in replace {
        var w, n :| Visited(w, n, |vs|, 0) && Backed(vs, w, n) && At(vs, w, n).fd == f;
      }
      if InUse(vs, f) {
        var v, m :| Backed(vs, v, m) && At(vs, v, m).fd == f;
        assert Visited(v, m, |vs|, 0);
        assert Replaced(vs, refused, before, files, replace, v, m);
      }
    }
  }

  // ---------------------------------------------------------------------------
  // The process

  class Memory {
    /** Whether dlopen leaves files updatable. */
    const dlupdate: bool
    var files: Files
    var versions: seq<Version>
    var updatable: set<nat>

    ghost predicate Valid()
      reads this
    {
      Aliased(files, versions) && Flagged(versions, updatable, dlupdate)
    }

    constructor (dlupdate: bool)
      ensures Valid() && files == map[] && versions == [] && updatable == {} && this.dlupdate == dlupdate
    {
      this.dlupdate := dlupdate;
      files := map[];
      versions := [];
      updatable := {};
    }

    /** A new memory file. */
    method CreateFile(bytes: seq<Byte>) returns (fd: int)
      modifies this`files
      ensures fd !in old(files) && fd != NONE && files == old(files)[fd := bytes]
    {
      var n := UnusedNumber(files.Keys);
      assert n !in files && n >= 0;
      fd :| fd !in files && fd >= 0;
      files := files[fd := bytes];
    }

    /** Maps the segments of a version in order. */
    method MapSegments(segs: seq<Segment>, alias: bool) returns (r: seq<Segment>)
      requires AllFit(segs) && NONE !in files
      requires forall m :: 0 <= m < |segs| && segs[m].fd != NONE ==> segs[m].fd in files
      modifies this`files
      ensures MapsTo(old(files), segs, alias, files, r, |segs|)
    {
      r := segs;
      ghost var before := files;
      for m := 0 to |segs|
        invariant MapsTo(before, segs, alias, files, r, m)
        invariant forall j :: 0 <= j < m && r[j].fd != NONE && r[j].fd !in before ==> r[j].fd in files
      {
        ghost var now := files;
        if segs[m].writable && alias {
          var fd := segs[m].fd;
          if fd == NONE {
            fd := CreateFile(Initial(segs[m]));
          }
          r := r[m := segs[m].(fd := fd, own := None)];
        } else {
          r := r[m := segs[m].(own := Some(Initial(segs[m])))];
        }
        assert MappedTo(before, segs[m], alias, files, r[m]);
      }
    }

    /** Loads a version of a file, a first one with its flag: an update keeps the live data of the versions before it,
        and is refused when the file is not updatable or the number of segments differs. */
    method Load(file: nat, segs: seq<Segment>, flag: bool) returns (ok: bool)
      requires Valid() && Parsed(segs)
      modifies this
      ensures Valid()
      ensures ok <==> segs != [] && (Known(old(versions), file) ==>
                        file in old(updatable) && |segs| == |old(versions)[First(old(versions), file, 0)].segments|)
      ensures !ok ==> files == old(files) && versions == old(versions) && updatable == old(updatable)
      ensures ok ==> FlagsFor(old(versions), file, old(updatable), updatable) && (!Known(old(versions), file) ==> (file in updatable <==> flag))
      ensures ok ==> exists segs' :: versions == [Version(file, segs')] + old(versions) && Loads(old(files), old(versions), file, segs, file in updatable, files, segs')
    {
      var now := segs;
      var flags := updatable;
      if Known(versions, file) {
        if file !in updatable {
          return false;
        }
        ok, now := InheritDescriptors(versions[First(versions, file, 0)].segments, segs);
        if !ok {
          return;
        }
      } else {
        flags := if flag then updatable + {file} else updatable - {file};
      }
      ok := segs != [];
      if ok {
        PreparedFits(versions, file, segs, now);
        PreparedBacked(files, versions, file, segs, now);
        var r := MapSegments(now, file in flags);
        assert Loads(old(files), versions, file, segs, file in flags, files, r);
        LoadKeepsAliased(old(files), versions, file, segs, file in flags, files, r);
        LoadKeepsFlagged(old(files), versions, file, segs, file in flags, files, r, updatable, flags, dlupdate);
        versions, updatable := [Version(file, r)] + versions, flags;
      }
    }

    /** dlopen of a file that is there sets its flag, whatever it was loaded with. */
    method Dlopen(file: nat)
      requires Valid()
      modifies this`updatable
      ensures Valid()
      ensures updatable == if dlupdate then old(updatable) + {file} else old(updatable) - {file}
    {
      forall v, m | Backed(versions, v, m) ensures FlaggedAt(versions, if dlupdate then updatable + {file} else updatable - {file}, dlupdate, v, m) {
        assert FlaggedAt(versions, updatable, dlupdate, v, m);
      }
      updatable := if dlupdate then updatable + {file} else updatable - {file};
    }

    /** The program stores a byte through a writable segment of some version. */
    method Store(v: nat, m: nat, offset: nat, b: Byte)
      requires Valid() && Has(versions, v, m) && Held(files, At(versions, v, m)) && At(versions, v, m).writable
      requires offset < |Visible(files, At(versions, v, m))|
      modifies this`files, this`versions
      ensures Valid()
      ensures files == StoredFiles(old(files), old(At(versions, v, m)), offset, b)
      ensures versions == WithSegment(old(versions), v, m, StoredSegment(old(At(versions, v, m)), offset, b))
    {
      var g := versions[v].segments[m];
      StoreKeeps(files, versions, updatable, dlupdate, v, m, offset, b);
      if g.own.None? {
        files := files[g.fd := Stored(files[g.fd], offset, b)];
      } else {
        g := g.(own := Some(Stored(g.own.value, offset, b)));
      }
      versions := WithSegment(versions, v, m, g);
    }

    /** One successful copy request of `len` bytes from `offset` on: the kernel copies some of what is left of the
        memory file, and nothing at its end. */
    method CopyRequest(g: Segment, fd: int, offset: nat, len: nat) returns (n: nat)
      requires g.fd in files && fd in files && g.fd != fd && offset <= |files[g.fd]| && files[fd] == files[g.fd][..offset]
      modifies this`files
      ensures n <= len && offset + n <= |old(files)[g.fd]| && (len > 0 && offset < |old(files)[g.fd]| ==> n > 0)
      ensures files == old(files)[fd := old(files)[g.fd][..offset + n]]
    {
      var left := |files[g.fd]| - offset;
      n :| n <= len && n <= left && (len > 0 && left > 0 ==> n > 0);
      assert files[g.fd][..offset] + files[g.fd][offset..offset + n] == files[g.fd][..offset + n];
      files := files[fd := files[fd] + files[g.fd][offset..offset + n]];
    }

    /** The copy loop for any number of successful requests: it can only end when the memory file is at least as
        long as the segment. */
    method CopyRequests(g: Segment, fd: int, requests: nat) returns (done: bool, offset: nat)
      requires g.fd in files && fd in files && g.fd != fd && files[fd] == []
      modifies this`files
      ensures g.fd in files && files[g.fd] == old(files)[g.fd]
      ensures offset <= |files[g.fd]| && files == old(files)[fd := files[g.fd][..offset]]
      ensures done ==> g.pages == offset <= |files[g.fd]|
      ensures |files[g.fd]| < g.pages ==> !done
    {
      offset := 0;
      var len := g.pages;
      ghost var source := files[g.fd];
      done := false;
      for i := 0 to requests
        invariant offset <= |source| && offset <= g.pages && len == g.pages - offset
        invariant g.fd in files && fd in files && files[g.fd] == source && files == old(files)[fd := source[..offset]]
      {
        var n := CopyRequest(g, fd, offset, len);
        offset, len := offset + n, len - n;
        if len <= 0 {
          done := true;
          return;
        }
      }
    }

    /** Copies the memory file of a segment, in as many requests as the kernel takes, or its pages when the kernel
        refuses one of them. */
    method Duplicate(g: Segment, refused: set<int>) returns (fd: int)
      requires CanCopy(files, g, refused)
      modifies this`files
      ensures fd !in old(files) && fd != NONE && files == old(files)[fd := Copied(old(files), g, refused)]
    {
      fd := CreateFile([]);
      ghost var source := files[g.fd];
      var offset, len := 0, g.pages;
      while g.fd !in refused
        invariant 0 <= offset <= g.pages && offset <= |source| && len == g.pages - offset
        invariant g.fd in files && fd in files && files[g.fd] == source && files[fd] == source[..offset]
        invariant files == old(files)[fd := source[..offset]]
        decreases len
      {
        var n := CopyRequest(g, fd, offset, len);
        offset, len := offset + n, len - n;
        if len <= 0 {
          return;
        }
      }
      // the pages are copied over whatever was copied before the refusal
      files := files[fd := if g.own.Some? then g.own.value else files[g.fd][..g.pages]];
    }

    /** Copies the memory files that one version is the first to use. */
    method CopyVersion(v: nat, replace: map<int, int>, refused: set<int>, ghost before: Files) returns (r: map<int, int>)
      requires v < |versions| && Aliased(before, versions) && Copyable(before, versions, refused)
      requires Progress(versions, refused, before, files, replace, v, 0)
      modifies this`files
      ensures Progress(versions, refused, before, files, r, v + 1, 0)
    {
      r := replace;
      for m := 0 to |versions[v].segments|
        invariant Progress(versions, refused, before, files, r, v, m)
      {
        var g := versions[v].segments[m];
        assert Has(versions, v, m) && At(versions, v, m) == g;
        if g.fd != NONE && g.fd !in r {
          assert Backed(versions, v, m) && Held(before, g);
          FirstMet(before, versions, r, v, m);
          ghost var now := files;
          var fd := Duplicate(g, refused);
          ProgressCopies(versions, refused, before, now, r, v, m, fd);
          r := r[g.fd := fd];
        } else {
          ProgressSkips(versions, refused, before, files, r, v, m);
        }
      }
      ProgressNext(versions, refused, before, files, r, v);
    }

    /** Copies every memory file in use once. */
    method CopyFiles(refused: set<int>) returns (replace: map<int, int>)
      requires Valid() && Copyable(files, versions, refused)
      modifies this`files
      ensures Progress(versions, refused, old(files), files, replace, |versions|, 0)
    {
      replace := map[];
      ghost var before := files;
      for v := 0 to |versions|
        invariant Progress(versions, refused, before, files, replace, v, 0)
      {
        replace := CopyVersion(v, replace, refused, before);
      }
    }

    /** Maps the segments of one version anew in the child. */
    method RemapVersion(v: nat, replace: map<int, int>)
      requires v < |versions| && AllFit(versions[v].segments)
      requires forall m :: Backed(versions, v, m) ==> At(versions, v, m).fd in replace
      modifies this`versions
      ensures |versions| == |old(versions)| && versions[..v] == old(versions[..v]) && versions[v + 1..] == old(versions[v + 1..])
      ensures versions[v].file == old(versions[v].file) && |versions[v].segments| == |old(versions[v].segments)|
      ensures forall m :: 0 <= m < |versions[v].segments| ==>
                versions[v].segments[m] == Remapped(replace, versions[v].file in updatable, old(versions[v].segments[m]))
    {
      var segs, alias := versions[v].segments, versions[v].file in updatable;
      for m := 0 to |segs|
        invariant |segs| == |versions[v].segments| && versions == old(versions)
        invariant forall j :: 0 <= j < |segs| ==> segs[j] == if j < m then Remapped(replace, alias, versions[v].segments[j]) else versions[v].segments[j]
      {
        if segs[m].fd != NONE {
          assert Backed(versions, v, m);
          var own := if segs[m].writable && alias then None else Some(Initial(segs[m]));
          segs := segs[m := segs[m].(fd := replace[segs[m].fd], own := own)];
        }
      }
      versions := versions[v := Version(versions[v].file, segs)];
    }

    /** Maps every segment with a descriptor anew in the child. */
    method Remap(replace: map<int, int>)
      requires forall v, m :: Backed(versions, v, m) ==> At(versions, v, m).fd in replace
      requires forall v, m :: Has(versions, v, m) ==> At(versions, v, m).Fits()
      modifies this`versions
      ensures RemappedUpTo(replace, updatable, old(versions), versions, |old(versions)|)
    {
      ghost var before := versions;
      for v := 0 to |versions|
        invariant RemappedUpTo(replace, updatable, before, versions, v)
      {
        forall m | Has(versions, v, m) ensures At(versions, v, m) == At(before, v, m) && At(versions, v, m).Fits() {
          assert Has(before, v, m);
        }
        forall m | Backed(versions, v, m) ensures At(versions, v, m).fd in replace {
          assert Has(before, v, m) && At(versions, v, m) == At(before, v, m);
          assert Backed(before, v, m);
        }
        forall m | 0 <= m < |versions[v].segments| ensures versions[v].segments[m].Fits() {
          assert Has(versions, v, m) && At(versions, v, m).Fits();
        }
        ghost var now := versions;
        RemapVersion(v, replace);
        RemapNext(replace, updatable, before, now, versions, v);
      }
    }

    /** The child of a clone: the segments are mapped anew, and the descriptors of the parent closed. */
    method Clone(replace: map<int, int>, ghost refused: set<int>, ghost before: Files) returns (child: Memory)
      requires Aliased(before, versions) && Flagged(versions, updatable, dlupdate) && NONE !in files
      requires Progress(versions, refused, before, files, replace, |versions|, 0)
      ensures fresh(child) && child.Valid() && child.updatable == updatable && child.dlupdate == dlupdate
      ensures Forked(before, versions, updatable, refused, child.files, child.versions)
    {
      child := new Memory(dlupdate);
      child.files, child.versions, child.updatable := files, versions, updatable;
      CopiedInUse(versions, refused, before, files, replace);
      forall v, m | Has(versions, v, m) ensures At(versions, v, m).Fits() {
        assert Held(before, At(versions, v, m));
      }
      child.Remap(replace);
      RemappingForks(versions, updatable, refused, before, files, replace, child.versions);
      ForkKeepsAliased(versions, updatable, refused, before, files, replace, child.versions);
      ForkKeepsFlagged(before, versions, updatable, dlupdate, refused, Without(files, replace.Keys), child.versions);
      child.files := Without(child.files, replace.Keys);
    }

    /** Forks: the child has memory files of its own. The parent closes the copies only if there is a child, so that it is
        as before if and only if the clone succeeds or no memory file is in use. `refused` tells the descriptors that the
        kernel will not copy by itself. */
    method Fork(cloned: bool, refused: set<int>) returns (child: Memory?, ghost replace: map<int, int>)
      requires Valid() && Copyable(files, versions, refused)
      modifies this`files
      ensures Valid()
      ensures cloned <==> child != null
      ensures cloned ==> fresh(child) && child.Valid() && child.updatable == updatable && child.dlupdate == dlupdate
      ensures cloned ==> Forked(old(files), versions, updatable, refused, child.files, child.versions)
      ensures (forall f :: f in replace <==> InUse(versions, f)) && (!cloned ==> Replacing(old(files), files, replace))
      ensures files == old(files) <==> cloned || forall f :: !InUse(versions, f)
    {
      ghost var before := files;
      var copies := CopyFiles(refused);
      replace := copies;
      child := null;
      CopiedInUse(versions, refused, before, files, copies);
      CopiesAreNew(before, files, copies);
      NoneReplaced(before, files, copies);
      if cloned {
        child := Clone(copies, refused, before);
        ClosingRestores(before, files, copies);
        files := Without(files, Replacements(copies));
      } else {
        MoreFiles(before, files, versions);
      }
    }
  }

  lemma NoneReplaced(before: Files, files: Files, replace: map<int, int>)
    requires NONE !in before && Replacing(before, files, replace)
    ensures NONE !in files
  {
    if NONE in files {
      assert false;
    }
  }

  lemma MoreFiles(files: Files, files': Files, vs: seq<Version>)
    requires Aliased(files, vs) && NONE !in files' && forall f :: f in files ==> f in files'
    ensures Aliased(files', vs)
  {
    forall v, m | Has(vs, v, m) ensures Held(files', At(vs, v, m)) {
      assert Held(files, At(vs, v, m));
    }
  }

  /** A process gets there by loading the library, dlopen and a store. */
  method OpenAndStore() returns (p: Memory)
    ensures fresh(p) && p.Valid() && p.updatable == {} && !p.dlupdate && Copyable(p.files, p.versions, {})
    ensures Backed(p.versions, 0, 0) && At(p.versions, 0, 0).Shared() && At(p.versions, 0, 0).writable
    ensures Held(p.files, At(p.versions, 0, 0)) && At(p.versions, 0, 0).Fits()
    ensures Visible(p.files, At(p.versions, 0, 0)) == [7] != Initial(At(p.versions, 0, 0))
  {
    p := new Memory(false);
    var segs := [Segment(1, true, 0, [], None, NONE, None)];
    var ok := p.Load(0, segs, true);
    ghost var segs' := p.versions[0].segments;
    assert p.versions == [Version(0, segs')];
    LoadedAt(map[], [], 0, segs, true, p.files, segs', 0);
    p.Dlopen(0);
    assert Has(p.versions, 0, 0) && Held(p.files, At(p.versions, 0, 0));
    p.Store(0, 0, 0, 7);
    assert p.updatable == {};
    forall v, m ensures Has(p.versions, v, m) <==> v == 0 && m == 0 {
    }
  }
}
