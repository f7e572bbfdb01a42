/**
 * Symbol versions (src/object/dynamic.hpp, src/symbol.hpp): the version an index stands for, and the
 * index under which a version is found again.
 *
 * `H` is the ELF hash. Names are compared only when their hashes agree, as in the source.
 */
module SymbolVersion {

  import opened Common

  type Hash = string -> nat

  const GLOBAL := 1

  /** An entry of the version definition section; the base entry names the file itself. */
  datatype Definition = Definition(index: nat, base: bool, name: string, hash: nat, weak: bool)

  /** A version needed from a file. */
  datatype Needed = Needed(index: nat, name: string, hash: nat, weak: bool)
  datatype NeededFile = NeededFile(file: string, versions: seq<Needed>)

  datatype Tables = Tables(needed: seq<NeededFile>, defined: seq<Definition>)

  datatype Version = Version(valid: bool, name: Option<string>, hash: nat, weak: bool, file: Option<string>, filehash: nat)

  // ---------------------------------------------------------------------------
  // From an index to its version

  function NeededByIndex(vs: seq<Needed>, index: nat): (r: Option<Needed>) {
    if vs == [] then None else if vs[0].index == index then Some(vs[0]) else NeededByIndex(vs[1..], index)
  }

  function FileByIndex(fs: seq<NeededFile>, index: nat): (r: Option<(string, Needed)>) {
    if fs == [] then None
    else match NeededByIndex(fs[0].versions, index)
      case Some(v) => Some((fs[0].file, v))
      case None => FileByIndex(fs[1..], index)
  }

  function DefinedByIndex(ds: seq<Definition>, index: nat): (r: Option<Definition>) {
    if ds == [] then None else if ds[0].index == index && !ds[0].base then Some(ds[0]) else DefinedByIndex(ds[1..], index)
  }

  /** The last base entry. */
  function LastBase(ds: seq<Definition>): (r: Option<Definition>) {
    if ds == [] then None
    else if ds[|ds| - 1].base then Some(ds[|ds| - 1])
    else LastBase(ds[..|ds| - 1])
  }

  function GetVersion(H: Hash, t: Tables, index: nat): (r: Version) {
    if index == GLOBAL then Version(true, None, 0, false, None, 0)
    else match FileByIndex(t.needed, index)
      case Some((file, v)) => Version(true, Some(v.name), v.hash, v.weak, Some(file), H(file))
      case None =>
        match DefinedByIndex(t.defined, index)
        case Some(d) =>
          (match LastBase(t.defined)
           case Some(b) => Version(true, Some(d.name), d.hash, d.weak, Some(b.name), b.hash)
           case None => Version(true, Some(d.name), d.hash, d.weak, None, 0))
        case None => Version(false, None, 0, false, None, 0)
  }

  /** The k-th version needed from a file is the first one with this index. */
  ghost predicate FirstNeeded(vs: seq<Needed>, index: nat, k: nat) {
    k < |vs| && vs[k].index == index && forall j :: 0 <= j < k ==> vs[j].index != index
  }

  ghost predicate NotNeeded(fs: seq<NeededFile>, index: nat) {
    forall f, j :: 0 <= f < |fs| && 0 <= j < |fs[f].versions| ==> fs[f].versions[j].index != index
  }

  lemma {:induction false} NeededByIndexIs(vs: seq<Needed>, index: nat, k: nat)
    requires FirstNeeded(vs, index, k)
    ensures NeededByIndex(vs, index) == Some(vs[k])
  {
    if k > 0 {
      assert vs[0].index != index;
      NeededByIndexIs(vs[1..], index, k - 1);
    }
  }

  lemma {:induction false} NeededByIndexNone(vs: seq<Needed>, index: nat)
    requires forall j :: 0 <= j < |vs| ==> vs[j].index != index
    ensures NeededByIndex(vs, index) == None
  {
    if vs != [] {
      NeededByIndexNone(vs[1..], index);
    }
  }

  lemma {:induction false} FileByIndexIs(fs: seq<NeededFile>, index: nat, f: nat, k: nat)
    requires f < |fs| && FirstNeeded(fs[f].versions, index, k) && NotNeeded(fs[..f], index)
    ensures FileByIndex(fs, index) == Some((fs[f].file, fs[f].versions[k]))
  {
    if f == 0 {
      NeededByIndexIs(fs[0].versions, index, k);
    } else {
      assert fs[..f][0] == fs[0];
      NeededByIndexNone(fs[0].versions, index);
      assert fs[1..][..f - 1] == fs[..f][1..];
      FileByIndexIs(fs[1..], index, f - 1, k);
    }
  }

  lemma {:induction false} FileByIndexNone(fs: seq<NeededFile>, index: nat)
    requires NotNeeded(fs, index)
    ensures FileByIndex(fs, index) == None
  {
    if fs != [] {
      NeededByIndexNone(fs[0].versions, index);
      FileByIndexNone(fs[1..], index);
    }
  }

  lemma {:induction false} DefinedByIndexIs(ds: seq<Definition>, index: nat, k: nat)
    requires k < |ds| && ds[k].index == index && !ds[k].base && forall j :: 0 <= j < k ==> ds[j].index != index || ds[j].base
    ensures DefinedByIndex(ds, index) == Some(ds[k])
  {
    if k > 0 {
      assert ds[0].index != index || ds[0].base;
      DefinedByIndexIs(ds[1..], index, k - 1);
    }
  }

  lemma {:induction false} LastBaseIs(ds: seq<Definition>, k: nat)
    requires k < |ds| && ds[k].base && forall j :: k < j < |ds| ==> !ds[j].base
    ensures LastBase(ds) == Some(ds[k])
  {
    if k < |ds| - 1 {
      LastBaseIs(ds[..|ds| - 1], k);
    }
  }

  /** A needed version has the name, hash and binding of the first entry with its index, and the file it is needed from. */
  lemma VersionOfNeeded(H: Hash, t: Tables, index: nat, f: nat, k: nat)
    requires index != GLOBAL && f < |t.needed| && FirstNeeded(t.needed[f].versions, index, k) && NotNeeded(t.needed[..f], index)
    ensures var v := t.needed[f].versions[k];
            GetVersion(H, t, index) == Version(true, Some(v.name), v.hash, v.weak, Some(t.needed[f].file), H(t.needed[f].file))
  {
    FileByIndexIs(t.needed, index, f, k);
  }

  /** A defined version has those of the first entry with its index that is no base, and the file of the last base entry
      b. */
  lemma VersionOfDefinition(H: Hash, t: Tables, index: nat, k: nat, b: nat)
    requires index != GLOBAL && NotNeeded(t.needed, index)
    requires k < |t.defined| && t.defined[k].index == index && !t.defined[k].base
    requires forall j :: 0 <= j < k ==> t.defined[j].index != index || t.defined[j].base
    requires b < |t.defined| && t.defined[b].base && forall j :: b < j < |t.defined| ==> !t.defined[j].base
    ensures var d, base := t.defined[k], t.defined[b];
            GetVersion(H, t, index) == Version(true, Some(d.name), d.hash, d.weak, Some(base.name), base.hash)
  {
    FileByIndexNone(t.needed, index);
    DefinedByIndexIs(t.defined, index, k);
    LastBaseIs(t.defined, b);
  }

  // ---------------------------------------------------------------------------
  // From a version to its index

  /** The first base entry. */
  function FirstBase(ds: seq<Definition>): (r: Option<Definition>) {
    if ds == [] then None else if ds[0].base then Some(ds[0]) else FirstBase(ds[1..])
  }

  function DefinedByName(ds: seq<Definition>, name: string, hash: nat): (r: Option<nat>) {
    if ds == [] then None
    else if ds[0].hash == hash && !ds[0].base && ds[0].name == name then Some(ds[0].index)
    else DefinedByName(ds[1..], name, hash)
  }

  function NeededByName(vs: seq<Needed>, name: string, hash: nat): (r: Option<nat>) {
    if vs == [] then None
    else if vs[0].hash == hash && vs[0].name == name then Some(vs[0].index)
    else NeededByName(vs[1..], name, hash)
  }

  function FileByName(fs: seq<NeededFile>, file: Option<string>, name: string, hash: nat): (r: Option<nat>) {
    if fs == [] then None
    else if file == None || fs[0].file == file.value then
      match NeededByName(fs[0].versions, name, hash)
      case Some(i) => Some(i)
      case None => FileByName(fs[1..], file, name, hash)
    else FileByName(fs[1..], file, name, hash)
  }

  /** The version is from another file than this one. */
  predicate SkipsDefinitions(ds: seq<Definition>, file: Option<string>, filehash: nat) {
    file.Some? && FirstBase(ds).Some? && (filehash != FirstBase(ds).value.hash || FirstBase(ds).value.name != file.value)
  }

  function VersionIndex(t: Tables, v: Version): (r: nat) {
    if !v.valid || v.name == None then GLOBAL
    else
      var defined: Option<nat> := if SkipsDefinitions(t.defined, v.file, v.filehash) then None else DefinedByName(t.defined, v.name.value, v.hash);
      match defined
      case Some(i) => i
      case None =>
        match FileByName(t.needed, v.file, v.name.value, v.hash)
        case Some(i) => i
        case None => GLOBAL
  }

  /** The index is that of a definition with this name and hash, or of a version with them that is needed from the file,
      if one is given. */
  ghost predicate Answers(t: Tables, v: Version, index: nat)
    requires v.name.Some?
  {
    || (exists d :: d in t.defined && IsDefinition(d, v, index))
    || (exists f, x :: f in t.needed && x in f.versions && IsNeeded(f, x, v, index))
  }

  predicate IsDefinition(d: Definition, v: Version, index: nat)
    requires v.name.Some?
  {
    !d.base && d.index == index && d.name == v.name.value && d.hash == v.hash
  }

  predicate IsNeeded(f: NeededFile, x: Needed, v: Version, index: nat)
    requires v.name.Some?
  {
    x.index == index && x.name == v.name.value && x.hash == v.hash && (v.file.None? || f.file == v.file.value)
  }

  lemma {:induction false} DefinedByNameSound(ds: seq<Definition>, name: string, hash: nat)
    ensures var r := DefinedByName(ds, name, hash);
            r.Some? ==> exists d :: d in ds && !d.base && d.index == r.value && d.name == name && d.hash == hash
  {
    if ds != [] {
      DefinedByNameSound(ds[1..], name, hash);
      assert ds == [ds[0]] + ds[1..];
    }
  }

  lemma {:induction false} NeededByNameSound(vs: seq<Needed>, name: string, hash: nat)
    ensures var r := NeededByName(vs, name, hash);
            r.Some? ==> exists x :: x in vs && x.index == r.value && x.name == name && x.hash == hash
  {
    if vs != [] {
      NeededByNameSound(vs[1..], name, hash);
      assert vs == [vs[0]] + vs[1..];
    }
  }

  lemma {:induction false} FileByNameSound(fs: seq<NeededFile>, v: Version)
    requires v.name.Some?
    ensures var r := FileByName(fs, v.file, v.name.value, v.hash);
            r.Some? ==> exists f, x :: f in fs && x in f.versions && IsNeeded(f, x, v, r.value)
  {
    if fs != [] {
      FileByNameSound(fs[1..], v);
      NeededByNameSound(fs[0].versions, v.name.value, v.hash);
      assert fs == [fs[0]] + fs[1..];
      if (v.file == None || fs[0].file == v.file.value) && NeededByName(fs[0].versions, v.name.value, v.hash).Some? {
        var i := NeededByName(fs[0].versions, v.name.value, v.hash).value;
        var x :| x in fs[0].versions && x.index == i && x.name == v.name.value && x.hash == v.hash;
        assert IsNeeded(fs[0], x, v, i);
      }
    }
  }

  /** Only an entry that answers for the version is found; without one, or without a name, the index is the global one. */
  lemma IndexAnswers(t: Tables, v: Version)
    ensures VersionIndex(t, v) == GLOBAL || (v.valid && v.name.Some? && Answers(t, v, VersionIndex(t, v)))
  {
    if v.valid && v.name.Some? {
      DefinedByNameSound(t.defined, v.name.value, v.hash);
      FileByNameSound(t.needed, v);
      var r := DefinedByName(t.defined, v.name.value, v.hash);
      if r.Some? {
        var d :| d in t.defined && !d.base && d.index == r.value && d.name == v.name.value && d.hash == v.hash;
        assert IsDefinition(d, v, r.value);
      }
    }
  }

  // ---------------------------------------------------------------------------
  // Well-formed tables

  /** No two versions have the same name; base entries aside. */
  ghost predicate DistinctNames(ds: seq<Definition>) {
    forall i, j :: 0 <= i < j < |ds| && !ds[i].base && !ds[j].base ==> ds[i].name != ds[j].name
  }

  ghost predicate OneBase(ds: seq<Definition>) {
    forall i, j :: 0 <= i < j < |ds| ==> !(ds[i].base && ds[j].base)
  }

  ghost predicate DistinctNeeded(vs: seq<Needed>) {
    forall i, j :: 0 <= i < j < |vs| ==> vs[i].name != vs[j].name
  }

  ghost predicate DistinctFiles(fs: seq<NeededFile>) {
    && (forall i, j :: 0 <= i < j < |fs| ==> fs[i].file != fs[j].file)
    && (forall i :: 0 <= i < |fs| ==> DistinctNeeded(fs[i].versions))
  }

  ghost predicate Hashed(H: Hash, ds: seq<Definition>) {
    forall i :: 0 <= i < |ds| ==> ds[i].hash == H(ds[i].name)
  }

  ghost predicate WellFormed(H: Hash, t: Tables) {
    && DistinctNames(t.defined) && OneBase(t.defined) && Hashed(H, t.defined)
    && DistinctFiles(t.needed)
  }

  // ---------------------------------------------------------------------------
  // Round trip

  lemma {:induction false} FoundAgain(ds: seq<Definition>, index: nat)
    requires DistinctNames(ds) && DefinedByIndex(ds, index).Some?
    ensures var d := DefinedByIndex(ds, index).value;
            d in ds && !d.base && d.index == index && DefinedByName(ds, d.name, d.hash) == Some(index)
  {
    if ds[0].index != index || ds[0].base {
      FoundAgain(ds[1..], index);
      var d := DefinedByIndex(ds[1..], index).value;
      var k :| 0 <= k < |ds[1..]| && ds[1..][k] == d;
      assert ds[k + 1] == d;
    }
  }

  lemma {:induction false} NeededAgain(vs: seq<Needed>, index: nat)
    requires DistinctNeeded(vs) && NeededByIndex(vs, index).Some?
    ensures var v := NeededByIndex(vs, index).value;
            v in vs && v.index == index && NeededByName(vs, v.name, v.hash) == Some(index)
  {
    if vs[0].index != index {
      NeededAgain(vs[1..], index);
      var v := NeededByIndex(vs[1..], index).value;
      var k :| 0 <= k < |vs[1..]| && vs[1..][k] == v;
      assert vs[k + 1] == v;
    }
  }

  lemma {:induction false} FileAgain(fs: seq<NeededFile>, index: nat)
    requires DistinctFiles(fs) && FileByIndex(fs, index).Some?
    ensures var (file, v) := FileByIndex(fs, index).value;
            (exists k :: 0 <= k < |fs| && fs[k].file == file) && FileByName(fs, Some(file), v.name, v.hash) == Some(index)
  {
    if NeededByIndex(fs[0].versions, index).Some? {
      NeededAgain(fs[0].versions, index);
    } else {
      FileAgain(fs[1..], index);
      var (file, v) := FileByIndex(fs[1..], index).value;
      var k :| 0 <= k < |fs[1..]| && fs[1..][k].file == file;
      assert fs[k + 1].file == file;
    }
  }

  lemma {:induction false} BasesAgree(ds: seq<Definition>)
    requires OneBase(ds)
    ensures LastBase(ds) == FirstBase(ds)
    ensures FirstBase(ds).Some? ==> FirstBase(ds).value in ds && FirstBase(ds).value.base
    decreases |ds|
  {
    if ds != [] {
      var k := |ds| - 1;
      BasesAgree(ds[..k]);
      FirstBaseSnoc(ds);
      if ds[k].base && FirstBase(ds[..k]).Some? {
        assert false;
      }
    }
  }

  lemma {:induction false} FirstBaseSnoc(ds: seq<Definition>)
    requires ds != []
    ensures var k := |ds| - 1;
            FirstBase(ds) == if FirstBase(ds[..k]).Some? then FirstBase(ds[..k]) else if ds[k].base then Some(ds[k]) else None
  {
    if |ds| > 1 {
      FirstBaseSnoc(ds[1..]);
      assert ds[1..][..|ds| - 2] == ds[..|ds| - 1][1..];
    }
  }

  /** A defined version is found under its index again. */
  lemma DefinedRoundTrip(H: Hash, t: Tables, index: nat)
    requires WellFormed(H, t) && index != GLOBAL && FileByIndex(t.needed, index).None? && DefinedByIndex(t.defined, index).Some?
    ensures VersionIndex(t, GetVersion(H, t, index)) == index
  {
    FoundAgain(t.defined, index);
    BasesAgree(t.defined);
  }

  /** A needed version is found under its index again, if and only if no definition answers for it: one can when
      there is no base entry, or when the base entry has the name of the needed file. */
  lemma NeededRoundTripIff(H: Hash, t: Tables, index: nat)
    requires WellFormed(H, t) && index != GLOBAL && FileByIndex(t.needed, index).Some?
    ensures var (file, v) := FileByIndex(t.needed, index).value;
            VersionIndex(t, GetVersion(H, t, index)) == index <==>
              (FirstBase(t.defined).Some? && FirstBase(t.defined).value.name != file) ||
              DefinedByName(t.defined, v.name, v.hash) in {None, Some(index)}
  {
    FileAgain(t.needed, index);
    BasesAgree(t.defined);
  }

  /** A case in which one does: a table without a base entry, that defines a version of the name it needs. */
  lemma DefinitionAnswersForNeeded(H: Hash)
    ensures var t := Tables([NeededFile("liba", [Needed(2, "V1", H("V1"), false)])], [Definition(3, false, "V1", H("V1"), false)]);
            WellFormed(H, t) && VersionIndex(t, GetVersion(H, t, 2)) == 3
  {
    var t := Tables([NeededFile("liba", [Needed(2, "V1", H("V1"), false)])], [Definition(3, false, "V1", H("V1"), false)]);
    assert FirstBase(t.defined[1..]) == None;
    assert FileByIndex(t.needed, 2) == Some(("liba", t.needed[0].versions[0]));
  }

  /** With a base entry and no file that needs itself, all indices that stand for a version survive the round trip. */
  lemma RoundTrip(H: Hash, t: Tables, index: nat)
    requires WellFormed(H, t)
    requires t.defined != [] ==> FirstBase(t.defined).Some? && forall i :: 0 <= i < |t.needed| ==> t.needed[i].file != FirstBase(t.defined).value.name
    requires index == GLOBAL || FileByIndex(t.needed, index).Some? || DefinedByIndex(t.defined, index).Some?
    ensures VersionIndex(t, GetVersion(H, t, index)) == index
  {
    if index != GLOBAL {
      if FileByIndex(t.needed, index).Some? {
        FileAgain(t.needed, index);
        NeededRoundTripIff(H, t, index);
      } else {
        DefinedRoundTrip(H, t, index);
      }
    }
  }
}
