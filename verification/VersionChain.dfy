/** The version chain of a file: ObjectIdentity::create (src/object/identity.cpp), the
    unlinking in Object::~Object (src/object/base.cpp) and the queue of versions to be
    disabled in Loader::filemodification_load (src/loader_helper.cpp). */
module VersionChain {

  datatype Kind = Executable | Shared | Relocatable | Unsupported

  datatype Info = IdenticalHash | ErrorElf | UpdateIncompatible | FailedPreloading | FailedMapping | SuccessLoad | SuccessUpdate

  /** The file contents to load and what the steps of loading find out about them. */
  datatype Data = Data(hash: nat, size: nat, kind: Kind, patchable: bool, sameDebugHash: bool, preloads: bool, maps: bool)

  class Version {
    var hash: nat
    var size: nat
    var filePrevious: Version?

    constructor (hash: nat, size: nat)
      ensures this.hash == hash && this.size == size && filePrevious == null
    {
      this.hash, this.size, filePrevious := hash, size, null;
    }
  }

  ghost function At(chain: seq<Version>, i: nat): (v: Version?) {
    if i < |chain| then chain[i] else null
  }

  class Identity {
    const updatable: bool
    const skipIdentical: bool
    var current: Version?
    /** The versions from the current to the first one. */
    ghost var chain: seq<Version>

    ghost predicate Valid()
      reads this, chain
    {
      && current == At(chain, 0)
      && (forall i :: 0 <= i < |chain| ==> chain[i].filePrevious == At(chain, i + 1))
      && (forall i, j :: 0 <= i < j < |chain| ==> chain[i] != chain[j])
    }

    constructor (updatable: bool, skipIdentical: bool)
      ensures Valid() && chain == [] && this.updatable == updatable && this.skipIdentical == skipIdentical
    {
      this.updatable, this.skipIdentical := updatable, skipIdentical;
      current, chain := null, [];
    }

    /** The check for a version with the same contents. */
    method HasIdentical(hash: nat, size: nat) returns (found: bool)
      requires Valid()
      ensures found <==> exists v :: v in chain && v.hash == hash && v.size == size
    {
      var obj := current;
      ghost var i := 0;
      while obj != null
        invariant 0 <= i <= |chain| && obj == At(chain, i)
        invariant forall j :: 0 <= j < i ==> !(chain[j].hash == hash && chain[j].size == size)
        decreases |chain| - i
      {
        if obj.hash == hash && obj.size == size {
          return true;
        }
        obj, i := obj.filePrevious, i + 1;
      }
      found := false;
    }

    /** Takes the version behind `tmp`, at position `i`, out of the chain. */
    method CutAfter(tmp: Version, ghost i: nat)
      requires Valid() && i + 1 < |chain| && chain[i] == tmp && tmp.filePrevious != null
      modifies this`chain, tmp
      ensures Valid() && chain == old(chain)[..i + 1] + old(chain)[i + 2..]
      ensures tmp.hash == old(tmp.hash) && tmp.size == old(tmp.size)
    {
      assert tmp.filePrevious == chain[i + 1];
      tmp.filePrevious := tmp.filePrevious.filePrevious;
      chain := chain[..i + 1] + chain[i + 2..];
    }

    /** The version whose predecessor is `o`, if there is one. */
    method FindBefore(o: Version) returns (tmp: Version?, ghost i: nat)
      requires Valid() && current != o
      ensures tmp == null ==> o !in chain
      ensures tmp != null ==> i + 1 < |chain| && chain[i] == tmp && chain[i + 1] == o == tmp.filePrevious
    {
      tmp, i := current, 0;
      while tmp != null
        invariant 0 <= i <= |chain| && tmp == At(chain, i)
        invariant forall j :: 0 <= j <= i && j < |chain| ==> chain[j] != o
        decreases |chain| - i
      {
        if tmp.filePrevious == o {
          return;
        }
        tmp, i := tmp.filePrevious, i + 1;
      }
    }

    /** Object::~Object: unlink a version, wherever it is. */
    method Unlink(o: Version)
      requires Valid()
      modifies this, chain
      ensures Valid()
      ensures o !in old(chain) ==> chain == old(chain) && current == old(current) && forall v :: v in old(chain) ==> unchanged(v)
      ensures forall k :: 0 <= k < |old(chain)| && old(chain)[k] == o ==> chain == old(chain)[..k] + old(chain)[k + 1..]
      ensures forall v :: v in old(chain) ==> v.hash == old(v.hash) && v.size == old(v.size)
    {
      if current == o {
        current := o.filePrevious;
        chain := chain[1..];
      } else {
        var tmp, i := FindBefore(o);
        if tmp != null {
          CutAfter(tmp, i);
        }
      }
    }

    /** `delete o` for a version that is not or no longer in the chain. */
    method Discard(o: Version)
      requires Valid() && o !in chain
      modifies this, chain
      ensures Valid() && chain == old(chain) && current == old(current)
      ensures forall v :: v in old(chain) ==> unchanged(v)
    {
      Unlink(o);
    }

    /** ObjectIdentity::create once the object exists. */
    method Adopt(n: Version, d: Data) returns (info: Info)
      requires Valid() && n !in chain && n.filePrevious == current && d.kind != Unsupported
      modifies this, chain
      ensures Valid()
      ensures info == Outcome(d, updatable, false, old(current) == null, false)
      ensures !Succeeded(info) ==> chain == old(chain) && current == old(current)
      ensures Succeeded(info) ==> chain == [n] + old(chain)
      ensures n.hash == old(n.hash) && n.size == old(n.size)
      ensures forall v :: v in old(chain) ==> unchanged(v)
    {
      if updatable && d.kind != Relocatable && current != null {
        if !d.patchable || !d.sameDebugHash {
          Discard(n);
          return UpdateIncompatible;
        }
      }
      // from here on it is the current version, until a step fails
      current := n;
      if !d.preloads {
        current := n.filePrevious;
        Discard(n);
        return FailedPreloading;
      }
      if !d.maps {
        current := n.filePrevious;
        Discard(n);
        return FailedMapping;
      }
      chain := [n] + chain;
      return if n.filePrevious == null then SuccessLoad else SuccessUpdate;
    }

    /** ObjectIdentity::create. Every failing exit leaves chain and links as they were; a
        success puts the new version in front of them. */
    method Create(d: Data) returns (o: Version?, info: Info)
      requires Valid()
      modifies this, chain
      ensures Valid()
      ensures info == Outcome(d, updatable, skipIdentical, old(current) == null,
                              old(exists v :: v in chain && v.hash == d.hash && v.size == d.size))
      ensures Succeeded(info) <==> o != null
      ensures o == null ==> chain == old(chain) && current == old(current)
      ensures o != null ==> fresh(o) && chain == [o] + old(chain) && o.hash == d.hash && o.size == d.size
      ensures forall v :: v in old(chain) ==> unchanged(v)
    {
      if updatable && skipIdentical {
        var identical := HasIdentical(d.hash, d.size);
        if identical {
          return null, IdenticalHash;
        }
      }
      if d.kind == Unsupported {
        return null, ErrorElf;
      }
      var n := new Version(d.hash, d.size);
      n.filePrevious := current;
      info := Adopt(n, d);
      o := if Succeeded(info) then n else null;
    }
  }

  predicate Succeeded(info: Info) {
    info == SuccessLoad || info == SuccessUpdate
  }

  /** The exit that create takes. */
  function Outcome(d: Data, updatable: bool, skipIdentical: bool, first: bool, identical: bool): (info: Info)
    ensures Succeeded(info) <==>
              && d.kind != Unsupported && d.preloads && d.maps
              && (updatable && d.kind != Relocatable && !first ==> d.patchable && d.sameDebugHash)
              && (updatable && skipIdentical ==> !identical)
    ensures info == SuccessLoad ==> first
    ensures info == SuccessUpdate ==> !first
    ensures info == IdenticalHash ==> updatable && skipIdentical && identical
    ensures info == ErrorElf ==> d.kind == Unsupported
    ensures info == UpdateIncompatible ==> updatable && !first && d.kind != Relocatable && !(d.patchable && d.sameDebugHash)
    ensures info == FailedPreloading ==> !d.preloads
    ensures info == FailedMapping ==> d.preloads && !d.maps
  {
    if updatable && skipIdentical && identical then IdenticalHash
    else if d.kind == Unsupported then ErrorElf
    else if updatable && d.kind != Relocatable && !first && (!d.patchable || !d.sameDebugHash) then UpdateIncompatible
    else if !d.preloads then FailedPreloading
    else if !d.maps then FailedMapping
    else if first then SuccessLoad
    else SuccessUpdate
  }

  /** The helper thread's queue of outdated versions of a loaded file. */
  class Helper {
    const file: Identity
    var queue: seq<Version>

    constructor (file: Identity)
      requires file.Valid() && file.chain != []
      ensures Valid() && queue == [] && this.file == file
    {
      this.file, queue := file, [];
    }

    ghost predicate Valid()
      reads this, file, file.chain
    {
      && file.Valid() && file.chain != []
      && forall q <- queue :: q in file.chain[1..]
    }

    /** filemodification_load for one due file. */
    method LoadOne(d: Data, detect: bool) returns (o: Version?)
      requires Valid()
      modifies this, file, file.chain
      ensures Valid()
      ensures o == null ==> file.chain == old(file.chain) && queue == old(queue)
      ensures o != null ==> fresh(o) && file.chain == [o] + old(file.chain)
      ensures o != null ==> queue == if detect then old(queue) + [old(file.chain)[0]] else old(queue)
    {
      var info;
      o, info := file.Create(d);
      if o != null {
        assert file.chain[0] == o && file.chain[1..] == old(file.chain);
        if detect {
          queue := queue + [o.filePrevious];
        }
      }
    }

    /** Over any sequence of load attempts the chain only grows at its front, and no version
        queued for disabling is the current one, then or later. */
    method LoadAll(ds: seq<Data>, detect: bool)
      requires Valid()
      modifies this, file, file.chain
      ensures Valid()
      ensures |old(file.chain)| <= |file.chain| && file.chain[|file.chain| - |old(file.chain)|..] == old(file.chain)
      ensures old(queue) <= queue
      ensures forall q <- queue :: q != file.current
    {
      ghost var added: seq<Version> := [];
      for i := 0 to |ds|
        invariant Valid()
        invariant file.chain == added + old(file.chain)
        invariant forall k :: 0 <= k < |added| ==> fresh(added[k])
        invariant old(queue) <= queue
      {
        var o := LoadOne(ds[i], detect);
        if o != null {
          ghost var n: Version := o;
          Prepend(n, added, old(file.chain));
          added := [n] + added;
        }
      }
      QueuedNotCurrent();
      Suffix(added, old(file.chain));
    }

    lemma QueuedNotCurrent()
      requires Valid()
      ensures forall q <- queue :: q != file.current
    {
    }
  }

  lemma Suffix<T>(s: seq<T>, t: seq<T>)
    ensures (s + t)[|s + t| - |t|..] == t
  {
  }

  lemma Prepend<T>(x: T, s: seq<T>, t: seq<T>)
    ensures [x] + (s + t) == ([x] + s) + t
  {
  }
}
