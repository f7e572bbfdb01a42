/** Double-buffered memory segments (src/memory_segment.cpp), the composing writes of
    Object::compose_pointer (src/object/base.hpp) and the copy-back of
    Loader::userfault_handle (src/loader_helper.cpp). */
module Segment {
  import opened Common

  type Bytes = seq<Byte>

  datatype Status = NotMapped | Mapped | Inactive | Reactivated

  datatype Protection = Protection(read: bool, write: bool, exec: bool)

  // ---------------------------------------------------------------------------
  // A segment as a value: page contents at the target and in the back buffer

  /** `live` is what the process sees at the target pages (nothing while they are disabled),
      `back` the contents of the back buffer, `privanon` whether the target is a private
      anonymous mapping, `source` the bytes of the file for these pages, and `shifted` whether
      the segment starts inside a page. `effective` is what the loader takes for the protection of
      the target; `liveWritable` and `backWritable` are whether the pages can in fact be written. */
  datatype Seg = Seg(live: Option<Bytes>, back: Option<Bytes>, status: Status, privanon: bool,
                     protection: Protection, effective: Protection, source: Bytes, shifted: bool,
                     liveWritable: bool, backWritable: bool)

  ghost predicate WellFormed(s: Seg, size: nat) {
    && (s.live.Some? <==> s.status == Mapped || s.status == Reactivated)
    && (s.live.Some? ==> |s.live.value| == size)
    && (s.back.Some? ==> |s.back.value| == size && s.status != NotMapped)
    && (s.back.Some? && s.status != Mapped ==> s.privanon)
    && |s.source| == size
  }

  /** A non-writable segment outside the start-up phase. */
  predicate ReadOnly(s: Seg) {
    !s.protection.write && !s.effective.write
  }

  /** What the segment is to show next: the back buffer if there is one, the file when a disabled
      segment has none. */
  function Content(s: Seg): (c: Option<Bytes>) {
    if s.back.Some? then s.back else if s.status == Inactive then Some(s.source) else s.live
  }

  datatype Place = Failed | Direct | Buffered

  /** map() with success; a mapping that had to be filled stays writable until finalize. */
  function MapSegment(s: Seg, image: Bytes, copy: bool): (r: Seg) {
    s.(live := Some(image), status := Mapped, effective := s.protection.(write := s.protection.write || copy),
       liveWritable := s.protection.write || copy)
  }

  /** compose() on a mapped segment without back buffer. */
  function ComposeMapped(s: Seg, started: bool, mprotectOk: bool, mmapOk: bool): (r: (Seg, Place)) {
    if s.effective.write then (s, Direct)
    else if !started && mprotectOk then (s.(effective := s.effective.(write := true), liveWritable := true), Direct)
    else if mmapOk then (s.(back := s.live, backWritable := true), Buffered)
    else (s, Failed)
  }

  /** compose(): where writes go afterwards. The flags are the outcomes of the system calls
      it may make; mapping never replaces pages that are already there. */
  function Composed(s: Seg, image: Bytes, copy: bool, started: bool, mapOk: bool, mprotectOk: bool, mmapOk: bool): (r: (Seg, Place)) {
    if s.back.Some? then (s, Buffered)
    else if s.status == Mapped then ComposeMapped(s, started, mprotectOk, mmapOk)
    else if s.status == NotMapped && mapOk then ComposeMapped(MapSegment(s, image, copy), started, mprotectOk, mmapOk)
    else (s, Failed)
  }

  /** finalize(). The buffer gets the protection of the target before it is moved there, and keeps it when it cannot
      be moved. */
  function Finalized(s: Seg, mprotectOk: bool, mremapOk: bool): (r: (Seg, bool)) {
    if s.status == Inactive then (s, true)
    else if s.back.Some? then
      var p := if mprotectOk then s.(effective := s.protection, backWritable := s.protection.write) else s;
      if mremapOk then (p.(live := s.back, back := None, privanon := true, liveWritable := p.backWritable), mprotectOk) else (p, false)
    else if s.status == NotMapped then (s, false)
    else if s.effective == s.protection then (s, true)
    else if mprotectOk then (s.(effective := s.protection, liveWritable := s.protection.write), true)
    else (s, false)
  }

  /** The outcomes of the system calls in disable(). The last one, which makes the moved pages writable, is ignored. */
  datatype DisableCalls = DisableCalls(mmapOk: bool, mprotectOk: bool, mremapOk: bool, registerOk: bool, moveOk: bool, writeOk: bool)

  /** Where disable() is to move the target: nowhere, to a place of its own, or to address 0. */
  datatype Room = NoRoom | OwnPlace | AtZero

  /** disable() up to the registration. It goes on when compose() returns an address, although that is
      only the place within the page when there is no back buffer. */
  function MakePrivate(s: Seg, k: DisableCalls): (r: (Seg, Room)) {
    if s.privanon then (s, if k.mmapOk then OwnPlace else NoRoom)
    else
      var (c, place) := Composed(s, [], false, true, false, k.mprotectOk, k.mmapOk);
      var (f, ok) := Finalized(c, k.mprotectOk, k.mremapOk);
      if place == Failed && !(s.status == Mapped && s.shifted) then (c, NoRoom)
      else if !ok then (f, NoRoom)
      else (f, if place == Buffered then OwnPlace else AtZero)
  }

  /** disable() with detection by userfaultfd. A target moved to address 0 counts as one without a buffer. */
  function Disabled(s: Seg, k: DisableCalls): (r: (Seg, bool)) {
    if s.status == NotMapped then (s, false)
    else if s.status == Inactive then (s, true)
    else
      var (p, room) := MakePrivate(s, k);
      if room == NoRoom || !k.registerOk || !k.moveOk then (p, false)
      else if room == OwnPlace then
        (p.(back := p.live, live := None, status := Inactive, effective := p.protection, backWritable := k.writeOk || p.liveWritable), true)
      else (p.(back := None, live := None, status := Inactive, effective := p.protection), true)
  }

  /** The copy-back of a page fault in disabled pages: from the back buffer, or from the file. */
  function FaultCopied(s: Seg, copyOk: bool): (r: Seg) {
    if s.status == Inactive && copyOk then s.(live := Content(s), status := Reactivated) else s
  }

  // ---------------------------------------------------------------------------
  // Runs of a started process

  datatype Op =
    | Write(index: nat, byte: Byte, mmapOk: bool)
    | Publish(mprotectOk: bool, mremapOk: bool)
    | Deactivate(calls: DisableCalls)
    | Fault(copyOk: bool)

  /** A store through compose_pointer. Into a buffer that cannot be written it faults, and changes nothing. */
  function Store(s: Seg, i: nat, b: Byte, mmapOk: bool): (r: Seg) {
    var (c, place) := Composed(s, [], false, true, false, false, mmapOk);
    if place == Buffered && c.backWritable && c.back.Some? && i < |c.back.value| then c.(back := Some(c.back.value[i := b]))
    else if place == Direct && c.live.Some? && i < |c.live.value| then c.(live := Some(c.live.value[i := b]))
    else c
  }

  function Apply(s: Seg, op: Op): (r: Seg) {
    match op
    case Write(i, b, mmapOk) => Store(s, i, b, mmapOk)
    case Publish(mprotectOk, mremapOk) => Finalized(s, mprotectOk, mremapOk).0
    case Deactivate(k) => Disabled(s, k).0
    case Fault(copyOk) => FaultCopied(s, copyOk)
  }

  /** There is a back buffer, and it can be written. */
  predicate Writable(s: Seg) {
    s.back.Some? && s.backWritable
  }

  /** The write took place: compose had such a buffer, or got one. */
  predicate Takes(s: Seg, op: Op) {
    op.Write? && (Writable(s) || (s.back.None? && s.status == Mapped && op.mmapOk))
  }

  /** The write goes to a buffer that cannot be written. */
  predicate Faults(s: Seg, op: Op) {
    op.Write? && s.back.Some? && !s.backWritable
  }

  function Put(c: Option<Bytes>, i: nat, b: Byte): (r: Option<Bytes>) {
    if c.Some? && i < |c.value| then Some(c.value[i := b]) else c
  }

  /** A disable that drops an unpublished back buffer: the target is already private and anonymous, so
      its pages are moved over a back buffer that differs from them. */
  predicate DropsBuffer(s: Seg) {
    s.status != Inactive && s.privanon && s.back.Some? && s.back != s.live
  }

  /** A disable that drops all changes to the file: there is no memory for a back buffer, which goes
      unnoticed for a segment that starts inside a page. */
  predicate DropsChanges(s: Seg, k: DisableCalls) {
    s.status == Mapped && !s.privanon && s.back.None? && !k.mmapOk && s.shifted && s.live != Some(s.source)
  }

  predicate Lossy(s: Seg, op: Op) {
    op.Deactivate? && Disabled(s, op.calls).1 && (DropsBuffer(s) || DropsChanges(s, op.calls))
  }

  lemma ApplyKeepsWellFormed(s: Seg, size: nat, op: Op)
    requires WellFormed(s, size) && ReadOnly(s) && s.status != NotMapped
    ensures WellFormed(Apply(s, op), size) && ReadOnly(Apply(s, op)) && Apply(s, op).status != NotMapped
  {
    if op.Deactivate? {
      DisabledWellFormed(s, size, op.calls);
    }
  }

  lemma DisabledWellFormed(s: Seg, size: nat, k: DisableCalls)
    requires WellFormed(s, size) && ReadOnly(s) && s.status != NotMapped
    ensures var r := Disabled(s, k).0; WellFormed(r, size) && ReadOnly(r) && r.status != NotMapped
  {
    if s.status != Inactive {
      MakePrivateWellFormed(s, size, k);
    }
  }

  lemma MakePrivateWellFormed(s: Seg, size: nat, k: DisableCalls)
    requires WellFormed(s, size) && ReadOnly(s) && (s.status == Mapped || s.status == Reactivated)
    ensures var (p, room) := MakePrivate(s, k);
            && WellFormed(p, size) && ReadOnly(p) && p.status == s.status && (room == OwnPlace ==> p.privanon)
            && (room == NoRoom ==> Content(p) == Content(s))
            && (room != NoRoom && !s.privanon ==> p.live == Content(s))
  {
  }

  /** Each operation changes the intended contents by exactly its write. */
  lemma ApplyContent(s: Seg, size: nat, op: Op)
    requires WellFormed(s, size) && ReadOnly(s) && s.status != NotMapped && !Lossy(s, op)
    ensures Content(Apply(s, op)) == if Takes(s, op) then Put(Content(s), op.index, op.byte) else Content(s)
  {
    if op.Deactivate? {
      DisabledContent(s, size, op.calls);
    }
  }

  lemma DisabledContent(s: Seg, size: nat, k: DisableCalls)
    requires WellFormed(s, size) && ReadOnly(s) && s.status != NotMapped && !Lossy(s, Deactivate(k))
    ensures Content(Disabled(s, k).0) == Content(s)
  {
    if s.status != Inactive {
      MakePrivateWellFormed(s, size, k);
    }
  }

  /** What the process sees changes only to the whole intended contents, and never by a write. */
  lemma ApplyLive(s: Seg, size: nat, op: Op)
    requires WellFormed(s, size) && ReadOnly(s) && s.status != NotMapped
    ensures var r := Apply(s, op);
            && (op.Write? ==> r.live == s.live)
            && (r.live == s.live || r.live.None? || r.live == Content(s))
  {
  }

  ghost function Run(s: Seg, ops: seq<Op>): (r: Seg) {
    if ops == [] then s else Apply(Run(s, ops[..|ops| - 1]), ops[|ops| - 1])
  }

  /** The run drops no unpublished write. */
  ghost predicate Lossless(s: Seg, ops: seq<Op>) {
    ops != [] ==>
      Lossless(s, ops[..|ops| - 1]) && !Lossy(Run(s, ops[..|ops| - 1]), ops[|ops| - 1])
  }

  /** The contents with all writes of the run that took place, in order. */
  ghost function Overlaid(s: Seg, ops: seq<Op>): (c: Option<Bytes>) {
    if ops == [] then Content(s)
    else
      var init, last := ops[..|ops| - 1], ops[|ops| - 1];
      if Takes(Run(s, init), last) then Put(Overlaid(s, init), last.index, last.byte) else Overlaid(s, init)
  }

  lemma {:induction false} RunKeepsWellFormed(s: Seg, size: nat, ops: seq<Op>)
    requires WellFormed(s, size) && ReadOnly(s) && s.status != NotMapped
    ensures WellFormed(Run(s, ops), size) && ReadOnly(Run(s, ops)) && Run(s, ops).status != NotMapped
  {
    if ops != [] {
      RunKeepsWellFormed(s, size, ops[..|ops| - 1]);
      ApplyKeepsWellFormed(Run(s, ops[..|ops| - 1]), size, ops[|ops| - 1]);
    }
  }

  /** The intended contents are the original ones overlaid with exactly the composed writes. */
  lemma {:induction false} RunContent(s: Seg, size: nat, ops: seq<Op>)
    requires WellFormed(s, size) && ReadOnly(s) && s.status != NotMapped && Lossless(s, ops)
    ensures Content(Run(s, ops)) == Overlaid(s, ops)
  {
    if ops != [] {
      var init := ops[..|ops| - 1];
      RunContent(s, size, init);
      RunKeepsWellFormed(s, size, init);
      ApplyContent(Run(s, init), size, ops[|ops| - 1]);
    }
  }

  /** The k-th operation of the run stores a byte at x. */
  ghost predicate StoresAt(s: Seg, ops: seq<Op>, k: int, x: nat) {
    0 <= k < |ops| && Takes(Run(s, ops[..k]), ops[k]) && ops[k].index == x
  }

  /** It is the last one that does. */
  ghost predicate LastAt(s: Seg, ops: seq<Op>, k: int, x: nat) {
    StoresAt(s, ops, k, x) && forall j :: k < j < |ops| ==> !StoresAt(s, ops, j, x)
  }

  lemma StoresBefore(s: Seg, ops: seq<Op>, k: int, x: nat)
    requires 0 <= k < |ops| - 1
    ensures StoresAt(s, ops, k, x) <==> StoresAt(s, ops[..|ops| - 1], k, x)
  {
    assert ops[..|ops| - 1][..k] == ops[..k];
  }

  lemma OverlaidNext(s: Seg, size: nat, ops: seq<Op>, x: nat)
    requires ops != [] && x < size
    requires var c := Overlaid(s, ops[..|ops| - 1]); c.Some? && |c.value| == size
    ensures var n, c, d := |ops| - 1, Overlaid(s, ops[..|ops| - 1]), Overlaid(s, ops);
            d.Some? && |d.value| == size && d.value[x] == if StoresAt(s, ops, n, x) then ops[n].byte else c.value[x]
  {
  }

  /** Byte by byte: a run leaves at x what its last write there stored, or else what was there. */
  lemma {:induction false} OverlaidByte(s: Seg, size: nat, ops: seq<Op>, x: nat)
    requires WellFormed(s, size) && s.status != NotMapped && x < size
    ensures Content(s).Some? && |Content(s).value| == size && Overlaid(s, ops).Some? && |Overlaid(s, ops).value| == size
    ensures forall k :: LastAt(s, ops, k, x) ==> Overlaid(s, ops).value[x] == ops[k].byte
    ensures (forall k :: !StoresAt(s, ops, k, x)) ==> Overlaid(s, ops).value[x] == Content(s).value[x]
  {
    if ops != [] {
      var n := |ops| - 1;
      OverlaidByte(s, size, ops[..n], x);
      OverlaidNext(s, size, ops, x);
      forall k | 0 <= k < n ensures StoresAt(s, ops, k, x) <==> StoresAt(s, ops[..n], k, x) {
        StoresBefore(s, ops, k, x);
      }
      if !StoresAt(s, ops, n, x) {
        forall k | LastAt(s, ops, k, x) ensures LastAt(s, ops[..n], k, x) {
          assert k != n;
        }
      }
    }
  }

  /** So it is with the contents after every run that drops nothing. */
  lemma RunByte(s: Seg, size: nat, ops: seq<Op>, x: nat)
    requires WellFormed(s, size) && ReadOnly(s) && s.status != NotMapped && Lossless(s, ops) && x < size
    ensures Content(s).Some? && |Content(s).value| == size && Content(Run(s, ops)).Some? && |Content(Run(s, ops)).value| == size
    ensures forall k :: LastAt(s, ops, k, x) ==> Content(Run(s, ops)).value[x] == ops[k].byte
    ensures (forall k :: !StoresAt(s, ops, k, x)) ==> Content(Run(s, ops)).value[x] == Content(s).value[x]
  {
    RunContent(s, size, ops);
    OverlaidByte(s, size, ops, x);
  }

  /** At every moment the process sees the complete intended contents of some earlier
      moment of the run, or nothing while the segment is disabled. */
  lemma {:induction false} RunLive(s: Seg, size: nat, ops: seq<Op>) returns (k: nat)
    requires WellFormed(s, size) && ReadOnly(s) && s.status != NotMapped && s.back.None?
    ensures k <= |ops|
    ensures Run(s, ops).live.Some? ==> Run(s, ops).live == Content(Run(s, ops[..k]))
  {
    if ops == [] {
      k := 0;
    } else {
      var init := ops[..|ops| - 1];
      RunKeepsWellFormed(s, size, init);
      ApplyLive(Run(s, init), size, ops[|ops| - 1]);
      k := RunLive(s, size, init);
      assert init[..k] == ops[..k];
      if Run(s, ops).live != Run(s, init).live {
        k := |init|;
        assert ops[..k] == init;
      } else if Run(s, init).live.None? {
        k := 0;
      }
    }
  }

  /** A successful finalize of an active segment publishes all of it at once. */
  lemma PublishShowsAllWrites(s: Seg, size: nat, ops: seq<Op>, mprotectOk: bool)
    requires WellFormed(s, size) && ReadOnly(s) && s.status != NotMapped && Lossless(s, ops)
    requires Run(s, ops).status != Inactive
    ensures Apply(Run(s, ops), Publish(mprotectOk, true)).live == Overlaid(s, ops)
  {
    RunContent(s, size, ops);
    RunKeepsWellFormed(s, size, ops);
  }

  /** A fault in a disabled segment brings back its contents, including what was composed
      meanwhile. */
  lemma FaultShowsAllWrites(s: Seg, size: nat, ops: seq<Op>)
    requires WellFormed(s, size) && ReadOnly(s) && s.status != NotMapped && Lossless(s, ops)
    requires Run(s, ops).status == Inactive
    ensures Apply(Run(s, ops), Fault(true)).live == Overlaid(s, ops)
  {
    RunContent(s, size, ops);
    RunKeepsWellFormed(s, size, ops);
  }

  /** A successful disable keeps the contents if and only if it drops neither an unpublished buffer nor the changes
      to the file; otherwise it goes back to what was published, or to the file. */
  lemma DisableKeepsContentIff(s: Seg, size: nat, k: DisableCalls)
    requires WellFormed(s, size) && ReadOnly(s) && Disabled(s, k).1
    ensures Content(Disabled(s, k).0) == Content(s) <==> !DropsBuffer(s) && !DropsChanges(s, k)
    ensures Content(Disabled(s, k).0) == if DropsBuffer(s) then s.live else if DropsChanges(s, k) then Some(s.source) else Content(s)
  {
  }

  lemma PutTwice(o: Option<Bytes>, i: nat, b: Byte, c: Byte)
    requires o.Some? && i < |o.value| && b != c
    ensures Put(Put(o, i, b), i, c) == Put(o, i, c) != Put(o, i, b)
  {
    assert Put(o, i, c).value[i] != Put(o, i, b).value[i];
    assert Put(Put(o, i, b), i, c).value == Put(o, i, c).value;
  }

  /** A write, its publication, another write and a disable: the second write is gone, although every call succeeds. */
  lemma SecondWriteDropped(s: Seg, size: nat, i: nat, b: Byte, c: Byte) returns (r: Seg)
    requires WellFormed(s, size) && ReadOnly(s) && s.status == Mapped && s.back.None? && i < size && b != c
    ensures var calls := DisableCalls(true, true, true, true, true, true);
            var ops := [Write(i, b, true), Publish(true, true), Write(i, c, true), Deactivate(calls), Fault(true)];
            && r == Run(s, ops) && r.live == Put(s.live, i, b) && Overlaid(s, ops) == Put(s.live, i, c) != r.live
  {
    var ops := [Write(i, b, true), Publish(true, true), Write(i, c, true), Deactivate(DisableCalls(true, true, true, true, true, true)), Fault(true)];
    assert ops[..4][..3] == ops[..3] && ops[..3][..2] == ops[..2] && ops[..2][..1] == ops[..1] && ops[..1][..0] == [];
    var s1 := Apply(s, ops[0]);
    var s2 := Apply(s1, ops[1]);
    var s3 := Apply(s2, ops[2]);
    var s4 := Apply(s3, ops[3]);
    r := Apply(s4, ops[4]);
    assert Run(s, ops[..0]) == s && Run(s, ops[..1]) == s1;
    assert Run(s, ops[..2]) == s2;
    assert Run(s, ops[..3]) == s3;
    assert Run(s, ops[..4]) == s4;
    assert Overlaid(s, ops[..1]) == Put(s.live, i, b);
    assert Overlaid(s, ops[..2]) == Put(s.live, i, b);
    assert Overlaid(s, ops[..3]) == Put(Put(s.live, i, b), i, c);
    assert Overlaid(s, ops[..4]) == Overlaid(s, ops[..3]);
    PutTwice(s.live, i, b, c);
  }

  /** Without memory for a back buffer, a segment that starts inside a page is disabled all the same, and the next
      access shows the file instead of the changed code. */
  lemma ChangesDropped(s: Seg, size: nat)
    requires WellFormed(s, size) && ReadOnly(s) && s.status == Mapped && !s.privanon && s.back.None? && s.shifted
    requires s.effective == s.protection && s.live != Some(s.source)
    ensures var k := DisableCalls(false, true, true, true, true, true);
            && Disabled(s, k).1 && FaultCopied(Disabled(s, k).0, true).live == Some(s.source) != Content(s)
  {
  }

  /** Composing a read-only segment fails exactly without a back buffer and without memory for one, or
      when it is not "mapped" any more: after a fault copy was published, or disabled at address 0. A write
      is taken exactly if composing does not fail and the buffer can be written. */
  lemma ComposeFailsIff(s: Seg, size: nat, image: Bytes, copy: bool, mapOk: bool, mprotectOk: bool, mmapOk: bool)
    requires WellFormed(s, size) && ReadOnly(s) && s.status != NotMapped
    ensures Composed(s, image, copy, true, mapOk, mprotectOk, mmapOk).1 == Failed <==>
              s.back.None? && (s.status != Mapped || !mmapOk)
    ensures var (c, place) := Composed(s, image, copy, true, mapOk, mprotectOk, mmapOk);
            forall i, b :: Takes(s, Write(i, b, mmapOk)) <==> place != Failed && c.backWritable
  {
  }

  // ---------------------------------------------------------------------------
  // When writes are taken

  /** disable() of an active segment succeeds and moves the pages to a place of their own. */
  predicate MovesAside(s: Seg, k: DisableCalls) {
    && (s.status == Mapped || s.status == Reactivated) && k.registerOk && k.moveOk
    && if s.privanon then k.mmapOk else s.status == Mapped && (s.back.Some? || k.mmapOk) && k.mprotectOk && k.mremapOk
  }

  /** The pages of the target can be written at the time disable() moves them. */
  predicate MovedWritable(s: Seg) {
    s.privanon && s.liveWritable
  }

  /** disable() fails with the buffer it just got, as it can neither protect nor move it. */
  predicate KeepsNewBuffer(s: Seg, k: DisableCalls) {
    s.status == Mapped && !s.privanon && s.back.None? && k.mmapOk && !k.mprotectOk && !k.mremapOk
  }

  /** The operation leaves a writable buffer: the first write to a mapped segment, or a disable that could unprotect
      the pages it moved, or that failed with a new buffer. */
  predicate Opens(s: Seg, op: Op) {
    || (op.Write? && s.back.None? && s.status == Mapped && op.mmapOk)
    || (op.Deactivate? && MovesAside(s, op.calls) && (op.calls.writeOk || MovedWritable(s)))
    || (op.Deactivate? && KeepsNewBuffer(s, op.calls))
  }

  /** The operation leaves none: the buffer is published, or it was only protected for that, or a disable replaces it. */
  predicate Closes(s: Seg, op: Op) {
    && (s.status == Mapped || s.status == Reactivated)
    && match op
       case Publish(mprotectOk, mremapOk) => mprotectOk || mremapOk
       case Deactivate(k) => if s.privanon then MovesAside(s, k) else s.back.Some? && (k.mprotectOk || k.mremapOk)
       case _ => false
  }

  lemma DisableOpensIff(s: Seg, size: nat, k: DisableCalls)
    requires WellFormed(s, size) && ReadOnly(s) && s.status != NotMapped
    ensures Writable(Disabled(s, k).0) <==> Opens(s, Deactivate(k)) || (Writable(s) && !Closes(s, Deactivate(k)))
  {
  }

  lemma ApplyWritableIff(s: Seg, size: nat, op: Op)
    requires WellFormed(s, size) && ReadOnly(s) && s.status != NotMapped
    ensures Writable(Apply(s, op)) <==> Opens(s, op) || (Writable(s) && !Closes(s, op))
  {
    if op.Deactivate? {
      DisableOpensIff(s, size, op.calls);
    }
  }

  /** The first k operations leave a writable buffer: there was one, or the last of them opened one. */
  ghost predicate OpenAfter(s: Seg, ops: seq<Op>, k: nat)
    requires k <= |ops|
  {
    if k == 0 then Writable(s) else Opens(Run(s, ops[..k - 1]), ops[k - 1])
  }

  ghost predicate ClosedBy(s: Seg, ops: seq<Op>, j: nat)
    requires j < |ops|
  {
    Closes(Run(s, ops[..j]), ops[j])
  }

  /** A writable buffer was opened and nothing closed it since. */
  ghost predicate StaysOpen(s: Seg, ops: seq<Op>, k: nat)
    requires k <= |ops|
  {
    OpenAfter(s, ops, k) && forall j :: k <= j < |ops| ==> !ClosedBy(s, ops, j)
  }

  lemma StaysOpenLonger(s: Seg, ops: seq<Op>, op: Op, k: nat)
    requires k <= |ops|
    ensures StaysOpen(s, ops + [op], k) <==> StaysOpen(s, ops, k) && !Closes(Run(s, ops), op)
  {
    var all := ops + [op];
    assert k > 0 ==> all[..k - 1] == ops[..k - 1];
    forall j | k <= j < |ops| ensures ClosedBy(s, all, j) <==> ClosedBy(s, ops, j) {
      assert all[..j] == ops[..j];
    }
    assert all[..|ops|] == ops;
    assert ClosedBy(s, all, |ops|) <==> Closes(Run(s, ops), op);
  }

  /** Over all runs, there is a writable buffer if and only if some operation opened one and none closed it since. */
  lemma {:induction false} RunWritableIff(s: Seg, size: nat, ops: seq<Op>)
    requires WellFormed(s, size) && ReadOnly(s) && s.status != NotMapped
    ensures Writable(Run(s, ops)) <==> exists k :: 0 <= k <= |ops| && StaysOpen(s, ops, k)
  {
    if ops == [] {
      assert StaysOpen(s, ops, 0) <==> Writable(s);
    } else {
      var n := |ops| - 1;
      var init, last := ops[..n], ops[n];
      assert ops == init + [last];
      RunWritableIff(s, size, init);
      RunKeepsWellFormed(s, size, init);
      ApplyWritableIff(Run(s, init), size, last);
      forall k | 0 <= k <= n ensures StaysOpen(s, ops, k) <==> StaysOpen(s, init, k) && !Closes(Run(s, init), last) {
        StaysOpenLonger(s, init, last, k);
      }
      assert StaysOpen(s, ops, n + 1) <==> Opens(Run(s, init), last);
    }
  }

  /** A publication that fails when the buffer is moved leaves a buffer that faults: every further write does, whatever
      memory there is, although there was no fault before. */
  lemma FailedPublishFaults(s: Seg, size: nat, i: nat, b: Byte, op: Op)
    requires WellFormed(s, size) && ReadOnly(s) && s.status == Mapped && s.back.None? && op.Write?
    ensures var r := Run(s, [Write(i, b, true), Publish(true, false)]);
            && Takes(s, Write(i, b, true)) && Faults(r, op) && !Takes(r, op) && Content(r) == Put(s.live, i, b)
  {
    var ops := [Write(i, b, true), Publish(true, false)];
    assert ops[..1] == [ops[0]] && ops[..1][..0] == [];
    assert Run(s, ops[..1]) == Apply(s, ops[0]);
  }

  /** So does every write to a disabled segment whose pages could not be made writable. */
  lemma ProtectedMoveFaults(s: Seg, size: nat, op: Op)
    requires WellFormed(s, size) && ReadOnly(s) && s.status == Mapped && op.Write? && !MovedWritable(s)
    ensures var k := DisableCalls(true, true, true, true, true, false);
            Disabled(s, k).1 && Faults(Disabled(s, k).0, op)
  {
  }

  // ---------------------------------------------------------------------------
  // Before the process is started

  /** Where writes go. A writable mapping takes them itself, and so does any other one before the start if it can be
      unprotected; else a copy takes them. A segment that is not mapped yet is mapped first. The contents stay. */
  lemma ComposePlace(s: Seg, size: nat, image: Bytes, copy: bool, started: bool, mapOk: bool, mprotectOk: bool, mmapOk: bool)
    requires WellFormed(s, size) && |image| == size && (s.status == Mapped || (s.status == NotMapped && mapOk)) && s.back.None?
    ensures var (c, place) := Composed(s, image, copy, started, mapOk, mprotectOk, mmapOk);
            var before := if s.status == Mapped then s.effective.write else s.protection.write || copy;
            && c.status == Mapped && c.live == (if s.status == Mapped then s.live else Some(image))
            && (place == Direct <==> before || (!started && mprotectOk))
            && (place == Direct ==> c.effective.write && c.back.None?)
            && (place == Buffered <==> !before && (started || !mprotectOk) && mmapOk)
            && (place == Buffered ==> c.back == c.live && c.backWritable)
  {
  }

  /** A write before the start, into a mapping that can be unprotected, is seen at once, and finalize protects it again. */
  lemma EarlyWrite(s: Seg, size: nat, i: nat, b: Byte)
    requires WellFormed(s, size) && s.status == Mapped && s.back.None? && i < size && s.effective == s.protection
    ensures var (c, place) := Composed(s, [], false, false, false, true, false);
            var w := c.(live := Put(c.live, i, b));
            var (r, ok) := Finalized(w, true, true);
            && place == Direct && c.live.Some? && ok && r.effective == s.protection && r.back.None?
            && r.live == Some(s.live.value[i := b])
  {
  }

  // ---------------------------------------------------------------------------
  // What success means

  /** A finalize of an active segment that reports success shows the intended contents, without a buffer. The pages are
      protected as the segment asks for if and only if they come from a buffer, the loader knows that their protection is
      another one, or they had it before. */
  lemma FinalizeProtectsIff(s: Seg, size: nat, mprotectOk: bool, mremapOk: bool)
    requires WellFormed(s, size) && (s.status == Mapped || s.status == Reactivated) && Finalized(s, mprotectOk, mremapOk).1
    ensures var r := Finalized(s, mprotectOk, mremapOk).0;
            && r.live == Content(s) && r.back.None? && r.effective == s.protection
            && (r.liveWritable == s.protection.write <==> s.back.Some? || s.effective != s.protection || s.liveWritable == s.protection.write)
  {
  }

  /** A finalize whose buffer could not be protected but was moved reports a failure. The next one reports success and
      leaves the pages writable. */
  lemma ProtectionForgotten(s: Seg, size: nat, i: nat, b: Byte)
    requires WellFormed(s, size) && ReadOnly(s) && s.status == Mapped && s.back.None? && s.effective == s.protection
    ensures var r := Run(s, [Write(i, b, true), Publish(false, true)]);
            && !Finalized(Store(s, i, b, true), false, true).1 && r.live == Put(s.live, i, b)
            && Finalized(r, true, true).1 && Finalized(r, true, true).0.liveWritable != s.protection.write
  {
    var ops := [Write(i, b, true), Publish(false, true)];
    assert ops[..1] == [ops[0]] && ops[..1][..0] == [];
    assert Run(s, ops[..1]) == Store(s, i, b, true);
  }

  /** Without memory for a buffer the pages are moved to address 0. */
  predicate MovesToZero(s: Seg, k: DisableCalls) {
    && s.status == Mapped && !s.privanon && s.back.None? && !k.mmapOk && s.shifted
    && (s.effective == s.protection || k.mprotectOk) && k.registerOk && k.moveOk
  }

  /** Exactly when a disable reports success. Then accesses fault, and otherwise an active segment stays active. */
  lemma DisableSucceedsIff(s: Seg, size: nat, k: DisableCalls)
    requires WellFormed(s, size) && ReadOnly(s) && s.status != NotMapped
    ensures Disabled(s, k).1 <==> s.status == Inactive || MovesAside(s, k) || MovesToZero(s, k)
    ensures if Disabled(s, k).1 then Disabled(s, k).0.live.None? && Disabled(s, k).0.status == Inactive
            else Disabled(s, k).0.status == s.status
  {
  }

  // ---------------------------------------------------------------------------
  // Segments that were disabled and published again

  lemma NotMappedByOne(s: Seg, op: Op)
    requires s.status == Inactive || s.status == Reactivated
    ensures Apply(s, op).status == Inactive || Apply(s, op).status == Reactivated
  {
    if op.Deactivate? {
      assert MakePrivate(s, op.calls).0.status == s.status;
    }
  }

  lemma {:induction false} NeverMappedAgain(s: Seg, size: nat, ops: seq<Op>)
    requires WellFormed(s, size) && ReadOnly(s) && (s.status == Inactive || s.status == Reactivated)
    ensures Run(s, ops).status == Inactive || Run(s, ops).status == Reactivated
  {
    if ops != [] {
      NeverMappedAgain(s, size, ops[..|ops| - 1]);
      NotMappedByOne(Run(s, ops[..|ops| - 1]), ops[|ops| - 1]);
    }
  }

  /** The k-th operation disabled the segment once more, with pages that can be written. */
  ghost predicate DisabledAgain(s: Seg, ops: seq<Op>, k: nat)
    requires 0 < k <= |ops|
  {
    var t, op := Run(s, ops[..k - 1]), ops[k - 1];
    op.Deactivate? && MovesAside(t, op.calls) && (op.calls.writeOk || MovedWritable(t))
  }

  lemma OpenAfterIsDisable(s: Seg, size: nat, ops: seq<Op>, k: nat)
    requires WellFormed(s, size) && ReadOnly(s) && s.status == Reactivated && s.back.None? && k <= |ops|
    ensures OpenAfter(s, ops, k) <==> k > 0 && DisabledAgain(s, ops, k)
  {
    if k > 0 {
      NeverMappedAgain(s, size, ops[..k - 1]);
    }
  }

  /** Once a fault copy has no buffer any more, a write is taken if and only if the segment was disabled again since,
      and the buffer of that was neither published nor protected. */
  lemma RepublishedTakesIff(s: Seg, size: nat, ops: seq<Op>, op: Op)
    requires WellFormed(s, size) && ReadOnly(s) && s.status == Reactivated && s.back.None? && op.Write?
    ensures Takes(Run(s, ops), op) <==> exists k :: 0 < k <= |ops| && DisabledAgain(s, ops, k) && StaysOpen(s, ops, k)
  {
    NeverMappedAgain(s, size, ops);
    RunWritableIff(s, size, ops);
    forall k | 0 <= k <= |ops| ensures StaysOpen(s, ops, k) ==> k > 0 && DisabledAgain(s, ops, k) {
      OpenAfterIsDisable(s, size, ops, k);
    }
  }

  /** Disable, fault copy and finalize lead to such a segment, whatever the contents: it takes no write. */
  lemma RepublishedCannotCompose(s: Seg, size: nat)
    requires WellFormed(s, size) && ReadOnly(s) && s.status == Mapped
    ensures var ops := [Deactivate(DisableCalls(true, true, true, true, true, true)), Fault(true), Publish(true, true)];
            var r := Apply(Apply(Apply(s, ops[0]), ops[1]), ops[2]);
            r.status == Reactivated && r.back.None? && r.privanon && forall op :: !Takes(r, op)
  {
    var d := Disabled(s, DisableCalls(true, true, true, true, true, true)).0;
    assert d.status == Inactive && d.back.Some? && d.privanon;
  }

  /** A further disable makes it take writes again. */
  lemma DisabledAgainComposes(s: Seg, size: nat, op: Op)
    requires WellFormed(s, size) && ReadOnly(s) && s.status == Reactivated && s.back.None? && s.privanon && op.Write?
    ensures var r := Apply(s, Deactivate(DisableCalls(true, true, true, true, true, true)));
            Takes(r, op) && Content(r) == Content(s)
  {
  }

  // ---------------------------------------------------------------------------
  // Page arithmetic (src/memory_segment.hpp)

  function PageStart(address: nat): (p: nat)
    ensures p % PAGE == 0 && p <= address < p + PAGE
  {
    address - address % PAGE
  }

  function PageSize(address: nat, size: nat): (n: nat)
    ensures n % PAGE == 0
  {
    var tmp := address - PageStart(address) + size + PAGE - 1;
    tmp - tmp % PAGE
  }

  /** The pages of a segment are the fewest whole pages that hold it. */
  lemma PagesCoverSegment(address: nat, size: nat)
    requires 0 < size
    ensures PageStart(address) <= address && address + size <= PageStart(address) + PageSize(address, size)
    ensures address + size > PageStart(address) + PageSize(address, size) - PAGE
  {
  }

  /** The back buffer is addressed with the offset, not the address: that is the same place
      within the page exactly for page-aligned bases. */
  lemma ComposeOffsetIff(base: nat, offset: nat)
    ensures offset % PAGE == (base + offset) - PageStart(base + offset) <==> base % PAGE == 0
  {
  }

  // ---------------------------------------------------------------------------
  // The segment in an address space

  type Memory = map<int, Byte>

  predicate Present(m: Memory, a: int, n: nat) {
    forall x :: a <= x < a + n ==> x in m
  }

  predicate Absent(m: Memory, a: int, n: nat) {
    forall x :: a <= x < a + n ==> x !in m
  }

  function Read(m: Memory, a: int, n: nat): (bs: Bytes)
    requires Present(m, a, n)
    ensures |bs| == n
  {
    seq(n, i requires 0 <= i < n => m[a + i])
  }

  /** Bytes laid over the memory from address a on, which get present. */
  function Lay(m: Memory, a: int, bs: Bytes): (r: Memory)
    ensures forall x :: x in r <==> x in m || a <= x < a + |bs|
    ensures forall x :: x in r ==> r[x] == if a <= x < a + |bs| then bs[x - a] else m[x]
    decreases |bs|
  {
    if bs == [] then m else Lay(m[a := bs[0]], a + 1, bs[1..])
  }

  function Drop(m: Memory, a: int, n: nat): (r: Memory)
    ensures forall x :: x in r <==> x in m && !(a <= x < a + n)
    ensures forall x :: x in r ==> r[x] == m[x]
  {
    map x | x in m && !(a <= x < a + n) :: m[x]
  }

  /** mremap: the pages move, nothing stays behind. */
  function MovePages(m: Memory, from: int, to: int, n: nat): (r: Memory)
    requires Present(m, from, n)
  {
    Lay(Drop(m, from, n), to, Read(m, from, n))
  }

  /** What becomes of a store: it is done, compose_pointer gave no address for it, it went elsewhere, or the process
      faulted. */
  datatype Outcome = Stored | Refused | Misplaced | Faulted

  class MemorySegment {
    const base: nat
    const offset: nat
    const size: nat
    const protection: Protection
    const source: Bytes
    var memory: Memory
    var buffer: nat
    var status: Status
    var privanon: bool
    var effective: Protection
    var liveWritable: bool
    var bufferWritable: bool

    /** A segment that was just mapped: its pages are present, without a back buffer. */
    constructor (base: nat, offset: nat, size: nat, protection: Protection, effective: Protection, source: Bytes, memory: Memory, privanon: bool)
      requires 0 < size && PageSize(base + offset, size) <= PageStart(base + offset) && |source| == PageSize(base + offset, size)
      requires Present(memory, PageStart(base + offset), PageSize(base + offset, size))
      ensures Valid() && View().back.None? && status == Mapped
      ensures View().live == Some(Read(memory, PageStart(base + offset), PageSize(base + offset, size)))
      ensures this.base == base && this.offset == offset && this.size == size && this.memory == memory
    {
      this.base, this.offset, this.size, this.protection, this.effective := base, offset, size, protection, effective;
      this.source, this.memory, this.privanon := source, memory, privanon;
      buffer, status, liveWritable, bufferWritable := 0, Mapped, effective.write, false;
    }

    function Address(): (a: nat) {
      base + offset
    }

    function Start(): (a: nat) {
      PageStart(Address())
    }

    function Pages(): (n: nat) {
      PageSize(Address(), size)
    }

    predicate Contains(p: int) {
      Address() <= p < Address() + size
    }

    predicate Overlap(a: int, b: int) {
      a < b + Pages() && b < a + Pages()
    }

    ghost predicate Valid()
      reads this
    {
      && 0 < size && Pages() <= Start() && |source| == Pages()
      && (if status == Mapped || status == Reactivated then Present(memory, Start(), Pages()) else Absent(memory, Start(), Pages()))
      && (buffer != 0 ==> Present(memory, buffer, Pages()) && !Overlap(Start(), buffer) && status != NotMapped)
      && (buffer != 0 && status != Mapped ==> privanon)
    }

    ghost function View(): (s: Seg)
      reads this
      requires Valid()
      ensures WellFormed(s, Pages())
    {
      Seg(if status == Mapped || status == Reactivated then Some(Read(memory, Start(), Pages())) else None,
          if buffer != 0 then Some(Read(memory, buffer, Pages())) else None,
          status, privanon, protection, effective, source, offset % PAGE != 0, liveWritable, bufferWritable)
    }

    /** compose() on a segment that is mapped or has been. `room` is where the kernel puts the
        back buffer, if it can. */
    method Compose(started: bool, mprotectOk: bool, room: Option<nat>) returns (p: nat)
      requires Valid() && status != NotMapped
      requires room.Some? ==> 0 < room.value && Absent(memory, room.value, Pages()) && !Overlap(Start(), room.value)
      modifies this
      ensures Valid()
      ensures View() == Composed(old(View()), [], false, started, false, mprotectOk, room.Some?).0
      ensures match Composed(old(View()), [], false, started, false, mprotectOk, room.Some?).1
              case Direct => p == Address() && buffer == 0
              case Buffered => buffer != 0 && p == buffer + offset % PAGE
              case Failed => buffer == 0 && p == if old(status) == Mapped then offset % PAGE else 0
      ensures forall x :: x in old(memory) ==> x in memory && memory[x] == old(memory[x])
      ensures buffer != old(buffer) ==> old(buffer) == 0 && room == Some(buffer)
      ensures buffer == old(buffer) ==> memory == old(memory)
      ensures forall x :: x in memory ==> x in old(memory) || (buffer != old(buffer) && buffer <= x < buffer + Pages())
    {
      if buffer == 0 {
        if status != Mapped {
          // map() fails: the pages are present and must not be replaced
          return 0;
        }
        if effective.write {
          return Address();
        }
        if !started && mprotectOk {
          effective := effective.(write := true);
          liveWritable := true;
          return Address();
        } else if room.Some? {
          memory := Lay(memory, room.value, Read(memory, Start(), Pages()));
          buffer := room.value;
          bufferWritable := true;
          assert Read(memory, buffer, Pages()) == old(Read(memory, Start(), Pages()));
        }
      }
      assert status == Mapped || status == Reactivated ==> Read(memory, Start(), Pages()) == old(Read(memory, Start(), Pages()));
      return buffer + offset % PAGE;
    }

    /** Object::compose_pointer for an address of this segment. A failed back buffer is
        reported as null exactly when the offset is a multiple of the page size. */
    method ComposePointer(ptr: nat, started: bool, mprotectOk: bool, room: Option<nat>) returns (p: nat)
      requires Valid() && status != NotMapped && Contains(ptr)
      requires room.Some? ==> 0 < room.value && Absent(memory, room.value, Pages()) && !Overlap(Start(), room.value)
      modifies this
      ensures Valid()
      ensures View() == Composed(old(View()), [], false, started, false, mprotectOk, room.Some?).0
      ensures match Composed(old(View()), [], false, started, false, mprotectOk, room.Some?).1
              case Direct => p == ptr
              case Buffered => buffer != 0 && (base % PAGE == 0 ==> p - buffer == ptr - Start() < Pages())
              case Failed => buffer == 0 && p == if old(status) != Mapped || offset % PAGE == 0 then 0 else offset % PAGE + (ptr - Address())
      ensures buffer == 0 ==> memory == old(memory)
    {
      var place := Compose(started, mprotectOk, room);
      PagesCoverSegment(Address(), size);
      ComposeOffsetIff(base, offset);
      if place == 0 {
        return 0;
      }
      return place + (ptr - Address());
    }

    /** A store through compose_pointer into a read-only segment of a started process. Without a back buffer it goes to
        a low address when the segment starts inside a page, and faults when nothing is there. */
    method StoreComposed(ptr: nat, b: Byte, room: Option<nat>) returns (outcome: Outcome)
      requires Valid() && status != NotMapped && Contains(ptr) && base % PAGE == 0 && ReadOnly(View())
      requires room.Some? ==> 0 < room.value && Absent(memory, room.value, Pages()) && !Overlap(Start(), room.value)
      modifies this
      ensures Valid()
      ensures View() == Store(old(View()), ptr - Start(), b, room.Some?)
      ensures outcome == Stored <==> Takes(old(View()), Write(ptr - Start(), b, room.Some?))
      ensures outcome == Misplaced <==> old(Unnoticed(room)) && ptr - Start() in old(memory)
      ensures outcome == Faulted <==> Faults(old(View()), Write(ptr - Start(), b, room.Some?)) || (old(Unnoticed(room)) && ptr - Start() !in old(memory))
      ensures buffer == 0 ==> forall x :: x in memory && x >= Pages() ==> x in old(memory) && memory[x] == old(memory[x])
    {
      PlaceInPages(ptr);
      var p := ComposePointer(ptr, true, false, room);
      if p == 0 {
        return Refused;
      } else if buffer != 0 {
        if bufferWritable {
          StoreInBuffer(p - buffer, b);
          return Stored;
        }
        return Faulted;
      } else if p in memory {
        StoreBelow(p, b);
        return Misplaced;
      } else {
        return Faulted;
      }
    }

    /** compose() got no back buffer, and returns the place within the page as if it were an address. */
    ghost predicate Unnoticed(room: Option<nat>)
      reads this
    {
      buffer == 0 && status == Mapped && room.None? && offset % PAGE != 0
    }

    lemma PlaceInPages(ptr: nat)
      requires 0 < size && Contains(ptr) && base % PAGE == 0
      ensures 0 <= ptr - Start() < Pages() && offset % PAGE + (ptr - Address()) == ptr - Start()
    {
      PagesCoverSegment(Address(), size);
      ComposeOffsetIff(base, offset);
    }

    /** A store into the back buffer. */
    method StoreInBuffer(i: nat, b: Byte)
      requires Valid() && buffer != 0 && i < Pages()
      modifies this`memory
      ensures Valid() && View() == old(View()).(back := Put(old(View()).back, i, b))
    {
      ghost var before := View();
      memory := memory[buffer + i := b];
      assert Read(memory, buffer, Pages()) == Put(before.back, i, b).value;
      assert status == Mapped || status == Reactivated ==> Read(memory, Start(), Pages()) == before.live.value;
    }

    /** A store below the segment. */
    method StoreBelow(p: nat, b: Byte)
      requires Valid() && buffer == 0 && p < Pages() && p in memory
      modifies this`memory
      ensures Valid() && View() == old(View())
      ensures forall x :: x in memory && x >= Pages() ==> x in old(memory) && memory[x] == old(memory[x])
    {
      ghost var before := View();
      memory := memory[p := b];
      assert status == Mapped || status == Reactivated ==> Read(memory, Start(), Pages()) == before.live.value;
    }

    /** The remap of finalize(): one step replaces the target pages; no other byte changes. */
    method RemapBuffer()
      requires Valid() && buffer != 0 && status != Inactive
      modifies this`memory, this`privanon, this`buffer, this`liveWritable
      ensures Valid()
      ensures View() == old(View()).(live := old(View()).back, back := None, privanon := true, liveWritable := old(bufferWritable))
      ensures buffer == 0 && Absent(memory, old(buffer), Pages())
      ensures forall x :: x in old(memory) && !(Start() <= x < Start() + Pages()) && !(old(buffer) <= x < old(buffer) + Pages()) ==>
                x in memory && memory[x] == old(memory[x])
    {
      memory := MovePages(memory, buffer, Start(), Pages());
      privanon := true;
      buffer := 0;
      liveWritable := bufferWritable;
      assert Read(memory, Start(), Pages()) == old(Read(memory, buffer, Pages()));
    }

    /** finalize(). */
    method FinalizeSegment(mprotectOk: bool, mremapOk: bool) returns (ok: bool)
      requires Valid()
      modifies this
      ensures Valid()
      ensures View() == Finalized(old(View()), mprotectOk, mremapOk).0 && ok == Finalized(old(View()), mprotectOk, mremapOk).1
      ensures buffer == 0 || buffer == old(buffer)
      ensures old(buffer) != 0 && buffer == 0 ==> Absent(memory, old(buffer), Pages())
    {
      if status == Inactive {
        return true;
      } else if buffer != 0 {
        ok := true;
        if mprotectOk {
          effective := protection;
          bufferWritable := protection.write;
        } else {
          ok := false;
        }
        if mremapOk {
          RemapBuffer();
        } else {
          ok := false;
        }
        return ok;
      } else if status == NotMapped {
        return false;
      } else if effective == protection {
        return true;
      } else if mprotectOk {
        effective := protection;
        liveWritable := protection.write;
        return true;
      } else {
        return false;
      }
    }

    /** The last steps of disable(): move the target pages aside, so that an access faults, and make them writable. */
    method MoveAside(place: nat, writeOk: bool)
      requires Valid() && (status == Mapped || status == Reactivated) && privanon
      requires 0 < place && Absent(memory, place, Pages()) && !Overlap(Start(), place)
      modifies this
      ensures Valid()
      ensures View() == old(View()).(back := old(View()).live, live := None, status := Inactive, effective := protection,
                                     backWritable := writeOk || old(liveWritable))
    {
      memory := MovePages(memory, Start(), place, Pages());
      buffer := place;
      status := Inactive;
      effective := protection;
      bufferWritable := writeOk || liveWritable;
      assert Read(memory, buffer, Pages()) == old(Read(memory, Start(), Pages()));
    }

    /** The same to address 0, which is no buffer. */
    method MoveToZero()
      requires Valid() && (status == Mapped || status == Reactivated) && buffer == 0
      modifies this
      ensures Valid()
      ensures View() == old(View()).(back := None, live := None, status := Inactive, effective := protection)
    {
      memory := MovePages(memory, Start(), 0, Pages());
      buffer := 0;
      status := Inactive;
      effective := protection;
    }

    /** disable() up to the registration. Returns the place to move to, which may be 0. */
    method MakePrivateMapping(k: DisableCalls, room: nat) returns (ok: bool, place: nat)
      requires Valid() && (status == Mapped || status == Reactivated) && ReadOnly(View())
      requires 0 < room && Absent(memory, room, Pages()) && !Overlap(Start(), room)
      modifies this
      ensures Valid() && View() == MakePrivate(old(View()), k).0
      ensures match MakePrivate(old(View()), k).1
              case NoRoom => !ok
              case OwnPlace => ok && 0 < place && Absent(memory, place, Pages()) && !Overlap(Start(), place) && privanon
              case AtZero => ok && place == 0 && buffer == 0
    {
      place := 0;
      if !privanon {
        var p := Compose(true, k.mprotectOk, if k.mmapOk then Some(room) else None);
        if p == 0 {
          return false, 0;
        }
        place := buffer;
        ok := FinalizeSegment(k.mprotectOk, k.mremapOk);
      } else {
        ok := k.mmapOk;
        if ok {
          place := room;
        }
      }
    }

    /** disable() of a read-only segment; `room` is where the kernel would put a new mapping. */
    method DisableSegment(k: DisableCalls, room: nat) returns (ok: bool)
      requires Valid() && ReadOnly(View())
      requires 0 < room && Absent(memory, room, Pages()) && !Overlap(Start(), room)
      modifies this
      ensures Valid()
      ensures View() == Disabled(old(View()), k).0 && ok == Disabled(old(View()), k).1
    {
      if status == NotMapped {
        return false;
      } else if status == Inactive {
        return true;
      }
      var place;
      ok, place := MakePrivateMapping(k, room);
      if !ok || !k.registerOk || !k.moveOk {
        return false;
      }
      if place != 0 {
        MoveAside(place, k.writeOk);
      } else {
        MoveToZero();
      }
    }

    /** The copy of userfault_handle for a fault in this segment. */
    method HandleFault(copyOk: bool)
      requires Valid() && status == Inactive
      modifies this
      ensures Valid()
      ensures View() == FaultCopied(old(View()), copyOk)
    {
      if copyOk {
        var bytes := source;
        if buffer != 0 {
          bytes := Read(memory, buffer, Pages());
        }
        memory := Lay(memory, Start(), bytes);
        status := Reactivated;
        assert Read(memory, Start(), Pages()) == bytes;
        assert buffer != 0 ==> Read(memory, buffer, Pages()) == bytes;
      }
    }
  }
}
