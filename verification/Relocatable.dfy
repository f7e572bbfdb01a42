/** Laying out relocatable objects: the constructor, preload and adjust_offsets of
    src/object/relocatable.cpp. All versions of a file share the base of the first one, and
    symbol values and pieces are offsets to it. */
module Relocatable {
  import opened Common
  import opened Addresses

  datatype SymbolType = NoType | ObjectType | Function | SectionType | FileType | IndirectFunction | ThreadLocal | Other

  /** Types whose entries adjust_offsets fixes up. */
  predicate Adjustable(t: SymbolType) {
    t != FileType && t != Other
  }

  datatype Sym = Sym(name: string, kind: SymbolType, size: nat, section: nat, value: nat)

  /** A section: whether preload places it (allocated, of a program data type, not
      thread-local), whether it is the image of thread-local data, whether it is writable or
      referred to by a relocation table, its size and the bytes added behind it. */
  datatype Section = Section(placed: bool, image: bool, writable: bool, relocated: bool, size: nat, extra: nat)

  type Table = map<string, Sym>

  ghost predicate Named(t: Table) {
    forall n <- t :: t[n].name == n
  }

  /** The entry that an update takes over from the previous version. */
  predicate TakesOver(prev: Table, sec: Section, sym: Sym) {
    sec.writable && sym.name in prev && prev[sym.name].kind == sym.kind && prev[sym.name].size == sym.size
  }

  /** What adjust_offsets leaves in a symbol of the section placed at offset. */
  function Adjusted(prev: Table, sec: Section, offset: nat, sym: Sym): (r: Sym) {
    if TakesOver(prev, sec, sym) then sym.(value := prev[sym.name].value)
    else if Adjustable(sym.kind) then sym.(value := sym.value + offset)
    else sym
  }

  /** The symbol enters the lookup table. */
  predicate Listed(prev: Table, sec: Section, sym: Sym) {
    TakesOver(prev, sec, sym) || Adjustable(sym.kind)
  }

  predicate IsNew(prev: Table, sec: Section, index: nat, sym: Sym) {
    sym.section == index && !TakesOver(prev, sec, sym) && Adjustable(sym.kind)
  }

  /** The section has something new: an own symbol or a relocation. */
  ghost predicate Changed(prev: Table, sec: Section, index: nat, symtab: seq<Sym>) {
    sec.relocated || exists i :: 0 <= i < |symtab| && IsNew(prev, sec, index, symtab[i])
  }

  ghost function AdjustedAll(prev: Table, sec: Section, offset: nat, index: nat, symtab: seq<Sym>): (r: seq<Sym>)
    ensures |r| == |symtab|
  {
    seq(|symtab|, i requires 0 <= i < |symtab| =>
      if symtab[i].section == index then Adjusted(prev, sec, offset, symtab[i]) else symtab[i])
  }

  /** The lookup table after the first k symbols: an insertion keeps an entry that is there. */
  ghost function Inserted(prev: Table, sec: Section, offset: nat, index: nat, symtab: seq<Sym>, k: nat, t: Table): (r: Table)
    requires k <= |symtab|
  {
    if k == 0 then t
    else
      var sym := symtab[k - 1];
      var r := Inserted(prev, sec, offset, index, symtab, k - 1, t);
      if sym.section != index || sym.name in r || !Listed(prev, sec, sym) then r
      else r[sym.name := if TakesOver(prev, sec, sym) then prev[sym.name] else Adjusted(prev, sec, offset, sym)]
  }

  lemma {:induction false} InsertedNamed(prev: Table, sec: Section, offset: nat, index: nat, symtab: seq<Sym>, k: nat, t: Table)
    requires k <= |symtab| && Named(prev) && Named(t)
    ensures Named(Inserted(prev, sec, offset, index, symtab, k, t))
  {
    if k != 0 {
      InsertedNamed(prev, sec, offset, index, symtab, k - 1, t);
    }
  }

  ghost predicate UniqueName(symtab: seq<Sym>, i: nat)
    requires i < |symtab|
  {
    forall j :: 0 <= j < |symtab| && symtab[j].name == symtab[i].name ==> j == i
  }

  /** Only the symbols of the section itself matter for what is inserted. */
  lemma {:induction false} InsertedSame(prev: Table, sec: Section, offset: nat, index: nat, a: seq<Sym>, b: seq<Sym>, k: nat, t: Table)
    requires k <= |a| == |b|
    requires forall i :: 0 <= i < |a| ==> a[i].section == b[i].section && (a[i].section == index ==> a[i] == b[i])
    ensures Inserted(prev, sec, offset, index, a, k, t) == Inserted(prev, sec, offset, index, b, k, t)
  {
    if k != 0 {
      InsertedSame(prev, sec, offset, index, a, b, k - 1, t);
      assert a[k - 1].section == b[k - 1].section;
    }
  }

  // ---------------------------------------------------------------------------
  // The layout of one version

  /** What preload works on: the table of the previous version, if it is an update, the sections and symbols
      as read from the file, and the offset to start from. */
  datatype Input = Input(prev: Table, update: bool, sections: seq<Section>, symtab: seq<Sym>, start: nat)

  /** Mapped pages for a section: page-aligned offset and number of bytes in whole pages. */
  datatype Piece = Piece(section: nat, offset: nat, pages: nat)

  /** The symbols of the section are adjusted. */
  predicate Handled(g: Input, s: nat) {
    s < |g.sections| && g.sections[s].placed && !g.sections[s].image && g.sections[s].size != 0
  }

  /** The section gets memory of its own: always in a first version, else if it is not writable or has something
      new. */
  ghost predicate GetsPiece(g: Input, s: nat)
    requires s < |g.sections|
  {
    var sec := g.sections[s];
    sec.size != 0 && (sec.image || (sec.placed && (!g.update || Changed(g.prev, sec, s, g.symtab) || !sec.writable)))
  }

  /** The bytes a section needs. */
  function Need(sec: Section): (n: nat) {
    sec.size + if sec.image then 0 else sec.extra
  }

  /** The offset at which section `s` is placed. */
  ghost function OffsetAt(g: Input, s: nat): (r: nat)
    requires s <= |g.sections|
  {
    if s == 0 then g.start
    else OffsetAt(g, s - 1) + if GetsPiece(g, s - 1) then AlignUp(Need(g.sections[s - 1])) else 0
  }

  /** The pieces of the first `s` sections. */
  ghost function Layout(g: Input, s: nat): (r: seq<Piece>)
    requires s <= |g.sections|
  {
    if s == 0 then []
    else Layout(g, s - 1) + if GetsPiece(g, s - 1) then [Piece(s - 1, OffsetAt(g, s - 1), AlignUp(Need(g.sections[s - 1])))] else []
  }

  /** The lookup table after the first `s` sections. */
  ghost function TableAt(g: Input, s: nat): (r: Table)
    requires s <= |g.sections|
  {
    if s == 0 then map[]
    else if Handled(g, s - 1) then
      Inserted(g.prev, g.sections[s - 1], OffsetAt(g, s - 1), s - 1, g.symtab, |g.symtab|, TableAt(g, s - 1))
    else TableAt(g, s - 1)
  }

  /** A symbol after the first `s` sections. */
  ghost function SymbolAt(g: Input, s: nat, sym: Sym): (r: Sym)
    requires s <= |g.sections|
  {
    if sym.section < s && Handled(g, sym.section) then
      Adjusted(g.prev, g.sections[sym.section], OffsetAt(g, sym.section), sym)
    else sym
  }

  ghost predicate SymbolsAt(g: Input, s: nat, now: seq<Sym>)
    requires s <= |g.sections|
  {
    |now| == |g.symtab| && forall i :: 0 <= i < |now| ==> now[i] == SymbolAt(g, s, g.symtab[i])
  }

  lemma {:induction false} OffsetGrows(g: Input, s: nat, t: nat)
    requires s <= t <= |g.sections|
    ensures OffsetAt(g, s) <= OffsetAt(g, t)
  {
    if s < t {
      OffsetGrows(g, s, t - 1);
    }
  }

  lemma {:induction false} OffsetAligned(g: Input, s: nat)
    requires s <= |g.sections| && g.start % PAGE == 0
    ensures OffsetAt(g, s) % PAGE == 0
  {
    if s > 0 {
      OffsetAligned(g, s - 1);
    }
  }

  /** The piece is that of its section, at its place and large enough. */
  ghost predicate IsPieceOf(g: Input, p: Piece)
  {
    && p.section < |g.sections| && GetsPiece(g, p.section)
    && p.offset == OffsetAt(g, p.section) && p.pages == AlignUp(Need(g.sections[p.section]))
  }

  /** Every piece belongs to a section that gets one, and pieces come in the order of sections. */
  lemma {:induction false} LayoutSound(g: Input, s: nat, i: nat)
    requires s <= |g.sections| && i < |Layout(g, s)|
    ensures Layout(g, s)[i].section < s && IsPieceOf(g, Layout(g, s)[i])
  {
    if i < |Layout(g, s - 1)| {
      LayoutSound(g, s - 1, i);
    }
  }

  /** Every section that gets a piece has one. */
  lemma {:induction false} LayoutComplete(g: Input, s: nat, k: nat) returns (i: nat)
    requires k < s <= |g.sections| && GetsPiece(g, k)
    ensures i < |Layout(g, s)| && Layout(g, s)[i].section == k && IsPieceOf(g, Layout(g, s)[i])
  {
    if k == s - 1 {
      i := |Layout(g, s - 1)|;
    } else {
      i := LayoutComplete(g, s - 1, k);
    }
  }

  lemma {:induction false} LayoutOrdered(g: Input, s: nat, i: nat, j: nat)
    requires s <= |g.sections| && i < j < |Layout(g, s)|
    ensures Layout(g, s)[i].section < Layout(g, s)[j].section
  {
    if j < |Layout(g, s - 1)| {
      LayoutOrdered(g, s - 1, i, j);
    } else {
      LayoutSound(g, s - 1, i);
    }
  }

  /** A piece lies between the start and the offset reached, on whole pages, and holds its section. */
  lemma PieceInside(g: Input, p: Piece)
    requires IsPieceOf(g, p)
    ensures g.start <= p.offset && p.offset + p.pages <= OffsetAt(g, |g.sections|)
    ensures Need(g.sections[p.section]) <= p.pages < Need(g.sections[p.section]) + PAGE
    ensures g.start % PAGE == 0 ==> p.offset % PAGE == 0 && p.pages % PAGE == 0
  {
    OffsetGrows(g, 0, p.section);
    OffsetGrows(g, p.section + 1, |g.sections|);
    if g.start % PAGE == 0 {
      OffsetAligned(g, p.section);
    }
  }

  lemma PiecesOrdered(g: Input, p: Piece, q: Piece)
    requires IsPieceOf(g, p) && IsPieceOf(g, q) && p.section < q.section
    ensures p.offset + p.pages <= q.offset
  {
    OffsetGrows(g, p.section + 1, q.section);
  }

  // ---------------------------------------------------------------------------
  // The lookup table

  lemma {:induction false} TableNamed(g: Input, s: nat)
    requires s <= |g.sections| && Named(g.prev)
    ensures Named(TableAt(g, s))
  {
    if s > 0 {
      TableNamed(g, s - 1);
      if Handled(g, s - 1) {
        InsertedNamed(g.prev, g.sections[s - 1], OffsetAt(g, s - 1), s - 1, g.symtab, |g.symtab|, TableAt(g, s - 1));
      }
    }
  }

  /** The entry is a new symbol of section `k`, at its place in the section. */
  ghost predicate IsPlaced(g: Input, e: Sym, i: int)
  {
    && 0 <= i < |g.symtab|
    && var sym := g.symtab[i];
       && Handled(g, sym.section)
       && IsNew(g.prev, g.sections[sym.section], sym.section, sym)
       && e == sym.(value := sym.value + OffsetAt(g, sym.section))
  }

  /** An entry of the table comes from the previous version or is a new symbol at its place. */
  ghost predicate HasOrigin(g: Input, e: Sym) {
    (e.name in g.prev && e == g.prev[e.name]) || exists i :: IsPlaced(g, e, i)
  }

  ghost predicate AllOrigins(g: Input, t: Table) {
    forall n <- t :: HasOrigin(g, t[n])
  }

  lemma {:induction false} InsertedOrigins(g: Input, s: nat, k: nat, t: Table)
    requires s < |g.sections| && Handled(g, s) && k <= |g.symtab| && Named(g.prev) && AllOrigins(g, t)
    ensures AllOrigins(g, Inserted(g.prev, g.sections[s], OffsetAt(g, s), s, g.symtab, k, t))
  {
    if k != 0 {
      InsertedOrigins(g, s, k - 1, t);
      var sym := g.symtab[k - 1];
      if sym.section == s && Listed(g.prev, g.sections[s], sym) && !TakesOver(g.prev, g.sections[s], sym) {
        assert IsPlaced(g, Adjusted(g.prev, g.sections[s], OffsetAt(g, s), sym), k - 1);
      }
    }
  }

  lemma {:induction false} TableOrigins(g: Input, s: nat)
    requires s <= |g.sections| && Named(g.prev)
    ensures AllOrigins(g, TableAt(g, s))
  {
    if s > 0 {
      TableOrigins(g, s - 1);
      if Handled(g, s - 1) {
        InsertedOrigins(g, s - 1, |g.symtab|, TableAt(g, s - 1));
      }
    }
  }

  // ---------------------------------------------------------------------------
  // What becomes of each section and symbol

  /** The section has program data, which is not the image of thread-local data. */
  predicate HoldsData(g: Input, s: nat) {
    s < |g.sections| && g.sections[s].placed && !g.sections[s].image && g.sections[s].size != 0
  }

  /** The previous version has a symbol of this name, type and size, and the section is writable. */
  predicate Matched(g: Input, i: nat)
    requires i < |g.symtab| && g.symtab[i].section < |g.sections|
  {
    var sym := g.symtab[i];
    g.sections[sym.section].writable && sym.name in g.prev && g.prev[sym.name].kind == sym.kind && g.prev[sym.name].size == sym.size
  }

  /** The symbol gets an address. */
  predicate Enters(g: Input, i: nat)
    requires i < |g.symtab|
  {
    && HoldsData(g, g.symtab[i].section)
    && (Matched(g, i) || g.symtab[i].kind in {NoType, ObjectType, Function, SectionType, IndirectFunction, ThreadLocal})
  }

  lemma EntersIs(g: Input, i: nat)
    requires i < |g.symtab|
    ensures Enters(g, i) <==> Handled(g, g.symtab[i].section) && Listed(g.prev, g.sections[g.symtab[i].section], g.symtab[i])
  {
  }

  /** A section gets memory of its own if and only if it has a size and is the image of thread-local data; or is placed in a
      first version; or is placed in an update and not writable, or has a relocation or a symbol that the previous version
      has not. */
  lemma PieceIff(g: Input, s: nat)
    requires s < |g.sections|
    ensures (exists a :: 0 <= a < |Layout(g, |g.sections|)| && Layout(g, |g.sections|)[a].section == s) <==>
              var sec := g.sections[s];
              && sec.size != 0
              && (|| sec.image
                  || (sec.placed && (!g.update || !sec.writable || sec.relocated || exists i :: 0 <= i < |g.symtab| && g.symtab[i].section == s && Enters(g, i) && !Matched(g, i))))
  {
    var n := |g.sections|;
    if a :| 0 <= a < |Layout(g, n)| && Layout(g, n)[a].section == s {
      LayoutSound(g, n, a);
    }
    if GetsPiece(g, s) {
      var a := LayoutComplete(g, n, s);
    }
    if g.sections[s].size != 0 && g.sections[s].placed && !g.sections[s].image {
      ChangedIff(g, s);
    }
  }

  lemma ChangedIff(g: Input, s: nat)
    requires HoldsData(g, s)
    ensures Changed(g.prev, g.sections[s], s, g.symtab) <==>
              g.sections[s].relocated || exists i :: 0 <= i < |g.symtab| && g.symtab[i].section == s && Enters(g, i) && !Matched(g, i)
  {
    forall i | 0 <= i < |g.symtab|
      ensures IsNew(g.prev, g.sections[s], s, g.symtab[i]) <==> g.symtab[i].section == s && Enters(g, i) && !Matched(g, i)
    {
    }
  }

  /** A piece has the fewest whole pages for its section and what is added behind it. */
  lemma PieceSize(g: Input, a: nat)
    requires a < |Layout(g, |g.sections|)|
    ensures var p := Layout(g, |g.sections|)[a];
            && p.section < |g.sections|
            && var sec := g.sections[p.section];
               var bytes := if sec.image then sec.size else sec.size + sec.extra;
               p.pages % PAGE == 0 && bytes <= p.pages < bytes + PAGE
  {
    LayoutSound(g, |g.sections|, a);
  }

  /** The symbol table of the file afterwards: a symbol that gets an address has that of the previous version, or its place
      in the piece of its section; all others are as they were. */
  lemma SymbolLeft(g: Input, i: nat) returns (a: nat)
    requires i < |g.symtab|
    ensures var sym, now := g.symtab[i], SymbolAt(g, |g.sections|, g.symtab[i]);
            if !Enters(g, i) then now == sym
            else if Matched(g, i) then now == sym.(value := g.prev[sym.name].value)
            else a < |Layout(g, |g.sections|)| && Layout(g, |g.sections|)[a].section == sym.section &&
                 now == sym.(value := sym.value + Layout(g, |g.sections|)[a].offset)
  {
    a := 0;
    EntersIs(g, i);
    if Enters(g, i) && !Matched(g, i) {
      a := NewHasPiece(g, i);
    }
  }

  lemma NewHasPiece(g: Input, i: nat) returns (a: nat)
    requires i < |g.symtab| && Enters(g, i) && !Matched(g, i)
    ensures a < |Layout(g, |g.sections|)| && Layout(g, |g.sections|)[a].section == g.symtab[i].section
    ensures Layout(g, |g.sections|)[a].offset == OffsetAt(g, g.symtab[i].section)
  {
    var s := g.symtab[i].section;
    assert IsNew(g.prev, g.sections[s], s, g.symtab[i]);
    a := LayoutComplete(g, |g.sections|, s);
  }

  /** No symbol of this name that gets an address comes before it, by sections and then by the table. */
  ghost predicate FirstOfName(g: Input, i: nat) {
    && i < |g.symtab| && Enters(g, i)
    && forall j :: 0 <= j < |g.symtab| && j != i && g.symtab[j].name == g.symtab[i].name && Enters(g, j) ==>
         g.symtab[i].section < g.symtab[j].section || (g.symtab[i].section == g.symtab[j].section && i < j)
  }

  lemma {:induction false} InsertedLacks(g: Input, s: nat, k: nat, t: Table, n: string)
    requires Handled(g, s) && k <= |g.symtab| && n !in t
    requires forall j :: 0 <= j < k && g.symtab[j].section == s && g.symtab[j].name == n ==> !Enters(g, j)
    ensures n !in Inserted(g.prev, g.sections[s], OffsetAt(g, s), s, g.symtab, k, t)
  {
    if k != 0 {
      InsertedLacks(g, s, k - 1, t, n);
      EntersIs(g, k - 1);
    }
  }

  lemma {:induction false} InsertedFirst(g: Input, s: nat, k: nat, t: Table, i: nat)
    requires Handled(g, s) && i < k <= |g.symtab| && g.symtab[i].section == s && g.symtab[i].name !in t && FirstOfName(g, i)
    ensures var r, sym := Inserted(g.prev, g.sections[s], OffsetAt(g, s), s, g.symtab, k, t), g.symtab[i];
            sym.name in r && r[sym.name] == if Matched(g, i) then g.prev[sym.name] else sym.(value := sym.value + OffsetAt(g, s))
  {
    EntersIs(g, i);
    if i == k - 1 {
      InsertedLacks(g, s, i, t, g.symtab[i].name);
    } else {
      InsertedFirst(g, s, k - 1, t, i);
    }
  }

  lemma {:induction false} TableLacks(g: Input, s: nat, n: string)
    requires s <= |g.sections|
    requires forall j :: 0 <= j < |g.symtab| && g.symtab[j].section < s && g.symtab[j].name == n ==> !Enters(g, j)
    ensures n !in TableAt(g, s)
  {
    if s > 0 {
      TableLacks(g, s - 1, n);
      if Handled(g, s - 1) {
        InsertedLacks(g, s - 1, |g.symtab|, TableAt(g, s - 1), n);
      }
    }
  }

  lemma {:induction false} InsertedStays(g: Input, s: nat, k: nat, t: Table, n: string)
    requires Handled(g, s) && k <= |g.symtab| && n in t
    ensures var r := Inserted(g.prev, g.sections[s], OffsetAt(g, s), s, g.symtab, k, t); n in r && r[n] == t[n]
  {
    if k != 0 {
      InsertedStays(g, s, k - 1, t, n);
    }
  }

  lemma {:induction false} TableFirst(g: Input, s: nat, i: nat)
    requires s <= |g.sections| && FirstOfName(g, i) && g.symtab[i].section < s
    ensures var t, sym := TableAt(g, s), g.symtab[i];
            sym.name in t && t[sym.name] == if Matched(g, i) then g.prev[sym.name] else sym.(value := sym.value + OffsetAt(g, sym.section))
    decreases s
  {
    var sym := g.symtab[i];
    if sym.section == s - 1 {
      TableLacks(g, s - 1, sym.name);
      InsertedFirst(g, s - 1, |g.symtab|, TableAt(g, s - 1), i);
    } else {
      TableFirst(g, s - 1, i);
      if Handled(g, s - 1) {
        InsertedStays(g, s - 1, |g.symtab|, TableAt(g, s - 1), sym.name);
      }
    }
  }

  /** Every symbol that gets an address is found by its name, or an earlier one is: with the entry of the previous version,
      or at its place in the piece of its section. */
  lemma SymbolFound(g: Input, i: nat) returns (a: nat)
    requires FirstOfName(g, i)
    ensures var t, sym := TableAt(g, |g.sections|), g.symtab[i];
            && sym.name in t
            && (if Matched(g, i) then t[sym.name] == g.prev[sym.name]
                else a < |Layout(g, |g.sections|)| && Layout(g, |g.sections|)[a].section == sym.section &&
                     t[sym.name] == sym.(value := sym.value + Layout(g, |g.sections|)[a].offset))
  {
    a := 0;
    TableFirst(g, |g.sections|, i);
    if !Matched(g, i) {
      a := NewHasPiece(g, i);
    }
  }

  /** No other name is found. */
  lemma NameFoundIff(g: Input, n: string)
    ensures n in TableAt(g, |g.sections|) <==> exists i :: 0 <= i < |g.symtab| && g.symtab[i].name == n && Enters(g, i)
  {
    if i :| 0 <= i < |g.symtab| && g.symtab[i].name == n && Enters(g, i) {
      var k := FirstWithName(g, i);
      TableFirst(g, |g.sections|, k);
    } else {
      TableLacks(g, |g.sections|, n);
    }
  }

  /** There is a first one of each name that gets an address. */
  lemma {:induction false} FirstWithName(g: Input, i: nat) returns (k: nat)
    requires i < |g.symtab| && Enters(g, i)
    ensures FirstOfName(g, k) && g.symtab[k].name == g.symtab[i].name
    decreases g.symtab[i].section, i
  {
    if FirstOfName(g, i) {
      k := i;
    } else {
      var j :| 0 <= j < |g.symtab| && j != i && g.symtab[j].name == g.symtab[i].name && Enters(g, j) &&
        !(g.symtab[i].section < g.symtab[j].section || (g.symtab[i].section == g.symtab[j].section && i < j));
      k := FirstWithName(g, j);
    }
  }

  /** Symbols lie in their sections, as in every valid file. */
  ghost predicate WithinSections(g: Input) {
    forall i :: 0 <= i < |g.symtab| && g.symtab[i].section < |g.sections| ==>
      g.symtab[i].value + g.symtab[i].size <= g.sections[g.symtab[i].section].size
  }

  predicate LiesIn(e: Sym, p: Piece) {
    p.offset <= e.value && e.value + e.size <= p.offset + p.pages
  }

  /** A new symbol lies in the piece of its section, which always exists. */
  lemma PlacedInPiece(g: Input, e: Sym, i: int) returns (a: nat)
    requires WithinSections(g) && IsPlaced(g, e, i)
    ensures a < |Layout(g, |g.sections|)| && Layout(g, |g.sections|)[a].section == g.symtab[i].section
    ensures LiesIn(e, Layout(g, |g.sections|)[a])
  {
    var k := g.symtab[i].section;
    assert Changed(g.prev, g.sections[k], k, g.symtab);
    a := LayoutComplete(g, |g.sections|, k);
    PieceInside(g, Layout(g, |g.sections|)[a]);
  }

  // ---------------------------------------------------------------------------
  // The object

  class ObjectRelocatable {
    const base: nat
    const previous: Table
    const update: bool
    const sections: seq<Section>
    const symtab: array<Sym>
    var symbols: Table
    var pieces: seq<Piece>
    var offsets: seq<nat>
    var offset: nat

    /** A first version is based at the next free address; a later one has the base of the current version, and
        its offsets start where the next free address is. */
    constructor (loader: Reservations, current: Option<nat>, previous: Table, sections: seq<Section>, syms: seq<Sym>)
      requires current.None? ==> previous == map[]
      requires current.Some? ==> current.value < NextAddress(loader.View())
      modifies loader`next, loader`reserved
      ensures loader.View() == Reserve(old(loader.View()), 0)
      ensures base + offset == NextAddress(old(loader.View()))
      ensures if current.None? then offset == 0 else base == current.value
      ensures fresh(symtab) && symtab[..] == syms && symbols == map[] && pieces == [] && offsets == []
      ensures this.previous == previous && update == current.Some? && this.sections == sections
    {
      var address := loader.TakeAddress(0);
      if current.None? {
        base, offset := address, 0;
      } else {
        base, offset := current.value, address - current.value;
      }
      this.previous, this.update, this.sections := previous, current.Some?, sections;
      symtab := new Sym[|syms|](i requires 0 <= i < |syms| => syms[i]);
      symbols, pieces, offsets := map[], [], [];
      new;
      assert symtab[..] == syms;
    }

    ghost function InputOf(syms: seq<Sym>, start: nat): (g: Input)
    {
      Input(previous, update, sections, syms, start)
    }

    /** adjust_offsets: patch the symbols of one section in place. */
    method AdjustOffsets(index: nat) returns (changed: bool)
      requires index < |sections|
      modifies symtab, this`symbols
      ensures symtab[..] == AdjustedAll(previous, sections[index], offset, index, old(symtab[..]))
      ensures symbols == Inserted(previous, sections[index], offset, index, old(symtab[..]), symtab.Length, old(symbols))
      ensures changed <==> Changed(previous, sections[index], index, old(symtab[..]))
    {
      ghost var before := symtab[..];
      var sec := sections[index];
      changed := sec.relocated;
      for k := 0 to symtab.Length
        invariant forall i :: 0 <= i < symtab.Length ==>
                    symtab[i] == if i < k && before[i].section == index then Adjusted(previous, sec, offset, before[i]) else before[i]
        invariant symbols == Inserted(previous, sec, offset, index, before, k, old(symbols))
        invariant changed <==> sec.relocated || exists i :: 0 <= i < k && IsNew(previous, sec, index, before[i])
      {
        var sym := symtab[k];
        if sym.section == index {
          if TakesOver(previous, sec, sym) {
            symtab[k] := sym.(value := previous[sym.name].value);
            if sym.name !in symbols {
              symbols := symbols[sym.name := previous[sym.name]];
            }
          } else if Adjustable(sym.kind) {
            symtab[k] := sym.(value := sym.value + offset);
            if sym.name !in symbols {
              symbols := symbols[sym.name := symtab[k]];
            }
            changed := true;
          }
        }
      }
      assert symtab[..] == AdjustedAll(previous, sec, offset, index, before);
    }

    /** Reserves whole pages for a section at the current offset. */
    method PlacePiece(s: nat, size: nat)
      modifies this`pieces, this`offset
      ensures pieces == old(pieces) + [Piece(s, old(offset), AlignUp(size))] && offset == old(offset) + AlignUp(size)
    {
      pieces := pieces + [Piece(s, offset, AlignUp(size))];
      offset := offset + AlignUp(size);
    }

    /** One section: adjusted, and placed unless an update has nothing new in it. */
    method PreloadSection(s: nat, ghost g: Input)
      requires s < |sections| && g == InputOf(g.symtab, g.start) && (!update ==> previous == map[])
      requires pieces == Layout(g, s) && offset == OffsetAt(g, s) && symbols == TableAt(g, s) && SymbolsAt(g, s, symtab[..])
      modifies symtab, this`symbols, this`pieces, this`offset
      ensures pieces == Layout(g, s + 1) && offset == OffsetAt(g, s + 1) && symbols == TableAt(g, s + 1) && SymbolsAt(g, s + 1, symtab[..])
    {
      var sec := sections[s];
      if sec.size != 0 {
        if sec.image {
          PlacePiece(s, sec.size);
        } else if sec.placed {
          ghost var now, table := symtab[..], symbols;
          var changed := AdjustOffsets(s);
          SectionAdjusted(g, s, now, symtab[..], table);
          if !update || changed || !sec.writable {
            PlacePiece(s, sec.size + sec.extra);
          }
        }
      }
    }

    /** preload: place the sections one after the other; without any memory the object is refused. */
    method Preload() returns (ok: bool)
      requires symbols == map[] && pieces == [] && offsets == [] && (!update ==> previous == map[])
      modifies symtab, this`symbols, this`pieces, this`offsets, this`offset
      ensures var g := InputOf(old(symtab[..]), old(offset)); var n := |sections|;
              && pieces == Layout(g, n) && offset == OffsetAt(g, n) && symbols == TableAt(g, n) && SymbolsAt(g, n, symtab[..])
              && |offsets| == n && forall k :: 0 <= k < n ==> offsets[k] == OffsetAt(g, k)
      ensures ok <==> pieces != []
    {
      ghost var g := InputOf(symtab[..], offset);
      for s := 0 to |sections|
        invariant pieces == Layout(g, s) && offset == OffsetAt(g, s) && symbols == TableAt(g, s) && SymbolsAt(g, s, symtab[..])
        invariant |offsets| == s && forall k :: 0 <= k < s ==> offsets[k] == OffsetAt(g, k)
      {
        offsets := offsets + [offset];
        PreloadSection(s, g);
      }
      ok := pieces != [];
    }
  }

  /** Adjusting the symbols of a section, which earlier sections left alone, is one step of the layout. */
  lemma SectionAdjusted(g: Input, s: nat, now: seq<Sym>, after: seq<Sym>, t: Table)
    requires Handled(g, s) && SymbolsAt(g, s, now) && t == TableAt(g, s)
    requires after == AdjustedAll(g.prev, g.sections[s], OffsetAt(g, s), s, now)
    ensures SymbolsAt(g, s + 1, after)
    ensures Inserted(g.prev, g.sections[s], OffsetAt(g, s), s, now, |now|, t) == TableAt(g, s + 1)
    ensures Changed(g.prev, g.sections[s], s, now) <==> Changed(g.prev, g.sections[s], s, g.symtab)
  {
    assert forall i :: 0 <= i < |now| ==> now[i].section == g.symtab[i].section && (now[i].section == s ==> now[i] == g.symtab[i]);
    InsertedSame(g.prev, g.sections[s], OffsetAt(g, s), s, now, g.symtab, |now|, t);
  }

  // ---------------------------------------------------------------------------
  // Chains of versions

  /** A loaded version: what preload worked on, and the address state of the loader when it was created. */
  datatype Version = Version(input: Input, state: State) {
    ghost function Pieces(): (r: seq<Piece>) {
      Layout(input, |input.sections|)
    }

    ghost function Symbols(): (r: Table) {
      TableAt(input, |input.sections|)
    }

    ghost function End(): (r: nat) {
      OffsetAt(input, |input.sections|)
    }
  }

  /** Object::memory_range: from the first to the last mapped page. */
  ghost function MappedRange(base: nat, v: Version): (r: Range)
    requires v.Pieces() != []
  {
    var ps := v.Pieces();
    var last := ps[|ps| - 1];
    Range(base + ps[0].offset, base + last.offset + last.pages)
  }

  /** The table that version `k` is preloaded over. */
  ghost function Before(vs: seq<Version>, k: nat): (r: Table)
    requires k <= |vs|
  {
    if k == 0 then map[] else vs[k - 1].Symbols()
  }

  /** Version `k` was created and mapped by the loader on top of the versions before it, which are all among
      the live ranges that next_address looks at. */
  ghost predicate LoadedAt(base: nat, vs: seq<Version>, k: nat)
    requires k < |vs|
  {
    var v := vs[k];
    && v.input.prev == Before(vs, k) && (v.input.update <==> k > 0) && v.Pieces() != []
    && base + v.input.start == NextAddress(v.state) && (k == 0 ==> v.input.start == 0)
    && (forall j :: 0 <= j < k ==> vs[j].Pieces() != [] && MappedRange(base, vs[j]) in v.state.live)
  }

  ghost predicate Chain(base: nat, vs: seq<Version>) {
    forall k :: 0 <= k < |vs| ==> LoadedAt(base, vs, k)
  }

  /** One more load makes a longer chain. */
  lemma ChainGrows(base: nat, vs: seq<Version>, v: Version)
    requires Chain(base, vs) && LoadedAt(base, vs + [v], |vs|)
    ensures Chain(base, vs + [v])
  {
    var vs' := vs + [v];
    forall k | 0 <= k < |vs'| ensures LoadedAt(base, vs', k) {
      if k < |vs| {
        assert LoadedAt(base, vs, k);
        assert vs'[k] == vs[k] && Before(vs', k) == Before(vs, k);
        assert forall j :: 0 <= j < k ==> vs'[j] == vs[j];
      }
    }
  }

  lemma {:induction false} ChainNamed(base: nat, vs: seq<Version>, k: nat)
    requires Chain(base, vs) && k <= |vs|
    ensures Named(Before(vs, k))
  {
    if k > 0 {
      ChainNamed(base, vs, k - 1);
      assert LoadedAt(base, vs, k - 1);
      TableNamed(vs[k - 1].input, |vs[k - 1].input.sections|);
    }
  }

  /** All versions start on a page. */
  lemma ChainAligned(base: nat, vs: seq<Version>, k: nat)
    requires Chain(base, vs) && k < |vs|
    ensures base % PAGE == 0 && vs[k].input.start % PAGE == 0
  {
    assert LoadedAt(base, vs, 0) && LoadedAt(base, vs, k);
  }

  /** The mapped range of a version is exactly from its start to its end. */
  lemma RangeOfVersion(base: nat, v: Version)
    requires v.Pieces() != []
    ensures MappedRange(base, v) == Range(base + v.input.start, base + v.End()) && v.input.start < v.End()
  {
    var g, n, ps := v.input, |v.input.sections|, v.Pieces();
    LayoutEnds(g, n);
    LayoutSound(g, n, 0);
    LayoutSound(g, n, |ps| - 1);
    PieceInside(g, ps[0]);
    PieceInside(g, ps[|ps| - 1]);
  }

  lemma {:induction false} LayoutEnds(g: Input, s: nat)
    requires s <= |g.sections|
    ensures var ps := Layout(g, s);
            if ps == [] then OffsetAt(g, s) == g.start
            else ps[0].offset == g.start && ps[|ps| - 1].offset + ps[|ps| - 1].pages == OffsetAt(g, s)
  {
    if s > 0 {
      LayoutEnds(g, s - 1);
    }
  }

  /** A later version starts above an earlier one that ends below the loader. */
  lemma StartsAbove(base: nat, vs: seq<Version>, j: nat, k: nat)
    requires Chain(base, vs) && j < k < |vs| && base + vs[j].End() < BASEADDRESS
    ensures vs[j].End() <= vs[k].input.start
  {
    assert LoadedAt(base, vs, k) && LoadedAt(base, vs, j);
    RangeOfVersion(base, vs[j]);
    NextIsAboveLive(vs[k].state, MappedRange(base, vs[j]));
  }

  lemma EndAligned(base: nat, v: Version)
    requires base % PAGE == 0 && v.input.start % PAGE == 0
    ensures (base + v.End()) % PAGE == 0
  {
    OffsetAligned(v.input, |v.input.sections|);
  }

  /** Two loads of a file in a row are apart if and only if the first one ends below the loader. */
  lemma NextStartsAboveIff(base: nat, vs: seq<Version>)
    requires Chain(base, vs) && vs != [] && LoadedAt(base, vs, |vs| - 1)
    ensures var v := vs[|vs| - 1];
            var s := Reserve(v.state, 0).(live := v.state.live + [MappedRange(base, v)]);
            base + v.End() <= NextAddress(s) <==> base + v.End() < BASEADDRESS
  {
    var k := |vs| - 1;
    ChainAligned(base, vs, k);
    RangeOfVersion(base, vs[k]);
    EndAligned(base, vs[k]);
    NextIsAboveMappedIff(vs[k].state, base + vs[k].End());
  }

  /** The pieces of all versions are pairwise disjoint, as long as the versions end below the loader. */
  lemma PiecesDisjoint(base: nat, vs: seq<Version>, j: nat, a: nat, k: nat, b: nat)
    requires Chain(base, vs) && j <= k < |vs| && a < |vs[j].Pieces()| && b < |vs[k].Pieces()| && (j, a) != (k, b)
    requires j < k ==> base + vs[j].End() < BASEADDRESS
    ensures var p, q := vs[j].Pieces()[a], vs[k].Pieces()[b];
            p.offset + p.pages <= q.offset || q.offset + q.pages <= p.offset
  {
    var g, h := vs[j].input, vs[k].input;
    LayoutSound(g, |g.sections|, a);
    LayoutSound(h, |h.sections|, b);
    if j < k {
      StartsAbove(base, vs, j, k);
      PieceInside(g, vs[j].Pieces()[a]);
      PieceInside(h, vs[k].Pieces()[b]);
    } else if a < b {
      LayoutOrdered(g, |g.sections|, a, b);
      PiecesOrdered(g, vs[j].Pieces()[a], vs[k].Pieces()[b]);
    } else {
      LayoutOrdered(g, |g.sections|, b, a);
      PiecesOrdered(g, vs[k].Pieces()[b], vs[j].Pieces()[a]);
    }
  }

  /** Every symbol in the table of any version lies in a piece of that version or of an earlier one. */
  lemma {:induction false} SymbolsStayMapped(base: nat, vs: seq<Version>, k: nat, n: string) returns (j: nat, a: nat)
    requires Chain(base, vs) && k < |vs| && n in vs[k].Symbols()
    requires forall i :: 0 <= i <= k ==> WithinSections(vs[i].input)
    ensures j <= k && a < |vs[j].Pieces()| && LiesIn(vs[k].Symbols()[n], vs[j].Pieces()[a])
  {
    var g, e := vs[k].input, vs[k].Symbols()[n];
    assert LoadedAt(base, vs, k);
    ChainNamed(base, vs, k);
    TableOrigins(g, |g.sections|);
    assert HasOrigin(g, e);
    if e.name in g.prev && e == g.prev[e.name] {
      j, a := SymbolsStayMapped(base, vs, k - 1, e.name);
    } else {
      var i :| IsPlaced(g, e, i);
      j := k;
      a := PlacedInPiece(g, e, i);
    }
  }

  /** The version has exactly one symbol of this name, of this type and size, in a writable section that preload
      adjusts. */
  ghost predicate HasData(g: Input, n: string, kind: SymbolType, size: nat) {
    exists i :: 0 <= i < |g.symtab| && IsData(g, n, kind, size, i)
  }

  ghost predicate IsData(g: Input, n: string, kind: SymbolType, size: nat, i: nat)
    requires i < |g.symtab|
  {
    var sym := g.symtab[i];
    && sym.name == n && sym.kind == kind && sym.size == size && UniqueName(g.symtab, i)
    && HoldsData(g, sym.section) && g.sections[sym.section].writable
  }

  /** Such data has its place in the table: that of the previous version if it was there. */
  lemma DataLinked(g: Input, n: string, kind: SymbolType, size: nat)
    requires Named(g.prev) && HasData(g, n, kind, size) && Adjustable(kind)
    ensures var t := TableAt(g, |g.sections|);
            && n in t && t[n].kind == kind && t[n].size == size
            && (n in g.prev && g.prev[n].kind == kind && g.prev[n].size == size ==> t[n].value == g.prev[n].value)
  {
    var i :| 0 <= i < |g.symtab| && IsData(g, n, kind, size, i);
    TableFirst(g, |g.sections|, i);
  }

  /** It keeps one address over the whole chain. */
  lemma {:induction false} DataKeepsAddress(base: nat, vs: seq<Version>, k: nat, n: string, kind: SymbolType, size: nat)
    requires Chain(base, vs) && k < |vs| && Adjustable(kind)
    requires forall j :: 0 <= j <= k ==> HasData(vs[j].input, n, kind, size)
    ensures n in vs[0].Symbols() && n in vs[k].Symbols()
    ensures vs[k].Symbols()[n].kind == kind && vs[k].Symbols()[n].size == size
    ensures base + vs[k].Symbols()[n].value == base + vs[0].Symbols()[n].value
  {
    assert LoadedAt(base, vs, k);
    ChainNamed(base, vs, k);
    DataLinked(vs[k].input, n, kind, size);
    if k > 0 {
      DataKeepsAddress(base, vs, k - 1, n, kind, size);
    }
  }

  /** The versions are mapped, and next_address looks at their ranges. */
  ghost predicate AllLive(base: nat, vs: seq<Version>, live: seq<Range>) {
    forall k :: 0 <= k < |vs| ==> vs[k].Pieces() != [] && MappedRange(base, vs[k]) in live
  }

  /** The reservation of a load. */
  function Taken(s: State): (r: Range) {
    Range(NextAddress(s), NextAddress(s))
  }

  /** The loader's addresses after a load failed, and gave back this base. */
  function Rejected(s: State, base: nat): (s': State) {
    Release(Reserve(s, 0), base, Taken(s))
  }

  /** No other reservation ends above that base and all live ranges. */
  ghost predicate RejectionKeeps(s: State, base: nat) {
    forall q <- s.reserved :: q == Taken(s) || q.end <= Top(s.live, AlignUp(base))
  }

  /** The loader's addresses after a version was loaded. */
  ghost function Accepted(base: nat, v: Version): (s: State)
    requires v.Pieces() != []
  {
    var t := Reserve(v.state, 0);
    t.(live := t.live + [MappedRange(base, v)], reserved := t.reserved - {Taken(v.state)})
  }

  lemma AcceptedVersionSafe(base: nat, v: Version)
    requires v.Pieces() != [] && base + v.input.start == NextAddress(v.state)
    ensures Safe(v.state) ==> Safe(Accepted(base, v))
  {
    RangeOfVersion(base, v);
    if Safe(v.state) {
      AcceptedLoadSafe(v.state, MappedRange(base, v));
    }
  }

  /** The versions of one file, as the loader creates them. */
  class RelocatableFile {
    const loader: Reservations
    var base: nat
    var table: Table
    var count: nat
    ghost var versions: seq<Version>

    ghost predicate Valid()
      reads this, loader
    {
      && Chain(base, versions) && count == |versions| && table == Before(versions, |versions|)
      && AllLive(base, versions, loader.live)
    }

    constructor (loader: Reservations)
      ensures Valid() && versions == [] && this.loader == loader
    {
      this.loader, base, table, count, versions := loader, 0, map[], 0, [];
    }

    /** What the next version is preloaded from. */
    ghost function NextInput(sections: seq<Section>, syms: seq<Sym>): (g: Input)
      requires Valid() && (versions != [] ==> base < NextAddress(loader.View()))
      reads this, loader
    {
      Input(table, versions != [], sections, syms, if versions == [] then 0 else NextAddress(loader.View()) - base)
    }

    /** The base of the next version, which its object gives back when it fails. */
    ghost function GivenBack(): (r: nat)
      reads this, loader
    {
      if versions == [] then NextAddress(loader.View()) else base
    }

    /** Creates and preloads the object of a new version. */
    method Create(sections: seq<Section>, syms: seq<Sym>) returns (o: ObjectRelocatable, ok: bool)
      requires Valid() && (versions != [] ==> base < NextAddress(loader.View()))
      modifies loader`next, loader`reserved
      ensures fresh(o) && loader.View() == Reserve(old(loader.View()), 0)
      ensures o.base == old(GivenBack())
      ensures var g := old(NextInput(sections, syms));
              o.pieces == Layout(g, |sections|) && o.symbols == TableAt(g, |sections|)
      ensures ok <==> o.pieces != []
    {
      ghost var g := NextInput(sections, syms);
      o := new ObjectRelocatable(loader, if count == 0 then None else Some(base), table, sections, syms);
      assert o.InputOf(syms, o.offset) == g;
      ok := o.Preload();
    }

    /** Creates, preloads and maps a version: it is added to the chain, or the object is given up. */
    method LoadVersion(sections: seq<Section>, syms: seq<Sym>, maps: bool) returns (ok: bool)
      requires Valid() && (versions != [] ==> base < NextAddress(loader.View()))
      modifies this, loader
      ensures Valid()
      ensures ok <==> maps && Layout(old(NextInput(sections, syms)), |sections|) != []
      ensures !ok ==> versions == old(versions) && loader.live == old(loader.live)
      ensures ok ==> versions == old(versions) + [Version(old(NextInput(sections, syms)), old(loader.View()))]
      ensures ok ==> loader.live == old(loader.live) + [MappedRange(base, versions[|versions| - 1])]
      ensures old(versions) != [] ==> base == old(base)
      ensures ok ==> loader.View() == Accepted(base, versions[|versions| - 1])
      ensures !ok ==> loader.View() == Rejected(old(loader.View()), old(GivenBack()))
      ensures Safe(old(loader.View())) ==> (Safe(loader.View()) <==> ok || RejectionKeeps(old(loader.View()), old(GivenBack())))
      ensures Safe(old(loader.View())) && old(versions) == [] ==> Safe(loader.View())
    {
      ghost var v, s, b := Version(NextInput(sections, syms), loader.View()), loader.View(), GivenBack();
      ok := TryVersion(sections, syms, maps);
      if ok {
        AcceptedVersionSafe(base, v);
      } else if Safe(s) {
        RejectedLoadSafeIff(s, b);
        RejectedFirstLoadSafe(s);
      }
    }

    method TryVersion(sections: seq<Section>, syms: seq<Sym>, maps: bool) returns (ok: bool)
      requires Valid() && (versions != [] ==> base < NextAddress(loader.View()))
      modifies this, loader
      ensures Valid()
      ensures ok <==> maps && Layout(old(NextInput(sections, syms)), |sections|) != []
      ensures !ok ==> versions == old(versions) && loader.View() == Rejected(old(loader.View()), old(GivenBack()))
      ensures var v := Version(old(NextInput(sections, syms)), old(loader.View()));
              ok ==> versions == old(versions) + [v] && base == old(GivenBack()) && loader.View() == Accepted(base, v)
      ensures old(versions) != [] ==> base == old(base)
    {
      ghost var v := Version(NextInput(sections, syms), loader.View());
      var o, placed := Create(sections, syms);
      ok := placed && maps;
      if ok {
        Adopt(o, v);
      } else {
        loader.ResetAddress(o.base, Taken(v.state));
      }
    }

    /** Makes a preloaded and mapped object the current version. */
    method Adopt(o: ObjectRelocatable, ghost v: Version)
      requires Chain(base, versions) && count == |versions| && AllLive(base, versions, v.state.live)
      requires loader.live == v.state.live && o.pieces == v.Pieces() != [] && o.symbols == v.Symbols()
      requires v.input.prev == Before(versions, |versions|) && (v.input.update <==> versions != [])
      requires o.base + v.input.start == NextAddress(v.state)
      requires if versions == [] then v.input.start == 0 else o.base == base
      modifies this, loader`live, loader`reserved
      ensures Valid() && versions == old(versions) + [v] && base == o.base
      ensures loader.live == old(loader.live) + [MappedRange(base, v)]
      ensures loader.reserved == old(loader.reserved) - {Taken(v.state)}
    {
      ghost var vs := versions + [v];
      VersionLoaded(o.base, versions, v, v.input.prev);
      StillLive(o.base, versions, v);
      var last := o.pieces[|o.pieces| - 1];
      var m := Range(o.base + o.pieces[0].offset, o.base + last.offset + last.pages);
      assert m == MappedRange(o.base, v) && Chain(o.base, vs) && AllLive(o.base, vs, v.state.live + [m]);
      loader.AddObject(m, Taken(v.state));
      base, table, count, versions := o.base, o.symbols, count + 1, vs;
    }
  }

  lemma StillLive(base: nat, vs: seq<Version>, v: Version)
    requires AllLive(base, vs, v.state.live) && v.Pieces() != []
    ensures AllLive(base, vs + [v], v.state.live + [MappedRange(base, v)])
  {
    var vs' := vs + [v];
    forall k | 0 <= k < |vs'| ensures vs'[k].Pieces() != [] && MappedRange(base, vs'[k]) in v.state.live + [MappedRange(base, v)] {
      if k < |vs| {
        assert vs'[k] == vs[k];
      }
    }
  }

  /** A version that was created over the current table, above all earlier versions, extends the chain. */
  lemma VersionLoaded(base: nat, vs: seq<Version>, v: Version, table: Table)
    requires Chain(base, vs) && table == Before(vs, |vs|) && v.Pieces() != []
    requires v.input.prev == table && (v.input.update <==> vs != []) && (vs == [] ==> v.input.start == 0)
    requires base + v.input.start == NextAddress(v.state)
    requires AllLive(base, vs, v.state.live)
    ensures Chain(base, vs + [v]) && Before(vs + [v], |vs| + 1) == v.Symbols()
  {
    var vs' := vs + [v];
    assert vs'[..|vs|] == vs && vs'[|vs|] == v && Before(vs', |vs|) == table;
    forall j | 0 <= j < |vs| ensures vs'[j].Pieces() != [] && MappedRange(base, vs'[j]) in v.state.live {
      assert vs'[j] == vs[j];
    }
    ChainGrows(base, vs, v);
  }
}
