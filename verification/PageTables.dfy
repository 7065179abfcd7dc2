/**
 The early page-table builder of kern/arch/aarch64/mmu.c, over raw physical memory.

 `mem` is physical memory, one 64-bit word per 8-byte aligned address, reached through the
 logical map.  `tables` is the ghost view of it: the table reached by each index prefix.
 */
module PageTables {
  import opened Wrappers
  import opened Bits
  import opened DescriptorBits
  import opened Descriptors

  // ----- frames ------------------------------------------------------------------------

  /** The frame allocate_page_table picks when it looks at region `i` with `candidate`. */
  function FirstFit(starts: seq<nat>, ends: seq<nat>, i: nat, candidate: nat): (r: Option<nat>)
    requires |starts| == |ends| && i < |ends|
    ensures r.Some? ==> r.value == candidate || exists j :: i < j < |starts| && r.value == starts[j]
    decreases |ends| - i
  {
    if candidate + PAGE_SIZE - 1 < ends[i] then Some(candidate)
    else if i + 1 < |ends| then FirstFit(starts, ends, i + 1, starts[i + 1])
    else None
  }

  function NextFrame(starts: seq<nat>, ends: seq<nat>, last: nat): (r: Option<nat>)
    requires |starts| == |ends| > 0
  {
    FirstFit(starts, ends, 0, last + PAGE_SIZE)
  }

  /** The next page of the first region, while there is one; then the first page of the first
      later region that holds a page. */
  lemma NextFrameIs(starts: seq<nat>, ends: seq<nat>, last: nat)
    requires |starts| == |ends| > 0
    ensures var r := NextFrame(starts, ends, last);
            if last + 8191 < ends[0] then r == Some(last + 4096)
            else
              && (r == None <==> forall i :: 0 < i < |starts| ==> ends[i] <= starts[i] + 4095)
              && forall i ::
                   0 < i < |starts| && starts[i] + 4095 < ends[i]
                   && (forall j :: 0 < j < i ==> ends[j] <= starts[j] + 4095)
                   ==> r == Some(starts[i])
  {
    if last + 8191 >= ends[0] && |starts| > 1 {
      FirstThatFits(starts, ends, 1);
    }
  }

  lemma {:induction false} FirstThatFits(starts: seq<nat>, ends: seq<nat>, k: nat)
    requires |starts| == |ends| && k < |starts|
    ensures var r := FirstFit(starts, ends, k, starts[k]);
            && (r == None <==> forall i :: k <= i < |starts| ==> ends[i] <= starts[i] + 4095)
            && forall i ::
                 k <= i < |starts| && starts[i] + 4095 < ends[i]
                 && (forall j :: k <= j < i ==> ends[j] <= starts[j] + 4095)
                 ==> r == Some(starts[i])
    decreases |starts| - k
  {
    if k + 1 < |starts| {
      FirstThatFits(starts, ends, k + 1);
    }
  }

  /** With ascending regions, the frame after `r` is `r` once more exactly when `r` already
      came from a region other than the first: the search restarts at that region's start. */
  lemma FrameRepeatsIff(starts: seq<nat>, ends: seq<nat>, last: nat)
    requires |starts| == |ends| > 0
    requires forall i :: 0 < i < |starts| ==> ends[0] <= starts[i]
    requires NextFrame(starts, ends, last).Some?
    ensures var r := NextFrame(starts, ends, last);
            NextFrame(starts, ends, r.value) == r <==> ends[0] <= last + 2 * PAGE_SIZE - 1
  {
  }

  /** Two regions: after the last page of the first, the second's first page comes twice. */
  lemma FrameRepeatsExample()
    ensures var starts, ends := [0, 0x10000], [0x3000, 0x20000];
            NextFrame(starts, ends, 0x1000) == Some(0x2000) && NextFrame(starts, ends, 0x2000) == Some(0x10000)
            && NextFrame(starts, ends, 0x10000) == Some(0x10000)
  {
  }

  // ----- the tree ------------------------------------------------------------------------

  /** Level-0 index below 256: the half of the address range that is mapped page by page. */
  predicate IsLower(va: nat) { IndexAt(va, 39) < 256 }

  predicate SamePage(v: nat, w: nat) { PageNumber(v) == PageNumber(w) }

  /** Indices in range, and the level 0 index in the half that is mapped page by page. */
  predicate IsKey(key: Key) {
    match key
    case Root => true
    case Table1(i) => i < 256
    case Table2(i, j) => i < 256 && j < TABLE_ENTRIES
    case Table3(i, j, k) => i < 256 && j < TABLE_ENTRIES && k < TABLE_ENTRIES
    case PageKey(i, j, k, l) => i < 256 && j < TABLE_ENTRIES && k < TABLE_ENTRIES && l < TABLE_ENTRIES
  }

  /** Rooted, closed under parents, and no frame serves two keys. */
  ghost predicate Shape(tables: map<Key, nat>, root: nat) {
    && Root in tables && tables[Root] == root
    && (forall key :: key in tables ==> IsKey(key) && Depth(key) <= 3)
    && (forall i, j {:trigger Table2(i, j)} :: Table2(i, j) in tables ==> Table1(i) in tables)
    && (forall i, j, k {:trigger Table3(i, j, k)} :: Table3(i, j, k) in tables ==> Table2(i, j) in tables)
    && (forall key, other {:trigger tables[key], tables[other]} ::
          key in tables && other in tables && tables[key] == tables[other] ==> key == other)
  }

  /** Every table is a page of the region, no later than the last frame handed out. */
  ghost predicate Framed(tables: map<Key, nat>, last: nat, limit: nat) {
    && IsAligned(last) && last + PAGE_SIZE <= limit <= ADDRESS_LIMIT
    && forall k :: k in tables ==> IsAligned(tables[k]) && tables[k] <= last
  }

  /** An upper-level entry is valid exactly when its table exists, and then points to it. */
  ghost predicate Linked(mem: map<nat, nat>, tables: map<Key, nat>) {
    forall k: Key, i: nat {:trigger Child(k, i)} {:trigger EntryAddress(tables[k], i)} ::
      k in tables && Depth(k) < 3 && IsKey(Child(k, i)) ==>
        var a := EntryAddress(tables[k], i);
        a in mem && if Child(k, i) in tables then mem[a] == tables[Child(k, i)] + 3 else !IsValidBit(mem[a])
  }

  ghost predicate IsLeaf(w: nat) {
    exists pa, attributes :: IsPageAddress(pa) && ValidAttributes(attributes) && w == Encode(pa, attributes)
  }

  /** A level 3 entry is invalid or a page descriptor. */
  ghost predicate Leafy(mem: map<nat, nat>, tables: map<Key, nat>) {
    forall k: Key, i: nat {:trigger EntryAddress(tables[k], i)} ::
      k in tables && Depth(k) == 3 && i < TABLE_ENTRIES ==>
        var a := EntryAddress(tables[k], i);
        a in mem && (!IsValidBit(mem[a]) || IsLeaf(mem[a]))
  }

  /** The boot assumption, kept as an invariant: frames not yet handed out hold zeros. */
  ghost predicate Zeroed(mem: map<nat, nat>, last: nat, limit: nat) {
    forall f: nat, i: nat {:trigger EntryAddress(f, i)} ::
      last + PAGE_SIZE <= f && f + PAGE_SIZE <= limit && IsAligned(f) && i < TABLE_ENTRIES ==>
        EntryAddress(f, i) in mem && mem[EntryAddress(f, i)] == 0
  }

  ghost predicate Tree(mem: map<nat, nat>, tables: map<Key, nat>, root: nat, last: nat, limit: nat) {
    Shape(tables, root) && Framed(tables, last, limit) && Linked(mem, tables) && Leafy(mem, tables)
    && Zeroed(mem, last, limit)
  }

  ghost predicate IsPageKey(key: Key) { key.PageKey? && IsKey(key) }

  function TableOf(page: Key): Key
    requires page.PageKey?
  {
    Table3(page.i, page.j, page.k)
  }

  /** What the tree says about a page: its leaf, if the three tables above it exist. */
  ghost function LeafOf(mem: map<nat, nat>, tables: map<Key, nat>, page: Key): Translation
    requires page.PageKey?
  {
    if TableOf(page) !in tables then Fault
    else
      var a := EntryAddress(tables[TableOf(page)], page.l);
      if a in mem then LeafTranslation(mem[a]) else Fault
  }

  /** The entry behind a key: valid exactly when the table below exists, which it points to. */
  lemma EntryState(mem: map<nat, nat>, tables: map<Key, nat>, root: nat, last: nat, limit: nat, k: Key, i: nat)
    requires Tree(mem, tables, root, last, limit)
    requires k in tables && Depth(k) <= 3 && IsKey(Child(k, i))
    ensures var a := EntryAddress(tables[k], i);
            a in mem && (Depth(k) < 3 ==> IsValidBit(mem[a]) == (Child(k, i) in tables))
    ensures Depth(k) < 3 && Child(k, i) in tables ==>
              IsPageAddress(tables[Child(k, i)]) && mem[EntryAddress(tables[k], i)] == tables[Child(k, i)] + 3
  {
    if Depth(k) < 3 && Child(k, i) in tables {
      TablePointer(tables[Child(k, i)]);
    }
  }

  /** A missing table has no tables below it. */
  lemma AncestorsExist(mem: map<nat, nat>, tables: map<Key, nat>, root: nat, last: nat, limit: nat, va: nat)
    requires Tree(mem, tables, root, last, limit)
    ensures KeyOf(va, 3) in tables ==> KeyOf(va, 2) in tables
    ensures KeyOf(va, 2) in tables ==> KeyOf(va, 1) in tables
    ensures KeyOf(va, 0) in tables && tables[KeyOf(va, 0)] == root && last + PAGE_SIZE <= limit
  {
  }

  lemma KeyOfIsKey(va: nat, level: nat)
    requires IsLower(va) && level <= 4
    ensures IsKey(KeyOf(va, level))
  {
  }

  lemma TablePointer(t: nat)
    requires IsPageAddress(t)
    ensures IsValidBit(t + 3) && IsTableOrPage(t + 3) && TableAddress(t + 3) == t && OutputAddress(t + 3) == t
  {
    assert (t + 3) / PAGE_SIZE == t / PAGE_SIZE;
  }

  lemma WalkStep(mem: map<nat, nat>, table: nat, next: nat, va: nat, level: nat)
    requires level < 3 && IsPageAddress(next)
    requires var a := EntryAddress(table, IndexAt(va, ShiftOf(level))); a in mem && mem[a] == next + 3
    ensures HardwareWalk(mem, table, va, level) == HardwareWalk(mem, next, va, level + 1)
  {
    TablePointer(next);
    hide IndexAt, IsAligned, OutputAddress, IsValidBit, IsTableOrPage, EntryAddress;
  }

  /** The hardware walk finds exactly the tree's leaf. */
  lemma {:induction false} WalkFindsLeaf(mem: map<nat, nat>, tables: map<Key, nat>, root: nat, last: nat, limit: nat,
                                         va: nat, level: nat)
    requires Tree(mem, tables, root, last, limit)
    requires IsLower(va) && level < 4 && KeyOf(va, level) in tables
    ensures HardwareWalk(mem, tables[KeyOf(va, level)], va, level) == LeafOf(mem, tables, KeyOf(va, 4))
    decreases 4 - level
  {
    KeyOfIsKey(va, level + 1);
    KeyStep(va, level);
    assert TableOf(KeyOf(va, 4)) == KeyOf(va, 3) && KeyOf(va, 4).l == IndexAt(va, 12);
    hide Tree, IndexAt, KeyOf, IsLower, IsKey, OutputAddress, IsPageAddress, EntryAddress, LeafTranslation,
         IsValidBit, IsTableOrPage;
    var key, i := KeyOf(va, level), IndexAt(va, ShiftOf(level));
    EntryState(mem, tables, root, last, limit, key, i);
    if level < 3 {
      if Child(key, i) in tables {
        WalkStep(mem, tables[key], tables[Child(key, i)], va, level);
        WalkFindsLeaf(mem, tables, root, last, limit, va, level + 1);
      } else {
        AncestorsExist(mem, tables, root, last, limit, va);
      }
    }
  }

  /** Entries of different tables, or different entries of one table, are different words. */
  lemma EntriesDistinct(tables: map<Key, nat>, root: nat, last: nat, limit: nat, k: Key, i: nat)
    requires Shape(tables, root) && Framed(tables, last, limit)
    requires k in tables && i < TABLE_ENTRIES
    ensures forall l: Key, j: nat ::
              l in tables && j < TABLE_ENTRIES && EntryAddress(tables[k], i) == EntryAddress(tables[l], j) ==>
                k == l && i == j
    ensures EntryAddress(tables[k], i) < last + PAGE_SIZE
    ensures forall f: nat, j: nat {:trigger EntryAddress(f, j)} :: last + PAGE_SIZE <= f ==>
            EntryAddress(tables[k], i) < EntryAddress(f, j)
  {
    forall l: Key, j: nat | l in tables && j < TABLE_ENTRIES && EntryAddress(tables[k], i) == EntryAddress(tables[l], j)
      ensures k == l && i == j
    {
      EntryInjective(tables[k], i, tables[l], j);
    }
  }

  /** The next frame reads as zeros, also after a write to a frame handed out before. */
  lemma FreshEntry(mem: map<nat, nat>, last: nat, limit: nat, a: nat, w: nat, j: nat)
    requires Zeroed(mem, last, limit) && IsAligned(last) && last + 2 * PAGE_SIZE <= limit
    requires a < last + PAGE_SIZE && j < TABLE_ENTRIES
    ensures var b := EntryAddress(last + PAGE_SIZE, j);
            b in mem[a := w] && mem[a := w][b] == 0
  {
  }

  /** Linking a fresh zero frame below an existing table keeps the tree and every leaf. */
  lemma LinkTable(mem: map<nat, nat>, tables: map<Key, nat>, root: nat, last: nat, limit: nat, k: Key, i: nat)
    requires Tree(mem, tables, root, last, limit)
    requires k in tables && Depth(k) < 3 && IsKey(Child(k, i)) && Child(k, i) !in tables
    requires last + 2 * PAGE_SIZE <= limit
    ensures var f := last + PAGE_SIZE;
            var mem' := mem[EntryAddress(tables[k], i) := f + 3];
            var tables' := tables[Child(k, i) := f];
            Tree(mem', tables', root, f, limit)
            && Kept(mem, tables, mem', tables', root) && Extends(tables, tables', last)
  {
    hide Linked, Leafy, SameLeaves, SameUpper, IsKey, EntryAddress;
    var f := last + PAGE_SIZE;
    LinkLinked(mem, tables, root, last, limit, k, i);
    LinkLeafy(mem, tables, root, last, limit, k, i);
    LinkLeaves(mem, tables, root, last, limit, k, i);
    LinkShape(tables, root, last, limit, k, i);
    EntryInRange(k, i);
    WriteKeepsUpper(mem, tables, root, last, limit, k, i, f + 3);
    EntriesDistinct(tables, root, last, limit, k, i);
  }

  lemma EntryInRange(k: Key, i: nat)
    requires Depth(k) < 3 && IsKey(Child(k, i))
    ensures i < TABLE_ENTRIES && (k == Root ==> i < 256)
  {
  }

  lemma LinkShape(tables: map<Key, nat>, root: nat, last: nat, limit: nat, k: Key, i: nat)
    requires Shape(tables, root) && Framed(tables, last, limit) && last + 2 * PAGE_SIZE <= limit
    requires k in tables && Depth(k) < 3 && IsKey(Child(k, i)) && Child(k, i) !in tables
    ensures var f := last + PAGE_SIZE; var tables' := tables[Child(k, i) := f];
            Shape(tables', root) && Framed(tables', f, limit) && Extends(tables, tables', last)
  {
  }

  lemma LinkLeaves(mem: map<nat, nat>, tables: map<Key, nat>, root: nat, last: nat, limit: nat, k: Key, i: nat)
    requires Tree(mem, tables, root, last, limit)
    requires k in tables && Depth(k) < 3 && IsKey(Child(k, i)) && Child(k, i) !in tables
    requires last + 2 * PAGE_SIZE <= limit
    ensures var f := last + PAGE_SIZE;
            SameLeaves(mem, tables, mem[EntryAddress(tables[k], i) := f + 3], tables[Child(k, i) := f])
  {
    var f := last + PAGE_SIZE;
    var a := EntryAddress(tables[k], i);
    EntriesDistinct(tables, root, last, limit, k, i);
    hide Linked, IsLeaf, IsAligned, EntryAddress;
    forall page | IsPageKey(page)
      ensures LeafOf(mem[a := f + 3], tables[Child(k, i) := f], page) == LeafOf(mem, tables, page)
    {
      if TableOf(page) == Child(k, i) {
        FreshEntry(mem, last, limit, a, f + 3, page.l);
      }
    }
  }

  lemma LinkLinked(mem: map<nat, nat>, tables: map<Key, nat>, root: nat, last: nat, limit: nat, k: Key, i: nat)
    requires Tree(mem, tables, root, last, limit)
    requires k in tables && Depth(k) < 3 && IsKey(Child(k, i)) && Child(k, i) !in tables
    requires last + 2 * PAGE_SIZE <= limit
    ensures var f := last + PAGE_SIZE;
            Linked(mem[EntryAddress(tables[k], i) := f + 3], tables[Child(k, i) := f])
  {
    var f := last + PAGE_SIZE;
    var a := EntryAddress(tables[k], i);
    var mem' := mem[a := f + 3];
    var tables' := tables[Child(k, i) := f];
    EntriesDistinct(tables, root, last, limit, k, i);
    forall l: Key, j: nat | l in tables' && Depth(l) < 3 && IsKey(Child(l, j))
      ensures var b := EntryAddress(tables'[l], j);
              b in mem' && if Child(l, j) in tables' then mem'[b] == tables'[Child(l, j)] + 3 else !IsValidBit(mem'[b])
    {
      if l == Child(k, i) {
        FreshEntry(mem, last, limit, a, f + 3, j);
      }
    }
  }

  lemma LinkLeafy(mem: map<nat, nat>, tables: map<Key, nat>, root: nat, last: nat, limit: nat, k: Key, i: nat)
    requires Tree(mem, tables, root, last, limit)
    requires k in tables && Depth(k) < 3 && IsKey(Child(k, i)) && Child(k, i) !in tables
    requires last + 2 * PAGE_SIZE <= limit
    ensures var f := last + PAGE_SIZE;
            Leafy(mem[EntryAddress(tables[k], i) := f + 3], tables[Child(k, i) := f])
  {
    var f := last + PAGE_SIZE;
    var a := EntryAddress(tables[k], i);
    var mem' := mem[a := f + 3];
    var tables' := tables[Child(k, i) := f];
    EntriesDistinct(tables, root, last, limit, k, i);
    forall l: Key, j: nat | l in tables' && Depth(l) == 3 && j < TABLE_ENTRIES
      ensures var b := EntryAddress(tables'[l], j); b in mem' && (!IsValidBit(mem'[b]) || IsLeaf(mem'[b]))
    {
      if l == Child(k, i) {
        FreshEntry(mem, last, limit, a, f + 3, j);
      }
    }
  }

  /** Writing a leaf keeps the tree and changes the one page it belongs to. */
  lemma WriteLeaf(mem: map<nat, nat>, tables: map<Key, nat>, root: nat, last: nat, limit: nat, page: Key, w: nat)
    requires Tree(mem, tables, root, last, limit)
    requires IsPageKey(page) && TableOf(page) in tables && IsLeaf(w)
    ensures var mem' := mem[EntryAddress(tables[TableOf(page)], page.l) := w];
            Tree(mem', tables, root, last, limit)
            && forall q :: IsPageKey(q) ==>
                 LeafOf(mem', tables, q) == if q == page then LeafTranslation(w) else LeafOf(mem, tables, q)
  {
    EntriesDistinct(tables, root, last, limit, TableOf(page), page.l);
    hide IsAligned, EntryAddress, IsValidBit, LeafTranslation, IsLeaf;
  }

  /** The store at the end of mmu_map. */
  lemma WriteDescriptor(mem: map<nat, nat>, tables: map<Key, nat>, root: nat, last: nat, limit: nat,
                        va: nat, pa: nat, flags: nat)
    requires Tree(mem, tables, root, last, limit)
    requires IsLower(va) && KeyOf(va, 3) in tables && IsPageAddress(pa)
    ensures var mem' := mem[EntryAddress(tables[KeyOf(va, 3)], IndexAt(va, 12)) := Encode(pa, AttributesFor(flags))];
            Tree(mem', tables, root, last, limit)
            && LeafSet(mem, tables, mem', tables, KeyOf(va, 4), Page(pa, AttributesFor(flags)))
            && SameUpper(mem, mem', root)
  {
    KeyOfIsKey(va, 4);
    EncodeDecode(pa, AttributesFor(flags));
    WriteLeaf(mem, tables, root, last, limit, KeyOf(va, 4), Encode(pa, AttributesFor(flags)));
    WriteKeepsUpper(mem, tables, root, last, limit, KeyOf(va, 3), IndexAt(va, 12), Encode(pa, AttributesFor(flags)));
  }

  ghost predicate SameLeaves(mem: map<nat, nat>, tables: map<Key, nat>, mem': map<nat, nat>, tables': map<Key, nat>) {
    forall q :: IsPageKey(q) ==> LeafOf(mem', tables', q) == LeafOf(mem, tables, q)
  }

  /** The entries of the root's upper half are untouched. */
  ghost predicate SameUpper(mem: map<nat, nat>, mem': map<nat, nat>, root: nat) {
    forall i: nat {:trigger EntryAddress(root, i)} :: 256 <= i < TABLE_ENTRIES ==>
      var a := EntryAddress(root, i);
      (a in mem <==> a in mem') && (a in mem ==> mem'[a] == mem[a])
  }

  /** Leaves and upper half are untouched. */
  ghost predicate Kept(mem: map<nat, nat>, tables: map<Key, nat>, mem': map<nat, nat>, tables': map<Key, nat>,
                       root: nat)
  {
    SameLeaves(mem, tables, mem', tables') && SameUpper(mem, mem', root)
  }

  ghost predicate LeafSet(mem: map<nat, nat>, tables: map<Key, nat>, mem': map<nat, nat>, tables': map<Key, nat>,
                          page: Key, t: Translation) {
    forall q :: IsPageKey(q) ==> LeafOf(mem', tables', q) == if q == page then t else LeafOf(mem, tables, q)
  }

  lemma NothingChanged(mem: map<nat, nat>, tables: map<Key, nat>, last: nat, root: nat)
    ensures Kept(mem, tables, mem, tables, root) && SameLeaves(mem, tables, mem, tables) && SameUpper(mem, mem, root)
    ensures Extends(tables, tables, last)
  {
  }

  lemma SameLeavesTransitive(mem: map<nat, nat>, tables: map<Key, nat>, mem': map<nat, nat>, tables': map<Key, nat>,
                             mem'': map<nat, nat>, tables'': map<Key, nat>)
    requires SameLeaves(mem, tables, mem', tables') && SameLeaves(mem', tables', mem'', tables'')
    ensures SameLeaves(mem, tables, mem'', tables'')
  {
  }

  lemma SameUpperTransitive(mem: map<nat, nat>, mem': map<nat, nat>, mem'': map<nat, nat>, root: nat)
    requires SameUpper(mem, mem', root) && SameUpper(mem', mem'', root)
    ensures SameUpper(mem, mem'', root)
  {
  }

  lemma KeptTransitive(mem: map<nat, nat>, tables: map<Key, nat>, mem': map<nat, nat>, tables': map<Key, nat>,
                       mem'': map<nat, nat>, tables'': map<Key, nat>, root: nat)
    requires Kept(mem, tables, mem', tables', root) && Kept(mem', tables', mem'', tables'', root)
    ensures Kept(mem, tables, mem'', tables'', root)
  {
    hide LeafOf;
  }

  lemma KeptThenSet(mem: map<nat, nat>, tables: map<Key, nat>, mem': map<nat, nat>, tables': map<Key, nat>,
                    mem'': map<nat, nat>, tables'': map<Key, nat>, page: Key, t: Translation, root: nat)
    requires Kept(mem, tables, mem', tables', root)
    requires LeafSet(mem', tables', mem'', tables'', page, t) && SameUpper(mem', mem'', root)
    ensures LeafSet(mem, tables, mem'', tables'', page, t) && SameUpper(mem, mem'', root)
  {
    hide LeafOf;
  }

  lemma KeptMeans(mem: map<nat, nat>, tables: map<Key, nat>, mem': map<nat, nat>, tables': map<Key, nat>, root: nat)
    requires Kept(mem, tables, mem', tables', root)
    ensures SameLeaves(mem, tables, mem', tables') && SameUpper(mem, mem', root)
  {
  }

  /** A write to an entry of a lower path is not one to the upper half. */
  lemma WriteKeepsUpper(mem: map<nat, nat>, tables: map<Key, nat>, root: nat, last: nat, limit: nat,
                        k: Key, i: nat, w: nat)
    requires Shape(tables, root) && Framed(tables, last, limit)
    requires k in tables && i < TABLE_ENTRIES && (k == Root ==> i < 256)
    ensures SameUpper(mem, mem[EntryAddress(tables[k], i) := w], root)
  {
    EntriesDistinct(tables, root, last, limit, k, i);
    assert Root in tables && tables[Root] == root;
    hide Shape, Framed, EntryAddress;
  }

  /** Tables are only ever added, in frames not handed out before. */
  ghost predicate Extends(before: map<Key, nat>, after: map<Key, nat>, last: nat) {
    && (forall k :: k in before ==> k in after && after[k] == before[k])
    && (forall k :: k in after && k !in before ==> last < after[k])
  }

  lemma ExtendsTransitive(t: map<Key, nat>, u: map<Key, nat>, v: map<Key, nat>, last: nat, last': nat)
    requires Extends(t, u, last) && Extends(u, v, last') && last <= last'
    ensures Extends(t, v, last)
  {
  }

  /** From leaves to what the hardware sees. */
  lemma LeavesAreTranslations(mem: map<nat, nat>, tables: map<Key, nat>, last: nat,
                              mem': map<nat, nat>, tables': map<Key, nat>, last': nat,
                              root: nat, limit: nat, va: nat, written: bool, t: Translation)
    requires Tree(mem, tables, root, last, limit) && Tree(mem', tables', root, last', limit)
    requires if written then LeafSet(mem, tables, mem', tables', KeyOf(va, 4), t)
             else SameLeaves(mem, tables, mem', tables')
    ensures forall v {:trigger HardwareWalk(mem', root, v, 0)} :: IsLower(v) ==>
              HardwareWalk(mem', root, v, 0) == if written && SamePage(v, va) then t else HardwareWalk(mem, root, v, 0)
  {
    assert tables[Root] == root && tables'[Root] == root;
    hide Tree, LeafOf, IsLower, IndexAt, EntryAddress;
    forall v | IsLower(v)
      ensures HardwareWalk(mem', root, v, 0) == if written && SamePage(v, va) then t else HardwareWalk(mem, root, v, 0)
    {
      KeyOfIsKey(v, 4);
      WalkFindsLeaf(mem, tables, root, last, limit, v, 0);
      WalkFindsLeaf(mem', tables', root, last', limit, v, 0);
      KeysArePageNumbers(v, va);
    }
  }

  // ----- the operations --------------------------------------------------------------------

  /** How many tables the path of a page still lacks. */
  ghost function Missing(tables: map<Key, nat>, va: nat): nat {
    if KeyOf(va, 1) !in tables then 3
    else if KeyOf(va, 2) !in tables then 2
    else if KeyOf(va, 3) !in tables then 1
    else 0
  }

  function LevelOf(shift: nat): nat
    requires shift in {39, 30, 21}
  {
    if shift == 39 then 0 else if shift == 30 then 1 else 2
  }

  lemma EntryAligned(t: nat, i: nat)
    requires IsAligned(t)
    ensures EntryAddress(t, i) % 8 == 0
  {
    MultipleOfEight(t);
    assert t + i * 8 == (t / 8 + i) * 8;
  }

  /** A root table of zeros maps nothing. */
  lemma BootTree(mem: map<nat, nat>, root: nat, limit: nat)
    requires IsAligned(root) && root + PAGE_SIZE <= limit <= ADDRESS_LIMIT
    requires forall a :: root <= a < limit && a % 8 == 0 ==> a in mem && mem[a] == 0
    ensures Tree(mem, map[Root := root], root, root, limit)
    ensures forall va: nat :: HardwareWalk(mem, root, va, 0) == Fault
  {
    forall f: nat, i: nat {:trigger EntryAddress(f, i)} | root <= f && f + PAGE_SIZE <= limit && IsAligned(f)
      && i < TABLE_ENTRIES
      ensures EntryAddress(f, i) in mem && mem[EntryAddress(f, i)] == 0
    {
      EntryAligned(f, i);
      hide IsAligned;
    }
    forall va: nat
      ensures HardwareWalk(mem, root, va, 0) == Fault
    {
      assert mem[EntryAddress(root, IndexAt(va, 39))] == 0;
    }
  }

  const KERNEL_BASE := 0xFFFF_0000_0000_0000
  const KERNEL_LIMIT := 0xFFFF_8000_0000_0000
  const PROT_READ := 1
  const PROT_WRITE := 2
  const PROT_EXEC := 4

  /** The lower half of the kernel's address range, where the image is linked. */
  predicate IsKernelAddress(v: nat) { KERNEL_BASE <= v < KERNEL_LIMIT }

  /** The image is loaded at its link address minus KERNEL_BASE (kern/arch/aarch64/link.ld). */
  function LoadAddress(v: nat): nat
    requires IsKernelAddress(v)
  {
    v - v % PAGE_SIZE - KERNEL_BASE
  }

  datatype Section = Section(start: nat, end: nat)

  function PageCount(start: nat, end: nat): nat
    requires start <= end
  {
    (end + PAGE_SIZE - 1 - start) / PAGE_SIZE
  }

  function PagesEnd(s: Section): nat
    requires s.start <= s.end
  {
    s.start + PageCount(s.start, s.end) * PAGE_SIZE
  }

  predicate InSection(v: nat, start: nat, end: nat)
    requires start <= end
  {
    start <= v < start + PageCount(start, end) * PAGE_SIZE
  }

  /** As link.ld lays them out: in this order, each on pages of its own. */
  predicate SectionsInOrder(text: Section, rodata: Section, data: Section) {
    KERNEL_BASE <= text.start <= text.end && PagesEnd(text) <= rodata.start <= rodata.end
    && PagesEnd(rodata) <= data.start <= data.end <= KERNEL_LIMIT
  }

  predicate Aligned(text: Section, rodata: Section, data: Section) {
    IsAligned(text.start) && IsAligned(rodata.start) && IsAligned(data.start)
  }

  function Pages(text: Section, rodata: Section, data: Section): nat
    requires text.start <= text.end && rodata.start <= rodata.end && data.start <= data.end
  {
    PageCount(text.start, text.end) + PageCount(rodata.start, rodata.end) + PageCount(data.start, data.end)
  }

  lemma SectionsApart(text: Section, rodata: Section, data: Section)
    requires SectionsInOrder(text, rodata, data)
    ensures KERNEL_BASE <= text.start <= text.end <= rodata.start <= rodata.end
    ensures rodata.end <= data.start <= data.end <= KERNEL_LIMIT
    ensures forall v {:trigger InSection(v, text.start, text.end)} :: InSection(v, text.start, text.end) ==>
              !InSection(v, rodata.start, rodata.end) && !InSection(v, data.start, data.end)
    ensures forall v {:trigger InSection(v, rodata.start, rodata.end)} :: InSection(v, rodata.start, rodata.end) ==>
              !InSection(v, data.start, data.end)
  {
    assert text.end <= PagesEnd(text) && rodata.end <= PagesEnd(rodata);
  }

  /** What mmu_init promises of a kernel address. */
  function ImageTranslation(text: Section, rodata: Section, data: Section, v: nat): Translation
    requires SectionsInOrder(text, rodata, data) && IsKernelAddress(v)
  {
    if InSection(v, text.start, text.end) then Page(LoadAddress(v), AttributesFor(PROT_EXEC + PROT_READ))
    else if InSection(v, rodata.start, rodata.end) then Page(LoadAddress(v), AttributesFor(PROT_READ))
    else if InSection(v, data.start, data.end) then Page(LoadAddress(v), AttributesFor(PROT_READ + PROT_WRITE))
    else Fault
  }

  /** No page of the image is both writable and executable, only data is writable, only text
      is executable, and none is open to the user. */
  lemma ImageRights(text: Section, rodata: Section, data: Section, v: nat)
    requires SectionsInOrder(text, rodata, data) && IsKernelAddress(v)
    requires ImageTranslation(text, rodata, data, v).Page?
    ensures var a := AccessOf(ImageTranslation(text, rodata, data, v).attributes);
            a.kernelRead && !(a.kernelWrite && a.kernelExec)
            && (a.kernelExec <==> InSection(v, text.start, text.end))
            && (a.kernelWrite <==> InSection(v, data.start, data.end))
            && !a.userRead && !a.userWrite && !a.userExec
  {
    AccessMatchesFlags(PROT_EXEC + PROT_READ);
    AccessMatchesFlags(PROT_READ);
    AccessMatchesFlags(PROT_READ + PROT_WRITE);
  }

  /** In pages: as many as it takes to cover the bytes, and no more. */
  lemma PagesCover(start: nat, end: nat)
    requires start <= end
    ensures var n := PageCount(start, end); end <= start + n * 4096 && (n > 0 ==> start + (n - 1) * 4096 < end)
  {
  }

  /** An address is in a section exactly if its page holds a byte of it. */
  lemma InSectionIff(v: nat, start: nat, end: nat)
    requires IsAligned(start) && start <= end
    ensures InSection(v, start, end) <==> start <= v && v - v % 4096 < end
  {
    PagesCover(start, end);
    if start <= v {
      assert v - v % 4096 == start + (v - start) / 4096 * 4096;
    }
    hide PageCount;
  }

  /** The image, read off the section bounds: text is kernel read and execute, rodata kernel read,
      data kernel read and write, and nothing else is mapped. */
  lemma ImageIs(text: Section, rodata: Section, data: Section, v: nat)
    requires SectionsInOrder(text, rodata, data) && Aligned(text, rodata, data) && IsKernelAddress(v)
    ensures var t, page := ImageTranslation(text, rodata, data, v), v - v % 4096;
            if text.start <= v && page < text.end then
              t.Page? && t.address == page - 0xFFFF_0000_0000_0000
              && AccessOf(t.attributes) == Access(true, false, true, false, false, false, false)
            else if rodata.start <= v && page < rodata.end then
              t.Page? && t.address == page - 0xFFFF_0000_0000_0000
              && AccessOf(t.attributes) == Access(true, false, false, false, false, false, false)
            else if data.start <= v && page < data.end then
              t.Page? && t.address == page - 0xFFFF_0000_0000_0000
              && AccessOf(t.attributes) == Access(true, true, false, false, false, false, false)
            else t == Fault
  {
    SectionsApart(text, rodata, data);
    InSectionIff(v, text.start, text.end);
    InSectionIff(v, rodata.start, rodata.end);
    InSectionIff(v, data.start, data.end);
    hide InSection, IsAligned, PagesEnd;
  }

  lemma KernelPage(v: nat, page: nat)
    requires IsKernelAddress(v) && IsKernelAddress(page) && IsAligned(page)
    ensures IsLower(v) && (SamePage(v, page) <==> page <= v < page + PAGE_SIZE)
    ensures IsPageAddress(page - KERNEL_BASE)
    ensures page <= v < page + PAGE_SIZE ==> LoadAddress(v) == page - KERNEL_BASE
  {
    KernelNumbers(v - KERNEL_BASE);
    KernelNumbers(page - KERNEL_BASE);
    PageBounds(v, page);
    hide PageNumber, IndexAt;
  }

  lemma KernelNumbers(x: nat)
    requires x < 0x8000_0000_0000
    ensures PageNumber(KERNEL_BASE + x) == x / PAGE_SIZE && IsLower(KERNEL_BASE + x)
  {
    assert (KERNEL_BASE + x) / PAGE_SIZE == 0xFFFF * 0x10_0000_0000 + x / PAGE_SIZE;
    assert (KERNEL_BASE + x) / 0x80_0000_0000 == 0xFFFF * 512 + x / 0x80_0000_0000;
  }

  lemma PageBounds(v: nat, page: nat)
    requires KERNEL_BASE <= v && KERNEL_BASE <= page && IsAligned(page)
    ensures (v - KERNEL_BASE) / PAGE_SIZE == (page - KERNEL_BASE) / PAGE_SIZE <==> page <= v < page + PAGE_SIZE
    ensures page <= v < page + PAGE_SIZE ==> v - v % PAGE_SIZE == page
    ensures IsAligned(page - KERNEL_BASE)
  {
  }

  /** An entry of the root's upper half belongs to no lower path. */
  lemma UpperEntry(mem: map<nat, nat>, tables: map<Key, nat>, root: nat, last: nat, limit: nat, i: nat, w: nat)
    requires Tree(mem, tables, root, last, limit)
    requires 256 <= i < TABLE_ENTRIES
    ensures var mem' := mem[EntryAddress(root, i) := w];
            Tree(mem', tables, root, last, limit) && SameLeaves(mem, tables, mem', tables)
  {
    EntriesDistinct(tables, root, last, limit, Root, i);
    hide IsAligned, EntryAddress, IsValidBit, LeafTranslation, IsLeaf;
  }

  /** Frames handed out after `first` up to `last`: all different, and none of them a table. */
  ghost predicate OwnFrames(frames: seq<nat>, tables: map<Key, nat>, first: nat, last: nat) {
    && first <= last
    && (forall x :: 0 <= x < |frames| ==> first < frames[x] <= last)
    && (forall x, y :: 0 <= x < y < |frames| ==> frames[x] < frames[y])
    && (forall x, k :: 0 <= x < |frames| && k in tables ==> tables[k] != frames[x])
  }

  lemma NoFrames(tables: map<Key, nat>, last: nat)
    ensures OwnFrames([], tables, last, last)
  {
  }

  lemma MoreFrames(frames: seq<nat>, tables: map<Key, nat>, tables': map<Key, nat>,
                   first: nat, last: nat, frame: nat, last': nat)
    requires OwnFrames(frames, tables, first, last) && last < frame <= last'
    requires (forall k :: k in tables ==> tables[k] <= last) && Extends(tables, tables', frame)
    ensures OwnFrames(frames + [frame], tables', first, last') && first <= last
  {
    forall x, k | 0 <= x < |frames + [frame]| && k in tables'
      ensures tables'[k] != (frames + [frame])[x]
    {
      if k in tables { assert tables'[k] == tables[k]; }
    }
  }

  /** Handing out a frame for something else keeps the tree. */
  lemma SpendFrame(mem: map<nat, nat>, tables: map<Key, nat>, root: nat, last: nat, limit: nat)
    requires Tree(mem, tables, root, last, limit)
    ensures last + 2 * PAGE_SIZE <= limit ==>
              Tree(mem, tables, root, last + PAGE_SIZE, limit) && IsPageAddress(last + PAGE_SIZE)
    ensures forall k :: k in tables ==> tables[k] <= last
  {
    hide Linked, Leafy, Shape, EntryAddress;
  }

  lemma PageInRange(start: nat, i: nat)
    requires IsAligned(start)
    ensures IsAligned(start + i * PAGE_SIZE)
  {
  }

  lemma InsideImage(start: nat, end: nat, i: nat)
    requires start <= end && i < PageCount(start, end)
    ensures start + i * PAGE_SIZE < end
  {
  }

  lemma PageOffset(v: nat, start: nat, i: nat)
    requires start <= v
    ensures start + i * PAGE_SIZE <= v < start + (i + 1) * PAGE_SIZE <==> (v - start) / PAGE_SIZE == i
    ensures v < start + i * PAGE_SIZE ==> (v - start) / PAGE_SIZE < i
  {
  }

  lemma MissingAtMost(tables: map<Key, nat>, va: nat)
    ensures Missing(tables, va) <= 3
  {
  }

  lemma AlignedSum(physmap: nat, i: nat)
    requires IsAligned(physmap)
    ensures (physmap + PAGE_SIZE * i) % 4 == 0
  {
    MultipleOfEight(physmap);
    SkipFours(1024 * i, physmap);
  }

  lemma NextFrameAligned(mem: map<nat, nat>, tables: map<Key, nat>, root: nat, last: nat, limit: nat)
    requires Tree(mem, tables, root, last, limit)
    ensures (last + PAGE_SIZE) % 4 == 0
  {
    assert IsAligned(last);
    AlignedSum(last, 1);
    hide Tree, IsAligned;
  }

  datatype Request = Request(va: nat, pa: nat, flags: nat)

  /** What the requests make of `v`, the latest first. */
  function LastMapping(requests: seq<Request>, v: nat, otherwise: Translation): Translation {
    if requests == [] then otherwise
    else
      var n := |requests| - 1;
      if SamePage(v, requests[n].va) then Page(requests[n].pa, AttributesFor(requests[n].flags))
      else LastMapping(requests[..n], v, otherwise)
  }

  /** A page maps as request k asked, if no later request is for the same page. */
  lemma {:induction false} LastMappingStands(requests: seq<Request>, v: nat, otherwise: Translation, k: nat)
    requires k < |requests| && SamePage(v, requests[k].va)
    requires forall j :: k < j < |requests| ==> !SamePage(v, requests[j].va)
    ensures LastMapping(requests, v, otherwise) == Page(requests[k].pa, AttributesFor(requests[k].flags))
  {
    hide SamePage, AttributesFor;
    if k < |requests| - 1 {
      LastMappingStands(requests[..|requests| - 1], v, otherwise, k);
    }
  }

  class PageTable {
    const starts: seq<nat>
    const ends: seq<nat>
    var mem: map<nat, nat>
    var earlyLast: nat
    var root: nat
    ghost var tables: map<Key, nat>

    ghost predicate Valid()
      reads this
    {
      |starts| == |ends| == 1 && Tree(mem, tables, root, earlyLast, ends[0])
    }

    /** What the hardware makes of `va`, walking from the root. */
    ghost function Translate(va: nat): Translation
      reads this`mem, this`root
    {
      HardwareWalk(mem, root, va, 0)
    }

    /** The first lines of mmu_init, up to the allocation of the root table.  The frames
        behind the kernel image are zero at boot: no code clears them. */
    constructor (starts: seq<nat>, ends: seq<nat>, mem: map<nat, nat>, imageEnd: nat)
      requires |starts| == |ends| == 1 && ends[0] <= ADDRESS_LIMIT
      requires imageEnd % PAGE_SIZE == 0 && imageEnd + PAGE_SIZE <= ends[0]
      requires forall a :: imageEnd <= a < ends[0] && a % 8 == 0 ==> a in mem && mem[a] == 0
      ensures Valid()
      ensures this.starts == starts && this.ends == ends
      ensures root == earlyLast == imageEnd && tables == map[Root := root]
      ensures forall va :: IsLower(va) ==> Translate(va) == Fault
    {
      this.starts, this.ends, this.mem := starts, ends, mem;
      this.root, this.earlyLast := imageEnd, imageEnd;
      this.tables := map[Root := imageEnd];
      new;
      BootTree(mem, imageEnd, ends[0]);
    }

    method AllocatePageTable() returns (r: Option<nat>)
      requires |starts| == |ends| > 0
      modifies this`earlyLast
      ensures r == NextFrame(starts, ends, old(earlyLast))
      ensures earlyLast == if r.Some? then r.value else old(earlyLast)
    {
      var candidate: nat := earlyLast + PAGE_SIZE;
      var i: nat := 0;
      while true
        invariant i < |ends|
        invariant NextFrame(starts, ends, old(earlyLast)) == FirstFit(starts, ends, i, candidate)
        invariant earlyLast == old(earlyLast)
        decreases |ends| - i
      {
        if candidate + PAGE_SIZE - 1 < ends[i] {
          earlyLast := candidate;
          return Some(candidate);
        }
        i := i + 1;
        if i >= |ends| {
          return None;
        }
        candidate := starts[i];
      }
    }

    /** Either the table below exists, and nothing changes, or a fresh one is linked in.
        None is the panic of allocate_page_table. */
    method WalkOrCreate(table: nat, va: nat, shift: nat) returns (r: Option<nat>)
      requires Valid() && IsLower(va) && shift in {39, 30, 21}
      requires KeyOf(va, LevelOf(shift)) in tables && tables[KeyOf(va, LevelOf(shift))] == table
      modifies this`mem, this`earlyLast, this`tables
      ensures Valid()
      ensures var key := KeyOf(va, LevelOf(shift) + 1);
              if key in old(tables) then
                tables == old(tables) && r == Some(tables[key]) && earlyLast == old(earlyLast)
              else if old(earlyLast) + 2 * PAGE_SIZE <= ends[0] then
                r == Some(earlyLast) && earlyLast == old(earlyLast) + PAGE_SIZE
                  && tables == old(tables)[key := earlyLast]
              else
                r == None && tables == old(tables) && earlyLast == old(earlyLast)
      ensures Kept(old(mem), old(tables), mem, tables, root) && Extends(old(tables), tables, old(earlyLast))
    {
      ghost var level := LevelOf(shift);
      ghost var k, i := KeyOf(va, level), IndexAt(va, shift);
      KeyOfIsKey(va, level + 1);
      KeyStep(va, level);
      var entry := EntryAddress(table, IndexAt(va, shift));
      EntryState(mem, tables, root, earlyLast, ends[0], k, i);
      NothingChanged(mem, tables, earlyLast, root);
      if !IsValidBit(mem[entry]) {
        r := CreateTable(entry, k, i);
        return;
      }
      TablePointer(tables[Child(k, i)]);
      assert IsTableOrPage(mem[entry]);
      return Some(TableAddress(mem[entry]));
    }

    /** The unmapped case of walk_or_create. */
    method CreateTable(entry: nat, ghost k: Key, ghost i: nat) returns (r: Option<nat>)
      requires Valid() && k in tables && Depth(k) < 3 && IsKey(Child(k, i)) && Child(k, i) !in tables
      requires entry == EntryAddress(tables[k], i)
      modifies this`mem, this`earlyLast, this`tables
      ensures Valid()
      ensures if old(earlyLast) + 2 * PAGE_SIZE <= ends[0] then
                r == Some(earlyLast) && earlyLast == old(earlyLast) + PAGE_SIZE
                  && tables == old(tables)[Child(k, i) := earlyLast]
              else
                r == None && tables == old(tables) && earlyLast == old(earlyLast)
      ensures Kept(old(mem), old(tables), mem, tables, root) && Extends(old(tables), tables, old(earlyLast))
    {
      NothingChanged(mem, tables, earlyLast, root);
      hide Tree, EntryAddress, Kept, Extends, IsKey, Child, Or;
      r := AllocatePageTable();
      if r.Some? {
        NextFrameAligned(mem, tables, root, old(earlyLast), ends[0]);
        OrValid(r.value);
        LinkTable(mem, tables, root, old(earlyLast), ends[0], k, i);
        mem := mem[entry := Or(r.value, 3)];
        tables := tables[Child(k, i) := r.value];
      }
    }

    /** The three walk_or_create calls of mmu_map: the level 3 table of a page. */
    method LeafTable(va: nat) returns (r: Option<nat>)
      requires Valid() && IsLower(va)
      modifies this`mem, this`earlyLast, this`tables
      ensures Valid()
      ensures old(earlyLast) <= earlyLast
      ensures Kept(old(mem), old(tables), mem, tables, root) && Extends(old(tables), tables, old(earlyLast))
      ensures r.Some? <==> old(earlyLast) + (old(Missing(tables, va)) + 1) * PAGE_SIZE <= ends[0]
      ensures r.Some? ==> earlyLast == old(earlyLast) + old(Missing(tables, va)) * PAGE_SIZE
      ensures r.Some? ==> KeyOf(va, 3) in tables && tables[KeyOf(va, 3)] == r.value
    {
      ghost var mem0, tables0, last0 := mem, tables, earlyLast;
      AncestorsExist(mem, tables, root, earlyLast, ends[0], va);
      hide Tree, IsLower, KeyOf, Kept, Extends;
      var level0 := root;
      var level1 := WalkOrCreate(level0, va, 39);
      if level1 == None {
        return None;
      }
      ghost var mem1, tables1, last1 := mem, tables, earlyLast;
      var level2 := WalkOrCreate(level1.value, va, 30);
      KeptTransitive(mem0, tables0, mem1, tables1, mem, tables, root);
      ExtendsTransitive(tables0, tables1, tables, last0, last1);
      if level2 == None {
        return None;
      }
      ghost var mem2, tables2, last2 := mem, tables, earlyLast;
      r := WalkOrCreate(level2.value, va, 21);
      KeptTransitive(mem0, tables0, mem2, tables2, mem, tables, root);
      ExtendsTransitive(tables0, tables2, tables, last0, last2);
    }

    /** Whether or not levels had to be created, the page now translates as asked and every
        other page of the lower half translates as before.  It panics exactly when the region
        cannot hold the missing tables; even then no translation has changed. */
    method MmuMap(va: nat, pa: nat, flags: nat) returns (ok: bool)
      requires Valid() && IsLower(va) && IsPageAddress(pa)
      modifies this`mem, this`earlyLast, this`tables
      ensures Valid()
      ensures ok <==> old(earlyLast) + (old(Missing(tables, va)) + 1) * PAGE_SIZE <= ends[0]
      ensures ok ==> earlyLast == old(earlyLast) + old(Missing(tables, va)) * PAGE_SIZE
      ensures old(earlyLast) <= earlyLast
      ensures Extends(old(tables), tables, old(earlyLast)) && SameUpper(old(mem), mem, root)
      ensures forall v {:trigger Translate(v)} :: IsLower(v) ==>
                Translate(v) == if ok && SamePage(v, va) then Page(pa, AttributesFor(flags)) else old(Translate(v))
    {
      ghost var mem0, tables0, last0 := mem, tables, earlyLast;
      ghost var target := Page(pa, AttributesFor(flags));
      hide Tree, Missing, IsLower, KeyOf, IndexAt, EntryAddress, Kept, SameLeaves, SameUpper, LeafSet, Extends, Encode,
           AttributesFor, IsPageAddress;
      var level3 := LeafTable(va);
      ok := level3.Some?;
      if ok {
        ghost var mem1 := mem;
        var pte := EntryAddress(level3.value, IndexAt(va, 12));
        var word := PageDescriptor(pa, flags);
        WriteDescriptor(mem, tables, root, earlyLast, ends[0], va, pa, flags);
        mem := mem[pte := word];
        KeptThenSet(mem0, tables0, mem1, tables, mem, tables, KeyOf(va, 4), target, root);
      } else {
        KeptMeans(mem0, tables0, mem, tables, root);
      }
      LeavesAreTranslations(mem0, tables0, last0, mem, tables, earlyLast, root, ends[0], va, ok, target);
    }

    /** Any run of maps, up to the first that panics: each lower page translates as the last
        request for it asked, or as before if there was none.  A request needs three tables at
        most, so none panics while the region has frames for that many. */
    method MapAll(requests: seq<Request>) returns (done: nat)
      requires Valid() && forall k :: 0 <= k < |requests| ==> IsLower(requests[k].va) && IsPageAddress(requests[k].pa)
      modifies this`mem, this`earlyLast, this`tables
      ensures SameUpper(old(mem), mem, root)
      ensures Valid() && Extends(old(tables), tables, old(earlyLast)) && old(earlyLast) <= earlyLast
      ensures done <= |requests| && (done < |requests| ==> old(earlyLast) + (3 * done + 4) * PAGE_SIZE > ends[0])
      ensures forall v {:trigger Translate(v)} :: IsLower(v) ==>
                Translate(v) == LastMapping(requests[..done], v, old(Translate(v)))
    {
      done := 0;
      NothingChanged(mem, tables, earlyLast, root);
      hide Tree, IsLower, IsPageAddress, Missing, Extends, SameUpper, SamePage, AttributesFor, HardwareWalk;
      while done < |requests|
        invariant done <= |requests| && earlyLast <= old(earlyLast) + 3 * done * PAGE_SIZE
        invariant SameUpper(old(mem), mem, root)
        invariant Valid() && Extends(old(tables), tables, old(earlyLast)) && old(earlyLast) <= earlyLast
        invariant forall v {:trigger Translate(v)} :: IsLower(v) ==>
                    Translate(v) == LastMapping(requests[..done], v, old(Translate(v)))
      {
        ghost var mem0, tables0, last0 := mem, tables, earlyLast;
        var r := requests[done];
        assert requests[..done + 1][..done] == requests[..done];
        MissingAtMost(tables, r.va);
        var mapped := MmuMap(r.va, r.pa, r.flags);
        ExtendsTransitive(old(tables), tables0, tables, old(earlyLast), last0);
        SameUpperTransitive(old(mem), mem0, mem, root);
        if !mapped {
          return;
        }
        done := done + 1;
      }
    }

    /** Maps the pages of a section of the kernel image to their load addresses.  Not ok is a
        panic: a misaligned start, or no frame left for a table, of which a page needs three at most. */
    method InitKMap(start: nat, end: nat, flags: nat) returns (ok: bool)
      requires Valid() && KERNEL_BASE <= start <= end <= KERNEL_LIMIT
      modifies this`mem, this`earlyLast, this`tables
      ensures SameUpper(old(mem), mem, root)
      ensures Valid() && Extends(old(tables), tables, old(earlyLast)) && old(earlyLast) <= earlyLast
      ensures ok ==> IsAligned(start) && earlyLast <= old(earlyLast) + 3 * PageCount(start, end) * PAGE_SIZE
      ensures !ok ==> !IsAligned(start) || old(earlyLast) + (3 * PageCount(start, end) + 1) * PAGE_SIZE > ends[0]
      ensures ok ==> forall v: nat {:trigger Translate(v)} :: IsKernelAddress(v) ==>
                Translate(v) ==
                if InSection(v, start, end) then Page(LoadAddress(v), AttributesFor(flags)) else old(Translate(v))
    {
      hide Tree, IsLower, Missing, Extends, SameUpper, SamePage, AttributesFor, HardwareWalk, LoadAddress,
           IsPageAddress, IsAligned, PageCount;
      NothingChanged(mem, tables, earlyLast, root);
      if !IsAligned(start) {
        return false;
      }
      var pageCount := PageCount(start, end);
      for i := 0 to pageCount
        invariant SameUpper(old(mem), mem, root)
        invariant Valid() && Extends(old(tables), tables, old(earlyLast))
        invariant old(earlyLast) <= earlyLast <= old(earlyLast) + 3 * i * PAGE_SIZE
        invariant forall v: nat {:trigger Translate(v)} :: IsKernelAddress(v) ==>
                    Translate(v) ==
                    if start <= v < start + i * PAGE_SIZE then Page(LoadAddress(v), AttributesFor(flags))
                    else old(Translate(v))
      {
        var pageAddr := start + i * PAGE_SIZE;
        PageInRange(start, i);
        InsideImage(start, end, i);
        KernelPage(pageAddr, pageAddr);
        ghost var mem0, tables0, last0 := mem, tables, earlyLast;
        MissingAtMost(tables, pageAddr);
        var mapped := MmuMap(pageAddr, pageAddr - KERNEL_BASE, flags);
        ExtendsTransitive(old(tables), tables0, tables, old(earlyLast), last0);
        SameUpperTransitive(old(mem), mem0, mem, root);
        if !mapped {
          return false;
        }
        forall v: nat | IsKernelAddress(v)
          ensures Translate(v) ==
                  if start <= v < start + (i + 1) * PAGE_SIZE then Page(LoadAddress(v), AttributesFor(flags))
                  else old(Translate(v))
        {
          KernelPage(v, pageAddr);
        }
      }
      ok := true;
    }

    /** The three sections of the image, in the order mmu_init maps them. */
    method MapImage(text: Section, rodata: Section, data: Section) returns (ok: bool)
      requires Valid() && SectionsInOrder(text, rodata, data)
      requires forall v: nat {:trigger Translate(v)} :: IsKernelAddress(v) ==> Translate(v) == Fault
      modifies this`mem, this`earlyLast, this`tables
      ensures SameUpper(old(mem), mem, root)
      ensures Valid() && Extends(old(tables), tables, old(earlyLast)) && old(earlyLast) <= earlyLast
      ensures !ok ==> !Aligned(text, rodata, data)
                      || old(earlyLast) + (3 * Pages(text, rodata, data) + 1) * PAGE_SIZE > ends[0]
      ensures ok ==> earlyLast <= old(earlyLast) + 3 * Pages(text, rodata, data) * PAGE_SIZE
      ensures ok ==> Aligned(text, rodata, data)
      ensures ok ==> forall v: nat {:trigger Translate(v)} :: IsKernelAddress(v) ==>
                Translate(v) == ImageTranslation(text, rodata, data, v)
    {
      hide IsAligned, Tree, IsLower, PagesEnd, AttributesFor, LoadAddress, PageCount, HardwareWalk, Extends, SameUpper,
           SectionsInOrder, InSection, IsKernelAddress, Translate;
      SectionsApart(text, rodata, data);
      ok := InitKMap(text.start, text.end, PROT_EXEC + PROT_READ);
      if !ok { return; }
      ghost var mem1, tables1, last1 := mem, tables, earlyLast;
      ok := InitKMap(rodata.start, rodata.end, PROT_READ);
      ExtendsTransitive(old(tables), tables1, tables, old(earlyLast), last1);
      SameUpperTransitive(old(mem), mem1, mem, root);
      if !ok { return; }
      ghost var mem2, tables2, last2 := mem, tables, earlyLast;
      ok := InitKMap(data.start, data.end, PROT_READ + PROT_WRITE);
      ExtendsTransitive(old(tables), tables2, tables, old(earlyLast), last2);
      SameUpperTransitive(old(mem), mem2, mem, root);
    }

    /** The body of mmu_init after the root table is allocated, up to init_mem_map.  Every page
        of the three sections translates to its load address with its own section's rights,
        nothing else in the lower half is mapped, and filling the upper half changes none of it. */
    method MmuInit(text: Section, rodata: Section, data: Section, physmap: nat) returns (ok: bool)
      requires Valid() && IsAligned(physmap)
      requires SectionsInOrder(text, rodata, data)
      requires forall v :: IsLower(v) ==> Translate(v) == Fault
      modifies this`mem, this`earlyLast, this`tables
      ensures Valid() && Extends(old(tables), tables, old(earlyLast)) && old(earlyLast) <= earlyLast
      ensures !ok ==> !Aligned(text, rodata, data)
                      || old(earlyLast) + (3 * Pages(text, rodata, data) + 1) * PAGE_SIZE > ends[0]
      ensures ok ==> earlyLast <= old(earlyLast) + 3 * Pages(text, rodata, data) * PAGE_SIZE
      ensures ok ==> forall v: nat {:trigger Translate(v)} :: IsKernelAddress(v) ==>
                Translate(v) == ImageTranslation(text, rodata, data, v)
      ensures ok ==> Aligned(text, rodata, data)
      ensures ok ==> forall v: nat {:trigger Translate(v)} :: 0xFFFF_0000_0000_0000 <= v < 0xFFFF_8000_0000_0000 ==>
                var t, page := Translate(v), v - v % 4096;
                if text.start <= v && page < text.end then
                  t.Page? && t.address == page - 0xFFFF_0000_0000_0000
                  && AccessOf(t.attributes) == Access(true, false, true, false, false, false, false)
                else if rodata.start <= v && page < rodata.end then
                  t.Page? && t.address == page - 0xFFFF_0000_0000_0000
                  && AccessOf(t.attributes) == Access(true, false, false, false, false, false, false)
                else if data.start <= v && page < data.end then
                  t.Page? && t.address == page - 0xFFFF_0000_0000_0000
                  && AccessOf(t.attributes) == Access(true, true, false, false, false, false, false)
                else t == Fault
      ensures ok ==> forall i: nat :: 256 <= i < TABLE_ENTRIES ==>
                EntryAddress(root, i) in mem && mem[EntryAddress(root, i)] == physmap + PAGE_SIZE * (i - 256) + 3
    {
      forall v: nat | IsKernelAddress(v) ensures IsLower(v) { KernelPage(v, KERNEL_BASE); }
      hide Tree, IsLower, HardwareWalk, Extends, ImageTranslation, SectionsInOrder, Aligned, Pages, AccessOf;
      ok := MapImage(text, rodata, data);
      if ok {
        FillUpperHalf(physmap);
        forall v: nat | IsKernelAddress(v) {
          ImageIs(text, rodata, data, v);
        }
      }
    }

    /** The mapping loop of init_mem_map: each page from `start` gets a frame of its own.  All
        frames handed out are different, and none is a page table. */
    method MapFrameArray(start: nat, pageCount: nat) returns (ok: bool, ghost frames: seq<nat>)
      requires Valid() && KERNEL_BASE <= start && start + pageCount * PAGE_SIZE <= KERNEL_LIMIT && IsAligned(start)
      modifies this`mem, this`earlyLast, this`tables
      ensures Valid()
      ensures !ok ==> old(earlyLast) + (4 * pageCount + 1) * PAGE_SIZE > ends[0]
      ensures ok ==> |frames| == pageCount && OwnFrames(frames, tables, old(earlyLast), earlyLast)
      ensures ok ==> Extends(old(tables), tables, old(earlyLast))
      ensures SameUpper(old(mem), mem, root)
      ensures ok ==> forall v: nat {:trigger Translate(v)} :: IsKernelAddress(v) ==>
                Translate(v) == if start <= v < start + pageCount * PAGE_SIZE
                                then Page(frames[(v - start) / PAGE_SIZE], AttributesFor(PROT_READ + PROT_WRITE))
                                else old(Translate(v))
    {
      frames := [];
      NothingChanged(mem, tables, earlyLast, root);
      NoFrames(tables, earlyLast);
      hide Tree, IsLower, Missing, SamePage, AttributesFor, IsAligned, Extends, SameUpper, OwnFrames, HardwareWalk;
      for i := 0 to pageCount
        invariant Valid() && old(earlyLast) <= earlyLast <= old(earlyLast) + 4 * i * PAGE_SIZE
        invariant |frames| == i && OwnFrames(frames, tables, old(earlyLast), earlyLast)
        invariant Extends(old(tables), tables, old(earlyLast)) && SameUpper(old(mem), mem, root)
        invariant forall v: nat {:trigger Translate(v)} :: IsKernelAddress(v) ==>
                    Translate(v) == if start <= v < start + i * PAGE_SIZE
                                    then Page(frames[(v - start) / PAGE_SIZE], AttributesFor(PROT_READ + PROT_WRITE))
                                    else old(Translate(v))
      {
        ghost var mem0, last, before, tables0 := mem, earlyLast, frames, tables;
        var page := AllocatePageTable();
        if page == None {
          return false, frames;
        }
        SpendFrame(mem, tables, root, last, ends[0]);
        var ptr := start + i * PAGE_SIZE;
        PageInRange(start, i);
        KernelPage(ptr, ptr);
        MissingAtMost(tables, ptr);
        ok := MmuMap(ptr, page.value, PROT_READ + PROT_WRITE);
        SameUpperTransitive(old(mem), mem0, mem, root);
        if !ok {
          return;
        }
        frames := frames + [page.value];
        MoreFrames(before, tables0, tables, old(earlyLast), last, page.value, earlyLast);
        ExtendsTransitive(old(tables), tables0, tables, old(earlyLast), page.value);
        forall v: nat | IsKernelAddress(v)
          ensures Translate(v) == if start <= v < start + (i + 1) * PAGE_SIZE
                                  then Page(frames[(v - start) / PAGE_SIZE], AttributesFor(PROT_READ + PROT_WRITE))
                                  else old(Translate(v))
        {
          KernelPage(v, ptr);
          if start <= v < start + i * PAGE_SIZE {
            PageOffset(v, start, i);
            assert frames[(v - start) / PAGE_SIZE] == before[(v - start) / PAGE_SIZE];
          } else if start <= v {
            PageOffset(v, start, i);
          }
        }
      }
      ok := true;
    }

    /** The loop that points level 0 entries 256 to 511 at the ready-made physical map. */
    method FillUpperHalf(physmap: nat)
      requires Valid() && IsAligned(physmap)
      modifies this`mem
      ensures Valid()
      ensures forall v {:trigger Translate(v)} :: IsLower(v) ==> Translate(v) == old(Translate(v))
      ensures forall i: nat :: 256 <= i < TABLE_ENTRIES ==>
                EntryAddress(root, i) in mem && mem[EntryAddress(root, i)] == physmap + PAGE_SIZE * (i - 256) + 3
    {
      ghost var mem0 := mem;
      NothingChanged(mem, tables, earlyLast, root);
      hide Tree, SameLeaves, HardwareWalk, Or, IsAligned;
      for i := 0 to 256
        invariant Valid() && SameLeaves(mem0, tables, mem, tables)
        invariant forall j: nat :: 256 <= j < 256 + i ==>
                    EntryAddress(root, j) in mem && mem[EntryAddress(root, j)] == physmap + PAGE_SIZE * (j - 256) + 3
      {
        ghost var before := mem;
        var ptr := EntryAddress(root, 256 + i);
        UpperEntry(mem, tables, root, earlyLast, ends[0], 256 + i, physmap + PAGE_SIZE * i + 3);
        AlignedSum(physmap, i);
        OrValid(physmap + PAGE_SIZE * i);
        mem := mem[ptr := Or(physmap + PAGE_SIZE * i, 3)];
        SameLeavesTransitive(mem0, tables, before, tables, mem, tables);
      }
      LeavesAreTranslations(mem0, tables, earlyLast, mem, tables, earlyLast, root, ends[0], 0, false, Fault);
      forall v | IsLower(v)
        ensures Translate(v) == old(Translate(v))
      {
        assert Translate(v) == HardwareWalk(mem, root, v, 0);
      }
    }
  }
}
