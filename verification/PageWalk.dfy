/**
 walk_pages of kern/arch/aarch64/mmu.c: four nested loops over a table tree, reporting the
 address in every valid leaf of the lower half.
 */
module PageWalk {
  import opened Descriptors
  import opened PageTables

  const LEVEL0_PAGES := 0x800_0000   // pages below a level 0 entry: 512 * 512 * 512
  const LEVEL1_PAGES := 0x4_0000
  const LEVEL2_PAGES := 0x200

  /** Pages in virtual order. */
  function Number(key: Key): nat
    requires key.PageKey?
  {
    key.i * LEVEL0_PAGES + key.j * LEVEL1_PAGES + key.k * LEVEL2_PAGES + key.l
  }

  /** The pages numbered below `next` that are mapped have been reported, in order, each with
      the address it maps to; and no others have. */
  ghost predicate Reported(mem: map<nat, nat>, tables: map<Key, nat>, pages: seq<Key>, out: seq<nat>, next: nat) {
    && |pages| == |out|
    && (forall x :: 0 <= x < |pages| ==>
          IsPageKey(pages[x]) && Number(pages[x]) < next && LeafOf(mem, tables, pages[x]).Page?
          && LeafOf(mem, tables, pages[x]).address == out[x])
    && (forall x, y :: 0 <= x < y < |pages| ==> Number(pages[x]) < Number(pages[y]))
    && (forall q {:trigger LeafOf(mem, tables, q)} ::
          IsPageKey(q) && Number(q) < next && LeafOf(mem, tables, q).Page? ==> q in pages)
  }

  /** The reference: ask the hardware for every page below number `n`, one after the other. */
  ghost function Listing(mem: map<nat, nat>, root: nat, n: nat): seq<nat> {
    if n == 0 then []
    else
      var t := HardwareWalk(mem, root, (n - 1) * PAGE_SIZE, 0);
      Listing(mem, root, n - 1) + if t.Page? then [t.address] else []
  }

  /** Nothing mapped in a stretch of pages: the stretch can be passed over. */
  lemma PassOver(mem: map<nat, nat>, tables: map<Key, nat>, pages: seq<Key>, out: seq<nat>, next: nat, size: nat)
    requires Reported(mem, tables, pages, out, next)
    requires forall q {:trigger LeafOf(mem, tables, q)} ::
               IsPageKey(q) && next <= Number(q) < next + size ==> LeafOf(mem, tables, q) == Fault
    ensures Reported(mem, tables, pages, out, next + size)
  {
  }

  lemma ReportPage(mem: map<nat, nat>, tables: map<Key, nat>, pages: seq<Key>, out: seq<nat>, page: Key, address: nat)
    requires IsPageKey(page) && Reported(mem, tables, pages, out, Number(page))
    requires LeafOf(mem, tables, page).Page? && LeafOf(mem, tables, page).address == address
    ensures Reported(mem, tables, pages + [page], out + [address], Number(page) + 1)
  {
    hide LeafOf;
    forall q {:trigger LeafOf(mem, tables, q)} |
        IsPageKey(q) && Number(q) < Number(page) + 1 && LeafOf(mem, tables, q).Page?
      ensures q in pages + [page]
    {
      if Number(q) == Number(page) {
        NumberInjective(q, page);
      } else {
        assert q in pages;
      }
    }
  }

  lemma NumberInRange(page: Key)
    requires IsPageKey(page)
    ensures Number(page) < 256 * LEVEL0_PAGES
  {
  }

  lemma NumberInjective(p: Key, q: Key)
    requires IsPageKey(p) && IsPageKey(q) && Number(p) == Number(q)
    ensures p == q
  {
    DigitsUnique((p.i * 512 + p.j) * 512 + p.k, p.l, (q.i * 512 + q.j) * 512 + q.k, q.l);
    DigitsUnique(p.i * 512 + p.j, p.k, q.i * 512 + q.j, q.k);
    DigitsUnique(p.i, p.j, q.i, q.j);
  }

  /** The pages below a missing table are a stretch without mappings. */
  lemma MissingTable(mem: map<nat, nat>, tables: map<Key, nat>, root: nat, last: nat, limit: nat, key: Key)
    requires Tree(mem, tables, root, last, limit)
    requires IsKey(key) && !key.Root? && !key.PageKey? && key !in tables
    ensures forall q {:trigger LeafOf(mem, tables, q)} ::
              IsPageKey(q) && First(key) <= Number(q) < First(key) + Size(key) ==> LeafOf(mem, tables, q) == Fault
  {
    forall q | IsPageKey(q) && First(key) <= Number(q) < First(key) + Size(key)
      ensures LeafOf(mem, tables, q) == Fault
    {
      InRange(key, q);
      assert Table1(q.i) !in tables ==> Table2(q.i, q.j) !in tables;
      assert Table2(q.i, q.j) !in tables ==> TableOf(q) !in tables;
    }
  }

  /** The first page below a table, and how many there are. */
  function First(key: Key): nat {
    match key
    case Root => 0
    case Table1(i) => i * LEVEL0_PAGES
    case Table2(i, j) => i * LEVEL0_PAGES + j * LEVEL1_PAGES
    case Table3(i, j, k) => i * LEVEL0_PAGES + j * LEVEL1_PAGES + k * LEVEL2_PAGES
    case PageKey(i, j, k, l) => i * LEVEL0_PAGES + j * LEVEL1_PAGES + k * LEVEL2_PAGES + l
  }

  function Size(key: Key): nat {
    match key
    case Root => 256 * LEVEL0_PAGES
    case Table1(_) => LEVEL0_PAGES
    case Table2(_, _) => LEVEL1_PAGES
    case Table3(_, _, _) => LEVEL2_PAGES
    case PageKey(_, _, _, _) => 1
  }

  lemma InRange(key: Key, q: Key)
    requires IsPageKey(q) && IsKey(key) && !key.Root? && !key.PageKey?
    requires First(key) <= Number(q) < First(key) + Size(key)
    ensures match key
            case Table1(i) => q.i == i
            case Table2(i, j) => q.i == i && q.j == j
            case Table3(i, j, k) => q.i == i && q.j == j && q.k == k
  {
  }

  // ----- reading entries as walk_pages does ---------------------------------------------

  /** `p & ~0xfff`: the table that a table descriptor points to. */
  function NextTable(w: nat): nat { w - w % PAGE_SIZE }

  lemma NextTableOf(t: nat)
    requires IsPageAddress(t)
    ensures NextTable(t + 3) == t
  {
  }

  /** An upper-level entry: either its table is next, or its stretch is empty. */
  lemma UpperLevel(mem: map<nat, nat>, tables: map<Key, nat>, root: nat, last: nat, limit: nat,
                   key: Key, i: nat, pages: seq<Key>, out: seq<nat>)
    requires Tree(mem, tables, root, last, limit)
    requires key in tables && Depth(key) < 3 && IsKey(Child(key, i))
    requires Reported(mem, tables, pages, out, First(Child(key, i)))
    ensures var a := EntryAddress(tables[key], i); var child := Child(key, i);
            a in mem &&
            if IsValidBit(mem[a]) then child in tables && NextTable(mem[a]) == tables[child]
            else Reported(mem, tables, pages, out, First(child) + Size(child))
  {
    EntryState(mem, tables, root, last, limit, key, i);
    var a, child := EntryAddress(tables[key], i), Child(key, i);
    hide Tree, IsKey, Reported, EntryAddress, First, Size;
    if IsValidBit(mem[a]) {
      NextTableOf(tables[child]);
    } else {
      MissingTable(mem, tables, root, last, limit, child);
      PassOver(mem, tables, pages, out, First(child), Size(child));
    }
  }

  /** A leaf: valid exactly when the page is mapped, and then it holds the page's address. */
  lemma LeafLevel(mem: map<nat, nat>, tables: map<Key, nat>, root: nat, last: nat, limit: nat,
                  page: Key, pages: seq<Key>, out: seq<nat>)
    requires Tree(mem, tables, root, last, limit)
    requires IsPageKey(page) && TableOf(page) in tables
    requires Reported(mem, tables, pages, out, Number(page))
    ensures var a := EntryAddress(tables[TableOf(page)], page.l);
            a in mem &&
            if IsValidBit(mem[a]) then
              Reported(mem, tables, pages + [page], out + [LeafAddress(mem[a])], Number(page) + 1)
            else Reported(mem, tables, pages, out, Number(page) + 1)
  {
    var a := EntryAddress(tables[TableOf(page)], page.l);
    assert a in mem && (!IsValidBit(mem[a]) || IsLeaf(mem[a]));
    hide Tree, EntryAddress, Reported;
    if IsValidBit(mem[a]) {
      LeafDecodes(mem[a]);
      ReportPage(mem, tables, pages, out, page, LeafAddress(mem[a]));
    } else {
      forall q | IsPageKey(q) && Number(page) <= Number(q) < Number(page) + 1
        ensures LeafOf(mem, tables, q) == Fault
      {
        NumberInjective(q, page);
      }
      PassOver(mem, tables, pages, out, Number(page), 1);
    }
  }

  lemma LeafDecodes(w: nat)
    requires IsLeaf(w)
    ensures LeafTranslation(w).Page? && LeafTranslation(w).address == LeafAddress(w)
  {
    var pa, attributes :| IsPageAddress(pa) && ValidAttributes(attributes) && w == Encode(pa, attributes);
    EncodeDecode(pa, attributes);
  }

  /** The innermost loop of walk_pages, over one level 3 table. */
  method WalkLeaves(pt: PageTable, table: nat, ghost key: Key, out0: seq<nat>, ghost pages0: seq<Key>)
    returns (out: seq<nat>, ghost pages: seq<Key>)
    requires pt.Valid() && key.Table3? && key in pt.tables && pt.tables[key] == table
    requires Reported(pt.mem, pt.tables, pages0, out0, First(key))
    ensures Reported(pt.mem, pt.tables, pages, out, First(key) + LEVEL2_PAGES)
  {
    out, pages := out0, pages0;
    assert IsKey(key);
    hide Tree, Reported, EntryAddress, LeafAddress, IsValidBit, LeafOf;
    for l := 0 to 512
      invariant Reported(pt.mem, pt.tables, pages, out, First(key) + l)
    {
      ghost var page := PageKey(key.i, key.j, key.k, l);
      LeafLevel(pt.mem, pt.tables, pt.root, pt.earlyLast, pt.ends[0], page, pages, out);
      var p3 := pt.mem[EntryAddress(table, l)];
      if IsValidBit(p3) {
        out, pages := out + [LeafAddress(p3)], pages + [page];
      }
    }
  }

  /** Reports every mapped lower-half page exactly once, in ascending order, with the address
      it translates to. */
  method WalkPages(pt: PageTable) returns (out: seq<nat>, ghost pages: seq<Key>)
    requires pt.Valid()
    ensures Reported(pt.mem, pt.tables, pages, out, 256 * LEVEL0_PAGES)
    ensures out == Listing(pt.mem, pt.root, 256 * LEVEL0_PAGES)
  {
    out, pages := [], [];
    ghost var last, limit := pt.earlyLast, pt.ends[0];
    var mem := pt.mem;
    assert Root in pt.tables && pt.tables[Root] == pt.root;
    NothingReported(mem, pt.tables);
    hide Tree, Reported, EntryAddress, NextTable, IsValidBit;
    for i := 0 to 256
      invariant Reported(mem, pt.tables, pages, out, i * LEVEL0_PAGES)
    {
      UpperLevel(mem, pt.tables, pt.root, last, limit, Root, i, pages, out);
      var p0 := mem[EntryAddress(pt.root, i)];
      if IsValidBit(p0) {
        for j := 0 to 512
          invariant Reported(mem, pt.tables, pages, out, i * LEVEL0_PAGES + j * LEVEL1_PAGES)
        {
          UpperLevel(mem, pt.tables, pt.root, last, limit, Table1(i), j, pages, out);
          var p1 := mem[EntryAddress(NextTable(p0), j)];
          if IsValidBit(p1) {
            for k := 0 to 512
              invariant Reported(mem, pt.tables, pages, out, i * LEVEL0_PAGES + j * LEVEL1_PAGES + k * LEVEL2_PAGES)
            {
              UpperLevel(mem, pt.tables, pt.root, last, limit, Table2(i, j), k, pages, out);
              var p2 := mem[EntryAddress(NextTable(p1), k)];
              if IsValidBit(p2) {
                out, pages := WalkLeaves(pt, NextTable(p2), Table3(i, j, k), out, pages);
              }
            }
          }
        }
      }
    }
    ReportIsListing(mem, pt.tables, pt.root, last, limit, pages, out, 256 * LEVEL0_PAGES);
  }

  lemma NothingReported(mem: map<nat, nat>, tables: map<Key, nat>)
    ensures Reported(mem, tables, [], [], 0)
  {
  }

  lemma NumberOf(n: nat)
    requires n < 256 * LEVEL0_PAGES
    ensures var v := n * PAGE_SIZE; IsLower(v) && IsPageKey(KeyOf(v, 4)) && Number(KeyOf(v, 4)) == n
  {
    var v := n * PAGE_SIZE;
    PageNumberFromIndices(v);
    SmallNumbers(n);
    KeyOfIsKey(v, 4);
    hide IndexAt, PageNumber;
  }

  lemma SmallNumbers(n: nat)
    requires n < 256 * LEVEL0_PAGES
    ensures PageNumber(n * PAGE_SIZE) == n && IsLower(n * PAGE_SIZE)
  {
  }

  /** A report is the listing. */
  lemma {:induction false} ReportIsListing(mem: map<nat, nat>, tables: map<Key, nat>, root: nat, last: nat, limit: nat,
                                           pages: seq<Key>, out: seq<nat>, n: nat)
    requires Tree(mem, tables, root, last, limit) && n <= 256 * LEVEL0_PAGES
    requires Reported(mem, tables, pages, out, n)
    ensures out == Listing(mem, root, n)
    decreases n
  {
    hide Tree, Reported, LeafOf, HardwareWalk, KeyOf, Number, IsPageKey, IsLower;
    if n == 0 {
      if out != [] {
        FirstIsBelow(mem, tables, pages, out, n);
      }
    } else {
      var v := (n - 1) * PAGE_SIZE;
      var page := KeyOf(v, 4);
      NumberOf(n - 1);
      AncestorsExist(mem, tables, root, last, limit, v);
      WalkFindsLeaf(mem, tables, root, last, limit, v, 0);
      if LeafOf(mem, tables, page).Page? {
        LastIsReported(mem, tables, pages, out, page);
        var m := |pages| - 1;
        ReportIsListing(mem, tables, root, last, limit, pages[..m], out[..m], n - 1);
        assert out == out[..m] + [out[m]];
      } else {
        LastIsPassed(mem, tables, pages, out, page);
        ReportIsListing(mem, tables, root, last, limit, pages, out, n - 1);
      }
    }
  }

  lemma FirstIsBelow(mem: map<nat, nat>, tables: map<Key, nat>, pages: seq<Key>, out: seq<nat>, n: nat)
    requires Reported(mem, tables, pages, out, n) && out != []
    ensures 0 < n
  {
    assert IsPageKey(pages[0]) && Number(pages[0]) < n;
  }

  lemma LastIsReported(mem: map<nat, nat>, tables: map<Key, nat>, pages: seq<Key>, out: seq<nat>, page: Key)
    requires IsPageKey(page) && Reported(mem, tables, pages, out, Number(page) + 1) && LeafOf(mem, tables, page).Page?
    ensures |pages| == |out| > 0
    ensures var m := |pages| - 1;
            out[m] == LeafOf(mem, tables, page).address && Reported(mem, tables, pages[..m], out[..m], Number(page))
  {
    hide LeafOf, Number, IsKey;
    assert page in pages;
    var m := |pages| - 1;
    var x :| 0 <= x < |pages| && pages[x] == page;
    forall q {:trigger LeafOf(mem, tables, q)} | IsPageKey(q) && Number(q) < Number(page)
      && LeafOf(mem, tables, q).Page?
      ensures q in pages[..m]
    {
      assert q in pages && q != page;
    }
  }

  lemma LastIsPassed(mem: map<nat, nat>, tables: map<Key, nat>, pages: seq<Key>, out: seq<nat>, page: Key)
    requires IsPageKey(page) && Reported(mem, tables, pages, out, Number(page) + 1) && !LeafOf(mem, tables, page).Page?
    ensures Reported(mem, tables, pages, out, Number(page))
  {
    hide LeafOf, Number, IsKey;
    forall x | 0 <= x < |pages| ensures Number(pages[x]) < Number(page) {
      if Number(pages[x]) == Number(page) {
        NumberInjective(pages[x], page);
      }
    }
  }

  /** The report, read off the virtual addresses. */
  lemma ReportCoversTranslations(pt: PageTable, pages: seq<Key>, out: seq<nat>, va: nat)
    requires pt.Valid() && IsLower(va)
    requires Reported(pt.mem, pt.tables, pages, out, 256 * LEVEL0_PAGES)
    ensures pt.Translate(va).Page? <==> exists x :: 0 <= x < |pages| && pages[x] == KeyOf(va, 4)
    ensures forall x :: 0 <= x < |pages| && pages[x] == KeyOf(va, 4) ==> out[x] == pt.Translate(va).address
    ensures forall x, y :: 0 <= x < y < |pages| ==> pages[x] != pages[y]
  {
    KeyOfIsKey(va, 4);
    NumberInRange(KeyOf(va, 4));
    WalkFindsLeaf(pt.mem, pt.tables, pt.root, pt.earlyLast, pt.ends[0], va, 0);
  }
}
