/**
 Physical memory as frames: init_mem_map, physaddr_to_frame and init_own_page of
 kern/arch/aarch64/mmu.c, over the lists of kern/lib/linked_list.h.
 */
module FrameMap {
  import opened Wrappers
  import opened Descriptors
  import opened PageTables
  import opened PageWalk
  import opened LinkedList

  const SIZEOF_PHYS_AREA := 32
  const SIZEOF_FRAME := 40

  // ----- physaddr_to_frame -------------------------------------------------------------

  /** An area's map starts at frame number `first` of one array of all frames. */
  datatype Area = Area(start: nat, end: nat, first: nat)

  ghost predicate LaidOut(areas: seq<Area>) {
    && (forall i :: 0 <= i < |areas| ==> IsAligned(areas[i].start) && areas[i].start <= areas[i].end)
    && (forall i, j :: 0 <= i < j < |areas| ==> Apart(areas[i], areas[j]))
  }

  predicate Apart(a: Area, b: Area) {
    a.end <= b.start || b.end <= a.start
  }

  /** Frame number `index` was set up, as the j-th of area i, to describe `address`. */
  predicate Describes(areas: seq<Area>, i: nat, j: nat, index: nat, address: nat)
    requires i < |areas| && areas[i].start <= areas[i].end
  {
    j < PageCount(areas[i].start, areas[i].end)
    && index == areas[i].first + j && address == areas[i].start + j * PAGE_SIZE
  }

  function FrameIndex(areas: seq<Area>, phys: nat): Option<nat> {
    if areas == [] then None
    else if areas[0].start <= phys < areas[0].end then Some(areas[0].first + phys / PAGE_SIZE)
    else FrameIndex(areas[1..], phys)
  }

  method PhysaddrToFrame(areas: seq<Area>, phys: nat) returns (r: Option<nat>)
    ensures r == FrameIndex(areas, phys)
  {
    for i := 0 to |areas|
      invariant FrameIndex(areas, phys) == FrameIndex(areas[i..], phys)
    {
      if phys >= areas[i].start && phys < areas[i].end {
        return Some(areas[i].first + phys / PAGE_SIZE);
      }
    }
    r := None;
  }

  lemma {:induction false} FrameIndexOf(areas: seq<Area>, i: nat, phys: nat)
    requires i < |areas| && areas[i].start <= phys < areas[i].end
    requires forall j :: 0 <= j < |areas| && j != i ==> Apart(areas[i], areas[j])
    ensures FrameIndex(areas, phys) == Some(areas[i].first + phys / PAGE_SIZE)
  {
    if i > 0 {
      assert Apart(areas[i], areas[0]);
      forall j | 0 <= j < |areas[1..]| && j != i - 1 ensures Apart(areas[1..][i - 1], areas[1..][j]) {
        assert areas[1..][j] == areas[j + 1];
      }
      FrameIndexOf(areas[1..], i - 1, phys);
    }
  }

  /** The frame found for a page of an area is the one that describes it exactly when the area
      starts at address 0: the index is the page's number in memory, not in its area. */
  lemma FrameFoundIff(areas: seq<Area>, i: nat, phys: nat)
    requires LaidOut(areas) && i < |areas| && areas[i].start <= phys < areas[i].end && IsAligned(phys)
    ensures FrameIndex(areas, phys).Some?
    ensures (exists i', j :: 0 <= i' < |areas| && Describes(areas, i', j, FrameIndex(areas, phys).value, phys))
            <==> areas[i].start == 0
  {
    assert forall j :: 0 <= j < |areas| && j != i ==> Apart(areas[i], areas[j]) || Apart(areas[j], areas[i]);
    FrameIndexOf(areas, i, phys);
    var index := FrameIndex(areas, phys).value;
    if areas[i].start == 0 {
      PageOfArea(areas[i], phys);
      assert Describes(areas, i, phys / PAGE_SIZE, index, phys);
    }
    forall i', j | 0 <= i' < |areas| && Describes(areas, i', j, index, phys)
      ensures areas[i].start == 0
    {
      PageInArea(areas[i'], j);
      assert i' == i;
    }
  }

  /** The first page of an area at 0x1000 is taken for the second. */
  lemma FrameFoundExample(areas: seq<Area>)
    requires areas == [Area(0x1000, 0x3000, 0)]
    ensures FrameIndex(areas, 0x1000) == Some(1) && Describes(areas, 0, 1, 1, 0x2000)
            && Describes(areas, 0, 0, 0, 0x1000)
  {
  }

  lemma PageOfArea(a: Area, phys: nat)
    requires a.start == 0 && phys < a.end && IsAligned(phys)
    ensures phys / PAGE_SIZE < PageCount(a.start, a.end) && phys / PAGE_SIZE * PAGE_SIZE == phys
  {
  }

  lemma PageInArea(a: Area, j: nat)
    requires IsAligned(a.start) && a.start <= a.end && j < PageCount(a.start, a.end)
    ensures a.start + j * PAGE_SIZE < a.end && (a.start + j * PAGE_SIZE) / PAGE_SIZE == a.start / PAGE_SIZE + j
  {
  }

  // ----- where the frame array goes -----------------------------------------------------

  function RoundedUp(x: nat, unit: nat): nat
    requires unit > 0
  {
    (x + unit - 1) / unit * unit
  }

  /** The array of areas starts at `_end`, the array of frames behind it on a 16-byte boundary,
      and whole pages are mapped up to its end. */
  function FrameArrayStart(start: nat, areaCount: nat): nat {
    RoundedUp(start + areaCount * SIZEOF_PHYS_AREA, 16)
  }

  function AllocEnd(start: nat, areaCount: nat, frameCount: nat): nat {
    RoundedUp(FrameArrayStart(start, areaCount) + frameCount * SIZEOF_FRAME, PAGE_SIZE)
  }

  /** Pages mapped for the two arrays. */
  function ArrayPages(start: nat, frameCount: nat): int {
    (AllocEnd(start, 1, frameCount) - start) / PAGE_SIZE
  }

  lemma ArraysFit(start: nat, areaCount: nat, frameCount: nat)
    requires IsAligned(start)
    ensures var frames, end := FrameArrayStart(start, areaCount), AllocEnd(start, areaCount, frameCount);
            start + areaCount * SIZEOF_PHYS_AREA <= frames && frames % 16 == 0
            && frames + frameCount * SIZEOF_FRAME <= end && start <= end && (end - start) % PAGE_SIZE == 0
            && frames < start + areaCount * SIZEOF_PHYS_AREA + 16 && end < frames + frameCount * SIZEOF_FRAME + 4096
  {
    RoundUp(start + areaCount * SIZEOF_PHYS_AREA, 16);
    RoundUp(FrameArrayStart(start, areaCount) + frameCount * SIZEOF_FRAME, PAGE_SIZE);
    Multiples(start, AllocEnd(start, areaCount, frameCount));
    hide RoundedUp, IsAligned;
  }

  lemma Multiples(a: nat, b: nat)
    requires IsAligned(a) && b % PAGE_SIZE == 0 && a <= b
    ensures (b - a) % PAGE_SIZE == 0
  {
  }

  lemma RoundUp(x: nat, unit: nat)
    requires unit == 16 || unit == PAGE_SIZE
    ensures x <= RoundedUp(x, unit) < x + unit && RoundedUp(x, unit) % unit == 0
  {
  }

  lemma FramesStart(start: nat)
    requires IsAligned(start)
    ensures FrameArrayStart(start, 1) == start + 32
  {
    assert start % 16 == 0;
    RoundsTo(start + 32);
    hide RoundedUp;
  }

  lemma RoundsTo(x: nat)
    requires x % 16 == 0
    ensures RoundedUp(x, 16) == x
  {
  }

  /** With one area: the frames start 32 bytes behind `_end` and take 40 bytes each, and an address
      is below the end of the pages mapped for them exactly if its page holds a byte before that end. */
  lemma ArraysEnd(start: nat, frameCount: nat, v: nat)
    requires IsAligned(start)
    ensures FrameArrayStart(start, 1) == start + 32
    ensures v < AllocEnd(start, 1, frameCount) <==> v - v % 4096 < start + 32 + 40 * frameCount
  {
    FramesStart(start);
    hide FrameArrayStart, RoundedUp, IsAligned;
    var end := start + 32 + frameCount * SIZEOF_FRAME;
    RoundUp(end, PAGE_SIZE);
    PageBelowIff(v, end, RoundedUp(end, PAGE_SIZE));
  }

  lemma PageBelowIff(v: nat, x: nat, end: nat)
    requires x <= end < x + 4096 && end % 4096 == 0
    ensures v < end <==> v - v % 4096 < x
  {
  }

  // ----- the report of walk_pages, as addresses ------------------------------------------

  /** Some kernel page maps to this address. */
  ghost predicate IsMapped(pt: PageTable, address: nat)
    reads pt
  {
    exists v: nat {:trigger pt.Translate(v)} :: IsKernelAddress(v) && pt.Translate(v).Page?
      && pt.Translate(v).address == address
  }

  lemma PageAt(page: Key)
    requires IsPageKey(page)
    ensures var v := KERNEL_BASE + Number(page) * PAGE_SIZE; IsKernelAddress(v) && IsLower(v) && KeyOf(v, 4) == page
  {
    NumberInRange(page);
    var v := KERNEL_BASE + Number(page) * PAGE_SIZE;
    KernelNumbers(v - KERNEL_BASE);
    PageNumberFromIndices(v);
    KeyOfIsKey(v, 4);
    NumberInjective(KeyOf(v, 4), page);
  }

  lemma ReportedLeaf(mem: map<nat, nat>, tables: map<Key, nat>, pages: seq<Key>, out: seq<nat>, x: nat)
    requires x < |out| && Reported(mem, tables, pages, out, 256 * LEVEL0_PAGES)
    ensures |pages| == |out| && IsPageKey(pages[x])
    ensures LeafOf(mem, tables, pages[x]).Page? && LeafOf(mem, tables, pages[x]).address == out[x] && IsAligned(out[x])
  {
  }

  lemma ReportedIsMapped(pt: PageTable, pages: seq<Key>, out: seq<nat>, x: nat)
    requires pt.Valid() && x < |out| && Reported(pt.mem, pt.tables, pages, out, 256 * LEVEL0_PAGES)
    ensures IsMapped(pt, out[x]) && IsAligned(out[x])
  {
    hide Tree, Reported, LeafOf, KeyOf, HardwareWalk, Number, IsPageKey, IsAligned, IsKernelAddress, IsLower;
    ReportedLeaf(pt.mem, pt.tables, pages, out, x);
    PageAt(pages[x]);
    var v := KERNEL_BASE + Number(pages[x]) * PAGE_SIZE;
    AncestorsExist(pt.mem, pt.tables, pt.root, pt.earlyLast, pt.ends[0], v);
    WalkFindsLeaf(pt.mem, pt.tables, pt.root, pt.earlyLast, pt.ends[0], v, 0);
    assert pt.Translate(v).address == out[x];
  }

  lemma ReportedIffMapped(pt: PageTable, pages: seq<Key>, out: seq<nat>, address: nat)
    requires pt.Valid() && Reported(pt.mem, pt.tables, pages, out, 256 * LEVEL0_PAGES)
    ensures address in out <==> IsMapped(pt, address)
    ensures address in out ==> IsAligned(address)
  {
    hide Tree, Reported, HardwareWalk, KeyOf, IsAligned, IsKernelAddress, IsLower;
    if address in out {
      var x :| 0 <= x < |out| && out[x] == address;
      ReportedIsMapped(pt, pages, out, x);
    }
    if IsMapped(pt, address) {
      var v: nat :| IsKernelAddress(v) && pt.Translate(v).Page? && pt.Translate(v).address == address;
      KernelLower(v);
      SameLength(pt, pages, out);
      ReportCoversTranslations(pt, pages, out, v);
    }
  }

  lemma KernelLower(v: nat)
    requires IsKernelAddress(v)
    ensures IsLower(v)
  {
    KernelPage(v, KERNEL_BASE);
  }

  lemma SameLength(pt: PageTable, pages: seq<Key>, out: seq<nat>)
    requires Reported(pt.mem, pt.tables, pages, out, 256 * LEVEL0_PAGES)
    ensures |pages| == |out|
  {
  }

  // ----- the two lists --------------------------------------------------------------------

  function Elems(s: seq<Frame>): set<Frame> { set f | f in s }

  /** Every frame is on exactly one of the lists. */
  predicate Partition(frames: seq<Frame>, free: seq<Frame>, own: seq<Frame>) {
    Elems(free) + Elems(own) == Elems(frames) && Elems(free) !! Elems(own)
  }

  lemma ElemsPush(s: seq<Frame>, f: Frame)
    ensures Elems([f] + s) == Elems(s) + {f}
    ensures Elems(s + [f]) == Elems(s) + {f}
  {
    assert ([f] + s)[0] == f && (s + [f])[|s|] == f;
    forall g | g in s ensures g in [f] + s && g in s + [f] {
      var i :| 0 <= i < |s| && s[i] == g;
      assert ([f] + s)[i + 1] == g && (s + [f])[i] == g;
    }
  }

  lemma ElemsWithout(head: Frame, s: seq<Frame>, k: nat)
    requires Ring(head, s) && k < |s|
    ensures Elems(RemoveAt(s, k)) == Elems(s) - {s[k]}
  {
    Around(head, s, k);
    forall f | f in s && f != s[k] ensures f in RemoveAt(s, k) {
      var i :| 0 <= i < |s| && s[i] == f;
      assert RemoveAt(s, k)[if i < k then i else i - 1] == f;
    }
  }

  /** The neighbours of a head are its frames. */
  lemma NearestIn(head: Frame, s: seq<Frame>)
    requires Ring(head, s)
    ensures head.next != null && (head.next == head || head.next in Elems(s)) && head !in Elems(s)
  {
    Nearest(head, s);
  }

  class FrameTable {
    const freeFrames: Frame
    const pageTableFrames: Frame
    const end: nat                // mem_map[0].end; its start is 0
    var frames: seq<Frame>        // mem_map[0].map
    ghost var free: seq<Frame>
    ghost var own: seq<Frame>

    /** Both lists are well formed, and every frame is on exactly one of them, once. */
    ghost predicate Valid()
      reads this, freeFrames, pageTableFrames, Elems(frames)
    {
      && freeFrames != pageTableFrames && freeFrames !in Elems(frames) && pageTableFrames !in Elems(frames)
      && (forall i :: 0 <= i < |frames| ==> frames[i] in Elems(frames) && frames[i].physicalAddress == i * PAGE_SIZE)
      && Partition(frames, free, own)
      && Ring(freeFrames, free) && Ring(pageTableFrames, own)
    }

    /** The heads are zero at boot.  The source initialises only the first; the second is
        initialised here too. */
    constructor (end: nat)
      ensures Valid() && fresh(freeFrames) && fresh(pageTableFrames) && fresh(Elems(frames))
      ensures this.end == end && |frames| == PageCount(0, end) && own == []
      ensures |free| == |frames| && forall k :: 0 <= k < |free| ==> free[k] == frames[|frames| - 1 - k]
    {
      var frameCount := PageCount(0, end);
      this.end := end;
      hide Ring;
      var freeHead := new Frame(0);
      var ownHead := new Frame(0);
      freeFrames, pageTableFrames := freeHead, ownHead;
      frames, free, own := [], [], [];
      new;
      LlInit(freeFrames);
      LlInit(pageTableFrames);
      AddFrames(frameCount);
    }

    /** init_mem_map's inner loop: the list ends up in descending order. */
    method AddFrames(frameCount: nat)
      requires Valid() && frames == [] && free == [] && own == []
      modifies this, freeFrames`next, freeFrames`prev
      ensures Valid() && fresh(Elems(frames)) && |frames| == frameCount && own == []
      ensures |free| == frameCount && forall k :: 0 <= k < |free| ==> free[k] == frames[|frames| - 1 - k]
    {
      hide Valid;
      NoFramesYet();
      for j := 0 to frameCount
        invariant Valid() && fresh(Elems(frames)) && |frames| == |free| == j && own == []
        invariant forall k :: 0 <= k < j ==> free[k] == frames[j - 1 - k]
      {
        AddFrame(j * PAGE_SIZE);
      }
    }

    lemma NoFramesYet()
      requires frames == []
      ensures Elems(frames) == {}
    {
    }

    /** One round of init_mem_map's inner loop. */
    method AddFrame(physicalAddress: nat)
      requires Valid() && physicalAddress == |frames| * PAGE_SIZE
      modifies this, freeFrames`next, freeFrames`prev, Elems(frames)`prev
      ensures Valid() && |frames| == |old(frames)| + 1 && fresh(Elems(frames) - old(Elems(frames)))
      ensures own == old(own) && |free| == |old(free)| + 1
      ensures frames == old(frames) + [free[0]] && free[1..] == old(free)
    {
      hide Ring, Elems;
      NearestIn(freeFrames, free);
      var frame := new Frame(physicalAddress);
      ElemsPush(frames, frame);
      ElemsPush(free, frame);
      InElems(free, frame);
      InElems(frames, frame);
      ElemsAre(own);
      NearestIn(pageTableFrames, own);
      var _ := LlInsert(freeFrames, frame, free);
      frames, free := frames + [frame], [frame] + free;
      ElemsAre(frames);
    }

    /** Moves the frame of a page to the front of the second list, from whichever it was on. */
    method InitOwnPage(used: nat)
      requires Valid() && IsAligned(used) && used < end && |frames| == PageCount(0, end)
      modifies this`free, this`own, freeFrames, pageTableFrames, Elems(frames)`next, Elems(frames)`prev
      ensures Valid()
      ensures used / PAGE_SIZE < |frames| && Elems(own) == Elems(old(own)) + {frames[used / PAGE_SIZE]}
    {
      hide Ring, Elems;
      var index := PhysaddrToFrame([Area(0, end, 0)], used);
      PageOfArea(Area(0, end, 0), used);
      var usedFrame := frames[index.value];
      UnlinkUsed(usedFrame);
      NearestIn(pageTableFrames, own);
      InElems(own, usedFrame);
      ElemsAre(free);
      NearestIn(freeFrames, free);
      ElemsPush(own, usedFrame);
      var _ := LlInsert(pageTableFrames, usedFrame, own);
      own := [usedFrame] + own;
    }

    /** The ll_unlink of init_own_page: afterwards the frame is on neither list. */
    method UnlinkUsed(usedFrame: Frame)
      requires Valid() && usedFrame in Elems(frames)
      modifies this`free, this`own, freeFrames, pageTableFrames, Elems(frames)`next, Elems(frames)`prev
      ensures Ring(freeFrames, free) && Ring(pageTableFrames, own) && IsUnlinked(usedFrame)
      ensures Elems(free) == Elems(old(free)) - {usedFrame}
      ensures Elems(own) == Elems(old(own)) - {usedFrame}
    {
      hide Ring, RemoveAt, Elems;
      NearestIn(freeFrames, free);
      NearestIn(pageTableFrames, own);
      ghost var wasFree := usedFrame in Elems(free);
      ghost var head, s := if wasFree then freeFrames else pageTableFrames, if wasFree then free else own;
      ghost var other, t := if wasFree then pageTableFrames else freeFrames, if wasFree then own else free;
      InElems(s, usedFrame);
      ghost var k: nat :| k < |s| && s[k] == usedFrame;
      ElemsWithout(head, s, k);
      ElemsAre(s);
      ElemsAre(t);
      LlUnlink(usedFrame, head, s, k);
      assert Ring(other, t);
      if wasFree {
        free := RemoveAt(free, k);
      } else {
        own := RemoveAt(own, k);
      }
    }
  }

  // ----- init_mem_map ---------------------------------------------------------------------

  /** The frames of the reported addresses are the ones on the second list. */
  ghost predicate OwnAre(frames: seq<Frame>, own: set<Frame>, addresses: seq<nat>) {
    forall j :: 0 <= j < |frames| ==> (frames[j] in own <==> j * PAGE_SIZE in addresses)
  }

  lemma OwnMore(frames: seq<Frame>, own: set<Frame>, addresses: seq<nat>, k: nat)
    requires k < |addresses| && IsAligned(addresses[k]) && addresses[k] / PAGE_SIZE < |frames|
    requires forall i :: 0 <= i < |frames| ==> frames[i].physicalAddress == i * PAGE_SIZE
    requires OwnAre(frames, own, addresses[..k])
    ensures OwnAre(frames, own + {frames[addresses[k] / PAGE_SIZE]}, addresses[..k + 1])
  {
    var n := addresses[k] / PAGE_SIZE;
    assert addresses[k] == n * PAGE_SIZE;
    assert addresses[..k + 1] == addresses[..k] + [addresses[k]];
    forall j | 0 <= j < |frames|
      ensures frames[j] in own + {frames[n]} <==> j * PAGE_SIZE in addresses[..k + 1]
    {
      assert frames[j] == frames[n] <==> j == n by { assert frames[j].physicalAddress == j * PAGE_SIZE; }
    }
  }

  lemma InElems(s: seq<Frame>, f: Frame)
    ensures f in Elems(s) <==> f in s
  {
  }

  lemma ElemsAre(s: seq<Frame>)
    ensures forall i :: 0 <= i < |s| ==> s[i] in Elems(s)
  {
  }

  /** What is mapped is neither a page table nor a frame still to be handed out. */
  ghost predicate MappedElsewhere(pt: PageTable)
    reads pt
  {
    forall v: nat {:trigger pt.Translate(v)} :: IsKernelAddress(v) && pt.Translate(v).Page? ==>
      pt.Translate(v).address <= pt.earlyLast
      && forall k :: k in pt.tables ==> pt.tables[k] != pt.Translate(v).address
  }

  lemma NoTableMapped(pt: PageTable)
    requires pt.Valid() && MappedElsewhere(pt)
    ensures forall k :: k in pt.tables ==> !IsMapped(pt, pt.tables[k])
    ensures forall a :: IsMapped(pt, a) ==> a < pt.ends[0]
  {
    hide HardwareWalk, Shape, Linked, Leafy, Zeroed;
  }

  /** No two kernel pages share a frame. */
  ghost predicate OneFrameEach(pt: PageTable)
    reads pt
  {
    forall v: nat, w: nat {:trigger pt.Translate(v), pt.Translate(w)} ::
      IsKernelAddress(v) && IsKernelAddress(w) && pt.Translate(v).Page? && pt.Translate(w).Page?
      && pt.Translate(v).address == pt.Translate(w).address
      ==> v - v % 4096 == w - w % 4096
  }

  lemma SameOffset(start: nat, v: nat, w: nat)
    requires IsAligned(start) && start <= v && start <= w
    ensures (v - start) / PAGE_SIZE == (w - start) / PAGE_SIZE ==> v - v % 4096 == w - w % 4096
  {
    assert v - v % 4096 == start + (v - start) / 4096 * 4096;
    assert w - w % 4096 == start + (w - start) / 4096 * 4096;
  }

  /** An array page is in a frame handed out for it, which is no table. */
  lemma ArrayFrame(frames: seq<nat>, tables: map<Key, nat>, first: nat, last: nat, start: nat, v: nat)
    requires OwnFrames(frames, tables, first, last) && start <= v < start + |frames| * PAGE_SIZE
    ensures var i := (v - start) / PAGE_SIZE;
            i < |frames| && first < frames[i] <= last && forall k :: k in tables ==> tables[k] != frames[i]
  {
    PageOffset(v, start, (v - start) / PAGE_SIZE);
  }

  lemma DifferentFrames(frames: seq<nat>, tables: map<Key, nat>, first: nat, last: nat, start: nat, v: nat, w: nat)
    requires OwnFrames(frames, tables, first, last) && IsAligned(start)
    requires start <= v && start <= w && (v - start) / PAGE_SIZE < |frames| && (w - start) / PAGE_SIZE < |frames|
    requires frames[(v - start) / PAGE_SIZE] == frames[(w - start) / PAGE_SIZE]
    ensures v - v % 4096 == w - w % 4096
  {
    SameOffset(start, v, w);
    hide IsAligned;
  }

  /** The frames of the pages from `start`, seen from their addresses. */
  method MapPages(pt: PageTable, start: nat, pageCount: nat) returns (ok: bool)
    requires pt.Valid() && IsAligned(start) && KERNEL_BASE <= start && start + pageCount * PAGE_SIZE <= KERNEL_LIMIT
    modifies pt`mem, pt`earlyLast, pt`tables
    ensures pt.Valid() && SameUpper(old(pt.mem), pt.mem, pt.root)
    ensures !ok ==> old(pt.earlyLast) + (4 * pageCount + 1) * PAGE_SIZE > pt.ends[0]
    ensures ok ==> Extends(old(pt.tables), pt.tables, old(pt.earlyLast)) && old(pt.earlyLast) <= pt.earlyLast
    ensures ok ==> forall v: nat {:trigger pt.Translate(v)} :: IsKernelAddress(v) ==>
                     var t := pt.Translate(v);
                     if start <= v < start + pageCount * PAGE_SIZE then
                       t.Page? && t.attributes == AttributesFor(PROT_READ + PROT_WRITE)
                       && old(pt.earlyLast) < t.address <= pt.earlyLast
                       && forall k :: k in pt.tables ==> pt.tables[k] != t.address
                     else t == old(pt.Translate(v))
    ensures ok ==> forall v: nat, w: nat {:trigger pt.Translate(v), pt.Translate(w)} ::
                     start <= v < start + pageCount * PAGE_SIZE && start <= w < start + pageCount * PAGE_SIZE
                     && pt.Translate(v) == pt.Translate(w)
                     ==> v - v % 4096 == w - w % 4096
  {
    ghost var first, frames := pt.earlyLast, [];
    hide Tree, HardwareWalk, AttributesFor, IsAligned, SameUpper, Extends, OwnFrames;
    ok, frames := pt.MapFrameArray(start, pageCount);
    if ok {
      FramesInRange(frames, pt.tables, first, pt.earlyLast);
      forall v: nat {:trigger pt.Translate(v)} | start <= v < start + pageCount * PAGE_SIZE
        ensures var i := (v - start) / PAGE_SIZE;
                i < |frames| && first < frames[i] <= pt.earlyLast
                && forall k :: k in pt.tables ==> pt.tables[k] != frames[i]
      {
        ArrayFrame(frames, pt.tables, first, pt.earlyLast, start, v);
      }
      forall v: nat, w: nat | start <= v < start + pageCount * PAGE_SIZE && start <= w < start + pageCount * PAGE_SIZE
        && pt.Translate(v) == pt.Translate(w)
        ensures v - v % 4096 == w - w % 4096
      {
        DifferentFrames(frames, pt.tables, first, pt.earlyLast, start, v, w);
      }
    }
  }

  lemma FramesInRange(frames: seq<nat>, tables: map<Key, nat>, first: nat, last: nat)
    requires OwnFrames(frames, tables, first, last)
    ensures first <= last
  {
  }

  /** The first half of init_mem_map: pages of their own under the two arrays, 32 bytes and 40 for
      each frame; no other page is touched. */
  method MapArrays(pt: PageTable, start: nat, frameCount: nat) returns (ok: bool)
    requires pt.Valid() && MappedElsewhere(pt) && OneFrameEach(pt)
    requires IsAligned(start) && KERNEL_BASE <= start && AllocEnd(start, 1, frameCount) <= KERNEL_LIMIT
    modifies pt`mem, pt`earlyLast, pt`tables
    ensures pt.Valid()
    ensures ok ==> MappedElsewhere(pt) && OneFrameEach(pt)
    ensures !ok ==> old(pt.earlyLast) + (4 * ArrayPages(start, frameCount) + 1) * PAGE_SIZE > pt.ends[0]
    ensures ok ==> forall v: nat {:trigger pt.Translate(v)} :: IsKernelAddress(v) ==>
                     if start <= v && v - v % 4096 < start + 32 + 40 * frameCount then
                       pt.Translate(v).Page? && pt.Translate(v).attributes == AttributesFor(PROT_READ + PROT_WRITE)
                     else pt.Translate(v) == old(pt.Translate(v))
    ensures SameUpper(old(pt.mem), pt.mem, pt.root)
  {
    ArraysFit(start, 1, frameCount);
    hide PageTable.Valid, AllocEnd, FrameArrayStart, HardwareWalk, AttributesFor, IsAligned, SameUpper, IsKernelAddress;
    var allocEnd := AllocEnd(start, 1, frameCount);
    var pageCount := ArrayPages(start, frameCount);
    ok := MapPages(pt, start, pageCount);
    forall v: nat
      ensures v < start + pageCount * PAGE_SIZE <==> v - v % 4096 < start + 32 + 40 * frameCount
    {
      ArraysEnd(start, frameCount, v);
    }
  }

  /** The second half: every frame on the first list, then the mapped ones moved over. */
  method BuildLists(pt: PageTable) returns (t: FrameTable)
    requires pt.Valid() && (forall a :: IsMapped(pt, a) ==> a < pt.ends[0])
    ensures fresh(t) && t.Valid() && t.end == pt.ends[0] && |t.frames| == PageCount(0, pt.ends[0])
    ensures forall j {:trigger t.frames[j]} :: 0 <= j < |t.frames| ==>
              (t.frames[j] in Elems(t.own) <==> IsMapped(pt, j * PAGE_SIZE))
  {
    hide Tree, Reported, OwnAre, Ring, Partition, Elems, IsMapped, IsAligned;
    var end := pt.ends[0];
    t := new FrameTable(end);
    var out, pages := WalkPages(pt);
    forall address ensures address in out <==> IsMapped(pt, address)
                   ensures address in out ==> IsAligned(address) {
      ReportedIffMapped(pt, pages, out, address);
    }
    NoneOwned(t);
    for x := 0 to |out|
      invariant t.Valid() && t.end == end && |t.frames| == PageCount(0, end) && fresh(t)
      invariant fresh(t.freeFrames) && fresh(t.pageTableFrames) && fresh(Elems(t.frames))
      invariant OwnAre(t.frames, Elems(t.own), out[..x])
    {
      ghost var own := Elems(t.own);
      assert out[x] in out;
      t.InitOwnPage(out[x]);
      OwnMore(t.frames, own, out, x);
    }
    assert out[..|out|] == out;
    AllOwned(pt, t, out);
  }

  lemma NoneOwned(t: FrameTable)
    requires t.own == []
    ensures OwnAre(t.frames, Elems(t.own), [])
  {
  }

  lemma AllOwned(pt: PageTable, t: FrameTable, out: seq<nat>)
    requires OwnAre(t.frames, Elems(t.own), out)
    requires forall address :: address in out <==> IsMapped(pt, address)
    ensures forall j {:trigger t.frames[j]} :: 0 <= j < |t.frames| ==>
              (t.frames[j] in Elems(t.own) <==> IsMapped(pt, j * PAGE_SIZE))
  {
    hide IsMapped;
  }

  /** init_mem_map, with the second list initialised and `ll_unlink` as meant.  None is a
      panic for want of frames.  Otherwise the two arrays lie in pages mapped read-write, each in a
      frame of its own, no other page is touched, and each frame of memory is on exactly one list:
      on page_table_frames exactly when some kernel page maps to it.  The frames of the page tables
      themselves are not mapped, and so stay on free_frames. */
  method InitMemMap(pt: PageTable, start: nat) returns (r: Option<FrameTable>)
    requires pt.Valid() && pt.starts[0] == 0 && MappedElsewhere(pt) && OneFrameEach(pt)
    requires IsAligned(start) && KERNEL_BASE <= start
    requires AllocEnd(start, 1, PageCount(0, pt.ends[0])) <= KERNEL_LIMIT
    modifies pt`mem, pt`earlyLast, pt`tables
    ensures pt.Valid()
    ensures r == None ==>
              old(pt.earlyLast) + (4 * ArrayPages(start, PageCount(0, pt.ends[0])) + 1) * PAGE_SIZE > pt.ends[0]
    ensures r.Some? ==>
              var t := r.value;
              fresh(t) && t.Valid() && t.end == pt.ends[0] && |t.frames| == (pt.ends[0] + 4095) / 4096
              && forall j {:trigger t.frames[j]} :: 0 <= j < |t.frames| ==>
                   (t.frames[j] in Elems(t.own) <==> IsMapped(pt, j * PAGE_SIZE))
    ensures r.Some? ==> OneFrameEach(pt) && forall k :: k in pt.tables ==> !IsMapped(pt, pt.tables[k])
    ensures r.Some? ==>
              forall v: nat {:trigger pt.Translate(v)} :: 0xFFFF_0000_0000_0000 <= v < 0xFFFF_8000_0000_0000 ==>
                if start <= v && v - v % 4096 < start + 32 + 40 * ((pt.ends[0] + 4095) / 4096) then
                  pt.Translate(v).Page? && pt.Translate(v).attributes == AttributesFor(PROT_READ + PROT_WRITE)
                  && AccessOf(pt.Translate(v).attributes) == Access(true, true, false, false, false, false, false)
                else pt.Translate(v) == old(pt.Translate(v))
    ensures SameUpper(old(pt.mem), pt.mem, pt.root)
  {
    hide Tree, IsMapped, MappedElsewhere, OneFrameEach, HardwareWalk, AttributesFor, AccessOf, FrameArrayStart,
         AllocEnd, ArrayPages, IsAligned, Ring, Partition, SameUpper;
    WritableAccess();
    var ok := MapArrays(pt, start, PageCount(0, pt.ends[0]));
    if !ok {
      return None;
    }
    NoTableMapped(pt);
    var t := BuildLists(pt);
    r := Some(t);
  }

  lemma WritableAccess()
    ensures AccessOf(AttributesFor(PROT_READ + PROT_WRITE)) == Access(true, true, false, false, false, false, false)
  {
  }

  // ----- the whole of mmu_init ------------------------------------------------------------

  lemma ImageMappedElsewhere(pt: PageTable, text: Section, rodata: Section, data: Section, imageEnd: nat)
    requires SectionsInOrder(text, rodata, data) && PagesEnd(data) <= KERNEL_BASE + imageEnd <= KERNEL_LIMIT
    requires imageEnd <= pt.earlyLast && Extends(map[Root := imageEnd], pt.tables, imageEnd)
    requires forall v: nat {:trigger pt.Translate(v)} :: IsKernelAddress(v) ==>
               pt.Translate(v) == ImageTranslation(text, rodata, data, v)
    ensures MappedElsewhere(pt)
  {
    forall v: nat | IsKernelAddress(v) && pt.Translate(v).Page?
      ensures pt.Translate(v).address < imageEnd
    {
      ImageBelow(text, rodata, data, v, imageEnd);
    }
    hide ImageTranslation, HardwareWalk, PagesEnd, SectionsInOrder, IsKernelAddress;
    forall k | k in pt.tables ensures imageEnd <= pt.tables[k] {
      assert k in map[Root := imageEnd] ==> k == Root;
    }
  }

  lemma ImageBelow(text: Section, rodata: Section, data: Section, v: nat, imageEnd: nat)
    requires SectionsInOrder(text, rodata, data) && PagesEnd(data) <= KERNEL_BASE + imageEnd
    requires IsKernelAddress(v) && ImageTranslation(text, rodata, data, v).Page?
    ensures ImageTranslation(text, rodata, data, v).address < imageEnd
  {
    assert text.end <= PagesEnd(text) && rodata.end <= PagesEnd(rodata) && data.end <= PagesEnd(data);
    assert v < PagesEnd(data);
    hide PagesEnd, AttributesFor;
  }

  /** Behind the image no page holds a byte of a section. */
  lemma BehindImage(text: Section, rodata: Section, data: Section, imageEnd: nat)
    requires SectionsInOrder(text, rodata, data) && PagesEnd(data) <= KERNEL_BASE + imageEnd && IsAligned(imageEnd)
    ensures forall v: nat :: KERNEL_BASE + imageEnd <= v ==>
              text.end <= v - v % 4096 && rodata.end <= v - v % 4096 && data.end <= v - v % 4096
  {
    PagesCover(text.start, text.end);
    PagesCover(rodata.start, rodata.end);
    PagesCover(data.start, data.end);
    BaseAligned(imageEnd);
    forall v: nat | KERNEL_BASE + imageEnd <= v
      ensures KERNEL_BASE + imageEnd <= v - v % 4096
    {
      PageBelowIff(v, KERNEL_BASE + imageEnd, KERNEL_BASE + imageEnd);
    }
    hide PageCount, IsAligned;
  }

  /** The load address of a page of the image is its own. */
  lemma ImageOneFrameEach(pt: PageTable, text: Section, rodata: Section, data: Section)
    requires SectionsInOrder(text, rodata, data)
    requires forall v: nat {:trigger pt.Translate(v)} :: IsKernelAddress(v) ==>
               pt.Translate(v) == ImageTranslation(text, rodata, data, v)
    ensures OneFrameEach(pt)
  {
    hide SectionsInOrder, InSection, AttributesFor, HardwareWalk;
  }

  /** mmu_init up to init_mem_map. */
  method MapKernel(starts: seq<nat>, ends: seq<nat>, mem: map<nat, nat>, text: Section, rodata: Section, data: Section,
                   imageEnd: nat, physmap: nat)
    returns (pt: PageTable, ok: bool)
    requires |starts| == |ends| == 1 && starts[0] == 0 && ends[0] <= ADDRESS_LIMIT
    requires IsAligned(imageEnd) && imageEnd + PAGE_SIZE <= ends[0] && IsAligned(physmap)
    requires forall a :: imageEnd <= a < ends[0] && a % 8 == 0 ==> a in mem && mem[a] == 0
    requires SectionsInOrder(text, rodata, data) && PagesEnd(data) <= KERNEL_BASE + imageEnd <= KERNEL_LIMIT
    ensures fresh(pt) && pt.Valid() && pt.starts == starts && pt.ends == ends
    ensures !ok ==> !Aligned(text, rodata, data)
                    || imageEnd + (3 * Pages(text, rodata, data) + 1) * PAGE_SIZE > ends[0]
    ensures ok ==> pt.earlyLast <= imageEnd + 3 * Pages(text, rodata, data) * PAGE_SIZE
    ensures ok ==> Aligned(text, rodata, data) && MappedElsewhere(pt) && OneFrameEach(pt)
    ensures ok ==> forall v: nat {:trigger pt.Translate(v)} :: IsKernelAddress(v) ==>
                     pt.Translate(v) == ImageTranslation(text, rodata, data, v)
    ensures ok ==> forall v: nat {:trigger pt.Translate(v)} :: 0xFFFF_0000_0000_0000 <= v < 0xFFFF_8000_0000_0000 ==>
              var t, page := pt.Translate(v), v - v % 4096;
              if text.start <= v && page < text.end then
                t.Page? && t.address == page - 0xFFFF_0000_0000_0000
                && AccessOf(t.attributes) == Access(true, false, true, false, false, false, false)
              else if rodata.start <= v && page < rodata.end then
                t.Page? && t.address == page - 0xFFFF_0000_0000_0000
                && AccessOf(t.attributes) == Access(true, false, false, false, false, false, false)
              else if data.start <= v && page < data.end then
                t.Page? && t.address == page - 0xFFFF_0000_0000_0000
                && AccessOf(t.attributes) == Access(true, true, false, false, false, false, false)
              else t == Fault
    ensures ok ==> forall i: nat :: 256 <= i < TABLE_ENTRIES ==> UpperIs(pt.mem, pt.root, i, physmap)
  {
    hide PageTable.Valid, HardwareWalk, ImageTranslation, IsLower, SectionsInOrder, PagesEnd, Extends, MappedElsewhere,
         OneFrameEach, AttributesFor, AccessOf, EntryAddress, Aligned, Pages, UpperIs;
    pt := new PageTable(starts, ends, mem, imageEnd);
    ok := pt.MmuInit(text, rodata, data, physmap);
    if ok {
      ImageMappedElsewhere(pt, text, rodata, data, imageEnd);
      ImageOneFrameEach(pt, text, rodata, data);
      UpperFilled(pt.mem, pt.root, physmap);
    }
  }

  /** mmu_init, from a region whose frames behind the kernel image are zero.  If it does not
      panic, the image is mapped section by section with its own rights, the two arrays lie in
      writable pages behind it, no other kernel address below KERNEL_LIMIT is mapped and no two
      pages share a frame, the upper half is the ready-made physical map, and the frame lists tell
      mapped frames from the others.  It panics only if a section is misaligned, or if the region
      cannot hold three tables for every page mapped. */
  method MmuInitAll(starts: seq<nat>, ends: seq<nat>, mem: map<nat, nat>, text: Section, rodata: Section, data: Section,
                    imageEnd: nat, physmap: nat)
    returns (pt: PageTable, r: Option<FrameTable>)
    requires |starts| == |ends| == 1 && starts[0] == 0 && ends[0] <= ADDRESS_LIMIT
    requires IsAligned(imageEnd) && imageEnd + PAGE_SIZE <= ends[0] && IsAligned(physmap)
    requires forall a :: imageEnd <= a < ends[0] && a % 8 == 0 ==> a in mem && mem[a] == 0
    requires SectionsInOrder(text, rodata, data) && PagesEnd(data) <= KERNEL_BASE + imageEnd
    requires AllocEnd(KERNEL_BASE + imageEnd, 1, PageCount(0, ends[0])) <= KERNEL_LIMIT
    ensures pt.Valid() && pt.ends == ends
    ensures r == None ==> !Aligned(text, rodata, data)
                          || imageEnd + (3 * Pages(text, rodata, data) +
                                         4 * ArrayPages(KERNEL_BASE + imageEnd, PageCount(0, ends[0])) + 1)
                                        * PAGE_SIZE > ends[0]
    ensures r.Some? ==>
              var t := r.value;
              t.Valid() && t.end == ends[0] && |t.frames| == (ends[0] + 4095) / 4096
              && forall j {:trigger t.frames[j]} :: 0 <= j < |t.frames| ==>
                   (t.frames[j] in Elems(t.own) <==> IsMapped(pt, j * PAGE_SIZE))
    ensures r.Some? ==> OneFrameEach(pt) && forall k :: k in pt.tables ==> !IsMapped(pt, pt.tables[k])
    ensures r.Some? ==>
              forall v: nat {:trigger pt.Translate(v)} :: 0xFFFF_0000_0000_0000 <= v < 0xFFFF_8000_0000_0000 ==>
                var t, page, end := pt.Translate(v), v - v % 4096, 0xFFFF_0000_0000_0000 + imageEnd;
                if text.start <= v && page < text.end then
                  t.Page? && t.address == page - 0xFFFF_0000_0000_0000
                  && AccessOf(t.attributes) == Access(true, false, true, false, false, false, false)
                else if rodata.start <= v && page < rodata.end then
                  t.Page? && t.address == page - 0xFFFF_0000_0000_0000
                  && AccessOf(t.attributes) == Access(true, false, false, false, false, false, false)
                else if data.start <= v && page < data.end then
                  t.Page? && t.address == page - 0xFFFF_0000_0000_0000
                  && AccessOf(t.attributes) == Access(true, true, false, false, false, false, false)
                else if end <= v && page < end + 32 + 40 * ((ends[0] + 4095) / 4096) then
                  t.Page? && t.attributes == AttributesFor(PROT_READ + PROT_WRITE)
                  && AccessOf(t.attributes) == Access(true, true, false, false, false, false, false)
                else t == Fault
    ensures r.Some? ==> forall v: nat {:trigger pt.Translate(v)} :: KERNEL_BASE <= v < KERNEL_BASE + imageEnd ==>
                          pt.Translate(v) == ImageTranslation(text, rodata, data, v)
    ensures r.Some? ==> forall i: nat :: 256 <= i < TABLE_ENTRIES ==> UpperIs(pt.mem, pt.root, i, physmap)
  {
    var end := KERNEL_BASE + imageEnd;
    BaseAligned(imageEnd);
    ArraysFit(end, 1, PageCount(0, ends[0]));
    hide PageTable.Valid, HardwareWalk, IsMapped, ImageTranslation, SectionsInOrder, PagesEnd, AllocEnd,
         FrameArrayStart, MappedElsewhere, OneFrameEach, FrameTable.Valid, AttributesFor, AccessOf, EntryAddress,
         Aligned, Pages, ArrayPages, SameUpper, UpperIs;
    var ok: bool;
    pt, ok := MapKernel(starts, ends, mem, text, rodata, data, imageEnd, physmap);
    if !ok {
      return pt, None;
    }
    ghost var mem1 := pt.mem;
    BehindImage(text, rodata, data, imageEnd);
    r := InitMemMap(pt, end);
    UpperStays(mem1, pt.mem, pt.root, physmap);
  }

  /** Root entry i points to its table of the ready-made physical map. */
  ghost predicate UpperIs(mem: map<nat, nat>, root: nat, i: nat, physmap: nat)
    requires 256 <= i
  {
    EntryAddress(root, i) in mem && mem[EntryAddress(root, i)] == physmap + PAGE_SIZE * (i - 256) + 3
  }

  lemma UpperFilled(mem: map<nat, nat>, root: nat, physmap: nat)
    requires forall i: nat :: 256 <= i < TABLE_ENTRIES ==>
               EntryAddress(root, i) in mem && mem[EntryAddress(root, i)] == physmap + PAGE_SIZE * (i - 256) + 3
    ensures forall i: nat :: 256 <= i < TABLE_ENTRIES ==> UpperIs(mem, root, i, physmap)
  {
    hide EntryAddress;
  }

  lemma UpperStays(mem: map<nat, nat>, mem': map<nat, nat>, root: nat, physmap: nat)
    requires SameUpper(mem, mem', root)
    requires forall i: nat :: 256 <= i < TABLE_ENTRIES ==> UpperIs(mem, root, i, physmap)
    ensures forall i: nat :: 256 <= i < TABLE_ENTRIES ==> UpperIs(mem', root, i, physmap)
  {
    forall i: nat | 256 <= i < TABLE_ENTRIES ensures UpperIs(mem', root, i, physmap) {
      assert UpperIs(mem, root, i, physmap);
    }
  }

  lemma BaseAligned(imageEnd: nat)
    requires IsAligned(imageEnd)
    ensures IsAligned(KERNEL_BASE + imageEnd)
  {
  }
}
