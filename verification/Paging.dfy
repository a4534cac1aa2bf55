/** Physical frames, page tables and the two-level walk the processor performs (kernel/mem/frame.h,
    kernel/mem/paging.h). */
module Paging {
  import opened CTypes

  const PAGE_SIZE := 4096
  const PAGES_IN_PT := 1024
  const PAGETABLES_IN_PD := 1024

  /** Virtual address of a task's first byte, its page number and its page directory index. */
  const TASK_VIRT_ADDR := 0x4000_0000
  const TASK_FIRST_PAGE := 0x4_0000
  const TASK_FIRST_PDE := 256

  /** A task holds an image of at most 1 GB, its arguments and a 2 MB stack: at most 257 page tables. */
  const MAX_TASK_TABLES := 257

  /** A page directory or page table entry; every mapping the kernel makes is read-write. */
  datatype Pte = Pte(present: bool, user: bool, frame: nat)

  /** What a physical frame holds: bytes of a page, or a page table. */
  datatype Frame = Data(bytes: seq<Byte>) | Table(entries: seq<Pte>)

  type Phys = map<nat, Frame>

  const ABSENT := Pte(false, false, 0)

  function UserPte(frame: nat): Pte {
    Pte(true, true, frame)
  }

  function NoEntries(): (r: seq<Pte>)
    ensures |r| == 1024 && forall i | 0 <= i < 1024 :: r[i] == ABSENT
  {
    seq(1024, _ => ABSENT)
  }

  function NullPointers(): seq<nat> {
    seq(1024, _ => 0)
  }

  /** PAGE_COUNT and FRAME_COUNT. */
  function PageCount(size: nat): nat {
    (size + PAGE_SIZE - 1) / PAGE_SIZE
  }

  function TableCount(pages: nat): nat {
    (pages + PAGES_IN_PT - 1) / PAGES_IN_PT
  }

  /** The least number of pages that hold size bytes, and of page tables that hold their entries. */
  predicate HoldsJust(size: nat, pages: nat, tables: nat) {
    size <= pages * 4096 < size + 4096 && pages <= tables * 1024 < pages + 1024
  }

  lemma Counted(size: nat)
    ensures HoldsJust(size, PageCount(size), TableCount(PageCount(size)))
  {
  }

  // ----- the page walk ---------------------------------------------------------------------------

  datatype Walk = Fault | Hit(frame: nat, user: bool)

  function WalkPage(phys: Phys, dir: seq<Pte>, page: nat): Walk
    requires |dir| == PAGETABLES_IN_PD && page < 0x10_0000
  {
    var pde := dir[page / PAGES_IN_PT];
    if !pde.present || pde.frame !in phys then Fault
    else match phys[pde.frame]
      case Data(_) => Fault
      case Table(entries) =>
        if |entries| != PAGES_IN_PT || !entries[page % PAGES_IN_PT].present then Fault
        else Hit(entries[page % PAGES_IN_PT].frame, pde.user && entries[page % PAGES_IN_PT].user)
  }

  /** Page j * 1024 + e is what entry e of the table behind directory entry j says; the program may use it only if both
      entries allow it, and an absent one of either kind is a fault. */
  lemma WalkMeans(phys: Phys, dir: seq<Pte>, j: nat, e: nat)
    requires |dir| == 1024 && j < 1024 && e < 1024 && dir[j].frame in phys
    requires phys[dir[j].frame].Table? && |phys[dir[j].frame].entries| == 1024
    ensures var entry := phys[dir[j].frame].entries[e];
            WalkPage(phys, dir, j * 1024 + e)
            == if dir[j].present && entry.present then Hit(entry.frame, dir[j].user && entry.user) else Fault
  {
    assert (j * 1024 + e) / 1024 == j && (j * 1024 + e) % 1024 == e;
  }

  /** The bytes of a frame; a frame that holds no page reads as zeros. */
  function PageBytes(phys: Phys, frame: nat): (r: seq<Byte>)
    ensures |r| == PAGE_SIZE
  {
    if frame in phys && phys[frame].Data? && |phys[frame].bytes| == PAGE_SIZE then phys[frame].bytes
    else Zeros(PAGE_SIZE)
  }

  /** A page table entry after its byte number k was overwritten: the present bit and the user bit are in byte 0, the
      frame number fills the upper half of byte 1 and bytes 2 and 3. The other bits are not modelled. */
  function PokedEntry(e: Pte, k: nat, b: Byte): Pte
    requires k < 4
  {
    match k
    case 0 => e.(present := b % 2 == 1, user := b / 4 % 2 == 1)
    case 1 => e.(frame := e.frame / 16 * 16 + b / 16)
    case 2 => e.(frame := e.frame / 0x1000 * 0x1000 + b * 16 + e.frame % 16)
    case 3 => e.(frame := b * 0x1000 + e.frame % 0x1000)
  }

  /** What the processor reads in the 32 bits of an entry: bit 0 present, bit 2 user, bits 12 to 31 the frame number. */
  function EntryOf(word: Word): Pte {
    Pte(word % 2 == 1, word / 4 % 2 == 1, word / 4096)
  }

  /** The four bytes of an entry whose other bits are 0, lowest first. */
  function EntryBytes(e: Pte): (r: seq<Byte>)
    requires e.frame < 0x10_0000
    ensures |r| == 4
  {
    [(if e.present then 1 else 0) + (if e.user then 4 else 0), e.frame % 16 * 16, e.frame / 16 % 256, e.frame / 4096]
  }

  /** Overwriting byte k of an entry is overwriting byte k of the 32 bits. */
  lemma PokedBits(e: Pte, k: nat, b: Byte)
    requires k < 4 && e.frame < 0x10_0000
    ensures EntryOf(WordOf(EntryBytes(e))) == e
    ensures EntryOf(WordOf(EntryBytes(e)[k := b])) == PokedEntry(e, k, b)
  {
    EntryFields(EntryBytes(e));
    EntryFields(EntryBytes(e)[k := b]);
    hide EntryOf, WordOf;
    FrameParts(e.frame);
  }

  lemma EntryFields(bytes: seq<Byte>)
    requires |bytes| == 4
    ensures EntryOf(WordOf(bytes))
            == Pte(bytes[0] % 2 == 1, bytes[0] / 4 % 2 == 1,
                   bytes[1] as int / 16 + bytes[2] as int * 16 + bytes[3] as int * 4096)
  {
    var b0: int, b1: int, b2: int, b3: int := bytes[0], bytes[1], bytes[2], bytes[3];
    var upper: int := b1 + 256 * b2 + 0x1_0000 * b3;
    var frame: int := b1 / 16 + 16 * b2 + 4096 * b3;
    assert WordOf(bytes) == b0 + 256 * upper && WordOf(bytes) == b0 + 256 * (b1 % 16) + 4096 * frame;
    LowBits(b0, upper);
    HighBits(b0 + 256 * (b1 % 16), frame);
  }

  lemma LowBits(low: int, upper: int)
    ensures (low + 256 * upper) % 2 == low % 2 && (low + 256 * upper) / 4 % 2 == low / 4 % 2
  {
    Even(low, 128 * upper);
    var x := low + 256 * upper;
    assert x == 4 * (low / 4 + 64 * upper) + low % 4;
    Even(low / 4, 32 * upper);
  }

  lemma Even(x: int, k: int)
    ensures (x + 2 * k) % 2 == x % 2
  {
  }

  lemma HighBits(low: int, upper: int)
    requires 0 <= low < 4096
    ensures (low + 4096 * upper) / 4096 == upper
  {
  }

  lemma FrameParts(frame: nat)
    requires frame < 0x10_0000
    ensures frame == frame % 16 + frame / 16 % 256 * 16 + frame / 4096 * 4096
    ensures frame / 16 * 16 == frame / 16 % 256 * 16 + frame / 4096 * 4096
    ensures frame % 4096 == frame % 16 + frame / 16 % 256 * 16
  {
    assert frame / 16 / 256 == frame / 4096;
  }

  /** For every byte of an entry some value changes what the entry says. */
  lemma EntryChanges(e: Pte, k: nat) returns (b: Byte)
    requires k < 4
    ensures var e' := PokedEntry(e, k, b);
            if k == 0 then e'.present != e.present else e'.present == e.present && e'.frame != e.frame
  {
    match k
    case 0 => b := if e.present then 0 else 1;
    case 1 => b := if e.frame % 16 == 0 then 16 else 0;
    case 2 => b := if e.frame / 16 % 256 == 0 then 1 else 0;
    case 3 => b := if e.frame / 0x1000 == 0 then 1 else 0;
  }

  /** The bytes 1 to 3 of an entry do not decide whether it is present. */
  lemma EntryStaysAbsent(e: Pte, k: nat, b: Byte)
    requires 0 < k < 4
    ensures PokedEntry(e, k, b).present == e.present
  {
  }

  function PokedFrame(phys: Phys, frame: nat, offset: nat, b: Byte): Frame
    requires offset < PAGE_SIZE
  {
    if frame in phys && phys[frame].Table? && |phys[frame].entries| == PAGES_IN_PT then
      var entries := phys[frame].entries;
      Table(entries[offset / 4 := PokedEntry(entries[offset / 4], offset % 4, b)])
    else Data(PageBytes(phys, frame)[offset := b])
  }

  /** The page table entry around that byte is in use. */
  predicate EntryPresent(phys: Phys, frame: nat, offset: nat)
    requires offset < PAGE_SIZE
  {
    && frame in phys && phys[frame].Table? && |phys[frame].entries| == PAGES_IN_PT
    && phys[frame].entries[offset / 4].present
  }

  function StoreByte(phys: Phys, frame: nat, offset: nat, b: Byte): Phys
    requires offset < PAGE_SIZE
  {
    phys[frame := PokedFrame(phys, frame, offset, b)]
  }

  /** For every byte of a frame some value changes the frame. */
  lemma FrameChanges(phys: Phys, frame: nat, offset: nat) returns (b: Byte)
    requires frame in phys && offset < PAGE_SIZE
    ensures PokedFrame(phys, frame, offset, b) != phys[frame]
  {
    if phys[frame].Table? && |phys[frame].entries| == PAGES_IN_PT {
      var entries := phys[frame].entries;
      b := EntryChanges(entries[offset / 4], offset % 4);
      hide PokedEntry;
      assert PokedFrame(phys, frame, offset, b).entries[offset / 4] != entries[offset / 4];
    } else {
      b := if PageBytes(phys, frame)[offset] == 0 then 1 else 0;
      assert PokedFrame(phys, frame, offset, b).bytes[offset] == b;
    }
  }

  lemma StoreInPage(phys: Phys, frame: nat, offset: nat, b: Byte)
    requires frame in phys && IsPage(phys[frame]) && offset < PAGE_SIZE
    ensures var phys' := StoreByte(phys, frame, offset, b);
            && IsPage(phys'[frame]) && PageBytes(phys', frame) == PageBytes(phys, frame)[offset := b]
            && forall f: nat | f != frame :: PageBytes(phys', f) == PageBytes(phys, f)
  {
  }

  // ----- a task's mapping ------------------------------------------------------------------------

  predicate IsPage(f: Frame) {
    f.Data? && |f.bytes| == PAGE_SIZE
  }

  /** Table number t of a task whose pages are the frames data, in order. */
  ghost predicate IsTable(f: Frame, data: seq<nat>, t: nat) {
    && f.Table?
    && |f.entries| == PAGES_IN_PT
    && forall e | 0 <= e < PAGES_IN_PT ::
         if t * PAGES_IN_PT + e < |data| then f.entries[e] == UserPte(data[t * PAGES_IN_PT + e])
         else !f.entries[e].present
  }

  ghost predicate Disjoint(data: seq<nat>, tables: seq<nat>) {
    && Distinct(data)
    && Distinct(tables)
    && (forall p, t | 0 <= p < |data| && 0 <= t < |tables| :: data[p] != tables[t])
  }

  /** The page directory dir maps the frames data at TASK_VIRT_ADDR through the page tables tables, and is the
      template everywhere else; ptrs holds the addresses of the tables followed by NULL pointers. */
  ghost predicate Maps(phys: Phys, dir: seq<Pte>, ptrs: seq<nat>, templ: seq<Pte>, data: seq<nat>, tables: seq<nat>) {
    && |dir| == |templ| == |ptrs| == 1024
    && |tables| <= MAX_TASK_TABLES
    && |data| <= |tables| * PAGES_IN_PT
    && (forall j | 0 <= j < 1024 ::
          dir[j] == if TASK_FIRST_PDE <= j < TASK_FIRST_PDE + |tables| then UserPte(tables[j - TASK_FIRST_PDE])
                    else templ[j])
    && (forall t | 0 <= t < 1024 :: ptrs[t] == if t < |tables| then tables[t] * PAGE_SIZE else 0)
    && (forall t | 0 <= t < |tables| :: tables[t] != 0 && tables[t] in phys && IsTable(phys[tables[t]], data, t))
    && (forall p | 0 <= p < |data| :: data[p] in phys && IsPage(phys[data[p]]))
    && Disjoint(data, tables)
  }

  ghost predicate SameOn(phys: Phys, phys': Phys, data: seq<nat>, tables: seq<nat>) {
    && (forall t | 0 <= t < |tables| :: tables[t] in phys && tables[t] in phys' && phys'[tables[t]] == phys[tables[t]])
    && (forall p | 0 <= p < |data| :: data[p] in phys && data[p] in phys' && phys'[data[p]] == phys[data[p]])
  }

  /** A mapping looks at no frame but its own. */
  lemma MapsFrame(phys: Phys, phys': Phys, dir: seq<Pte>, ptrs: seq<nat>, templ: seq<Pte>, data: seq<nat>,
                  tables: seq<nat>)
    requires Maps(phys, dir, ptrs, templ, data, tables)
    requires SameOn(phys, phys', data, tables)
    ensures Maps(phys', dir, ptrs, templ, data, tables)
  {
  }

  /** The walk finds page p of the task in frame data[p], and it is a user page. */
  lemma WalkTask(phys: Phys, dir: seq<Pte>, ptrs: seq<nat>, templ: seq<Pte>, data: seq<nat>, tables: seq<nat>, p: nat)
    requires Maps(phys, dir, ptrs, templ, data, tables)
    requires p < |data|
    ensures TASK_FIRST_PAGE + p < 0x10_0000
    ensures WalkPage(phys, dir, TASK_FIRST_PAGE + p) == Hit(data[p], true)
  {
    var t, e := p / PAGES_IN_PT, p % PAGES_IN_PT;
    var page := TASK_FIRST_PAGE + p;
    assert page / PAGES_IN_PT == TASK_FIRST_PDE + t && page % PAGES_IN_PT == e;
    assert t < |tables|;
    assert dir[TASK_FIRST_PDE + t] == UserPte(tables[t]);
    assert IsTable(phys[tables[t]], data, t);
    assert phys[tables[t]].entries[e] == UserPte(data[p]);
  }

  /** Outside its own pages a task sees what the template maps, and nothing else. */
  lemma WalkElsewhere(phys: Phys, dir: seq<Pte>, ptrs: seq<nat>, templ: seq<Pte>, data: seq<nat>, tables: seq<nat>,
                      page: nat)
    requires Maps(phys, dir, ptrs, templ, data, tables)
    requires page < 0x10_0000 && !(TASK_FIRST_PAGE <= page < TASK_FIRST_PAGE + |data|)
    requires forall j | TASK_FIRST_PDE <= j < TASK_FIRST_PDE + MAX_TASK_TABLES :: !templ[j].present
    ensures WalkPage(phys, dir, page) == WalkPage(phys, templ, page)
  {
    var j, e := page / PAGES_IN_PT, page % PAGES_IN_PT;
    if TASK_FIRST_PDE <= j < TASK_FIRST_PDE + |tables| {
      var t := j - TASK_FIRST_PDE;
      assert dir[j] == UserPte(tables[t]);
      assert IsTable(phys[tables[t]], data, t);
      assert t * PAGES_IN_PT + e == page - TASK_FIRST_PAGE;
      assert !phys[tables[t]].entries[e].present;
    } else {
      assert dir[j] == templ[j];
    }
  }

  /** Overwriting a byte of a frame that is none of its page tables leaves the mapping as it was. */
  lemma StoreKeepsMaps(phys: Phys, dir: seq<Pte>, ptrs: seq<nat>, templ: seq<Pte>, data: seq<nat>, tables: seq<nat>,
                       frame: nat, offset: nat, b: Byte)
    requires Maps(phys, dir, ptrs, templ, data, tables)
    requires frame !in tables && offset < PAGE_SIZE
    ensures Maps(StoreByte(phys, frame, offset, b), dir, ptrs, templ, data, tables)
  {
    if frame in data {
      StoreInPage(phys, frame, offset, b);
    }
    hide IsTable, PageBytes, Disjoint, PokedFrame;
    var phys' := StoreByte(phys, frame, offset, b);
    assert forall t | 0 <= t < |tables| :: phys'[tables[t]] == phys[tables[t]];
  }

  /** Bytes 1 to 3 of an entry that is not in use make no difference either. */
  lemma StoreKeepsTable(phys: Phys, dir: seq<Pte>, ptrs: seq<nat>, templ: seq<Pte>, data: seq<nat>, tables: seq<nat>,
                        t: nat, offset: nat, b: Byte)
    requires Maps(phys, dir, ptrs, templ, data, tables)
    requires t < |tables| && offset < PAGE_SIZE && offset % 4 != 0 && t * PAGES_IN_PT + offset / 4 >= |data|
    ensures Maps(StoreByte(phys, tables[t], offset, b), dir, ptrs, templ, data, tables)
  {
    var phys' := StoreByte(phys, tables[t], offset, b);
    assert IsTable(phys[tables[t]], data, t);
    EntryStaysAbsent(phys[tables[t]].entries[offset / 4], offset % 4, b);
    hide PokedEntry, PageBytes;
    assert IsTable(phys'[tables[t]], data, t);
    forall u | 0 <= u < |tables| && u != t
      ensures phys'[tables[u]] == phys[tables[u]]
    {
      assert tables[u] != tables[t];
    }
    assert forall p | 0 <= p < |data| :: data[p] != tables[t];
    hide IsTable, PokedFrame;
  }

  // ----- building a mapping ----------------------------------------------------------------------

  lemma MapsNothing(phys: Phys, templ: seq<Pte>)
    requires |templ| == 1024
    ensures Maps(phys, templ, NullPointers(), templ, [], [])
  {
  }

  /** The directory entry of the next page is missing exactly when all page tables are full. */
  lemma NextTable(phys: Phys, dir: seq<Pte>, ptrs: seq<nat>, templ: seq<Pte>, data: seq<nat>, tables: seq<nat>)
    requires Maps(phys, dir, ptrs, templ, data, tables) && |tables| == TableCount(|data|)
    requires |data| < MAX_TASK_TABLES * PAGES_IN_PT
    requires forall j | TASK_FIRST_PDE <= j < TASK_FIRST_PDE + MAX_TASK_TABLES :: !templ[j].present
    ensures dir[TASK_FIRST_PDE + |data| / PAGES_IN_PT].present <==> |data| < |tables| * PAGES_IN_PT
    ensures |data| == |tables| * PAGES_IN_PT ==> |tables| == |data| / PAGES_IN_PT < MAX_TASK_TABLES
  {
    assert !templ[TASK_FIRST_PDE + |data| / PAGES_IN_PT].present;
  }

  /** A fresh zeroed frame becomes the next page table. */
  lemma AddTable(phys: Phys, dir: seq<Pte>, ptrs: seq<nat>, templ: seq<Pte>, data: seq<nat>, tables: seq<nat>, f: nat)
    requires Maps(phys, dir, ptrs, templ, data, tables)
    requires |data| == |tables| * PAGES_IN_PT && |tables| < MAX_TASK_TABLES
    requires f != 0 && f !in data && f !in tables
    ensures Maps(phys[f := Table(NoEntries())], dir[TASK_FIRST_PDE + |tables| := UserPte(f)],
                 ptrs[|tables| := f * PAGE_SIZE], templ, data, tables + [f])
  {
    var phys' := phys[f := Table(NoEntries())];
    var tables' := tables + [f];
    forall t | 0 <= t < |tables'|
      ensures tables'[t] != 0 && tables'[t] in phys' && IsTable(phys'[tables'[t]], data, t)
    {
      if t < |tables| {
        assert tables'[t] == tables[t] != f;
      }
    }
    assert forall p | 0 <= p < |data| :: data[p] != f;
  }

  /** A fresh zeroed frame becomes the next page. */
  lemma AddPage(phys: Phys, dir: seq<Pte>, ptrs: seq<nat>, templ: seq<Pte>, data: seq<nat>, tables: seq<nat>, g: nat)
    requires Maps(phys, dir, ptrs, templ, data, tables)
    requires |data| < |tables| * PAGES_IN_PT
    requires g !in data && g !in tables
    ensures |data| / PAGES_IN_PT < |tables|
    ensures var t := tables[|data| / PAGES_IN_PT];
            t in phys && phys[t].Table? && |phys[t].entries| == 1024 &&
            Maps(phys[g := Data(Zeros(PAGE_SIZE))][t := Table(phys[t].entries[|data| % PAGES_IN_PT := UserPte(g)])],
                 dir, ptrs, templ, data + [g], tables)
  {
    var k, e := |data| / PAGES_IN_PT, |data| % PAGES_IN_PT;
    assert IsTable(phys[tables[k]], data, k);
    var t := tables[k];
    var phys' := phys[g := Data(Zeros(PAGE_SIZE))][t := Table(phys[t].entries[e := UserPte(g)])];
    var data' := data + [g];
    forall i | 0 <= i < |tables|
      ensures tables[i] != 0 && tables[i] in phys' && IsTable(phys'[tables[i]], data', i)
    {
      assert IsTable(phys[tables[i]], data, i);
      if i != k {
        assert tables[i] != t && tables[i] != g;
      }
    }
    forall p | 0 <= p < |data'|
      ensures data'[p] in phys' && IsPage(phys'[data'[p]])
    {
      if p < |data| {
        assert data'[p] == data[p] && data[p] != g && data[p] != t;
      }
    }
  }

  /** Allocation so far: the frames used came out of free0 and no other frame has changed. */
  ghost predicate Allocated(phys0: Phys, free0: set<nat>, phys: Phys, free: set<nat>, used: set<nat>) {
    && used <= free0 && free == free0 - used
    && free0 <= phys0.Keys && phys.Keys == phys0.Keys
    && forall f | f in phys0 && f !in used :: phys[f] == phys0[f]
  }

  lemma AllocatedMore(phys0: Phys, free0: set<nat>, phys: Phys, free: set<nat>, used: set<nat>, f: nat, phys': Phys)
    requires Allocated(phys0, free0, phys, free, used) && f in free
    requires phys'.Keys == phys.Keys && forall x | x in phys && x != f && x !in used :: phys'[x] == phys[x]
    ensures Allocated(phys0, free0, phys', free - {f}, used + {f})
    ensures |used + {f}| == |used| + 1 && |free - {f}| == |free| - 1
  {
    assert f !in used;
    assert free - {f} == free0 - (used + {f});
  }

  // ----- a task's memory as one contiguous block ---------------------------------------------------

  /** The bytes a task sees from TASK_VIRT_ADDR on. */
  ghost function Memory(phys: Phys, data: seq<nat>): (r: seq<Byte>)
    ensures |r| == |data| * PAGE_SIZE
    ensures forall k | 0 <= k < |r| :: r[k] == PageBytes(phys, data[k / PAGE_SIZE])[k % PAGE_SIZE]
  {
    seq(|data| * PAGE_SIZE, k requires 0 <= k < |data| * PAGE_SIZE =>
      PageBytes(phys, data[k / PAGE_SIZE])[k % PAGE_SIZE])
  }

  lemma MemoryFrame(phys: Phys, phys': Phys, data: seq<nat>)
    requires forall p | 0 <= p < |data| :: PageBytes(phys', data[p]) == PageBytes(phys, data[p])
    ensures Memory(phys', data) == Memory(phys, data)
  {
  }

  /** Storing into frame data[k / 4096] is storing byte k of the block: pages neither overlap nor repeat. */
  lemma StoreMemory(phys: Phys, data: seq<nat>, k: nat, b: Byte)
    requires Distinct(data) && k < |data| * PAGE_SIZE
    requires data[k / PAGE_SIZE] in phys && IsPage(phys[data[k / PAGE_SIZE]])
    ensures Memory(StoreByte(phys, data[k / PAGE_SIZE], k % PAGE_SIZE, b), data) == Memory(phys, data)[k := b]
  {
    var f := data[k / PAGE_SIZE];
    var phys' := StoreByte(phys, f, k % PAGE_SIZE, b);
    StoreInPage(phys, f, k % PAGE_SIZE, b);
    hide StoreByte, PokedFrame, PageBytes, IsPage;
    var m, m' := Memory(phys, data)[k := b], Memory(phys', data);
    forall i | 0 <= i < |m|
      ensures m'[i] == m[i]
    {
      if i / PAGE_SIZE == k / PAGE_SIZE {
        assert i == k || i % PAGE_SIZE != k % PAGE_SIZE;
      } else {
        assert data[i / PAGE_SIZE] != f;
      }
    }
  }

  lemma ZeroMemory(phys: Phys, data: seq<nat>)
    requires forall p | 0 <= p < |data| :: PageBytes(phys, data[p]) == Zeros(PAGE_SIZE)
    ensures Memory(phys, data) == Zeros(|data| * PAGE_SIZE)
  {
  }
}
