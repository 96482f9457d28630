/**
 The disk list in memory: twenty slots, of which the first are in use, and the
 heap blocks of their strings. Every operation on the list is a step of the
 memory; the laws say that the slots in use are the list, that every block is
 owned once, and what removals leave in the slots behind the list.
 */
module DiskMemory {
  import opened Basics
  import opened DiskList

  /** A pointer to a heap string: its block and its text. */
  datatype Str = Str(block: nat, text: string)

  type Ptr = Option<Str>

  function Text(p: Ptr): Option<string> { if p.Some? then Some(p.value.text) else None }

  function Points(p: Ptr, b: nat): nat { if p.Some? && p.value.block == b then 1 else 0 }

  /** One slot of the three arrays. */
  datatype Slot = Slot(file: Ptr, title: Ptr, kind: ImageType) {
    function Entry(): Entry { DiskList.Entry(Text(file), Text(title), kind) }

    /** How many of its two pointers own a block. */
    function Count(b: nat): nat { Points(file, b) + Points(title, b) }

    /** Its blocks were handed out before the given one. */
    predicate Below(next: nat) {
      (file.Some? ==> file.value.block < next) && (title.Some? ==> title.value.block < next)
    }
  }

  const NULL := Slot(None, None, NoImage)

  /** The list that the first slots stand for. */
  function View(cells: seq<Slot>, n: nat): (entries: seq<Entry>)
    requires n <= |cells|
    ensures |entries| == n
  {
    seq(n, i requires 0 <= i < n => cells[i].Entry())
  }

  /** What a read of a file slot finds; behind the list it may find what removals left there. */
  datatype Selection = NoSlot | EmptySlot | Dangling | Chosen(file: string, title: Option<string>, kind: ImageType)

  /** What an entry of the list is to a reader. */
  function Selects(e: Entry): Selection { if e.file.None? then EmptySlot else Chosen(e.file.value, e.title, e.kind) }

  // ----- ownership -----

  /** How many pointers of the first slots own a block. */
  function Count(cells: seq<Slot>, n: nat, b: nat): nat
    requires n <= |cells|
  {
    if n == 0 then 0 else Count(cells, n - 1, b) + cells[n - 1].Count(b)
  }

  lemma {:induction false} SameCount(s: seq<Slot>, t: seq<Slot>, n: nat, b: nat)
    requires n <= |s| && n <= |t| && forall i | 0 <= i < n :: s[i] == t[i]
    ensures Count(s, n, b) == Count(t, n, b)
  {
    if n > 0 {
      SameCount(s, t, n - 1, b);
    }
  }

  /** Replacing a slot exchanges its pointers. */
  lemma {:induction false} CountUpdate(cells: seq<Slot>, k: nat, s: Slot, n: nat, b: nat)
    requires k < n <= |cells|
    ensures Count(cells[k := s], n, b) + cells[k].Count(b) == Count(cells, n, b) + s.Count(b)
  {
    if k == n - 1 {
      SameCount(cells[k := s], cells, k, b);
    } else {
      CountUpdate(cells, k, s, n - 1, b);
    }
  }

  lemma {:induction false} CountAtLeast(cells: seq<Slot>, k: nat, n: nat, b: nat)
    requires k < n <= |cells|
    ensures Count(cells, n, b) >= cells[k].Count(b)
  {
    if k < n - 1 {
      CountAtLeast(cells, k, n - 1, b);
    }
  }

  lemma {:induction false} NullCount(cells: seq<Slot>, n: nat, b: nat)
    requires n <= |cells| && forall i | 0 <= i < n :: cells[i] == NULL
    ensures Count(cells, n, b) == 0
  {
    if n > 0 {
      NullCount(cells, n - 1, b);
    }
  }

  /** Closing the gap at an index: the elements up to the end of the list move up, the last one stays as well. */
  function Closed<T>(s: seq<T>, k: nat, n: nat): (r: seq<T>)
    requires k < n <= |s|
    ensures |r| == |s|
  {
    if k == n - 1 then s else s[..k] + s[k + 1..n] + s[n - 1..]
  }

  lemma ClosedAt<T>(s: seq<T>, k: nat, n: nat, i: nat)
    requires k < n <= |s| && i < |s|
    ensures Closed(s, k, n)[i] == s[if k <= i < n - 1 then i + 1 else i]
  {
  }

  lemma {:induction false} CountClosed(cells: seq<Slot>, k: nat, n: nat, m: nat, b: nat)
    requires k < n <= |cells| && m < n
    ensures Count(Closed(cells, k, n), m, b)
         == if m <= k then Count(cells, m, b) else Count(cells, m + 1, b) - cells[k].Count(b)
  {
    if m > 0 {
      CountClosed(cells, k, n, m - 1, b);
      ClosedAt(cells, k, n, m - 1);
    }
  }

  function In(live: set<nat>, b: nat): nat { if b in live then 1 else 0 }

  /** The live blocks are exactly those the first slots own, each through one pointer. */
  ghost predicate Owns(cells: seq<Slot>, n: nat, live: set<nat>)
    requires n <= |cells|
  {
    forall b: nat :: Count(cells, n, b) == In(live, b)
  }

  function Freed(live: set<nat>, p: Ptr): set<nat> { if p.Some? then live - {p.value.block} else live }

  /** Freeing both strings of an entry. */
  function FreedBoth(live: set<nat>, s: Slot): set<nat> { Freed(Freed(live, s.file), s.title) }

  /** An entry's strings are live when they are freed one after the other, and they are then gone. */
  lemma OwnedOnce(cells: seq<Slot>, n: nat, live: set<nat>, k: nat)
    requires k < n <= |cells| && Owns(cells, n, live)
    ensures cells[k].file.Some? ==> cells[k].file.value.block in live
    ensures cells[k].title.Some? ==> cells[k].title.value.block in Freed(live, cells[k].file)
    ensures forall b: nat :: In(FreedBoth(live, cells[k]), b) + cells[k].Count(b) == In(live, b)
  {
    forall b: nat
      ensures cells[k].Count(b) <= In(live, b)
    {
      CountAtLeast(cells, k, n, b);
    }
    if cells[k].file.Some? {
      assert cells[k].Count(cells[k].file.value.block) >= 1;
    }
    if cells[k].title.Some? {
      assert cells[k].Count(cells[k].title.value.block) >= 1;
    }
  }

  // ----- the memory and its steps -----

  datatype Memory = Memory(cells: seq<Slot>, count: nat, live: set<nat>, next: nat) {
    predicate Shaped() { |cells| == DC_MAX_SIZE && count <= DC_MAX_SIZE }

    /** The list in the slots in use. */
    function Entries(): seq<Entry>
      requires Shaped()
    {
      View(cells, count)
    }

    /** What a slot holds for a reader of its file, in the list or behind it. */
    function Selected(k: int): Selection
      requires Shaped()
    {
      if !(0 <= k < DC_MAX_SIZE) then NoSlot
      else if cells[k].file.None? then EmptySlot
      else if cells[k].file.value.block in live then Chosen(cells[k].file.value.text, Text(cells[k].title), cells[k].kind)
      else Dangling
    }

    /** A live slot behind the list is a copy of one in it. */
    ghost predicate Copy(i: nat)
      requires Shaped() && i < DC_MAX_SIZE
    {
      cells[i].file.Some? && cells[i].file.value.block in live ==> exists j: nat :: j < count && cells[j] == cells[i]
    }

    ghost predicate Valid() {
      && Shaped() && Owns(cells, count, live)
      && (forall b | b in live :: b < next)
      && (forall i | 0 <= i < DC_MAX_SIZE :: cells[i].Below(next) && Copy(i))
      && (count == 0 ==> cells[0].file.None?)
    }
  }

  function Nulls(n: nat): (cells: seq<Slot>)
    ensures |cells| == n && forall i | 0 <= i < n :: cells[i] == NULL
  {
    seq(n, _ => NULL)
  }

  const EMPTY := Memory(Nulls(DC_MAX_SIZE), 0, {}, 0)

  /** A slot for a new entry, and the blocks it takes. */
  function NewSlot(next: nat, file: string, title: Option<string>, kind: string -> ImageType): Slot {
    Slot(Some(Str(next, file)), if title.Some? then Some(Str(next + 1, title.value)) else None, kind(file))
  }

  function Taken(next: nat, title: Option<string>): set<nat> { if title.Some? then {next, next + 1} else {next} }

  function NextAfter(next: nat, title: Option<string>): nat { if title.Some? then next + 2 else next + 1 }

  /** Allocates a new entry's strings. */
  function Allocated(m: Memory, title: Option<string>): Memory {
    m.(live := m.live + Taken(m.next, title), next := NextAfter(m.next, title))
  }

  /** Stores an entry in the first unused slot. */
  function Put(m: Memory, s: Slot): (r: Memory)
    requires m.Shaped() && m.count < DC_MAX_SIZE
    ensures r.Shaped()
  {
    m.(cells := m.cells[m.count := s], count := m.count + 1)
  }

  function PutNew(m: Memory, file: string, title: Option<string>, kind: string -> ImageType): (r: Memory)
    requires m.Shaped() && m.count < DC_MAX_SIZE
    ensures r.Shaped()
  {
    Put(Allocated(m, title), NewSlot(m.next, file, title, kind))
  }

  /** Frees an entry's strings and clears its slot. */
  function Wiped(m: Memory, k: nat): (r: Memory)
    requires m.Shaped() && k < m.count
    ensures r.Shaped()
  {
    m.(cells := m.cells[k := NULL], live := FreedBoth(m.live, m.cells[k]))
  }

  /** Takes a cleared slot out of the list; what was last stays behind it as well. */
  function Shut(m: Memory, k: nat): (r: Memory)
    requires m.Shaped() && k < m.count
    ensures r.Shaped()
  {
    m.(cells := Closed(m.cells, k, m.count), count := m.count - 1)
  }

  function Removed(m: Memory, k: nat): (r: Memory)
    requires m.Shaped() && k < m.count
    ensures r.Shaped()
  {
    Shut(Wiped(m, k), k)
  }

  /** Clears the slots in use; those behind them stay. */
  function Emptied(m: Memory): (r: Memory)
    requires m.Shaped()
    ensures r.Shaped()
  {
    Memory(Nulls(m.count) + m.cells[m.count..], 0, {}, m.next)
  }

  /** Fills a cleared slot. */
  function Filled(m: Memory, k: nat, file: string, title: string, kind: string -> ImageType): (r: Memory)
    requires m.Shaped() && k < m.count
    ensures r.Shaped()
  {
    var a := Allocated(m, Some(title));
    a.(cells := a.cells[k := NewSlot(m.next, file, Some(title), kind)])
  }

  /** One operation on the list. */
  function StepMem(m: Memory, op: Op, kind: string -> ImageType): (r: Memory)
    requires m.Shaped()
    ensures r.Shaped()
  {
    match op
    case AddFile(file, title) =>
      if Lists(m.Entries(), file) || file == "" || m.count >= DC_MAX_SIZE then m else PutNew(m, file, Stored(title), kind)
    case RemoveFile(k) => if 0 <= k < m.count then Removed(m, k) else m
    case Reset => Emptied(m)
    case Append => if m.count < DC_MAX_SIZE then Put(m, NULL) else m
    case FillIn(k, file, title) =>
      if !(0 <= k < m.count) then m
      else if Lists(Compared(m.Entries(), k), file) then Removed(m, k)
      else Filled(Wiped(m, k), k, file, title, kind)
  }

  // ----- the slots in use are the list -----

  lemma ViewClosed(cells: seq<Slot>, k: nat, n: nat)
    requires k < n <= |cells|
    ensures View(Closed(cells, k, n), n - 1) == Without(View(cells, n), k)
  {
    forall i: nat | i < n - 1
      ensures View(Closed(cells, k, n), n - 1)[i] == Without(View(cells, n), k)[i]
    {
      ClosedAt(cells, k, n, i);
    }
  }

  lemma WithoutCleared(entries: seq<Entry>, k: nat)
    requires k < |entries|
    ensures Without(entries[k := BLANK], k) == Without(entries, k)
  {
  }

  lemma ViewUpdate(cells: seq<Slot>, k: nat, s: Slot, n: nat)
    requires k < n <= |cells|
    ensures View(cells[k := s], n) == View(cells, n)[k := s.Entry()]
  {
  }

  lemma ViewPut(cells: seq<Slot>, s: Slot, n: nat)
    requires n < |cells|
    ensures View(cells[n := s], n + 1) == View(cells, n) + [s.Entry()]
  {
  }

  lemma RemovedEntries(m: Memory, k: nat)
    requires m.Shaped() && k < m.count
    ensures Removed(m, k).Entries() == Without(m.Entries(), k)
  {
    ViewClosed(m.cells[k := NULL], k, m.count);
    ViewUpdate(m.cells, k, NULL, m.count);
    WithoutCleared(m.Entries(), k);
  }

  lemma FilledEntries(m: Memory, k: nat, file: string, title: string, kind: string -> ImageType)
    requires m.Shaped() && k < m.count
    ensures Filled(Wiped(m, k), k, file, title, kind).Entries()
         == m.Entries()[k := Entry(Some(file), Some(title), kind(file))]
  {
    ViewUpdate(m.cells, k, NULL, m.count);
    ViewUpdate(m.cells[k := NULL], k, NewSlot(m.next, file, Some(title), kind), m.count);
  }

  lemma PutNewEntries(m: Memory, file: string, title: Option<string>, kind: string -> ImageType)
    requires m.Shaped() && m.count < DC_MAX_SIZE
    ensures PutNew(m, file, title, kind).Entries() == m.Entries() + [Entry(Some(file), title, kind(file))]
  {
    ViewPut(m.cells, NewSlot(m.next, file, title, kind), m.count);
  }

  /** Every step of the memory is the operation on the list. */
  lemma StepEntries(m: Memory, op: Op, kind: string -> ImageType)
    requires m.Shaped() && Defined(m.Entries(), op)
    ensures StepMem(m, op, kind).Entries() == Apply(m.Entries(), op, kind)
  {
    match op
    case AddFile(file, title) =>
      if m.count < DC_MAX_SIZE {
        PutNewEntries(m, file, Stored(title), kind);
      }
    case RemoveFile(k) =>
      if 0 <= k < m.count {
        RemovedEntries(m, k);
      }
    case Reset =>
    case Append =>
      ViewPut(m.cells, NULL, m.count);
    case FillIn(k, file, title) =>
      if 0 <= k < m.count {
        RemovedEntries(m, k);
        FilledEntries(m, k, file, title, kind);
      }
  }

  // ----- what every step keeps -----

  lemma EmptyValid()
    ensures EMPTY.Valid() && EMPTY.Entries() == []
  {
  }

  lemma PutNullValid(m: Memory)
    requires m.Valid() && m.count < DC_MAX_SIZE
    ensures Put(m, NULL).Valid()
  {
    var r := Put(m, NULL);
    forall b: nat
      ensures Count(r.cells, r.count, b) == In(r.live, b)
    {
      SameCount(r.cells, m.cells, m.count, b);
    }
    forall i: nat | i < DC_MAX_SIZE
      ensures r.Copy(i)
    {
      CopyKept(m, r, m.count, i);
    }
  }

  /** A copy behind the list stays one while its entry stays in the list. */
  lemma CopyKept(m: Memory, r: Memory, k: nat, i: nat)
    requires m.Shaped() && r.Shaped() && k <= m.count <= r.count && k < DC_MAX_SIZE && i < DC_MAX_SIZE
    requires m.Copy(i) && (forall x | 0 <= x < DC_MAX_SIZE && x != k :: r.cells[x] == m.cells[x])
    requires i != k && r.cells[i].file.Some? && r.cells[i].file.value.block in r.live ==>
      r.cells[i].file.value.block in m.live && (k < m.count ==> r.cells[i] != m.cells[k])
    requires k < r.count
    ensures r.Copy(i)
  {
    if i == k {
      assert i < r.count && r.cells[i] == r.cells[i];
    } else if r.cells[i].file.Some? && r.cells[i].file.value.block in r.live {
      var j: nat :| j < m.count && m.cells[j] == m.cells[i];
      assert j != k && r.cells[j] == r.cells[i];
    }
  }

  lemma TakenCounts(live: set<nat>, next: nat, file: string, title: Option<string>, kind: string -> ImageType, b: nat)
    requires forall x | x in live :: x < next
    ensures In(live + Taken(next, title), b) == In(live, b) + NewSlot(next, file, title, kind).Count(b)
  {
  }

  lemma PutNewValid(m: Memory, file: string, title: Option<string>, kind: string -> ImageType)
    requires m.Valid() && m.count < DC_MAX_SIZE
    ensures PutNew(m, file, title, kind).Valid()
  {
    var r := PutNew(m, file, title, kind);
    forall b: nat
      ensures Count(r.cells, r.count, b) == In(r.live, b)
    {
      SameCount(r.cells, m.cells, m.count, b);
      TakenCounts(m.live, m.next, file, title, kind, b);
    }
    forall i: nat | i < DC_MAX_SIZE
      ensures r.cells[i].Below(r.next) && r.Copy(i)
    {
      assert m.cells[i].Below(m.next) && m.Copy(i);
      CopyKept(m, r, m.count, i);
    }
  }

  lemma WipedValid(m: Memory, k: nat)
    requires m.Valid() && k < m.count
    ensures Wiped(m, k).Valid()
  {
    var r := Wiped(m, k);
    OwnedOnce(m.cells, m.count, m.live, k);
    forall b: nat
      ensures Count(r.cells, r.count, b) == In(r.live, b)
    {
      CountUpdate(m.cells, k, NULL, m.count, b);
    }
    forall i: nat | i < DC_MAX_SIZE
      ensures r.cells[i].Below(r.next) && r.Copy(i)
    {
      assert m.cells[i].Below(m.next) && m.Copy(i);
      CopyKept(m, r, k, i);
    }
  }

  lemma FilledValid(m: Memory, k: nat, file: string, title: string, kind: string -> ImageType)
    requires m.Valid() && k < m.count && m.cells[k] == NULL
    ensures Filled(m, k, file, title, kind).Valid()
  {
    var r, s := Filled(m, k, file, title, kind), NewSlot(m.next, file, Some(title), kind);
    forall b: nat
      ensures Count(r.cells, r.count, b) == In(r.live, b)
    {
      CountUpdate(m.cells, k, s, m.count, b);
      TakenCounts(m.live, m.next, file, Some(title), kind, b);
    }
    forall i: nat | i < DC_MAX_SIZE
      ensures r.cells[i].Below(r.next) && r.Copy(i)
    {
      assert m.cells[i].Below(m.next) && m.Copy(i);
      CopyKept(m, r, k, i);
    }
  }

  lemma ShutCopy(m: Memory, k: nat, i: nat)
    requires m.Shaped() && k < m.count && m.cells[k] == NULL && i < DC_MAX_SIZE
    requires i >= m.count ==> m.Copy(i)
    ensures Shut(m, k).Copy(i)
  {
    var r, n := Shut(m, k), m.count;
    ClosedAt(m.cells, k, n, i);
    assert r.live == m.live && r.count == n - 1;
    if i < n - 1 {
      assert i < r.count && r.cells[i] == r.cells[i];
    } else if i == n - 1 {
      if k < n - 1 {
        ClosedAt(m.cells, k, n, n - 2);
        assert n - 2 < r.count && r.cells[n - 2] == r.cells[i];
      }
    } else if r.cells[i].file.Some? && r.cells[i].file.value.block in r.live {
      var j: nat :| j < n && m.cells[j] == m.cells[i];
      var moved: nat := if j < k then j else j - 1;
      ClosedAt(m.cells, k, n, moved);
      assert moved < r.count && r.cells[moved] == r.cells[i];
    }
  }

  lemma ShutValid(m: Memory, k: nat)
    requires m.Valid() && k < m.count && m.cells[k] == NULL
    ensures Shut(m, k).Valid()
  {
    var r := Shut(m, k);
    forall b: nat
      ensures Count(r.cells, r.count, b) == In(r.live, b)
    {
      CountClosed(m.cells, k, m.count, m.count - 1, b);
    }
    forall i: nat | i < DC_MAX_SIZE
      ensures r.cells[i].Below(r.next) && r.Copy(i)
    {
      ClosedAt(m.cells, k, m.count, i);
      assert forall x | 0 <= x < DC_MAX_SIZE :: m.cells[x].Below(m.next) && m.Copy(x);
      ShutCopy(m, k, i);
    }
    ClosedAt(m.cells, k, m.count, 0);
  }

  lemma RemovedValid(m: Memory, k: nat)
    requires m.Valid() && k < m.count
    ensures Removed(m, k).Valid()
  {
    WipedValid(m, k);
    ShutValid(Wiped(m, k), k);
  }

  lemma EmptiedValid(m: Memory)
    requires m.Valid()
    ensures Emptied(m).Valid()
  {
    var r := Emptied(m);
    forall i: nat | i < DC_MAX_SIZE
      ensures r.cells[i].Below(r.next) && r.Copy(i)
    {
      assert m.cells[i].Below(m.next);
    }
  }

  /** Every step keeps the memory valid: each block is owned once, and copies behind the list are of its entries. */
  lemma StepValid(m: Memory, op: Op, kind: string -> ImageType)
    requires m.Valid()
    ensures StepMem(m, op, kind).Valid()
  {
    match op
    case AddFile(file, title) =>
      if m.count < DC_MAX_SIZE {
        PutNewValid(m, file, Stored(title), kind);
      }
    case RemoveFile(k) =>
      if 0 <= k < m.count {
        RemovedValid(m, k);
      }
    case Reset => EmptiedValid(m);
    case Append =>
      if m.count < DC_MAX_SIZE {
        PutNullValid(m);
      }
    case FillIn(k, file, title) =>
      if 0 <= k < m.count {
        RemovedValid(m, k);
        WipedValid(m, k);
        FilledValid(Wiped(m, k), k, file, title, kind);
      }
  }

  /** An index in the list selects its entry, whose strings are live. */
  lemma SelectedInList(m: Memory, k: nat)
    requires m.Valid() && k < m.count
    ensures m.Selected(k) == Selects(m.Entries()[k])
  {
    OwnedOnce(m.cells, m.count, m.live, k);
  }

  /** The label of a selected file is live, in the list or behind it. */
  lemma TitleLive(m: Memory, k: nat)
    requires m.Valid() && k < DC_MAX_SIZE && m.Selected(k).Chosen? && m.cells[k].title.Some?
    ensures m.cells[k].title.value.block in m.live
  {
    assert m.Copy(k);
    var j: nat :| j < m.count && m.cells[j] == m.cells[k];
    OwnedOnce(m.cells, m.count, m.live, j);
  }

  /** When every slot in use is empty nothing is live: nothing leaks. */
  lemma NullOwnsNothing(m: Memory)
    requires m.Valid() && forall i | 0 <= i < m.count :: m.cells[i] == NULL
    ensures m.live == {}
  {
    forall b: nat
      ensures b !in m.live
    {
      NullCount(m.cells, m.count, b);
    }
  }
}
