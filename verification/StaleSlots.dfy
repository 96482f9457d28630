/**
 What lies in the slots behind the disk list after a run. A removal that is not
 of the last entry leaves a second pointer to that entry behind the list; the
 law says exactly when such a pointer dangles.
 */
module StaleSlots {
  import opened Basics
  import opened DiskList
  import opened DiskMemory

  /** The memory before an operation of a run from the empty list. */
  function Mem(ops: seq<Op>, i: nat, kind: string -> ImageType): (m: Memory)
    requires i <= |ops|
    ensures m.Shaped()
  {
    if i == 0 then EMPTY else StepMem(Mem(ops, i - 1, kind), ops[i - 1], kind)
  }

  /** For every slot, the operation that made what its file pointer points to. */
  type Marks = seq<Option<nat>>

  function Nones(n: nat): (marks: Marks)
    ensures |marks| == n && forall i | 0 <= i < n :: marks[i] == None
  {
    seq(n, _ => None)
  }

  function NextMarks(marks: Marks, m: Memory, time: nat, op: Op, kind: string -> ImageType): (r: Marks)
    requires m.Shaped() && |marks| == DC_MAX_SIZE
    ensures |r| == DC_MAX_SIZE
  {
    var n, after := m.count, StepMem(m, op, kind).count;
    match op
    case AddFile(_, _) => if after > n then marks[n := Some(time)] else marks
    case RemoveFile(k) => if 0 <= k < n then Closed(marks[k := None], k, n) else marks
    case Reset => Nones(n) + marks[n..]
    case Append => if after > n then marks[n := None] else marks
    case FillIn(k, _, _) =>
      if !(0 <= k < n) then marks
      else if after < n then Closed(marks[k := None], k, n)
      else marks[k := Some(time)]
  }

  function MarksAt(ops: seq<Op>, i: nat, kind: string -> ImageType): (r: Marks)
    requires i <= |ops|
    ensures |r| == DC_MAX_SIZE
  {
    if i == 0 then Nones(DC_MAX_SIZE)
    else NextMarks(MarksAt(ops, i - 1, kind), Mem(ops, i - 1, kind), i - 1, ops[i - 1], kind)
  }

  function BirthsAt(ops: seq<Op>, i: nat, kind: string -> ImageType): (births: seq<nat>)
    requires i <= |ops|
    ensures |births| == |Before(ops, i, kind)|
  {
    Births(ops[..i], kind)
  }

  lemma BirthsNext(ops: seq<Op>, i: nat, kind: string -> ImageType)
    requires i < |ops|
    ensures BirthsAt(ops, i + 1, kind)
         == NextBirths(Before(ops, i, kind), BirthsAt(ops, i, kind), i, ops[i], kind)
  {
    assert ops[..i + 1][..i] == ops[..i];
  }

  /** The memory holds the list. */
  lemma {:induction false} MemIsRun(ops: seq<Op>, i: nat, kind: string -> ImageType)
    requires i <= |ops| && Safe(ops, kind)
    ensures Mem(ops, i, kind).Valid() && Mem(ops, i, kind).Entries() == Before(ops, i, kind)
  {
    if i == 0 {
      EmptyValid();
    } else {
      MemIsRun(ops, i - 1, kind);
      var m := Mem(ops, i - 1, kind);
      assert Defined(Before(ops, i - 1, kind), ops[i - 1]);
      StepValid(m, ops[i - 1], kind);
      StepEntries(m, ops[i - 1], kind);
      BeforeNext(ops, i - 1, kind);
    }
  }

  // ----- marks follow the pointers -----

  /** The operation allocated: later ones hand out higher blocks. */
  ghost predicate Allocates(ops: seq<Op>, b: nat, kind: string -> ImageType) {
    b < |ops| && !ops[b].Append? && Mem(ops, b, kind).next < Mem(ops, b + 1, kind).next
  }

  ghost predicate Matches(s: Slot, mark: Option<nat>, ops: seq<Op>, kind: string -> ImageType) {
    match mark
    case None => s.file.None?
    case Some(b) => s.file.Some? && Allocates(ops, b, kind) && s.file.value.block == Mem(ops, b, kind).next
  }

  ghost predicate AllMatch(cells: seq<Slot>, marks: Marks, ops: seq<Op>, kind: string -> ImageType) {
    |cells| == |marks| && forall i | 0 <= i < |cells| :: Matches(cells[i], marks[i], ops, kind)
  }

  lemma MatchClosed(cells: seq<Slot>, marks: Marks, ops: seq<Op>, kind: string -> ImageType, k: nat, n: nat)
    requires AllMatch(cells, marks, ops, kind) && k < n <= |cells|
    ensures AllMatch(Closed(cells[k := NULL], k, n), Closed(marks[k := None], k, n), ops, kind)
  {
    var c, d := cells[k := NULL], marks[k := None];
    forall i: nat | i < |cells|
      ensures Matches(Closed(c, k, n)[i], Closed(d, k, n)[i], ops, kind)
    {
      ClosedAt(c, k, n, i);
      ClosedAt(d, k, n, i);
    }
  }

  lemma NextGrows(m: Memory, op: Op, kind: string -> ImageType)
    requires m.Shaped()
    ensures m.next <= StepMem(m, op, kind).next
  {
  }

  lemma {:induction false} AllMatchAt(ops: seq<Op>, i: nat, kind: string -> ImageType)
    requires i <= |ops|
    ensures AllMatch(Mem(ops, i, kind).cells, MarksAt(ops, i, kind), ops, kind)
  {
    if i == 0 {
      MatchStart(ops, kind);
    } else {
      AllMatchAt(ops, i - 1, kind);
      MatchStep(ops, i - 1, kind);
    }
  }

  lemma MatchStart(ops: seq<Op>, kind: string -> ImageType)
    ensures AllMatch(Mem(ops, 0, kind).cells, MarksAt(ops, 0, kind), ops, kind)
  {
  }

  lemma MatchWrite(cells: seq<Slot>, marks: Marks, ops: seq<Op>, kind: string -> ImageType, k: nat,
                   s: Slot, mark: Option<nat>)
    requires AllMatch(cells, marks, ops, kind) && k < |cells| && Matches(s, mark, ops, kind)
    ensures AllMatch(cells[k := s], marks[k := mark], ops, kind)
  {
  }

  lemma MatchReset(cells: seq<Slot>, marks: Marks, ops: seq<Op>, kind: string -> ImageType, n: nat)
    requires AllMatch(cells, marks, ops, kind) && n <= |cells|
    ensures AllMatch(Nulls(n) + cells[n..], Nones(n) + marks[n..], ops, kind)
  {
  }

  lemma MatchStep(ops: seq<Op>, i: nat, kind: string -> ImageType)
    requires i < |ops| && AllMatch(Mem(ops, i, kind).cells, MarksAt(ops, i, kind), ops, kind)
    ensures AllMatch(Mem(ops, i + 1, kind).cells, MarksAt(ops, i + 1, kind), ops, kind)
  {
    var m, marks, op := Mem(ops, i, kind), MarksAt(ops, i, kind), ops[i];
    var after := StepMem(m, op, kind);
    assert Mem(ops, i + 1, kind) == after && MarksAt(ops, i + 1, kind) == NextMarks(marks, m, i, op, kind);
    match op
    case AddFile(file, title) =>
      if after.count > m.count {
        MatchWrite(m.cells, marks, ops, kind, m.count, NewSlot(m.next, file, Stored(title), kind), Some(i));
      }
    case RemoveFile(k) =>
      if 0 <= k < m.count {
        MatchClosed(m.cells, marks, ops, kind, k, m.count);
      }
    case Reset => MatchReset(m.cells, marks, ops, kind, m.count);
    case Append =>
      if after.count > m.count {
        MatchWrite(m.cells, marks, ops, kind, m.count, NULL, None);
      }
    case FillIn(k, file, title) =>
      if 0 <= k < m.count {
        MatchClosed(m.cells, marks, ops, kind, k, m.count);
        if after.count == m.count {
          MatchWrite(m.cells, marks, ops, kind, k, NewSlot(m.next, file, Some(title), kind), Some(i));
          assert after.cells == m.cells[k := NewSlot(m.next, file, Some(title), kind)];
        }
      }
  }

  /** In the list the marks are the births of the entries that have files. */
  ghost predicate InList(marks: Marks, births: seq<nat>, ops: seq<Op>) {
    |births| <= |marks| &&
    forall i | 0 <= i < |births| ::
      births[i] < |ops| && marks[i] == if ops[births[i]].Append? then None else Some(births[i])
  }

  lemma {:induction false} InListAt(ops: seq<Op>, i: nat, kind: string -> ImageType)
    requires i <= |ops| && Safe(ops, kind)
    ensures InList(MarksAt(ops, i, kind), BirthsAt(ops, i, kind), ops)
  {
    if i > 0 {
      InListAt(ops, i - 1, kind);
      InListStep(ops, i - 1, kind);
    }
  }

  lemma InListStep(ops: seq<Op>, i: nat, kind: string -> ImageType)
    requires i < |ops| && Safe(ops, kind) && InList(MarksAt(ops, i, kind), BirthsAt(ops, i, kind), ops)
    ensures InList(MarksAt(ops, i + 1, kind), BirthsAt(ops, i + 1, kind), ops)
  {
    MemIsRun(ops, i, kind);
    BirthsNext(ops, i, kind);
    assert Defined(Before(ops, i, kind), ops[i]);
    var m := Mem(ops, i, kind);
    StepEntries(m, ops[i], kind);
    InListNext(m, MarksAt(ops, i, kind), BirthsAt(ops, i, kind), ops, i, kind);
  }

  lemma InListNext(m: Memory, marks: Marks, births: seq<nat>, ops: seq<Op>, i: nat, kind: string -> ImageType)
    requires i < |ops| && m.Shaped() && |births| == m.count && |marks| == DC_MAX_SIZE && InList(marks, births, ops)
    requires StepMem(m, ops[i], kind).count == |Apply(m.Entries(), ops[i], kind)|
    ensures InList(NextMarks(marks, m, i, ops[i], kind), NextBirths(m.Entries(), births, i, ops[i], kind), ops)
  {
    match ops[i]
    case RemoveFile(k) =>
      if 0 <= k < m.count {
        InListClosed(marks, births, ops, k);
      }
    case FillIn(k, _, _) =>
      if 0 <= k < m.count {
        InListClosed(marks, births, ops, k);
      }
    case _ =>
  }

  lemma InListClosed(marks: Marks, births: seq<nat>, ops: seq<Op>, k: nat)
    requires InList(marks, births, ops) && k < |births|
    ensures InList(Closed(marks[k := None], k, |births|), births[..k] + births[k + 1..], ops)
  {
    var closed, left := Closed(marks[k := None], k, |births|), births[..k] + births[k + 1..];
    forall i: nat | i < |left|
      ensures left[i] < |ops| && closed[i] == if ops[left[i]].Append? then None else Some(left[i])
    {
      ClosedAt(marks[k := None], k, |births|, i);
    }
  }

  // ----- when a pointer behind the list dangles -----

  lemma {:induction false} NextMonotone(ops: seq<Op>, i: nat, j: nat, kind: string -> ImageType)
    requires i <= j <= |ops|
    ensures Mem(ops, i, kind).next <= Mem(ops, j, kind).next
    decreases j
  {
    if i < j {
      NextMonotone(ops, i, j - 1, kind);
      NextGrows(Mem(ops, j - 1, kind), ops[j - 1], kind);
    }
  }

  lemma LaterHigher(ops: seq<Op>, b: nat, c: nat, kind: string -> ImageType)
    requires Allocates(ops, b, kind) && b < c <= |ops|
    ensures Mem(ops, b, kind).next < Mem(ops, c, kind).next
  {
    NextMonotone(ops, b + 1, c, kind);
  }

  /** The block names the operation that allocated it. */
  lemma BlockNames(ops: seq<Op>, b: nat, c: nat, kind: string -> ImageType)
    requires Allocates(ops, b, kind) && Allocates(ops, c, kind) && Mem(ops, b, kind).next == Mem(ops, c, kind).next
    ensures b == c
  {
    if b < c {
      LaterHigher(ops, b, c, kind);
    }
    if c < b {
      LaterHigher(ops, c, b, kind);
    }
  }

  /** A slot dangles exactly if the entry it points to is no longer listed. */
  lemma DanglesByMark(ops: seq<Op>, s: nat, kind: string -> ImageType)
    requires Safe(ops, kind) && s < DC_MAX_SIZE
    ensures var mark := MarksAt(ops, |ops|, kind)[s];
      Mem(ops, |ops|, kind).Selected(s).Dangling? <==> mark.Some? && mark.value !in BirthsAt(ops, |ops|, kind)
  {
    MemIsRun(ops, |ops|, kind);
    AllMatchAt(ops, |ops|, kind);
    InListAt(ops, |ops|, kind);
    DanglesIn(Mem(ops, |ops|, kind), MarksAt(ops, |ops|, kind), BirthsAt(ops, |ops|, kind), ops, s, kind);
  }

  lemma DanglesIn(m: Memory, marks: Marks, births: seq<nat>, ops: seq<Op>, s: nat, kind: string -> ImageType)
    requires m.Valid() && AllMatch(m.cells, marks, ops, kind) && InList(marks, births, ops) && |births| == m.count
    requires s < DC_MAX_SIZE
    ensures m.Selected(s).Dangling? <==> marks[s].Some? && marks[s].value !in births
  {
    assert Matches(m.cells[s], marks[s], ops, kind);
    if m.Selected(s).Chosen? {
      assert m.Copy(s);
      var j: nat :| j < m.count && m.cells[j] == m.cells[s];
      SamePointer(m.cells, marks, ops, j, s, kind);
      assert births[j] == marks[s].value;
    } else if marks[s].Some? && marks[s].value in births {
      ListedIsLive(m, marks, births, ops, s, kind);
    }
  }

  lemma ListedIsLive(m: Memory, marks: Marks, births: seq<nat>, ops: seq<Op>, s: nat, kind: string -> ImageType)
    requires m.Valid() && AllMatch(m.cells, marks, ops, kind) && InList(marks, births, ops) && |births| == m.count
    requires s < DC_MAX_SIZE && marks[s].Some? && marks[s].value in births
    ensures m.Selected(s).Chosen?
  {
    var j: nat :| j < |births| && births[j] == marks[s].value;
    SameMark(m.cells, marks, ops, j, s, kind);
    OwnedOnce(m.cells, m.count, m.live, j);
  }

  lemma SamePointer(cells: seq<Slot>, marks: Marks, ops: seq<Op>, j: nat, s: nat, kind: string -> ImageType)
    requires AllMatch(cells, marks, ops, kind) && j < |cells| && s < |cells|
    requires cells[j].file == cells[s].file && marks[s].Some?
    ensures marks[j] == marks[s]
  {
    assert Matches(cells[j], marks[j], ops, kind) && Matches(cells[s], marks[s], ops, kind);
    BlockNames(ops, marks[j].value, marks[s].value, kind);
  }

  lemma SameMark(cells: seq<Slot>, marks: Marks, ops: seq<Op>, j: nat, s: nat, kind: string -> ImageType)
    requires AllMatch(cells, marks, ops, kind) && j < |cells| && s < |cells| && marks[s].Some?
    requires marks[s].value < |ops| && (!ops[marks[s].value].Append? ==> marks[j] == marks[s])
    ensures cells[j].file.Some? && cells[s].file.Some? && cells[j].file.value.block == cells[s].file.value.block
  {
    assert Matches(cells[j], marks[j], ops, kind) && Matches(cells[s], marks[s], ops, kind);
  }

  /** The operation takes out an entry before the last one of a list of the given length. */
  predicate DropsEarlier(entries: seq<Entry>, op: Op, s: nat, kind: string -> ImageType) {
    && |entries| == s + 1 && |Apply(entries, op, kind)| == s
    && match op
       case RemoveFile(k) => k < s
       case FillIn(k, _, _) => k < s
       case _ => false
  }

  /** It did so at some time, and the list has not been as long since. */
  ghost predicate LeftBehind(ops: seq<Op>, j: nat, i: nat, s: nat, kind: string -> ImageType) {
    && j < i <= |ops| && DropsEarlier(Before(ops, j, kind), ops[j], s, kind)
    && forall x | j < x <= i :: |Before(ops, x, kind)| <= s
  }

  /** A slot behind the list before and after an operation stays as it is. */
  lemma Untouched(marks: Marks, m: Memory, time: nat, op: Op, s: nat, kind: string -> ImageType)
    requires m.Shaped() && |marks| == DC_MAX_SIZE && m.count <= s < DC_MAX_SIZE && StepMem(m, op, kind).count <= s
    ensures NextMarks(marks, m, time, op, kind)[s] == marks[s]
  {
    match op
    case RemoveFile(k) =>
      if 0 <= k < m.count {
        ClosedAt(marks[k := None], k, m.count, s);
      }
    case FillIn(k, _, _) =>
      if 0 <= k < m.count {
        ClosedAt(marks[k := None], k, m.count, s);
      }
    case _ =>
  }

  /** The operation that takes the list down to a length leaves its last entry in the slot, or clears it. */
  lemma JustLeft(marks: Marks, m: Memory, time: nat, op: Op, s: nat, kind: string -> ImageType)
    requires m.Shaped() && |marks| == DC_MAX_SIZE && s < m.count && StepMem(m, op, kind).count <= s
    requires StepMem(m, op, kind).count == |Apply(m.Entries(), op, kind)|
    ensures NextMarks(marks, m, time, op, kind)[s] == if DropsEarlier(m.Entries(), op, s, kind) then marks[s] else None
  {
    match op
    case RemoveFile(k) =>
      if 0 <= k < m.count {
        ClosedAt(marks[k := None], k, m.count, s);
      }
    case FillIn(k, _, _) =>
      if 0 <= k < m.count {
        ClosedAt(marks[k := None], k, m.count, s);
      }
    case _ =>
  }

  lemma SlotNext(ops: seq<Op>, i: nat, s: nat, kind: string -> ImageType)
    requires i < |ops| && Safe(ops, kind) && |Before(ops, i + 1, kind)| <= s < DC_MAX_SIZE
    ensures MarksAt(ops, i + 1, kind)[s]
         == if |Before(ops, i, kind)| <= s || DropsEarlier(Before(ops, i, kind), ops[i], s, kind)
            then MarksAt(ops, i, kind)[s] else None
  {
    var m, marks, op := Mem(ops, i, kind), MarksAt(ops, i, kind), ops[i];
    MemIsRun(ops, i, kind);
    assert Defined(Before(ops, i, kind), op);
    StepEntries(m, op, kind);
    BeforeNext(ops, i, kind);
    if m.count <= s {
      Untouched(marks, m, i, op, s, kind);
    } else {
      JustLeft(marks, m, i, op, s, kind);
    }
  }

  lemma SlotSame(ops: seq<Op>, j: nat, x: nat, i: nat, s: nat, kind: string -> ImageType)
    requires Safe(ops, kind) && s < DC_MAX_SIZE && LeftBehind(ops, j, i, s, kind) && j <= x < i
    ensures MarksAt(ops, x + 1, kind)[s] == MarksAt(ops, x, kind)[s]
  {
    assert |Before(ops, x + 1, kind)| <= s && (x > j ==> |Before(ops, x, kind)| <= s);
    SlotNext(ops, x, s, kind);
  }

  lemma {:induction false} SameThroughout<T>(h: seq<T>, j: nat, i: nat)
    requires j <= i < |h| && forall x | j <= x < i :: h[x] == h[x + 1]
    ensures h[i] == h[j]
  {
    if j < i {
      SameThroughout(h, j, i - 1);
    }
  }

  /** What was left behind stays. */
  lemma Stays(ops: seq<Op>, j: nat, i: nat, s: nat, kind: string -> ImageType)
    requires Safe(ops, kind) && s < DC_MAX_SIZE && LeftBehind(ops, j, i, s, kind)
    ensures MarksAt(ops, i, kind)[s] == MarksAt(ops, j, kind)[s]
  {
    var h := seq(i + 1, x requires 0 <= x <= i => MarksAt(ops, x, kind)[s]);
    forall x: nat | j <= x < i
      ensures h[x] == h[x + 1]
    {
      SlotSame(ops, j, x, i, s, kind);
    }
    SameThroughout(h, j, i);
  }

  /** What lies behind the list was left behind. */
  lemma {:induction false} Comes(ops: seq<Op>, i: nat, s: nat, kind: string -> ImageType) returns (j: nat)
    requires i <= |ops| && Safe(ops, kind) && |Before(ops, i, kind)| <= s < DC_MAX_SIZE
    requires MarksAt(ops, i, kind)[s].Some?
    ensures LeftBehind(ops, j, i, s, kind)
  {
    assert i > 0;
    SlotNext(ops, i - 1, s, kind);
    if |Before(ops, i - 1, kind)| <= s {
      j := Comes(ops, i - 1, s, kind);
      BehindLater(ops, j, i, s, kind);
    } else {
      j := i - 1;
      BehindFirst(ops, j, s, kind);
    }
  }

  lemma BehindFirst(ops: seq<Op>, j: nat, s: nat, kind: string -> ImageType)
    requires j < |ops| && DropsEarlier(Before(ops, j, kind), ops[j], s, kind) && |Before(ops, j + 1, kind)| <= s
    ensures LeftBehind(ops, j, j + 1, s, kind)
  {
  }

  lemma BehindLater(ops: seq<Op>, j: nat, i: nat, s: nat, kind: string -> ImageType)
    requires 0 < i <= |ops| && LeftBehind(ops, j, i - 1, s, kind) && |Before(ops, i, kind)| <= s
    ensures LeftBehind(ops, j, i, s, kind)
  {
  }

  /** At some time an earlier entry was taken out, and the entry then last, which has a file, has been freed since. */
  ghost predicate FreedBehind(ops: seq<Op>, j: nat, s: nat, kind: string -> ImageType) {
    && LeftBehind(ops, j, |ops|, s, kind)
    && var b := BirthsAt(ops, j, kind)[s];
       b < |ops| && !ops[b].Append? && b !in Births(ops, kind)
  }

  /**
   After every run, a slot behind the list dangles exactly if an entry before
   the last one was taken out when the list was just longer than the slot, the
   list has not been as long since, and the entry then last is no longer listed.
   */
  lemma DanglesIff(ops: seq<Op>, s: nat, kind: string -> ImageType)
    requires Safe(ops, kind) && |Run([], ops, kind)| <= s < DC_MAX_SIZE
    ensures Mem(ops, |ops|, kind).Selected(s).Dangling? <==> exists j: nat :: FreedBehind(ops, j, s, kind)
  {
    assert ops[..|ops|] == ops;
    DanglesByMark(ops, s, kind);
    var mark := MarksAt(ops, |ops|, kind)[s];
    if mark.Some? {
      var j := Comes(ops, |ops|, s, kind);
      LeftMark(ops, j, s, kind);
      assert mark.value !in Births(ops, kind) ==> FreedBehind(ops, j, s, kind);
    }
    if j: nat :| FreedBehind(ops, j, s, kind) {
      LeftMark(ops, j, s, kind);
    }
  }

  lemma LeftMark(ops: seq<Op>, j: nat, s: nat, kind: string -> ImageType)
    requires Safe(ops, kind) && s < DC_MAX_SIZE && LeftBehind(ops, j, |ops|, s, kind)
    ensures var b := BirthsAt(ops, j, kind)[s];
      b < |ops| && MarksAt(ops, |ops|, kind)[s] == if ops[b].Append? then None else Some(b)
  {
    InListAt(ops, j, kind);
    Stays(ops, j, |ops|, s, kind);
  }

  /** Three additions, then the first entry is taken out, then what was the last one. */
  const REMOVALS: seq<Op> :=
    [AddFile("a", "A"), AddFile("b", "B"), AddFile("c", "C"), RemoveFile(0), RemoveFile(1)]

  lemma AddsFile(m: Memory, file: string, title: string, kind: string -> ImageType)
    requires m.Shaped() && m.count < DC_MAX_SIZE && file != "" && !Lists(m.Entries(), file)
    requires AllFiles(m.Entries()) && AllLabelled(m.Entries()) && title != ""
    ensures var r := StepMem(m, AddFile(file, title), kind);
      && r.count == m.count + 1 && r.cells[m.count].file.Some? && AllFiles(r.Entries()) && AllLabelled(r.Entries())
      && r.Entries() == m.Entries() + [Entry(Some(file), Stored(title), kind(file))]
  {
    PutNewEntries(m, file, Stored(title), kind);
  }

  /** The additions, one after the other. */
  lemma Added(i: nat, kind: string -> ImageType)
    requires i <= 3
    ensures var m := Mem(REMOVALS, i, kind);
      && m.count == i && AllFiles(m.Entries()) && AllLabelled(m.Entries())
      && (i == 3 ==> m.cells[2].file.Some?)
      && forall e | e in m.Entries() :: i < 3 ==> e.file != Some(REMOVALS[i].file)
  {
    EmptyValid();
    if i > 0 {
      AddsFile(EMPTY, "a", "A", kind);
    }
    if i > 1 {
      AddsFile(Mem(REMOVALS, 1, kind), "b", "B", kind);
    }
    if i > 2 {
      AddsFile(Mem(REMOVALS, 2, kind), "c", "C", kind);
    }
  }

  /** Taking out the first of three entries, then what was the last, frees what the third slot still points to. */
  lemma TwoRemovals(m: Memory)
    requires m.Shaped() && m.count == 3 && m.cells[2].file.Some?
    ensures var r := Removed(Removed(m, 0), 1); r.count == 1 && r.Selected(2) == Dangling
  {
    var once := Removed(m, 0);
    ClosedAt(m.cells[0 := NULL], 0, 3, 1);
    ClosedAt(m.cells[0 := NULL], 0, 3, 2);
    ClosedAt(once.cells[1 := NULL], 1, 2, 2);
  }

  /** After them the third slot dangles. */
  lemma RemovalsDangle(kind: string -> ImageType)
    ensures Mem(REMOVALS, 5, kind).count == 1 && Mem(REMOVALS, 5, kind).Selected(2) == Dangling
  {
    Added(3, kind);
    var m := Mem(REMOVALS, 3, kind);
    TwoRemovals(m);
    assert Mem(REMOVALS, 4, kind) == Removed(m, 0);
  }
}
