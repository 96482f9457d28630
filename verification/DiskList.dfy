/**
 The list of disk images as one ordered list of entries, apart from the arrays
 that store it: what each operation does to the list, and what every run keeps.
 */
module DiskList {
  import opened Basics

  const DC_MAX_SIZE: nat := 20

  datatype ImageType = NoImage | Floppy | CD | HD | WHDLoad | Archive | Unknown

  /** An entry; one made for the frontend to fill in later has no file yet. */
  datatype Entry = Entry(file: Option<string>, title: Option<string>, kind: ImageType)

  const BLANK := Entry(None, None, NoImage)

  predicate Lists(entries: seq<Entry>, file: string) {
    exists i | 0 <= i < |entries| :: entries[i].file == Some(file)
  }

  predicate AllFiles(entries: seq<Entry>) { forall i | 0 <= i < |entries| :: entries[i].file.Some? }

  /** An empty label is stored as none. */
  function Stored(title: string): Option<string> { if title == "" then None else Some(title) }

  /** Adding a file at the end, if there is room. */
  function AddAlways(entries: seq<Entry>, file: string, title: string, kind: string -> ImageType): seq<Entry> {
    if file == "" || |entries| >= DC_MAX_SIZE then entries
    else entries + [Entry(Some(file), Stored(title), kind(file))]
  }

  /** Adding a file that is not listed yet. */
  function Add(entries: seq<Entry>, file: string, title: string, kind: string -> ImageType): seq<Entry> {
    if Lists(entries, file) then entries else AddAlways(entries, file, title, kind)
  }

  function Without(entries: seq<Entry>, i: int): seq<Entry> {
    if 0 <= i < |entries| then entries[..i] + entries[i + 1..] else entries
  }

  /** Appending an entry for the frontend to fill in; the guard lets one more in than fits. */
  function AddBlank(entries: seq<Entry>): seq<Entry> {
    if |entries| <= DC_MAX_SIZE then entries + [BLANK] else entries
  }

  /** The entries that filling one in compares with: it is cleared first, and the last one is left out. */
  function Compared(entries: seq<Entry>, k: nat): seq<Entry>
    requires k < |entries|
  {
    entries[k := BLANK][..|entries| - 1]
  }

  /** Filling in an entry, or dropping it if its file is listed already. */
  function Fill(entries: seq<Entry>, k: int, file: string, title: string, kind: string -> ImageType): seq<Entry> {
    if !(0 <= k < |entries|) then entries
    else if Lists(Compared(entries, k), file) then Without(entries, k)
    else entries[k := Entry(Some(file), Some(title), kind(file))]
  }

  // ----- runs -----

  datatype Op =
    | AddFile(file: string, title: string)
    | RemoveFile(index: int)
    | Reset
    | Append
    | FillIn(index: int, file: string, title: string)

  function Apply(entries: seq<Entry>, op: Op, kind: string -> ImageType): seq<Entry> {
    match op
    case AddFile(file, title) => Add(entries, file, title, kind)
    case RemoveFile(index) => Without(entries, index)
    case Reset => []
    case Append => AddBlank(entries)
    case FillIn(index, file, title) => Fill(entries, index, file, title, kind)
  }

  /** A scan for a file compares an entry that has none before it finds the file. */
  predicate MeetsNull(entries: seq<Entry>, file: string) {
    exists i | 0 <= i < |entries| :: entries[i].file.None? && forall j | 0 <= j < i :: entries[j].file != Some(file)
  }

  /** The operation compares no null pointer and stays inside the arrays. */
  predicate Defined(entries: seq<Entry>, op: Op) {
    match op
    case AddFile(file, _) => file == "" || !MeetsNull(entries, file)
    case Append => |entries| != DC_MAX_SIZE
    case FillIn(k, file, _) => 0 <= k < |entries| ==> !MeetsNull(Compared(entries, k), file)
    case _ => true
  }

  function Run(entries: seq<Entry>, ops: seq<Op>, kind: string -> ImageType): seq<Entry>
    decreases |ops|
  {
    if ops == [] then entries
    else Apply(Run(entries, ops[..|ops| - 1], kind), ops[|ops| - 1], kind)
  }

  /** The list before an operation of a run from the empty list. */
  function Before(ops: seq<Op>, i: nat, kind: string -> ImageType): seq<Entry>
    requires i <= |ops|
  {
    Run([], ops[..i], kind)
  }

  lemma BeforeNext(ops: seq<Op>, i: nat, kind: string -> ImageType)
    requires i < |ops|
    ensures Before(ops, i + 1, kind) == Apply(Before(ops, i, kind), ops[i], kind)
  {
    assert ops[..i + 1][..i] == ops[..i];
  }

  /** Every operation of the run is defined where it is applied. */
  ghost predicate Safe(ops: seq<Op>, kind: string -> ImageType) {
    forall i | 0 <= i < |ops| :: Defined(Before(ops, i, kind), ops[i])
  }

  lemma {:induction false} RunAppend(entries: seq<Entry>, a: seq<Op>, b: seq<Op>, kind: string -> ImageType)
    ensures Run(entries, a + b, kind) == Run(Run(entries, a, kind), b, kind)
    decreases |b|
  {
    if b == [] {
      assert a + b == a;
    } else {
      assert (a + b)[..|a + b| - 1] == a + b[..|b| - 1];
      RunAppend(entries, a, b[..|b| - 1], kind);
    }
  }

  /** The numbers of the operations that made the entries, after one more operation. */
  function NextBirths(entries: seq<Entry>, births: seq<nat>, time: nat, op: Op, kind: string -> ImageType): seq<nat>
    requires |births| == |entries|
    ensures |NextBirths(entries, births, time, op, kind)| == |Apply(entries, op, kind)|
  {
    match op
    case AddFile(_, _) => if |Apply(entries, op, kind)| > |entries| then births + [time] else births
    case RemoveFile(i) => if 0 <= i < |births| then births[..i] + births[i + 1..] else births
    case Reset => []
    case Append => if |Apply(entries, op, kind)| > |entries| then births + [time] else births
    case FillIn(i, _, _) =>
      if !(0 <= i < |births|) then births
      else if |Apply(entries, op, kind)| < |entries| then births[..i] + births[i + 1..]
      else births[i := time]
  }

  /** For each entry of a run from the empty list, the number of the operation that added it. */
  function Births(ops: seq<Op>, kind: string -> ImageType): (births: seq<nat>)
    ensures |births| == |Run([], ops, kind)|
    decreases |ops|
  {
    if ops == [] then []
    else
      var earlier := ops[..|ops| - 1];
      NextBirths(Run([], earlier, kind), Births(earlier, kind), |earlier|, ops[|ops| - 1], kind)
  }

  /** The operation made the entry. */
  predicate BornBy(e: Entry, ops: seq<Op>, birth: nat) {
    birth < |ops| &&
    match ops[birth]
    case AddFile(file, title) => file != "" && e.file == Some(file) && e.title == Stored(title)
    case Append => e == BLANK
    case FillIn(_, file, title) => e.file == Some(file) && e.title == Some(title)
    case _ => false
  }

  /** The entries stand in the order in which the operations made them. */
  ghost predicate InOrder(entries: seq<Entry>, births: seq<nat>, ops: seq<Op>) {
    && |births| == |entries|
    && (forall i, j | 0 <= i < j < |births| :: births[i] < births[j])
    && forall i | 0 <= i < |births| :: BornBy(entries[i], ops, births[i])
  }

  /** Distinct files, each with its own type, and no more entries than fit. */
  ghost predicate Sound(entries: seq<Entry>, kind: string -> ImageType) {
    && |entries| <= DC_MAX_SIZE
    && (forall i | 0 <= i < |entries| ::
          if entries[i].file.Some? then entries[i].kind == kind(entries[i].file.value) else entries[i] == BLANK)
    && forall i, j | 0 <= i < j < |entries| && entries[i].file.Some? :: entries[i].file != entries[j].file
  }

  /** A list that grows at its end by an entry with a file of its own, or a blank one. */
  lemma GrowKeepsSound(entries: seq<Entry>, e: Entry, kind: string -> ImageType)
    requires Sound(entries, kind) && |entries| < DC_MAX_SIZE
    requires if e.file.Some? then e.kind == kind(e.file.value) && !Lists(entries, e.file.value) else e == BLANK
    ensures Sound(entries + [e], kind)
  {
    assert forall i | 0 <= i < |entries| && entries[i].file.Some? :: entries[i].file != e.file;
  }

  lemma GrowKeepsOrder(entries: seq<Entry>, births: seq<nat>, ops: seq<Op>, last: Op, e: Entry)
    requires InOrder(entries, births, ops) && BornBy(e, ops + [last], |ops|)
    ensures InOrder(entries + [e], births + [|ops|], ops + [last])
  {
    OrderExtends(entries, births, ops, last);
    assert forall i | 0 <= i < |births| :: BornBy(entries[i], ops, births[i]) && births[i] < |ops|;
  }

  /** The entries so far keep their births. */
  lemma OrderExtends(entries: seq<Entry>, births: seq<nat>, ops: seq<Op>, last: Op)
    requires InOrder(entries, births, ops)
    ensures InOrder(entries, births, ops + [last])
  {
    assert forall i | 0 <= i < |births| :: (ops + [last])[births[i]] == ops[births[i]];
  }

  lemma DropKeepsSound(entries: seq<Entry>, k: nat, kind: string -> ImageType)
    requires Sound(entries, kind) && k < |entries|
    ensures Sound(entries[..k] + entries[k + 1..], kind)
  {
  }

  lemma DropKeepsOrder(entries: seq<Entry>, births: seq<nat>, ops: seq<Op>, k: nat)
    requires InOrder(entries, births, ops) && k < |entries|
    ensures InOrder(entries[..k] + entries[k + 1..], births[..k] + births[k + 1..], ops)
  {
    var left, ages := entries[..k] + entries[k + 1..], births[..k] + births[k + 1..];
    forall i | 0 <= i < |ages|
      ensures BornBy(left[i], ops, ages[i])
    {
      var at := if i < k then i else i + 1;
      assert left[i] == entries[at] && ages[i] == births[at];
    }
  }

  /** A defined filling that does not drop its entry fills the last one. */
  lemma FillsLast(entries: seq<Entry>, k: nat, file: string)
    requires k < |entries| && !MeetsNull(Compared(entries, k), file) && !Lists(Compared(entries, k), file)
    ensures k == |entries| - 1 && Compared(entries, k) == entries[..k]
  {
    var cleared := entries[k := BLANK];
    assert cleared[k].file.None?;
    if k < |entries| - 1 {
      assert false;
    }
  }

  lemma FillKeepsSound(entries: seq<Entry>, k: nat, file: string, title: string, kind: string -> ImageType)
    requires Sound(entries, kind) && k < |entries| && Defined(entries, FillIn(k, file, title))
    ensures Sound(Fill(entries, k, file, title, kind), kind)
  {
    DropKeepsSound(entries, k, kind);
    if !Lists(Compared(entries, k), file) {
      FillsLast(entries, k, file);
      assert entries[..k] + entries[k + 1..] == entries[..k];
      var e := Entry(Some(file), Some(title), kind(file));
      GrowKeepsSound(entries[..k], e, kind);
      assert entries[k := e] == entries[..k] + [e];
    }
  }

  lemma FillKeepsOrder(entries: seq<Entry>, births: seq<nat>, ops: seq<Op>, k: nat, file: string, title: string,
                       kind: string -> ImageType)
    requires InOrder(entries, births, ops) && k < |entries| && Defined(entries, FillIn(k, file, title))
    ensures var last := FillIn(k, file, title);
      InOrder(Apply(entries, last, kind), NextBirths(entries, births, |ops|, last, kind), ops + [last])
  {
    var last := FillIn(k, file, title);
    DropKeepsOrder(entries, births, ops, k);
    var left, ages := entries[..k] + entries[k + 1..], births[..k] + births[k + 1..];
    if Lists(Compared(entries, k), file) {
      OrderExtends(left, ages, ops, last);
    } else {
      FillsLast(entries, k, file);
      assert left == entries[..k] && ages == births[..k];
      var e := Entry(Some(file), Some(title), kind(file));
      GrowKeepsOrder(left, ages, ops, last, e);
      assert entries[k := e] == left + [e] && births[k := |ops|] == ages + [|ops|];
    }
  }

  lemma StepKeepsSound(entries: seq<Entry>, last: Op, kind: string -> ImageType)
    requires Sound(entries, kind) && Defined(entries, last)
    ensures Sound(Apply(entries, last, kind), kind)
  {
    match last
    case AddFile(file, title) =>
      if |Apply(entries, last, kind)| > |entries| {
        GrowKeepsSound(entries, Entry(Some(file), Stored(title), kind(file)), kind);
      }
    case RemoveFile(k) =>
      if 0 <= k < |entries| {
        DropKeepsSound(entries, k, kind);
      }
    case Reset =>
    case Append =>
      GrowKeepsSound(entries, BLANK, kind);
    case FillIn(k, file, title) =>
      if 0 <= k < |entries| {
        FillKeepsSound(entries, k, file, title, kind);
      }
  }

  lemma AddKeepsOrder(entries: seq<Entry>, births: seq<nat>, ops: seq<Op>, file: string, title: string,
                      kind: string -> ImageType)
    requires InOrder(entries, births, ops)
    ensures var last := AddFile(file, title);
      InOrder(Apply(entries, last, kind), NextBirths(entries, births, |ops|, last, kind), ops + [last])
  {
    var last := AddFile(file, title);
    if |Add(entries, file, title, kind)| > |entries| {
      GrowKeepsOrder(entries, births, ops, last, Entry(Some(file), Stored(title), kind(file)));
    } else {
      OrderExtends(entries, births, ops, last);
    }
  }

  lemma StepKeepsOrder(entries: seq<Entry>, births: seq<nat>, ops: seq<Op>, last: Op, kind: string -> ImageType)
    requires InOrder(entries, births, ops) && Defined(entries, last)
    ensures InOrder(Apply(entries, last, kind), NextBirths(entries, births, |ops|, last, kind), ops + [last])
  {
    match last
    case AddFile(file, title) => AddKeepsOrder(entries, births, ops, file, title, kind);
    case RemoveFile(k) =>
      OrderExtends(entries, births, ops, last);
      if 0 <= k < |entries| {
        DropKeepsOrder(entries, births, ops + [last], k);
      }
    case Reset =>
    case Append =>
      if |entries| <= DC_MAX_SIZE {
        GrowKeepsOrder(entries, births, ops, last, BLANK);
      } else {
        OrderExtends(entries, births, ops, last);
      }
    case FillIn(k, file, title) =>
      if 0 <= k < |entries| {
        FillKeepsOrder(entries, births, ops, k, file, title, kind);
      } else {
        OrderExtends(entries, births, ops, last);
      }
  }

  /**
   After every run whose operations are defined where they are applied, the
   list is sound, and its entries stand in the order in which they were made.
   */
  lemma {:induction false} RunsKeepOrder(ops: seq<Op>, kind: string -> ImageType)
    requires Safe(ops, kind)
    ensures Sound(Run([], ops, kind), kind)
    ensures InOrder(Run([], ops, kind), Births(ops, kind), ops)
    decreases |ops|
  {
    if ops != [] {
      var earlier, last := ops[..|ops| - 1], ops[|ops| - 1];
      assert ops == earlier + [last];
      SafeEarlier(ops, kind);
      RunsKeepOrder(earlier, kind);
      StepKeepsSound(Run([], earlier, kind), last, kind);
      StepKeepsOrder(Run([], earlier, kind), Births(earlier, kind), earlier, last, kind);
    }
  }

  lemma SafeEarlier(ops: seq<Op>, kind: string -> ImageType)
    requires Safe(ops, kind) && ops != []
    ensures Safe(ops[..|ops| - 1], kind) && Defined(Run([], ops[..|ops| - 1], kind), ops[|ops| - 1])
  {
    var n := |ops| - 1;
    forall i | 0 <= i < n
      ensures Defined(Before(ops[..n], i, kind), ops[..n][i])
    {
      assert ops[..n][..i] == ops[..i];
      assert Defined(Before(ops, i, kind), ops[i]);
    }
    assert Defined(Before(ops, n, kind), ops[n]);
  }

  // ----- what keeps a run safe -----

  /**
   A frontend that appends only where there is room, at once fills in what it
   has appended, and fills in nothing but the last entry.
   */
  ghost predicate Disciplined(ops: seq<Op>, kind: string -> ImageType) {
    forall i | 0 <= i < |ops| :: InTurn(Before(ops, i, kind), ops, i)
  }

  predicate InTurn(entries: seq<Entry>, ops: seq<Op>, i: nat)
    requires i < |ops|
  {
    match ops[i]
    case Append =>
      && |entries| < DC_MAX_SIZE
      && i + 1 < |ops| && ops[i + 1].FillIn? && ops[i + 1].index == |entries|
    case FillIn(k, _, _) => k < 0 || k >= |entries| - 1
    case _ => true
  }

  /** All entries have files, but for one just appended, which is filled in next. */
  predicate Tidy(entries: seq<Entry>, ops: seq<Op>, i: nat) {
    || AllFiles(entries)
    || (i < |ops| && ops[i].FillIn? && ops[i].index == |entries| - 1 >= 0 && AllFiles(entries[..|entries| - 1]))
  }

  lemma FillTidies(entries: seq<Entry>, file: string, title: string, kind: string -> ImageType)
    requires entries != [] && AllFiles(entries[..|entries| - 1])
    ensures AllFiles(Fill(entries, |entries| - 1, file, title, kind))
    ensures Defined(entries, FillIn(|entries| - 1, file, title))
  {
    var k := |entries| - 1;
    assert Compared(entries, k) == entries[..k];
    assert Without(entries, k) == entries[..k];
  }

  lemma StepTidies(entries: seq<Entry>, op: Op, kind: string -> ImageType)
    requires AllFiles(entries) && !op.Append?
    requires op.FillIn? ==> op.index < 0 || op.index >= |entries| - 1
    ensures AllFiles(Apply(entries, op, kind)) && Defined(entries, op)
  {
    if op.FillIn? && op.index == |entries| - 1 >= 0 {
      FillTidies(entries, op.file, op.title, kind);
    }
  }

  lemma TidyStep(entries: seq<Entry>, ops: seq<Op>, i: nat, kind: string -> ImageType)
    requires i < |ops| && InTurn(entries, ops, i) && Tidy(entries, ops, i)
    ensures Tidy(Apply(entries, ops[i], kind), ops, i + 1) && Defined(entries, ops[i])
  {
    var op := ops[i];
    if !AllFiles(entries) {
      FillTidies(entries, op.file, op.title, kind);
    } else if op.Append? {
      assert (entries + [BLANK])[..|entries|] == entries;
    } else {
      StepTidies(entries, op, kind);
    }
  }

  lemma {:induction false} DisciplinedTidy(ops: seq<Op>, i: nat, kind: string -> ImageType)
    requires Disciplined(ops, kind) && i <= |ops|
    ensures Tidy(Before(ops, i, kind), ops, i)
  {
    if i > 0 {
      DisciplinedTidy(ops, i - 1, kind);
      BeforeNext(ops, i - 1, kind);
      TidyStep(Before(ops, i - 1, kind), ops, i - 1, kind);
    }
  }

  /** Such a frontend never meets a null pointer nor the end of the arrays, in particular one that never appends. */
  lemma DisciplinedSafe(ops: seq<Op>, kind: string -> ImageType)
    requires Disciplined(ops, kind)
    ensures Safe(ops, kind)
  {
    forall i | 0 <= i < |ops|
      ensures Defined(Before(ops, i, kind), ops[i])
    {
      DisciplinedTidy(ops, i, kind);
      TidyStep(Before(ops, i, kind), ops, i, kind);
    }
  }

  /** Filling in an entry before the last one compares its own cleared name, unless the file is listed before it. */
  lemma MiddleFillIff(entries: seq<Entry>, k: nat, file: string, title: string)
    requires AllFiles(entries) && k < |entries| - 1
    ensures Defined(entries, FillIn(k, file, title)) <==> Lists(entries[..k], file)
  {
    var compared := Compared(entries, k);
    assert compared[k].file.None? && forall i | 0 <= i < |compared| && i != k :: compared[i] == entries[i];
    if Lists(entries[..k], file) {
      var i :| 0 <= i < k && entries[..k][i].file == Some(file);
      assert compared[i].file == Some(file);
    } else {
      assert forall j | 0 <= j < k :: entries[..k][j].file == compared[j].file;
    }
  }

  /** An addition meets a null pointer exactly at an entry that was appended and not filled in. */
  lemma AddMeetsNullIff(ops: seq<Op>, file: string, title: string, kind: string -> ImageType)
    requires Safe(ops, kind) && file != ""
    ensures var entries, births := Run([], ops, kind), Births(ops, kind);
      && (forall i | 0 <= i < |births| :: births[i] < |ops|)
      && (Defined(entries, AddFile(file, title)) <==>
            forall i | 0 <= i < |births| && ops[births[i]].Append? :: Lists(entries[..i], file))
  {
    RunsKeepOrder(ops, kind);
    var entries, births := Run([], ops, kind), Births(ops, kind);
    forall i | 0 <= i < |births|
      ensures births[i] < |ops| && (ops[births[i]].Append? <==> entries[i].file.None?)
      ensures Lists(entries[..i], file) <==> !forall j | 0 <= j < i :: entries[j].file != Some(file)
    {
      assert BornBy(entries[i], ops, births[i]);
      assert forall j | 0 <= j < i :: entries[..i][j] == entries[j];
    }
  }

  /** An entry that was appended and not filled in stops the next addition. */
  lemma AppendThenAdd(kind: string -> ImageType)
    ensures !Safe([Append, AddFile("x.adf", "")], kind)
  {
    var ops := [Append, AddFile("x.adf", "")];
    assert ops[..1] == [Append] && [Append][..0] == [];
    assert Before(ops, 1, kind) == [BLANK];
    assert [BLANK][0].file.None?;
    assert !Defined(Before(ops, 1, kind), ops[1]);
  }

  /** The only way past the end of the arrays is to append to a full list. */
  lemma StaysInArraysIff(ops: seq<Op>, kind: string -> ImageType)
    ensures (forall i | 0 <= i <= |ops| :: |Before(ops, i, kind)| <= 20)
       <==> (forall i | 0 <= i < |ops| :: !(ops[i].Append? && |Before(ops, i, kind)| == 20))
  {
    if k: nat :| k < |ops| && ops[k].Append? && |Before(ops, k, kind)| == DC_MAX_SIZE {
      BeforeNext(ops, k, kind);
      assert |Before(ops, k + 1, kind)| > DC_MAX_SIZE;
    } else {
      forall i | 0 <= i <= |ops|
        ensures |Before(ops, i, kind)| <= DC_MAX_SIZE
      {
        Bounded(ops, i, kind);
      }
    }
  }

  lemma {:induction false} Bounded(ops: seq<Op>, i: nat, kind: string -> ImageType)
    requires i <= |ops|
    requires forall k | 0 <= k < |ops| :: !(ops[k].Append? && |Before(ops, k, kind)| == DC_MAX_SIZE)
    ensures |Before(ops, i, kind)| <= DC_MAX_SIZE
  {
    if i > 0 {
      Bounded(ops, i - 1, kind);
      BeforeNext(ops, i - 1, kind);
    }
  }

  function Name(n: nat): (name: string)
    ensures |name| == n
  {
    if n == 0 then "" else Name(n - 1) + "a"
  }

  /** A number of additions of different files. */
  function Fresh(n: nat): (ops: seq<Op>)
    ensures |ops| == n
  {
    if n == 0 then [] else Fresh(n - 1) + [AddFile(Name(n), "")]
  }

  lemma {:induction false} FreshAdds(n: nat, kind: string -> ImageType)
    requires n <= DC_MAX_SIZE
    ensures |Run([], Fresh(n), kind)| == n && AllShort(Run([], Fresh(n), kind), n)
  {
    if n > 0 {
      FreshAdds(n - 1, kind);
      assert Fresh(n)[..n - 1] == Fresh(n - 1) && Fresh(n)[n - 1] == AddFile(Name(n), "");
      ShortGrows(Run([], Fresh(n - 1), kind), n - 1, kind);
    }
  }

  lemma ShortGrows(entries: seq<Entry>, n: nat, kind: string -> ImageType)
    requires AllShort(entries, n) && |entries| == n < DC_MAX_SIZE
    ensures var more := Apply(entries, AddFile(Name(n + 1), ""), kind); |more| == n + 1 && AllShort(more, n + 1)
  {
    ShortUnlisted(entries, n, Name(n + 1));
  }

  predicate AllShort(entries: seq<Entry>, n: nat) {
    forall i | 0 <= i < |entries| :: entries[i].file.Some? && |entries[i].file.value| <= n
  }

  lemma ShortUnlisted(entries: seq<Entry>, n: nat, file: string)
    requires AllShort(entries, n) && |file| > n
    ensures !Lists(entries, file)
  {
  }

  /** Twenty additions and one append: the run asks for a twenty-first slot. */
  lemma AppendOverruns(kind: string -> ImageType)
    ensures var ops := Fresh(20) + [Append];
      |ops| == 21 && |Before(ops, 20, kind)| == 20 && |Run([], ops, kind)| == 21
  {
    var ops := Fresh(DC_MAX_SIZE) + [Append];
    FreshAdds(DC_MAX_SIZE, kind);
    assert ops[..DC_MAX_SIZE] == Fresh(DC_MAX_SIZE);
    BeforeNext(ops, DC_MAX_SIZE, kind);
    assert ops[..DC_MAX_SIZE + 1] == ops;
  }

  // ----- playlists -----

  /**
   A playlist line by what it asks for: a save disk, or an image whose path is
   given once it has been resolved and found.
   */
  datatype Line = Command(text: string) | SaveDisk | Remark | Image(path: Option<string>, title: string)

  function Decimal(n: nat): string {
    if n < 10 then [('0' as int + n) as char] else Decimal(n / 10) + [('0' as int + n % 10) as char]
  }

  /** The number that digits stand for. */
  function Value(digits: string): nat {
    if digits == "" then 0
    else
      var d := digits[|digits| - 1] as int - '0' as int;
      10 * Value(digits[..|digits| - 1]) + if d < 0 then 0 else d
  }

  /** The digits of a number stand for it, and do not start with a zero unless it is zero. */
  lemma {:induction false} DecimalValue(n: nat)
    ensures Value(Decimal(n)) == n && Decimal(n) != "" && (Decimal(n)[0] == '0' <==> n == 0)
  {
    if n < 10 {
      assert Decimal(n)[..0] == "";
    } else {
      DecimalValue(n / 10);
      assert Decimal(n)[..|Decimal(n)| - 1] == Decimal(n / 10);
    }
  }

  function SaveDiskLabel(n: nat): string { "Save Disk " + Decimal(n) }

  /** The addition a line asks for, if any. */
  function LineAdditions(line: Line, saved: nat, savePath: nat -> Option<string>): seq<Op> {
    match line
    case SaveDisk =>
      if savePath(saved).Some? then [AddFile(savePath(saved).value, SaveDiskLabel(saved))] else []
    case Image(path, title) => if path.Some? then [AddFile(path.value, title)] else []
    case _ => []
  }

  /** The additions a playlist asks for; save disks are numbered as they are found or made. */
  function Additions(lines: seq<Line>, saved: nat, savePath: nat -> Option<string>): seq<Op>
    decreases |lines|
  {
    if lines == [] then []
    else
      var first := LineAdditions(lines[0], saved, savePath);
      first + Additions(lines[1..], if lines[0].SaveDisk? then saved + |first| else saved, savePath)
  }

  lemma AdditionsNext(lines: seq<Line>, i: nat, saved: nat, savePath: nat -> Option<string>)
    requires i < |lines|
    ensures var more := LineAdditions(lines[i], saved, savePath);
      Additions(lines[i..], saved, savePath)
        == more + Additions(lines[i + 1..], if lines[i].SaveDisk? then saved + |more| else saved, savePath)
  {
    assert lines[i..][1..] == lines[i + 1..];
  }

  /** One line more of a playlist. */
  lemma ParseStep(lines: seq<Line>, i: nat, saved: nat, savePath: nat -> Option<string>,
                  done: seq<Op>, kind: string -> ImageType)
    requires i < |lines|
    ensures var more := LineAdditions(lines[i], saved, savePath);
      && done + Additions(lines[i..], saved, savePath)
           == (done + more) + Additions(lines[i + 1..], if lines[i].SaveDisk? then saved + |more| else saved, savePath)
      && Run([], done + more, kind) == Run(Run([], done, kind), more, kind)
  {
    var more := LineAdditions(lines[i], saved, savePath);
    var next := if lines[i].SaveDisk? then saved + |more| else saved;
    AdditionsNext(lines, i, saved, savePath);
    RunAppend([], done, more, kind);
    Associate(done, more, Additions(lines[i + 1..], next, savePath));
  }

  lemma Associate(a: seq<Op>, b: seq<Op>, c: seq<Op>)
    ensures a + (b + c) == (a + b) + c
  {
  }

  /** The files of a list of additions, each at its first occurrence. */
  function FirstOccurrences(ops: seq<Op>): seq<string>
    decreases |ops|
  {
    if ops == [] then []
    else
      var earlier, last := FirstOccurrences(ops[..|ops| - 1]), ops[|ops| - 1];
      if last.AddFile? && last.file != "" && last.file !in earlier then earlier + [last.file] else earlier
  }

  /** Additions alone give the first twenty different files, in order of first occurrence. */
  lemma {:induction false} AdditionsGiveFirst(ops: seq<Op>, kind: string -> ImageType)
    requires forall i | 0 <= i < |ops| :: ops[i].AddFile?
    ensures var entries, files := Run([], ops, kind), FirstOccurrences(ops);
      && |entries| == (if |files| <= 20 then |files| else 20)
      && forall i | 0 <= i < |entries| :: entries[i].file == Some(files[i])
    decreases |ops|
  {
    if ops != [] {
      AdditionsGiveFirst(ops[..|ops| - 1], kind);
    }
  }

  lemma {:induction false} AdditionsOnlyAdd(lines: seq<Line>, saved: nat, savePath: nat -> Option<string>)
    ensures forall op | op in Additions(lines, saved, savePath) :: op.AddFile?
    decreases |lines|
  {
    if lines != [] {
      var first := LineAdditions(lines[0], saved, savePath);
      AdditionsOnlyAdd(lines[1..], if lines[0].SaveDisk? then saved + |first| else saved, savePath);
    }
  }

  /**
   A playlist gives the first twenty different files it asks for, in order of
   first occurrence, and reading it is a reset followed by ordinary additions.
   */
  lemma PlaylistGivesFirst(before: seq<Entry>, lines: seq<Line>, savePath: nat -> Option<string>, kind: string -> ImageType)
    ensures var adds := Additions(lines, 0, savePath);
      var entries, files := Run(before, [Reset] + adds, kind), FirstOccurrences(adds);
      && entries == Run([], adds, kind)
      && |entries| == (if |files| <= 20 then |files| else 20)
      && forall i | 0 <= i < |entries| :: entries[i].file == Some(files[i])
  {
    var adds := Additions(lines, 0, savePath);
    AdditionsOnlyAdd(lines, 0, savePath);
    AdditionsGiveFirst(adds, kind);
    RunAppend(before, [Reset], adds, kind);
    assert [Reset][..0] == [];
  }

  // ----- a playlist by its lines -----

  /** The save disks found or made for the first lines. */
  function SavedBefore(lines: seq<Line>, i: nat, savePath: nat -> Option<string>): nat
    requires i <= |lines|
  {
    if i == 0 then 0
    else
      var n := SavedBefore(lines, i - 1, savePath);
      if lines[i - 1].SaveDisk? && savePath(n).Some? then n + 1 else n
  }

  /** The file and label that a line asks for, if it does and they can be had. */
  function Request(lines: seq<Line>, i: nat, savePath: nat -> Option<string>): Option<(string, string)>
    requires i < |lines|
  {
    match lines[i]
    case Image(path, title) => if path.Some? && path.value != "" then Some((path.value, title)) else None
    case SaveDisk =>
      var n := SavedBefore(lines, i, savePath);
      if savePath(n).Some? && savePath(n).value != "" then Some((savePath(n).value, "Save Disk " + Decimal(n))) else None
    case _ => None
  }

  predicate AsksFor(lines: seq<Line>, i: nat, savePath: nat -> Option<string>, file: string) {
    i < |lines| && Request(lines, i, savePath).Some? && Request(lines, i, savePath).value.0 == file
  }

  /** The list after the first lines, and the line that each of its entries comes from. */
  function Parsed(lines: seq<Line>, i: nat, savePath: nat -> Option<string>, kind: string -> ImageType): seq<Entry>
    requires i <= |lines|
  {
    if i == 0 then []
    else
      var before, ask := Parsed(lines, i - 1, savePath, kind), Request(lines, i - 1, savePath);
      if ask.Some? then Add(before, ask.value.0, ask.value.1, kind) else before
  }

  function Origins(lines: seq<Line>, i: nat, savePath: nat -> Option<string>, kind: string -> ImageType): (r: seq<nat>)
    requires i <= |lines|
    ensures |r| == |Parsed(lines, i, savePath, kind)|
  {
    if i == 0 then []
    else
      var before := Origins(lines, i - 1, savePath, kind);
      if |Parsed(lines, i, savePath, kind)| > |before| then before + [i - 1] else before
  }

  /** The entry is what a line asks for, and no line before it asks for the same file. */
  ghost predicate ComesFrom(e: Entry, lines: seq<Line>, o: nat, savePath: nat -> Option<string>, kind: string -> ImageType) {
    && o < |lines| && Request(lines, o, savePath).Some?
    && var (file, title) := Request(lines, o, savePath).value;
       && e == Entry(Some(file), if title == "" then None else Some(title), kind(file))
       && forall j | 0 <= j < o :: !AsksFor(lines, j, savePath, file)
  }

  /** Every file asked for so far is listed, unless the list is full. */
  ghost predicate Answered(lines: seq<Line>, i: nat, savePath: nat -> Option<string>, entries: seq<Entry>) {
    i <= |lines| &&
    forall j | 0 <= j < i && Request(lines, j, savePath).Some? ::
      Lists(entries, Request(lines, j, savePath).value.0) || |entries| == DC_MAX_SIZE
  }

  ghost predicate Follows(lines: seq<Line>, i: nat, savePath: nat -> Option<string>, kind: string -> ImageType,
                          entries: seq<Entry>, origins: seq<nat>) {
    && |origins| == |entries| <= DC_MAX_SIZE && Answered(lines, i, savePath, entries)
    && (forall k | 0 <= k < |origins| :: origins[k] < i && ComesFrom(entries[k], lines, origins[k], savePath, kind))
    && forall k, m | 0 <= k < m < |origins| :: origins[k] < origins[m]
  }

  lemma {:induction false} ParsedFollows(lines: seq<Line>, i: nat, savePath: nat -> Option<string>, kind: string -> ImageType)
    requires i <= |lines|
    ensures Follows(lines, i, savePath, kind, Parsed(lines, i, savePath, kind), Origins(lines, i, savePath, kind))
  {
    if i > 0 {
      ParsedFollows(lines, i - 1, savePath, kind);
      var entries, origins := Parsed(lines, i - 1, savePath, kind), Origins(lines, i - 1, savePath, kind);
      var ask := Request(lines, i - 1, savePath);
      if ask.Some? {
        FollowsAsk(lines, i - 1, savePath, kind, entries, origins, ask.value.0, ask.value.1);
      } else {
        FollowsOther(lines, i - 1, savePath, kind, entries, origins);
      }
    }
  }

  lemma FollowsOther(lines: seq<Line>, i: nat, savePath: nat -> Option<string>, kind: string -> ImageType,
                     entries: seq<Entry>, origins: seq<nat>)
    requires i < |lines| && Follows(lines, i, savePath, kind, entries, origins) && Request(lines, i, savePath).None?
    ensures Follows(lines, i + 1, savePath, kind, entries, origins)
  {
  }

  lemma FollowsAsk(lines: seq<Line>, i: nat, savePath: nat -> Option<string>, kind: string -> ImageType,
                   entries: seq<Entry>, origins: seq<nat>, file: string, title: string)
    requires i < |lines| && Follows(lines, i, savePath, kind, entries, origins)
    requires Request(lines, i, savePath) == Some((file, title))
    ensures var after := Add(entries, file, title, kind);
      Follows(lines, i + 1, savePath, kind, after, if |after| > |entries| then origins + [i] else origins)
  {
    AnsweredNext(lines, i, savePath, kind, entries, file, title);
    if !Lists(entries, file) && |entries| < DC_MAX_SIZE {
      var e := Entry(Some(file), Stored(title), kind(file));
      assert ComesFrom(e, lines, i, savePath, kind) by {
        forall j | 0 <= j < i
          ensures !AsksFor(lines, j, savePath, file)
        {
          assert Request(lines, j, savePath).Some? ==> Lists(entries, Request(lines, j, savePath).value.0);
        }
      }
    }
  }

  lemma AddStillLists(entries: seq<Entry>, file: string, title: string, kind: string -> ImageType, f: string)
    requires Lists(entries, f)
    ensures Lists(Add(entries, file, title, kind), f)
  {
    var k :| 0 <= k < |entries| && entries[k].file == Some(f);
    assert Add(entries, file, title, kind)[k].file == Some(f);
  }

  lemma AnsweredNext(lines: seq<Line>, i: nat, savePath: nat -> Option<string>, kind: string -> ImageType,
                     entries: seq<Entry>, file: string, title: string)
    requires i < |lines| && Answered(lines, i, savePath, entries) && |entries| <= DC_MAX_SIZE
    requires Request(lines, i, savePath) == Some((file, title))
    ensures Answered(lines, i + 1, savePath, Add(entries, file, title, kind))
  {
    var after := Add(entries, file, title, kind);
    forall j | 0 <= j < i + 1 && Request(lines, j, savePath).Some?
      ensures Lists(after, Request(lines, j, savePath).value.0) || |after| == DC_MAX_SIZE
    {
      if j < i && Lists(entries, Request(lines, j, savePath).value.0) {
        AddStillLists(entries, file, title, kind, Request(lines, j, savePath).value.0);
      } else if j == i && |after| > |entries| {
        assert after[|entries|].file == Some(file);
      }
    }
  }

  /** The additions that the lines from one on ask for, applied to the list after the lines before it. */
  function Rest(lines: seq<Line>, i: nat, savePath: nat -> Option<string>, kind: string -> ImageType): seq<Entry>
    requires i <= |lines|
  {
    Run(Parsed(lines, i, savePath, kind), Additions(lines[i..], SavedBefore(lines, i, savePath), savePath), kind)
  }

  /** Reading one line more changes nothing of the end. */
  lemma {:induction false} RestStays(lines: seq<Line>, i: nat, savePath: nat -> Option<string>, kind: string -> ImageType)
    requires i <= |lines|
    ensures Rest(lines, i, savePath, kind) == Rest(lines, 0, savePath, kind)
  {
    if i > 0 {
      RestStays(lines, i - 1, savePath, kind);
      OneLine(lines, i - 1, savePath, kind);
    }
  }

  lemma NoLines(lines: seq<Line>, savePath: nat -> Option<string>, kind: string -> ImageType)
    ensures Rest(lines, |lines|, savePath, kind) == Parsed(lines, |lines|, savePath, kind)
  {
  }

  lemma OneLine(lines: seq<Line>, i: nat, savePath: nat -> Option<string>, kind: string -> ImageType)
    requires i < |lines|
    ensures Rest(lines, i, savePath, kind) == Rest(lines, i + 1, savePath, kind)
  {
    var saved := SavedBefore(lines, i, savePath);
    var more := LineAdditions(lines[i], saved, savePath);
    var rest := Additions(lines[i + 1..], SavedBefore(lines, i + 1, savePath), savePath);
    LineParsed(lines, i, savePath, kind);
    AdditionsNext(lines, i, saved, savePath);
    assert Additions(lines[i..], saved, savePath) == more + rest;
    RunAppend(Parsed(lines, i, savePath, kind), more, rest, kind);
  }

  lemma LineParsed(lines: seq<Line>, i: nat, savePath: nat -> Option<string>, kind: string -> ImageType)
    requires i < |lines|
    ensures var more := LineAdditions(lines[i], SavedBefore(lines, i, savePath), savePath);
      && Run(Parsed(lines, i, savePath, kind), more, kind) == Parsed(lines, i + 1, savePath, kind)
      && SavedBefore(lines, i + 1, savePath)
           == SavedBefore(lines, i, savePath) + if lines[i].SaveDisk? then |more| else 0
  {
    var more := LineAdditions(lines[i], SavedBefore(lines, i, savePath), savePath);
    if more != [] {
      assert more[..0] == [];
    }
  }

  lemma ParsedIsRun(lines: seq<Line>, savePath: nat -> Option<string>, kind: string -> ImageType)
    ensures Run([], Additions(lines, 0, savePath), kind) == Parsed(lines, |lines|, savePath, kind)
  {
    RestStays(lines, |lines|, savePath, kind);
    NoLines(lines, savePath, kind);
    assert lines[0..] == lines;
  }

  /**
   The list that a playlist gives, by its lines: every entry is the file, the
   label and the type that one line asks for, the first line to ask for that
   file; the entries are in the order of those lines; and every file asked for
   is listed unless the list is full.
   */
  lemma PlaylistByLines(lines: seq<Line>, savePath: nat -> Option<string>, kind: string -> ImageType)
    ensures Follows(lines, |lines|, savePath, kind, Run([], Additions(lines, 0, savePath), kind),
                    Origins(lines, |lines|, savePath, kind))
  {
    ParsedIsRun(lines, savePath, kind);
    ParsedFollows(lines, |lines|, savePath, kind);
  }

  // ----- removal while scanning downward -----

  function Keep(entries: seq<Entry>, drop: Entry -> bool): seq<Entry> {
    if entries == [] then []
    else
      var last := entries[|entries| - 1];
      Keep(entries[..|entries| - 1], drop) + (if drop(last) then [] else [last])
  }

  lemma {:induction false} KeepAppend(a: seq<Entry>, b: seq<Entry>, drop: Entry -> bool)
    ensures Keep(a + b, drop) == Keep(a, drop) + Keep(b, drop)
  {
    if b == [] {
      assert a + b == a;
    } else {
      assert (a + b)[..|a + b| - 1] == a + b[..|b| - 1];
      KeepAppend(a, b[..|b| - 1], drop);
    }
  }

  /** Exactly the entries that are not to be dropped are kept. */
  lemma {:induction false} KeptIff(entries: seq<Entry>, drop: Entry -> bool, e: Entry)
    ensures e in Keep(entries, drop) <==> e in entries && !drop(e)
  {
    if entries != [] {
      var n := |entries| - 1;
      KeptIff(entries[..n], drop, e);
      assert entries == entries[..n] + [entries[n]];
    }
  }

  lemma KeepNext(all: seq<Entry>, i: nat, drop: Entry -> bool)
    requires i < |all|
    ensures Keep(all[i..], drop) == (if drop(all[i]) then [] else [all[i]]) + Keep(all[i + 1..], drop)
  {
    assert all[i..] == [all[i]] + all[i + 1..];
    KeepAppend([all[i]], all[i + 1..], drop);
    assert Keep([], drop) == [] && [all[i]][..0] == [];
  }

  /** One step of the downward scan. */
  lemma FilterStep(all: seq<Entry>, i: nat, drop: Entry -> bool)
    requires i < |all|
    ensures var entries := all[..i + 1] + Keep(all[i + 1..], drop);
      && entries[i] == all[i]
      && (if drop(all[i]) then Without(entries, i) else entries) == all[..i] + Keep(all[i..], drop)
  {
    KeepNext(all, i, drop);
    var kept := Keep(all[i + 1..], drop);
    assert all[..i + 1] == all[..i] + [all[i]];
    assert Without(all[..i + 1] + kept, i) == all[..i] + kept;
  }

  // ----- the save disk -----

  /** The last entry labelled as the save disk, or the first entry if there is none. */
  function SaveIndex(entries: seq<Entry>): nat {
    if entries == [] then 0
    else if entries[|entries| - 1].title == Some(SaveDiskLabel(0)) then |entries| - 1
    else SaveIndex(entries[..|entries| - 1])
  }

  predicate HasSaveDisk(entries: seq<Entry>) {
    exists i | 0 <= i < |entries| :: entries[i].title == Some(SaveDiskLabel(0))
  }

  lemma {:induction false} SaveIndexFinds(entries: seq<Entry>)
    requires HasSaveDisk(entries)
    ensures SaveIndex(entries) < |entries| && entries[SaveIndex(entries)].title == Some(SaveDiskLabel(0))
    ensures forall i | SaveIndex(entries) < i < |entries| :: entries[i].title != Some(SaveDiskLabel(0))
  {
    var n := |entries| - 1;
    if entries[n].title != Some(SaveDiskLabel(0)) {
      assert HasSaveDisk(entries[..n]);
      SaveIndexFinds(entries[..n]);
    }
  }

  /** Without one the scan stays on the first entry. */
  lemma {:induction false} SaveIndexNone(entries: seq<Entry>)
    requires !HasSaveDisk(entries)
    ensures SaveIndex(entries) == 0
  {
    if entries != [] {
      var n := |entries| - 1;
      assert entries[n].title != Some(SaveDiskLabel(0));
      assert forall i | 0 <= i < n :: entries[..n][i] == entries[i];
      SaveIndexNone(entries[..n]);
    }
  }

  /** The list with its save disk, if one exists or could be made. */
  function AddSaveDisk(entries: seq<Entry>, path: Option<string>, kind: string -> ImageType): seq<Entry> {
    if path.Some? then Add(entries, path.value, SaveDiskLabel(0), kind) else entries
  }

  predicate AllLabelled(entries: seq<Entry>) { forall i | 0 <= i < |entries| :: entries[i].title.Some? }

  /** An operation that makes an entry with a label. */
  predicate Labels(op: Op) { (op.AddFile? && op.title != "") || op.FillIn? }

  /** The save disk brings its label. */
  lemma SaveDiskLabelled(entries: seq<Entry>, path: Option<string>, kind: string -> ImageType)
    ensures AllLabelled(AddSaveDisk(entries, path, kind)) <==> AllLabelled(entries)
  {
    var after := AddSaveDisk(entries, path, kind);
    assert forall i | 0 <= i < |entries| :: after[i] == entries[i];
  }

  /**
   A toggle compares the label of every entry. After a run it meets no null
   label exactly if each entry still listed was added with a label or filled in.
   */
  lemma NoNullLabelIff(ops: seq<Op>, path: Option<string>, kind: string -> ImageType)
    requires Safe(ops, kind)
    ensures var births := Births(ops, kind);
      && (forall i | 0 <= i < |births| :: births[i] < |ops|)
      && (AllLabelled(AddSaveDisk(Run([], ops, kind), path, kind)) <==>
            forall i | 0 <= i < |births| :: Labels(ops[births[i]]))
  {
    RunsKeepOrder(ops, kind);
    var entries, births := Run([], ops, kind), Births(ops, kind);
    SaveDiskLabelled(entries, path, kind);
    forall i | 0 <= i < |births|
      ensures births[i] < |ops| && (Labels(ops[births[i]]) <==> entries[i].title.Some?)
    {
      assert BornBy(entries[i], ops, births[i]);
    }
  }

  /** A playlist line without a label, such as one that ends in the delimiter, leads a toggle to a null label. */
  lemma UnlabelledLine(path: Option<string>, savePath: nat -> Option<string>, kind: string -> ImageType)
    ensures var adds := Additions([Image(Some("x.adf"), "")], 0, savePath);
      adds == [AddFile("x.adf", "")] && !AllLabelled(AddSaveDisk(Run([], adds, kind), path, kind))
  {
    var lines := [Image(Some("x.adf"), "")];
    assert lines[1..] == [];
    var adds := Additions(lines, 0, savePath);
    assert adds[..0] == [];
    assert Run([], adds, kind)[0].title == None;
    assert AddSaveDisk(Run([], adds, kind), path, kind)[0].title == None;
  }

  /** A toggle compares no null pointer, neither a file nor a label. */
  predicate CanToggle(entries: seq<Entry>, path: Option<string>, kind: string -> ImageType) {
    && (path.Some? ==> Defined(entries, AddFile(path.value, SaveDiskLabel(0))))
    && AllLabelled(AddSaveDisk(entries, path, kind))
  }

  /** Showing a selected floppy or CD compares its label. */
  predicate ShowsNull(e: Entry) { e.file.Some? && e.kind in {Floppy, CD} && e.title.None? }

  /**
   After a run, an entry with a file has a null label to show exactly if it was
   added without one; and its type is that of its file.
   */
  lemma ShowsNullIff(ops: seq<Op>, i: nat, kind: string -> ImageType)
    requires Safe(ops, kind) && i < |Run([], ops, kind)|
    ensures var e, b := Run([], ops, kind)[i], Births(ops, kind)[i];
      && b < |ops| && (e.file.Some? && e.title.None? <==> ops[b].AddFile? && ops[b].title == "")
      && (ShowsNull(e) <==> ops[b].AddFile? && ops[b].title == "" && kind(ops[b].file) in {Floppy, CD})
  {
    RunsKeepOrder(ops, kind);
    assert BornBy(Run([], ops, kind)[i], ops, Births(ops, kind)[i]);
  }

  /** In a sound list whose entries all have labels, adding a file compares no null pointer either. */
  lemma LabelledDefined(entries: seq<Entry>, op: Op, kind: string -> ImageType)
    requires Sound(entries, kind) && AllLabelled(entries) && op.AddFile?
    ensures Defined(entries, op)
  {
  }

  /** So a list with labels can be toggled, and toggled again. */
  lemma CanToggleTwice(entries: seq<Entry>, path: Option<string>, kind: string -> ImageType)
    requires Sound(entries, kind) && AllLabelled(entries)
    ensures CanToggle(entries, path, kind) && CanToggle(AddSaveDisk(entries, path, kind), path, kind)
  {
    SaveDiskLabelled(entries, path, kind);
    AddSaveDiskTwice(entries, path, kind);
    if path.Some? {
      var op := AddFile(path.value, SaveDiskLabel(0));
      LabelledDefined(entries, op, kind);
      StepKeepsSound(entries, op, kind);
      LabelledDefined(AddSaveDisk(entries, path, kind), op, kind);
    }
  }

  /** The selected entry and the one selected before, after a toggle. */
  function Toggled(entries: seq<Entry>, index: int, previous: int): (int, int) {
    var save := SaveIndex(entries);
    if index == save then (previous, previous) else (save, index)
  }

  /**
   The save disk is listed, or its file is not and there is room for it: then a
   toggle finds it.
   */
  predicate SaveDiskAvailable(entries: seq<Entry>, path: Option<string>) {
    HasSaveDisk(entries)
    || (path.Some? && path.value != "" && !Lists(entries, path.value) && |entries| < DC_MAX_SIZE)
  }

  lemma AvailableIff(entries: seq<Entry>, path: Option<string>, kind: string -> ImageType)
    ensures HasSaveDisk(AddSaveDisk(entries, path, kind)) <==> SaveDiskAvailable(entries, path)
  {
    var added := AddSaveDisk(entries, path, kind);
    if HasSaveDisk(entries) {
      var i :| 0 <= i < |entries| && entries[i].title == Some(SaveDiskLabel(0));
      assert added[i] == entries[i];
    } else if added != entries {
      assert added[|entries|].title == Some(SaveDiskLabel(0));
    }
  }

  /** Adding the save disk again changes nothing. */
  lemma AddSaveDiskTwice(entries: seq<Entry>, path: Option<string>, kind: string -> ImageType)
    ensures var added := AddSaveDisk(entries, path, kind); AddSaveDisk(added, path, kind) == added
  {
    var added := AddSaveDisk(entries, path, kind);
    if added != entries {
      assert added[|entries|].file == path;
    }
  }

  /**
   With another disk selected, a toggle selects the save disk and a second one
   goes back, without changing the list again.
   */
  lemma ToggleTwice(entries: seq<Entry>, path: Option<string>, kind: string -> ImageType, index: int, previous: int)
    requires SaveDiskAvailable(entries, path)
    requires index != SaveIndex(AddSaveDisk(entries, path, kind))
    ensures var once := AddSaveDisk(entries, path, kind);
      var (i, p) := Toggled(once, index, previous);
      && 0 <= i < |once| && once[i].title == Some(SaveDiskLabel(0))
      && AddSaveDisk(once, path, kind) == once
      && Toggled(once, i, p).0 == index
  {
    AvailableIff(entries, path, kind);
    SaveIndexFinds(AddSaveDisk(entries, path, kind));
    AddSaveDiskTwice(entries, path, kind);
  }
}
