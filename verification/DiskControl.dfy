/**
 The disk list in its three fixed arrays, the tray and the drives. The ghost
 field `mem` is the memory that the arrays and the heap stand for: every method
 is a step of it. Strings are heap blocks: every one is live from its duplication
 until it is freed, and freeing demands that it is live, so none is ever freed
 twice.
 */
module DiskControl {
  import opened Basics
  import opened DiskList
  import opened DiskMemory
  import opened StaleSlots

  const MAX_FLOPPY_DRIVES: nat := 4

  /**
   How a call ends. A fault is a comparison with a null pointer, an access
   outside an array, or a read through a pointer to a freed string.
   */
  datatype Outcome = Done(ok: bool) | Fault

  /** Moves the elements behind an index one place up. */
  method MoveUp<T>(a: array<T>, index: nat, count: nat)
    requires index < count <= a.Length
    modifies a
    ensures forall i | 0 <= i < a.Length ::
      a[i] == if index <= i < count - 1 then old(a[i + 1]) else old(a[i])
  {
    forall i | index <= i < count - 1 {
      a[i] := a[i + 1];
    }
  }

  class DiskStorage {
    const files: array<Ptr>
    const titles: array<Ptr>
    const types: array<ImageType>
    var count: nat

    /** How a file name tells its type. */
    const kind: string -> ImageType

    /** The live blocks of the heap, and the next block it hands out. */
    var live: set<nat>
    var next: nat

    /** What the arrays and the heap stand for. */
    ghost var mem: Memory

    ghost predicate Aligned()
      reads this, files, titles, types
    {
      && files.Length == titles.Length == types.Length == DC_MAX_SIZE
      && files != titles && files as object != types as object && titles as object != types as object
      && mem.Shaped() && count == mem.count && live == mem.live && next == mem.next
      && forall i | 0 <= i < DC_MAX_SIZE :: Held(i) == mem.cells[i]
    }

    /** One slot of the three arrays. */
    ghost function Held(i: nat): Slot
      requires i < files.Length && i < titles.Length && i < types.Length
      reads files, titles, types
    {
      Slot(files[i], titles[i], types[i])
    }

    ghost predicate Valid()
      reads this, files, titles, types
    {
      Aligned() && mem.Valid()
    }

    /** The list the arrays hold. */
    ghost function Entries(): seq<Entry>
      requires mem.Shaped()
      reads this`mem
    {
      mem.Entries()
    }

    constructor (kind: string -> ImageType)
      ensures Valid() && mem == EMPTY && Entries() == [] && this.kind == kind
      ensures fresh(files) && fresh(titles) && fresh(types)
    {
      files := new Ptr[DC_MAX_SIZE](_ => None);
      titles := new Ptr[DC_MAX_SIZE](_ => None);
      types := new ImageType[DC_MAX_SIZE](_ => NoImage);
      count, live, next, mem := 0, {}, 0, EMPTY;
      this.kind := kind;
      EmptyValid();
    }

    method Duplicate(text: string) returns (p: Ptr)
      modifies this`live, this`next
      ensures p == Some(Str(old(next), text)) && next == old(next) + 1 && live == old(live) + {old(next)}
    {
      p := Some(Str(next, text));
      live := live + {next};
      next := next + 1;
    }

    /** The pointers and the type of a new entry. */
    method MakeSlot(file: string, title: Option<string>) returns (s: Slot)
      requires Aligned()
      modifies this`live, this`next, this`mem
      ensures Aligned() && s == NewSlot(old(next), file, title, kind) && mem == Allocated(old(mem), title)
    {
      var p := Duplicate(file);
      var q: Ptr := None;
      if title.Some? {
        q := Duplicate(title.value);
      }
      s := Slot(p, q, kind(file));
      mem := Allocated(mem, title);
    }

    /** Frees a block that is live; a null pointer is left alone. */
    method Free(p: Ptr)
      requires p.Some? ==> p.value.block in live
      modifies this`live
      ensures live == Freed(old(live), p)
    {
      if p.Some? {
        live := live - {p.value.block};
      }
    }

    /** Writes a slot of the three arrays. */
    method WriteSlot(k: nat, s: Slot)
      requires Aligned() && k < DC_MAX_SIZE
      modifies this`mem, files, titles, types
      ensures Aligned() && mem == old(mem).(cells := old(mem).cells[k := s])
    {
      files[k] := s.file;
      titles[k] := s.title;
      types[k] := s.kind;
      mem := mem.(cells := mem.cells[k := s]);
    }

    /** Frees an entry's two strings and clears its slot. */
    method ClearSlot(k: nat)
      requires Valid() && k < count
      modifies this`live, this`mem, files, titles, types
      ensures Valid() && mem == Wiped(old(mem), k)
    {
      WipedValid(mem, k);
      OwnedOnce(mem.cells, mem.count, mem.live, k);
      assert Held(k) == mem.cells[k];
      Free(files[k]);
      Free(titles[k]);
      mem := mem.(live := live);
      WriteSlot(k, NULL);
    }

    /** Frees every string the list owns. */
    method ClearSlots()
      requires Valid()
      modifies this`live, this`mem, files, titles, types
      ensures Aligned() && mem == Memory(Emptied(old(mem)).cells, count, {}, next)
    {
      for i := 0 to count
        invariant Valid()
        invariant forall k | 0 <= k < DC_MAX_SIZE :: mem.cells[k] == if k < i then NULL else old(mem).cells[k]
      {
        ClearSlot(i);
      }
      NullOwnsNothing(mem);
      assert mem.cells == Emptied(old(mem)).cells;
    }

    /** Empties the list; every string it owned is freed. What lies behind it stays. */
    method Clear()
      requires Valid()
      modifies this, files, titles, types
      ensures Valid() && mem == Emptied(old(mem)) && Entries() == [] && live == {}
    {
      EmptiedValid(mem);
      ClearSlots();
      count := 0;
      mem := mem.(count := 0);
    }

    /** Stores an entry in the first unused slot. */
    method Store(s: Slot)
      requires Aligned() && count < DC_MAX_SIZE
      modifies this`count, this`mem, files, titles, types
      ensures Aligned() && mem == Put(old(mem), s)
    {
      WriteSlot(count, s);
      count := count + 1;
      mem := mem.(count := count);
    }

    /** Adds a file at the end, listed or not. */
    method AddFileInt(file: string, title: string) returns (ok: bool)
      requires Valid()
      modifies this, files, titles, types
      ensures Valid() && Entries() == AddAlways(old(Entries()), file, title, kind)
      ensures ok == (file != "" && old(count) < DC_MAX_SIZE)
      ensures mem == if ok then PutNew(old(mem), file, Stored(title), kind) else old(mem)
    {
      if file == "" || count >= DC_MAX_SIZE {
        return false;
      }
      PutNewValid(mem, file, Stored(title), kind);
      PutNewEntries(mem, file, Stored(title), kind);
      var s := MakeSlot(file, Stored(title));
      Store(s);
      return true;
    }

    /** Adds a file unless it is listed. The scan compares the file of every entry before it finds the file. */
    method AddFile(file: string, title: string) returns (r: Outcome)
      requires Valid()
      modifies this, files, titles, types
      ensures Valid() && (r.Fault? <==> !Defined(old(Entries()), DiskList.AddFile(file, title)))
      ensures mem == if r.Fault? then old(mem) else StepMem(old(mem), DiskList.AddFile(file, title), kind)
      ensures Entries() == if r.Fault? then old(Entries()) else Add(old(Entries()), file, title, kind)
      ensures r.Done? ==> r.ok == (file != "" && (Lists(old(Entries()), file) || old(count) < DC_MAX_SIZE))
    {
      if file == "" {
        return Done(false);
      }
      var found := FindFile(file, count);
      if found.Fault? || found.ok {
        return found;
      }
      var ok := AddFileInt(file, title);
      return Done(ok);
    }

    /** Scans the first slots for a file. */
    method FindFile(file: string, end: nat) returns (r: Outcome)
      requires Aligned() && end <= count
      ensures r.Fault? <==> MeetsNull(Entries()[..end], file)
      ensures r.Done? ==> r.ok == Lists(Entries()[..end], file)
      ensures end == count ==> Entries()[..end] == Entries()
    {
      ghost var some := Entries()[..end];
      for i := 0 to end
        invariant forall j | 0 <= j < i :: some[j].file.Some? && some[j].file != Some(file)
      {
        assert some[i] == Held(i).Entry();
        if files[i].None? {
          return Fault;
        }
        if files[i].value.text == file {
          assert some[i].file == Some(file);
          return Done(true);
        }
      }
      return Done(false);
    }

    /** Closes the gap of an entry; what was last stays behind the list. */
    method CloseGap(k: nat)
      requires Aligned() && k < count
      modifies this`count, this`mem, files, titles, types
      ensures Aligned() && mem == Shut(old(mem), k)
    {
      if k != count - 1 {
        Shift(k);
      }
      count := count - 1;
      mem := mem.(count := count);
    }

    /** Shifts the slots behind an index one place up. */
    method Shift(k: nat)
      requires Aligned() && k < count
      modifies this`mem, files, titles, types
      ensures Aligned() && mem == old(mem).(cells := Closed(old(mem).cells, k, count))
    {
      MoveUp(files, k, count);
      MoveUp(titles, k, count);
      MoveUp(types, k, count);
      ghost var was := mem.cells;
      mem := mem.(cells := Closed(was, k, count));
      forall i: nat | i < DC_MAX_SIZE
        ensures Held(i) == mem.cells[i]
      {
        ClosedAt(was, k, count, i);
        assert old(Held(i)) == was[i];
        if k <= i < count - 1 {
          assert old(Held(i + 1)) == was[i + 1];
        }
      }
    }

    /** Removes an entry: frees its strings and closes the gap. */
    method RemoveFile(k: int) returns (ok: bool)
      requires Valid()
      modifies this, files, titles, types
      ensures Valid() && mem == StepMem(old(mem), DiskList.RemoveFile(k), kind)
      ensures Entries() == Without(old(Entries()), k) && ok == (0 <= k < old(count))
    {
      if k < 0 || k >= count {
        return false;
      }
      RemovedValid(mem, k);
      RemovedEntries(mem, k);
      ClearSlot(k);
      CloseGap(k);
      return true;
    }

    /** Makes an entry for the frontend to fill in. The guard lets a full list through, to the slot behind the arrays. */
    method AddImageIndex() returns (r: Outcome)
      requires Valid()
      modifies this, files, titles, types
      ensures Valid() && (r.Fault? <==> !Defined(old(Entries()), Append))
      ensures mem == if r.Fault? then old(mem) else StepMem(old(mem), Append, kind)
      ensures r.Done? ==> r.ok && Entries() == AddBlank(old(Entries()))
    {
      if count <= DC_MAX_SIZE {
        if count >= files.Length {
          return Fault;
        }
        PutNullValid(mem);
        StepEntries(mem, Append, kind);
        Store(NULL);
        return Done(true);
      }
      return Done(false);
    }

    /**
     Fills in an entry, or drops it again if its file is listed already. The
     entry is cleared first, so that the scan can meet its own missing file.
     */
    method Replace(k: int, file: string, title: string) returns (r: Outcome)
      requires Valid()
      modifies this, files, titles, types
      ensures Valid() && (r.Fault? <==> !Defined(old(Entries()), FillIn(k, file, title)))
      ensures r.Done? ==> r.ok == (0 <= k < old(count)) && Entries() == Fill(old(Entries()), k, file, title, kind)
      ensures r.Done? ==> mem == StepMem(old(mem), FillIn(k, file, title), kind)
      ensures r.Fault? ==> 0 <= k < old(count) && mem == Wiped(old(mem), k)
    {
      if k < 0 || k >= count {
        return Done(false);
      }
      ghost var was := mem;
      ClearSlot(k);
      ViewUpdate(was.cells, k, NULL, count);
      var found := FindFile(file, count - 1);
      if found.Fault? {
        return Fault;
      }
      StepEntries(was, FillIn(k, file, title), kind);
      if found.ok {
        ShutValid(mem, k);
        CloseCleared(k);
        return Done(true);
      }
      FillCleared(k, file, title);
      return Done(true);
    }

    /** Removes a cleared entry, which has nothing to free. */
    method CloseCleared(k: nat)
      requires Valid() && k < count && mem.cells[k] == NULL
      modifies this, files, titles, types
      ensures Valid() && mem == Shut(old(mem), k)
    {
      ghost var was := mem;
      var _ := RemoveFile(k);
      assert was.cells[k := NULL] == was.cells;
    }

    /** Fills a cleared entry. */
    method FillCleared(k: nat, file: string, title: string)
      requires Valid() && k < count && mem.cells[k] == NULL
      modifies this, files, titles, types
      ensures Valid() && mem == Filled(old(mem), k, file, title, kind)
    {
      FilledValid(mem, k, file, title, kind);
      var s := MakeSlot(file, Some(title));
      WriteSlot(k, s);
    }

    /** One line of a playlist; the number of save disks so far goes up with each that is found or made. */
    method ParseLine(line: Line, saved: nat, savePath: nat -> Option<string>) returns (saved': nat)
      requires Valid() && AllFiles(Entries())
      modifies this, files, titles, types
      ensures Valid() && AllFiles(Entries())
      ensures Entries() == Run(old(Entries()), LineAdditions(line, saved, savePath), kind)
      ensures saved' == saved + if line.SaveDisk? && savePath(saved).Some? then 1 else 0
    {
      saved' := saved;
      match line {
        case SaveDisk =>
          if savePath(saved).Some? {
            var _ := AddFile(savePath(saved).value, SaveDiskLabel(saved));
            saved' := saved + 1;
          }
        case Image(path, title) =>
          if path.Some? {
            var _ := AddFile(path.value, title);
          }
        case _ =>
      }
    }

    /** Reads a playlist into an empty list. */
    method ParseLines(lines: seq<Line>, savePath: nat -> Option<string>)
      requires Valid() && Entries() == []
      modifies this, files, titles, types
      ensures Valid() && Entries() == Run([], Additions(lines, 0, savePath), kind)
    {
      var saved, i := 0, 0;
      ghost var done: seq<Op> := [];
      while count <= DC_MAX_SIZE && i < |lines|
        invariant i <= |lines| && Valid() && AllFiles(Entries())
        invariant Additions(lines, 0, savePath) == done + Additions(lines[i..], saved, savePath)
        invariant Entries() == Run([], done, kind)
        decreases |lines| - i
      {
        ghost var more := LineAdditions(lines[i], saved, savePath);
        ParseStep(lines, i, saved, savePath, done, kind);
        saved := ParseLine(lines[i], saved, savePath);
        done := done + more;
        i := i + 1;
      }
      assert lines[i..] == [] && done + [] == done;
    }

    /** The entries that are attached as hard drives leave the list. */
    predicate IsHardDrive(e: Entry) {
      e.file.Some? && kind(e.file.value) in {HD, WHDLoad}
    }

    /** Removes an entry if it is attached as a hard drive. */
    method RemoveIfHardDrive(i: nat)
      requires Valid() && i < count
      modifies this, files, titles, types
      ensures Valid()
      ensures Entries() == if IsHardDrive(old(Entries())[i]) then Without(old(Entries()), i) else old(Entries())
    {
      assert Entries()[i] == Held(i).Entry();
      if files[i].Some? && kind(files[i].value.text) in {HD, WHDLoad} {
        var _ := RemoveFile(i);
      }
    }

    /** Removing while scanning downward leaves exactly the other entries, in their order. */
    method RemoveHardDrives()
      requires Valid()
      modifies this, files, titles, types
      ensures Valid() && Entries() == Keep(old(Entries()), e => IsHardDrive(e))
      ensures forall e :: e in Entries() <==>
        e in old(Entries()) && !(e.file.Some? && kind(e.file.value) in {HD, WHDLoad})
    {
      ghost var all, drop := Entries(), e => IsHardDrive(e);
      FilterList(drop);
      forall e
        ensures e in Keep(all, drop) <==> e in all && !IsHardDrive(e)
      {
        KeptIff(all, drop, e);
      }
    }

    method FilterList(ghost drop: Entry -> bool)
      requires Valid() && forall e :: drop(e) == IsHardDrive(e)
      modifies this, files, titles, types
      ensures Valid() && Entries() == Keep(old(Entries()), drop)
    {
      ghost var all := Entries();
      var i := count - 1;
      while i > -1
        invariant -1 <= i < |all| && Valid()
        invariant Entries() == all[..i + 1] + Keep(all[i + 1..], drop)
      {
        FilterStep(all, i, drop);
        RemoveIfHardDrive(i);
        i := i - 1;
      }
    }

    /** Adds the save disk, if one exists or could be made. */
    method AddSave(path: Option<string>) returns (r: Outcome)
      requires Valid()
      modifies this, files, titles, types
      ensures Valid() && (r.Fault? <==> path.Some? && !Defined(old(Entries()), DiskList.AddFile(path.value, SaveDiskLabel(0))))
      ensures r.Done? ==> Entries() == AddSaveDisk(old(Entries()), path, kind)
    {
      if path.None? {
        return Done(false);
      }
      r := AddFile(path.value, SaveDiskLabel(0));
    }

    /** Scans for the save disk, comparing the label of every entry; a null one ends it. */
    method FindSaveDisk() returns (save: Option<nat>)
      requires Aligned()
      ensures save == if AllLabelled(Entries()) then Some(SaveIndex(Entries())) else None
    {
      ghost var all := Entries();
      var index: nat := 0;
      for i := 0 to count
        invariant index == SaveIndex(all[..i]) && forall j | 0 <= j < i :: all[j].title.Some?
      {
        assert all[..i + 1][..i] == all[..i] && all[i] == Held(i).Entry();
        if titles[i].None? {
          return None;
        }
        if titles[i].value.text == SaveDiskLabel(0) {
          index := i;
        }
      }
      assert all[..count] == all;
      return Some(index);
    }
  }

  /** The selection, the tray and the drives, over the list. */
  class DiskTray {
    const list: DiskStorage
    var index: int
    var indexPrev: int
    var ejected: bool
    var replaceNext: bool

    /** The image chosen for each floppy drive, and for the CD drive. */
    var drives: seq<string>
    var cd: string

    /** Whether a path names a file that exists. */
    const pathIsValid: string -> bool

    constructor (list: DiskStorage, pathIsValid: string -> bool)
      ensures this.list == list && this.pathIsValid == pathIsValid
      ensures index == indexPrev == -1 && ejected && !replaceNext && drives == seq(MAX_FLOPPY_DRIVES, _ => "") && cd == ""
    {
      this.list, this.pathIsValid := list, pathIsValid;
      index, indexPrev, ejected, replaceNext := -1, -1, true, false;
      drives, cd := seq(MAX_FLOPPY_DRIVES, _ => ""), "";
    }

    /** Empties the list and opens the tray on its first place, where nothing is selected. */
    method Reset()
      requires list.Valid()
      modifies this, list, list.files, list.titles, list.types
      ensures list.Valid() && list.mem == Emptied(old(list.mem)) && list.Entries() == [] && list.live == {}
      ensures list.mem.Selected(0) == EmptySlot
      ensures index == indexPrev == 0 && ejected && !replaceNext && drives == old(drives) && cd == old(cd)
    {
      list.Clear();
      index, indexPrev, ejected, replaceNext := 0, 0, true, false;
    }

    /** Reads a playlist: starts over and adds what its lines ask for. */
    method ParseM3u(lines: seq<Line>, savePath: nat -> Option<string>)
      requires list.Valid()
      modifies this, list, list.files, list.titles, list.types
      ensures list.Valid() && list.Entries() == Run([], Additions(lines, 0, savePath), list.kind)
      ensures index == indexPrev == 0 && ejected && !replaceNext && drives == old(drives) && cd == old(cd)
    {
      Reset();
      list.ParseLines(lines, savePath);
    }

    /** Fills in an entry, or drops it. All floppy drives are emptied. */
    method ReplaceFile(k: int, file: string, title: string) returns (r: Outcome)
      requires list.Valid()
      modifies this, list, list.files, list.titles, list.types
      ensures list.Valid() && (r.Fault? <==> !Defined(old(list.Entries()), FillIn(k, file, title)))
      ensures r.Done? ==>
        r.ok == (0 <= k < old(list.count)) && list.Entries() == Fill(old(list.Entries()), k, file, title, list.kind)
      ensures index == old(index) && indexPrev == old(indexPrev) && ejected == old(ejected) && cd == old(cd)
      ensures var found := 0 <= k < old(list.count);
        && drives == (if found then ["", "", "", ""] else old(drives))
        && replaceNext == (!found && old(replaceNext))
    {
      if 0 <= k < list.count {
        replaceNext := false;
        drives := seq(MAX_FLOPPY_DRIVES, _ => "");
        assert drives == ["", "", "", ""];
      }
      r := list.Replace(k, file, title);
    }

    /**
     Selects an entry. After a playlist replaced the list, whatever is asked
     for, the first one. The label of a floppy or CD is shown, null or not.
     */
    method SetImageIndex(k: nat) returns (r: Outcome)
      requires list.Valid()
      modifies this
      ensures var wanted: nat := if k != old(index) && old(replaceNext) then 0 else k;
        var found := wanted < list.count && list.Entries()[wanted].file.Some?;
        && (r.Fault? <==> k != old(index) && wanted < list.count && ShowsNull(list.Entries()[wanted]))
        && (r.Done? ==> r.ok == (k == old(index) || found))
        && index == (if k != old(index) && found then wanted else old(index))
        && replaceNext == (old(replaceNext) && k == old(index))
      ensures indexPrev == old(indexPrev) && ejected == old(ejected) && drives == old(drives) && cd == old(cd)
    {
      if k == index {
        return Done(true);
      }
      var wanted := k;
      if replaceNext {
        replaceNext := false;
        wanted := 0;
      }
      if wanted < list.count && list.files[wanted].Some? {
        assert list.Entries()[wanted] == list.Held(wanted).Entry();
        index := wanted;
        if list.types[wanted] in {Floppy, CD} && list.titles[wanted].None? {
          return Fault;
        }
        return Done(true);
      }
      assert wanted < list.count ==> list.Entries()[wanted] == list.Held(wanted).Entry();
      return Done(false);
    }

    /** Takes an image out of the other drives and puts it in the first one. */
    static method Inserted(drives: seq<string>, current: seq<string>, file: string) returns (r: seq<string>)
      requires |drives| == |current| == MAX_FLOPPY_DRIVES
      ensures |r| == MAX_FLOPPY_DRIVES && r[0] == file
      ensures forall i | 0 < i < MAX_FLOPPY_DRIVES :: r[i] == if current[i] == file then "" else drives[i]
    {
      r := drives;
      for i := 1 to MAX_FLOPPY_DRIVES
        invariant |r| == MAX_FLOPPY_DRIVES
        invariant forall k | 0 < k < MAX_FLOPPY_DRIVES :: r[k] == if k < i && current[k] == file then "" else drives[k]
      {
        if current[i] == file {
          r := r[i := ""];
        }
      }
      r := r[0 := file];
    }

    /** What opening or closing the tray does with the selected image. */
    ghost predicate Moved(eject: bool, file: string, type_: ImageType, current: seq<string>,
                          drives0: seq<string>, cd0: string)
      requires |drives| == |current| == |drives0| == MAX_FLOPPY_DRIVES
      reads this
    {
      if eject then
        && drives == (if type_ in {Floppy, Archive} then drives0[0 := ""] else drives0)
        && cd == (if type_ == CD then "" else cd0)
      else if !pathIsValid(file) then drives == drives0 && cd == cd0
      else
        && cd == (if type_ == CD then file else cd0)
        && if type_ in {Floppy, Archive} then
             && drives[0] == file
             && forall i | 0 < i < MAX_FLOPPY_DRIVES :: drives[i] == if current[i] == file then "" else drives0[i]
           else drives == drives0
    }

    /** Opening or closing reads outside the arrays, or a freed string, or shows a null label. */
    predicate Breaks(sel: Selection, eject: bool) {
      match sel
      case NoSlot => true
      case EmptySlot => false
      case Dangling => true
      case Chosen(file, title, type_) => !eject && type_ !in {HD, WHDLoad} && pathIsValid(file) && title.None?
    }

    /** Opens or closes the tray. Closing it puts the selected image in the first drive and takes it out of the others. */
    method SetEjectState(eject: bool, current: seq<string>) returns (r: Outcome)
      requires list.Valid() && |drives| == |current| == MAX_FLOPPY_DRIVES
      modifies this
      ensures |drives| == MAX_FLOPPY_DRIVES && ejected == eject
      ensures index == old(index) && indexPrev == old(indexPrev) && replaceNext == old(replaceNext)
      ensures 0 <= index < list.count ==> list.mem.Selected(index) == Selects(list.Entries()[index])
      ensures var sel := list.mem.Selected(index);
        var unlabelled := sel.Chosen? && sel.kind !in {HD, WHDLoad} && pathIsValid(sel.file) && sel.title.None?;
        && (r.Fault? <==> (old(ejected) != eject && (sel.NoSlot? || sel.Dangling? || (!eject && unlabelled))))
        && (r.Done? ==> r.ok == (old(ejected) == eject || sel.Chosen?))
        && if old(ejected) == eject || r.Fault? || !sel.Chosen? || sel.kind in {HD, WHDLoad}
           then drives == old(drives) && cd == old(cd)
           else Moved(eject, sel.file, sel.kind, current, old(drives), old(cd))
    {
      r := EjectSelected(eject, current);
      if 0 <= index < list.count {
        SelectedInList(list.mem, index);
      }
    }

    /** The branches by what the selected slot holds. */
    method EjectSelected(eject: bool, current: seq<string>) returns (r: Outcome)
      requires list.Valid() && |drives| == |current| == MAX_FLOPPY_DRIVES
      modifies this
      ensures |drives| == MAX_FLOPPY_DRIVES && ejected == eject
      ensures index == old(index) && indexPrev == old(indexPrev) && replaceNext == old(replaceNext)
      ensures var sel := list.mem.Selected(index);
        var unlabelled := sel.Chosen? && sel.kind !in {HD, WHDLoad} && pathIsValid(sel.file) && sel.title.None?;
        && (r.Fault? <==> (old(ejected) != eject && (sel.NoSlot? || sel.Dangling? || (!eject && unlabelled))))
        && (r.Done? ==> r.ok == (old(ejected) == eject || sel.Chosen?))
        && if old(ejected) == eject || r.Fault? || !sel.Chosen? || sel.kind in {HD, WHDLoad}
           then drives == old(drives) && cd == old(cd)
           else Moved(eject, sel.file, sel.kind, current, old(drives), old(cd))
    {
      if ejected == eject {
        return Done(true);
      }
      ejected := eject;
      if index < 0 || index >= list.files.Length {
        return Fault;
      }
      assert list.Held(index) == list.mem.cells[index];
      if list.files[index].None? {
        return Done(false);
      }
      if list.files[index].value.block !in list.live {
        return Fault;
      }
      r := TurnTray(current);
    }

    /** The tray has been opened or closed on an image: shows its label, and moves it. */
    method TurnTray(current: seq<string>) returns (r: Outcome)
      requires list.Valid() && |drives| == |current| == MAX_FLOPPY_DRIVES
      requires 0 <= index < DC_MAX_SIZE && list.mem.Selected(index).Chosen?
      modifies this`drives, this`cd
      ensures |drives| == MAX_FLOPPY_DRIVES
      ensures var sel := list.mem.Selected(index);
        && (r.Fault? <==> !ejected && sel.kind !in {HD, WHDLoad} && pathIsValid(sel.file) && sel.title.None?)
        && (r.Done? ==> r.ok)
        && if r.Fault? || sel.kind in {HD, WHDLoad} then drives == old(drives) && cd == old(cd)
           else Moved(ejected, sel.file, sel.kind, current, old(drives), old(cd))
    {
      assert list.Held(index) == list.mem.cells[index];
      var file, type_ := list.files[index].value.text, list.types[index];
      if type_ in {HD, WHDLoad} {
        return Done(true);
      }
      if !ejected && pathIsValid(file) {
        if list.titles[index].None? {
          return Fault;
        }
        TitleLive(list.mem, index);
        assert list.titles[index].value.block in list.live;
      }
      MoveImage(file, type_, current);
      return Done(true);
    }

    /** Moves an image into its drive or out of it, as the tray is closed or open. */
    method MoveImage(file: string, type_: ImageType, current: seq<string>)
      requires |drives| == |current| == MAX_FLOPPY_DRIVES
      modifies this`drives, this`cd
      ensures |drives| == MAX_FLOPPY_DRIVES && Moved(ejected, file, type_, current, old(drives), old(cd))
    {
      if ejected {
        if type_ in {Floppy, Archive} {
          drives := drives[0 := ""];
        } else if type_ == CD {
          cd := "";
        }
      } else if pathIsValid(file) {
        if type_ in {Floppy, Archive} {
          drives := Inserted(drives, current, file);
        } else if type_ == CD {
          cd := file;
        }
      }
    }

    /**
     Toggles between the save disk and the disk selected before, if there is
     content. The tray ends up closed, with the selected floppy in the first drive.
     */
    method SaveDiskToggle(content: string, path: Option<string>, current: seq<string>) returns (r: Outcome)
      requires list.Valid() && |drives| == |current| == MAX_FLOPPY_DRIVES
      modifies this, list, list.files, list.titles, list.types
      ensures list.Valid() && |drives| == MAX_FLOPPY_DRIVES
      ensures content == "" ==>
        && r == Done(false) && list.mem == old(list.mem) && drives == old(drives) && cd == old(cd)
        && index == old(index) && indexPrev == old(indexPrev) && ejected == old(ejected)
      ensures content != "" ==> var before := old(list.Entries());
        if CanToggle(before, path, list.kind) then
          && list.Entries() == AddSaveDisk(before, path, list.kind)
          && (index, indexPrev) == Toggled(list.Entries(), old(index), old(indexPrev))
          && (r.Fault? <==> Breaks(list.mem.Selected(index), false))
          && (0 <= index < list.count ==>
                r.Done? && list.mem.Selected(index) == Selects(list.Entries()[index]))
        else r.Fault?
      ensures content != "" && r.Done? ==> r.ok && !ejected
      ensures var sel := list.mem.Selected(index);
        content != "" && r.Done? && sel.Chosen? && sel.kind in {Floppy, Archive} && pathIsValid(sel.file) ==> drives[0] == sel.file
    {
      if content == "" {
        return Done(false);
      }
      var added := list.AddSave(path);
      if added.Fault? {
        return Fault;
      }
      var save := list.FindSaveDisk();
      if save.None? {
        return Fault;
      }
      if index != save.value {
        indexPrev := index;
      }
      index := if save.value == index then indexPrev else save.value;
      r := CycleTray(current);
    }

    /** Opens the tray and closes it. */
    method CycleTray(current: seq<string>) returns (r: Outcome)
      requires list.Valid() && |drives| == |current| == MAX_FLOPPY_DRIVES
      modifies this
      ensures |drives| == MAX_FLOPPY_DRIVES && index == old(index) && indexPrev == old(indexPrev)
      ensures r.Fault? <==> Breaks(list.mem.Selected(index), false)
      ensures 0 <= index < list.count ==> list.mem.Selected(index) == Selects(list.Entries()[index])
      ensures r.Done? ==> r.ok && !ejected
      ensures var sel := list.mem.Selected(index);
        r.Done? && sel.Chosen? && sel.kind in {Floppy, Archive} && pathIsValid(sel.file) ==> drives[0] == sel.file
    {
      r := SetEjectState(true, current);
      if r.Done? {
        r := SetEjectState(false, current);
      }
      if r.Done? {
        r := Done(true);
      }
    }
  }

  // ----- clients -----

  /**
   With the save disk available and another disk selected, two toggles restore
   the selection: the list has changed once, the tray is closed, and the first
   drive holds the disk selected before.
   */
  method ToggleBack(tray: DiskTray, content: string, path: Option<string>, current: seq<string>, later: seq<string>)
    returns (between: int)
    requires tray.list.Valid() && |tray.drives| == |current| == |later| == MAX_FLOPPY_DRIVES && content != ""
    requires Sound(tray.list.Entries(), tray.list.kind) && AllLabelled(tray.list.Entries())
    requires SaveDiskAvailable(tray.list.Entries(), path) && 0 <= tray.index < tray.list.count
    requires tray.index != SaveIndex(AddSaveDisk(tray.list.Entries(), path, tray.list.kind))
    modifies tray, tray.list, tray.list.files, tray.list.titles, tray.list.types
    ensures tray.list.Valid() && tray.list.Entries() == AddSaveDisk(old(tray.list.Entries()), path, tray.list.kind)
    ensures 0 <= between < |tray.list.Entries()| && tray.list.Entries()[between].title == Some(SaveDiskLabel(0))
    ensures tray.index == old(tray.index) && !tray.ejected && |tray.drives| == MAX_FLOPPY_DRIVES
    ensures var e := old(tray.list.Entries())[tray.index];
      e.file.Some? && (e.kind in {Floppy, Archive} && tray.pathIsValid(e.file.value) ==> tray.drives[0] == e.file.value)
  {
    ghost var entries, kind := tray.list.Entries(), tray.list.kind;
    ToggleTwice(entries, path, kind, tray.index, tray.indexPrev);
    CanToggleTwice(entries, path, kind);
    var _ := tray.SaveDiskToggle(content, path, current);
    between := tray.index;
    var _ := tray.SaveDiskToggle(content, path, later);
    assert tray.list.Entries()[tray.index] == entries[tray.index];
  }

  /**
   Closing the tray on a labelled image that exists puts a floppy into the first
   drive and a CD into its own, and opening it takes it out again; the other
   kind of drive is left alone.
   */
  method InsertAndEject(tray: DiskTray, current: seq<string>, later: seq<string>)
    returns (inserted: (string, string))
    requires tray.list.Valid() && |tray.drives| == |current| == |later| == MAX_FLOPPY_DRIVES
    requires tray.ejected && 0 <= tray.index < tray.list.count
    requires var e := tray.list.Entries()[tray.index];
      e.file.Some? && e.title.Some? && e.kind in {Floppy, Archive, CD} && tray.pathIsValid(e.file.value)
    modifies tray
    ensures |tray.drives| == MAX_FLOPPY_DRIVES && tray.ejected
    ensures var e := old(tray.list.Entries()[tray.index]);
      if e.kind == CD then
        inserted == (old(tray.drives)[0], e.file.value) && tray.drives[0] == old(tray.drives)[0] && tray.cd == ""
      else
        inserted == (e.file.value, old(tray.cd)) && tray.drives[0] == "" && tray.cd == old(tray.cd)
  {
    var _ := tray.SetEjectState(false, current);
    inserted := (tray.drives[0], tray.cd);
    var _ := tray.SetEjectState(true, later);
  }

  /** The run after which a slot dangles, with the third entry selected: closing the tray reads a freed string. */
  method CloseOnFreed(kind: string -> ImageType, pathIsValid: string -> bool, current: seq<string>)
    returns (r: Outcome)
    requires |current| == MAX_FLOPPY_DRIVES
    ensures r == Fault
  {
    var list := new DiskStorage(kind);
    var tray := new DiskTray(list, pathIsValid);
    AddThree(list);
    var _ := tray.SetImageIndex(2);
    RemoveTwo(list);
    RemovalsDangle(kind);
    r := tray.SetEjectState(false, current);
  }

  method AddThree(list: DiskStorage)
    requires list.Valid() && list.mem == EMPTY
    modifies list, list.files, list.titles, list.types
    ensures list.Valid() && list.mem == Mem(REMOVALS, 3, list.kind)
    ensures list.count == 3 && AllFiles(list.Entries()) && AllLabelled(list.Entries())
  {
    AddOne(list, 0);
    AddOne(list, 1);
    AddOne(list, 2);
    Added(3, list.kind);
  }

  method AddOne(list: DiskStorage, i: nat)
    requires list.Valid() && i < 3 && list.mem == Mem(REMOVALS, i, list.kind)
    modifies list, list.files, list.titles, list.types
    ensures list.Valid() && list.mem == Mem(REMOVALS, i + 1, list.kind)
  {
    Added(i, list.kind);
    var _ := list.AddFile(REMOVALS[i].file, REMOVALS[i].title);
  }

  method RemoveTwo(list: DiskStorage)
    requires list.Valid() && list.mem == Mem(REMOVALS, 3, list.kind)
    modifies list, list.files, list.titles, list.types
    ensures list.Valid() && list.mem == Mem(REMOVALS, 5, list.kind)
  {
    var _ := list.RemoveFile(0);
    assert list.mem == Mem(REMOVALS, 4, list.kind);
    var _ := list.RemoveFile(1);
  }

  /** A playlist of one floppy without a label: closing the tray shows a null label. */
  method CloseOnUnlabelled(kind: string -> ImageType, pathIsValid: string -> bool, savePath: nat -> Option<string>,
                           current: seq<string>) returns (r: Outcome)
    requires |current| == MAX_FLOPPY_DRIVES && kind("x.adf") == Floppy && pathIsValid("x.adf")
    ensures r == Fault
  {
    var list := new DiskStorage(kind);
    var tray := new DiskTray(list, pathIsValid);
    tray.ParseM3u([Image(Some("x.adf"), "")], savePath);
    UnlabelledLine(None, savePath, kind);
    r := tray.SetEjectState(false, current);
  }
}
