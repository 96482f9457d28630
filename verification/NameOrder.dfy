/**
 The comparator that sorts the file names of a generated playlist: bytewise,
 but with a space ranked as '/', so that a title comes before its sequels.
 */
module NameOrder {

  /** A byte of a name; the terminating zero is not part of it. */
  type letter = x: int | 1 <= x < 256 witness 32

  type Name = seq<letter>

  const SPACE: letter := 32
  const SLASH: letter := 47

  /** "(Program" */
  const PROGRAM: Name := [40, 80, 114, 111, 103, 114, 97, 109]

  lemma ProgramText()
    ensures |PROGRAM| == |"(Program"| && forall i | 0 <= i < |PROGRAM| :: PROGRAM[i] == "(Program"[i] as int
  {
  }

  predicate ProgramAt(a: Name, i: nat) {
    i + |PROGRAM| <= |a| && a[i..i + |PROGRAM|] == PROGRAM
  }

  predicate HasProgram(a: Name) {
    exists i | 0 <= i <= |a| :: ProgramAt(a, i)
  }

  function At(a: Name, i: nat): int { if i < |a| then a[i] else 0 }

  /** The verdict on the first two bytes that differ. */
  function Decide(x: int, y: int): int {
    if x == SPACE then (if SLASH < y then -1 else 1)
    else if y == SPACE then (if x < SLASH then -1 else 1)
    else if x < y then -1 else 1
  }

  /** The comparison of two names from a position on. */
  function CompareFrom(a: Name, b: Name, i: nat): int
    requires i <= |a| && i <= |b|
    decreases |a| - i
  {
    if At(a, i) != At(b, i) then Decide(At(a, i), At(b, i))
    else if i == |a| then 0
    else CompareFrom(a, b, i + 1)
  }

  function Compare(a: Name, b: Name): int {
    if HasProgram(a) then -1 else CompareFrom(a, b, 0)
  }

  method SensibleStrcmp(a: Name, b: Name) returns (r: int)
    ensures r == Compare(a, b)
  {
    if HasProgram(a) {
      return -1;
    }
    var i := 0;
    while At(a, i) == At(b, i)
      invariant i <= |a| && i <= |b| && CompareFrom(a, b, 0) == CompareFrom(a, b, i)
      decreases |a| - i
    {
      if At(a, i) == 0 {
        return 0;
      }
      i := i + 1;
    }
    if At(a, i) == SPACE {
      return if SLASH < At(b, i) then -1 else 1;
    }
    if At(b, i) == SPACE {
      return if At(a, i) < SLASH then -1 else 1;
    }
    return if At(a, i) < At(b, i) then -1 else 1;
  }

  // ----- the order -----

  /** A space ranks as '/'; the end of a name ranks below everything. */
  function Rank(x: int): int { if x == SPACE then SLASH else x }

  predicate Plain(a: Name) { SLASH !in a && !HasProgram(a) }

  /** The first position from `i` on where two names differ. */
  ghost predicate DifferFirstAt(a: Name, b: Name, i: nat) {
    i <= |a| && i <= |b| && (forall j | 0 <= j < i :: a[j] == b[j]) && At(a, i) != At(b, i)
  }

  /** Lexicographic order by rank. */
  ghost predicate Before(a: Name, b: Name) {
    exists i: nat :: DifferFirstAt(a, b, i) && Rank(At(a, i)) < Rank(At(b, i))
  }

  /** The scan stops at the first difference. */
  lemma {:induction false} ScanFinds(a: Name, b: Name, i: nat)
    requires i <= |a| && i <= |b| && forall j | 0 <= j < i :: a[j] == b[j]
    ensures CompareFrom(a, b, i) == 0 <==> a == b
    ensures a == b || exists k: nat :: i <= k && DifferFirstAt(a, b, k) && CompareFrom(a, b, i) == Decide(At(a, k), At(b, k))
    decreases |a| - i
  {
    if At(a, i) != At(b, i) {
      assert DifferFirstAt(a, b, i);
    } else if i < |a| {
      ScanFinds(a, b, i + 1);
    }
  }

  lemma DifferOnce(a: Name, b: Name, i: nat, k: nat)
    requires DifferFirstAt(a, b, i) && DifferFirstAt(a, b, k)
    ensures i == k
  {
  }

  lemma CompareAt(a: Name, b: Name, i: nat)
    requires DifferFirstAt(a, b, i)
    ensures CompareFrom(a, b, 0) == Decide(At(a, i), At(b, i))
  {
    ScanFinds(a, b, 0);
    var k: nat :| DifferFirstAt(a, b, k) && CompareFrom(a, b, 0) == Decide(At(a, k), At(b, k));
    DifferOnce(a, b, i, k);
  }

  /**
   On plain names the comparator is that order: negative for a name before the
   other, zero only for equal names, and positive otherwise.
   */
  lemma ComparesByRank(a: Name, b: Name)
    requires Plain(a) && Plain(b)
    ensures Compare(a, b) == if a == b then 0 else if Before(a, b) then -1 else 1
    ensures Compare(a, b) == -Compare(b, a)
  {
    ScanFinds(a, b, 0);
    if a != b {
      var i: nat :| DifferFirstAt(a, b, i) && CompareFrom(a, b, 0) == Decide(At(a, i), At(b, i));
      assert DifferFirstAt(b, a, i);
      CompareAt(b, a, i);
      DecidedAt(a, b, i);
    } else {
      ScanFinds(b, a, 0);
      assert !Before(a, b);
    }
  }

  /** The order is transitive. */
  lemma Transitive(a: Name, b: Name, c: Name)
    requires Plain(a) && Plain(b) && Plain(c) && Compare(a, b) < 0 && Compare(b, c) < 0
    ensures Compare(a, c) < 0
  {
    ComparesByRank(a, b);
    ComparesByRank(b, c);
    var i: nat :| DifferFirstAt(a, b, i) && Rank(At(a, i)) < Rank(At(b, i));
    var k: nat :| DifferFirstAt(b, c, k) && Rank(At(b, k)) < Rank(At(c, k));
    var m := if i < k then i else k;
    assert DifferFirstAt(a, c, m);
    CompareAt(a, c, m);
  }

  /** The order by its letters: the first two that differ decide, a space counting as 47. */
  lemma FirstLetterDecides(a: Name, b: Name, i: nat)
    requires Plain(a) && Plain(b) && i < |a| && i < |b| && a[..i] == b[..i] && a[i] != b[i]
    ensures Compare(a, b) == if (if a[i] == 32 then 47 else a[i]) < (if b[i] == 32 then 47 else b[i]) then -1 else 1
  {
    assert forall j | 0 <= j < i :: a[j] == a[..i][j] && b[j] == b[..i][j];
    CompareAt(a, b, i);
  }

  /** A name comes before every longer name that starts with it. */
  lemma PrefixFirst(a: Name, b: Name)
    requires Plain(a) && Plain(b) && |a| < |b| && b[..|a|] == a
    ensures Compare(a, b) == -1 && Compare(b, a) == 1
  {
    assert forall j | 0 <= j < |a| :: a[j] == b[..|a|][j];
    CompareAt(a, b, |a|);
    CompareAt(b, a, |a|);
  }

  // ----- names the order is not meant for -----

  predicate SpaceAndSlash(x: int, y: int) { (x == SPACE && y == SLASH) || (x == SLASH && y == SPACE) }

  /** Two names first differ in a space against a '/'. */
  ghost predicate Clash(a: Name, b: Name) {
    exists i: nat :: DifferFirstAt(a, b, i) && SpaceAndSlash(At(a, i), At(b, i))
  }

  /** The first difference decides the order and whether there is a clash. */
  lemma DecidedAt(a: Name, b: Name, i: nat)
    requires DifferFirstAt(a, b, i)
    ensures Before(a, b) <==> Rank(At(a, i)) < Rank(At(b, i))
    ensures Clash(a, b) <==> SpaceAndSlash(At(a, i), At(b, i))
  {
    if Before(a, b) {
      var k: nat :| DifferFirstAt(a, b, k) && Rank(At(a, k)) < Rank(At(b, k));
      DifferOnce(a, b, i, k);
    }
    if Clash(a, b) {
      var k: nat :| DifferFirstAt(a, b, k) && SpaceAndSlash(At(a, k), At(b, k));
      DifferOnce(a, b, i, k);
    }
  }

  /** On any two names the scan puts one behind the other exactly if the order or a clash does. */
  lemma BehindIff(a: Name, b: Name)
    ensures CompareFrom(b, a, 0) == 1 <==> Before(a, b) || Clash(a, b)
  {
    ScanFinds(b, a, 0);
    if a != b {
      var i: nat :| DifferFirstAt(b, a, i) && CompareFrom(b, a, 0) == Decide(At(b, i), At(a, i));
      assert DifferFirstAt(a, b, i);
      DecidedAt(a, b, i);
    }
  }

  /** Without program disks the comparator contradicts itself exactly on a clash. */
  lemma AntisymmetricIff(a: Name, b: Name)
    requires !HasProgram(a) && !HasProgram(b)
    ensures Compare(a, b) == -Compare(b, a) <==> !Clash(a, b)
  {
    ScanFinds(a, b, 0);
    if a != b {
      var i: nat :| DifferFirstAt(a, b, i) && CompareFrom(a, b, 0) == Decide(At(a, i), At(b, i));
      assert DifferFirstAt(b, a, i);
      CompareAt(b, a, i);
      DecidedAt(a, b, i);
    }
  }

  /** The names of a space and of a '/': each sorts behind the other. */
  lemma SpaceAgainstSlash()
    ensures Compare([SPACE], [SLASH]) == Compare([SLASH], [SPACE]) == 1
  {
  }

  /**
   A program disk is put first whatever the other name is. That is consistent
   exactly against a name that is not one and that the order puts behind it, or
   that clashes with it.
   */
  lemma ProgramConsistentIff(a: Name, b: Name)
    requires HasProgram(a)
    ensures Compare(a, b) == -Compare(b, a) <==> !HasProgram(b) && (Before(a, b) || Clash(a, b))
  {
    BehindIff(a, b);
  }

  /** Two program disks, even a disk and itself, each sort before the other. */
  lemma ProgramBeforeItself()
    ensures Compare(PROGRAM, PROGRAM) == -1
  {
    assert ProgramAt(PROGRAM, 0);
  }
}
