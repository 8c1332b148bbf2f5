/**
 * The growable array of student records of
 * tests/graphs/correct/complex_structures.c and the algorithms the program
 * runs over it: growth by doubling, first maximum by GPA, counting per major,
 * bubble sort by descending GPA and binary search by id.
 */
module Students {
  import opened CTypes

  /**
   * A student record.  The C record keeps `name` and `major` in fixed
   * character arrays compared with `strcmp`; here they are strings compared
   * for equality.  The `float` GPA is only ever compared, so it is a real.
   */
  datatype Student = Student(name: string, id: Int32, gpa: real, major: string)

  /** The five majors that the per-major count recognises, in the source's order. */
  const Majors: seq<string> := ["Computer Science", "Mathematics", "Physics", "Chemistry", "Biology"]

  /** `k` is the first position holding the highest GPA of `s`. */
  ghost predicate IsFirstMax(s: seq<Student>, k: nat) {
    && k < |s|
    && (forall j :: 0 <= j < |s| ==> s[j].gpa <= s[k].gpa)
    && (forall j :: 0 <= j < k ==> s[j].gpa < s[k].gpa)
  }

  /** GPAs never increase from front to back. */
  ghost predicate SortedByGpaDescending(s: seq<Student>) {
    forall a, b :: 0 <= a < b < |s| ==> s[a].gpa >= s[b].gpa
  }

  /** Ids never decrease from front to back: what binary search assumes. */
  ghost predicate SortedById(s: seq<Student>) {
    forall a, b :: 0 <= a < b < |s| ==> s[a].id <= s[b].id
  }

  /** The number of students in `s` whose major is `m`. */
  function CountMajor(s: seq<Student>, m: string): nat {
    if s == [] then 0
    else CountMajor(s[..|s| - 1], m) + (if s[|s| - 1].major == m then 1 else 0)
  }

  /** The number of students in `s` whose major is one of `ms`. */
  function CountIn(s: seq<Student>, ms: seq<string>): nat {
    if s == [] then 0
    else CountIn(s[..|s| - 1], ms) + (if s[|s| - 1].major in ms then 1 else 0)
  }

  /** For each major of `ms`, in order, how many students of `s` have it. */
  function CountsFor(s: seq<Student>, ms: seq<string>): (r: seq<nat>)
    ensures |r| == |ms|
  {
    seq(|ms|, j requires 0 <= j < |ms| => CountMajor(s, ms[j]))
  }

  /** The sum of a sequence of counts. */
  function Sum(xs: seq<nat>): nat {
    if xs == [] then 0 else xs[0] + Sum(xs[1..])
  }

  /** No major is listed twice. */
  ghost predicate Distinct(ms: seq<string>) {
    forall a, b :: 0 <= a < b < |ms| ==> ms[a] != ms[b]
  }

  lemma MajorsDistinct()
    ensures Distinct(Majors)
  {
    assert |Majors[0]| == 16 && |Majors[1]| == 11 && |Majors[2]| == 7 && |Majors[3]| == 9 && |Majors[4]| == 7;
    assert Majors[2][0] != Majors[4][0];
  }

  /** Counting a major that is not among `ms` separately adds up with the count for `ms`. */
  lemma {:induction false} CountInSplit(s: seq<Student>, m: string, ms: seq<string>)
    requires m !in ms
    ensures CountIn(s, [m] + ms) == CountMajor(s, m) + CountIn(s, ms)
  {
    if s != [] {
      CountInSplit(s[..|s| - 1], m, ms);
    }
  }

  /** No more students are counted than there are. */
  lemma {:induction false} CountInAtMost(s: seq<Student>, ms: seq<string>)
    ensures CountIn(s, ms) <= |s|
  {
    if s != [] {
      CountInAtMost(s[..|s| - 1], ms);
    }
  }

  /**
   * Each student is counted under at most one major: the per-major counts
   * of distinct majors add up to the number of students having any of them,
   * and so to at most the number of students.
   */
  lemma {:induction false} CountsAddUp(s: seq<Student>, ms: seq<string>)
    requires Distinct(ms)
    ensures Sum(CountsFor(s, ms)) == CountIn(s, ms) <= |s|
  {
    CountInAtMost(s, ms);
    if ms == [] {
      CountInNone(s);
    } else {
      assert CountsFor(s, ms)[1..] == CountsFor(s, ms[1..]);
      assert ms == [ms[0]] + ms[1..];
      CountsAddUp(s, ms[1..]);
      CountInSplit(s, ms[0], ms[1..]);
    }
  }

  /** Nobody's major is in an empty list. */
  lemma {:induction false} CountInNone(s: seq<Student>)
    ensures CountIn(s, []) == 0
  {
    if s != [] {
      CountInNone(s[..|s| - 1]);
    }
  }

  /**
   * The dynamic array: a block of `capacity` records of which the first
   * `size` are in use; `students` is NULL once the array is freed.
   */
  class StudentArray {
    var students: array?<Student>
    var size: SizeT
    var capacity: SizeT

    /** The growth invariant: the used part fits in the block, and the block is `capacity` records long. */
    ghost predicate Valid()
      reads this
    {
      && size <= capacity
      && (students == null ==> capacity == 0)
      && (students != null ==> students.Length == capacity)
    }

    /** The records in use, in order. */
    ghost function Elements(): seq<Student>
      reads this, students
      requires Valid()
    {
      if students == null then [] else students[..size]
    }

    /** A declared array before `student_array_init`: no block, nothing in use. */
    constructor ()
      ensures students == null && size == 0 && capacity == 0
      ensures Valid() && Elements() == []
    {
      students := null;
      size := 0;
      capacity := 0;
    }

    /** `student_array_init`: a fresh block of `initialCapacity` records, none in use. */
    method Init(initialCapacity: SizeT)
      modifies this
      ensures Valid() && students != null && fresh(students)
      ensures size == 0 && capacity == initialCapacity
      ensures Elements() == []
    {
      students := new Student[initialCapacity];
      size := 0;
      capacity := initialCapacity;
    }

    /**
     * `student_array_add`: appends `s`, first doubling the capacity (and
     * moving the records to a block of the new size) when the array is full.
     * A zero capacity doubles to zero, so the source's callers need a
     * positive capacity; the doubled capacity must still be a `size_t`.
     */
    method Add(s: Student)
      requires Valid() && capacity > 0
      requires size < capacity || 2 * capacity < SizeModulus
      modifies this, students
      ensures Valid() && capacity > 0
      ensures size == old(size) + 1
      ensures capacity == if old(size) >= old(capacity) then 2 * old(capacity) else old(capacity)
      ensures Elements() == old(Elements()) + [s]
      ensures old(size) < old(capacity) ==> students == old(students)
      ensures old(size) >= old(capacity) ==> fresh(students)
    {
      if size >= capacity {
        capacity := capacity * 2;
        var grown := new Student[capacity];
        forall k | 0 <= k < size {
          grown[k] := students[k];
        }
        students := grown;
      }
      students[size] := s;
      size := size + 1;
    }

    /** `student_array_free`: the block is released, leaving an empty array with no storage. */
    method Free()
      modifies this
      ensures students == null && size == 0 && capacity == 0
      ensures Valid() && Elements() == []
    {
      students := null;
      size := 0;
      capacity := 0;
    }

    /** `find_top_student`: none for an empty array, else the first position of the highest GPA. */
    method FindTop() returns (top: Option<nat>)
      requires Valid()
      ensures top.None? <==> size == 0
      ensures top.Some? ==> IsFirstMax(Elements(), top.value)
    {
      if size == 0 {
        return None;
      }
      ghost var s := Elements();
      var t := 0;
      for i := 1 to size
        invariant t < i
        invariant forall j :: 0 <= j < i ==> s[j].gpa <= s[t].gpa
        invariant forall j :: 0 <= j < t ==> s[j].gpa < s[t].gpa
      {
        if students[i].gpa > students[t].gpa {
          t := i;
        }
      }
      return Some(t);
    }

    /**
     * The counting part of `count_students_by_major`: for each of the five
     * majors, the number of students with that major; a student is counted
     * under the first major that matches and no other.
     */
    method CountByMajor() returns (counts: seq<nat>)
      requires Valid()
      ensures |counts| == |Majors|
      ensures forall j :: 0 <= j < |Majors| ==> counts[j] == CountMajor(Elements(), Majors[j])
      ensures Sum(counts) <= size
    {
      MajorsDistinct();
      ghost var s := Elements();
      var majorCounts := new nat[|Majors|](_ => 0);
      for i := 0 to size
        invariant forall j :: 0 <= j < |Majors| ==> majorCounts[j] == CountMajor(s[..i], Majors[j])
      {
        assert s[..i + 1][..i] == s[..i];
        var j := 0;
        while j < |Majors|
          invariant 0 <= j <= |Majors|
          invariant forall m :: 0 <= m < j ==> students[i].major != Majors[m]
          invariant forall m :: 0 <= m < |Majors| ==> majorCounts[m] == CountMajor(s[..i], Majors[m])
        {
          if students[i].major == Majors[j] {
            majorCounts[j] := majorCounts[j] + 1;
            break;
          }
          j := j + 1;
        }
      }
      counts := majorCounts[..];
      assert s[..size] == s;
      assert counts == CountsFor(s, Majors);
      CountsAddUp(s, Majors);
    }

    /**
     * `bubble_sort_students`, with the outer bound `size - 1` read as a
     * signed difference (see WrittenSortOuterBound for the `size_t` one):
     * the records in use end up ordered by descending GPA, as a
     * permutation of what they were, and the rest of the block is untouched.
     */
    method BubbleSort()
      requires Valid()
      modifies students
      ensures Valid()
      ensures SortedByGpaDescending(Elements())
      ensures multiset(Elements()) == old(multiset(Elements()))
      ensures students != null ==> students[size..] == old(students[size..])
    {
      var n: nat := size;
      var i: nat := 0;
      while i + 1 < n
        invariant i <= n
        invariant students != null ==> students[n..] == old(students[n..])
        invariant students != null ==> multiset(students[..n]) == old(multiset(students[..n]))
        invariant students != null ==> SortedFrom(students[..n], n - i) && SplitAt(students[..n], n - i)
      {
        BubblePass(students, n, n - i);
        i := i + 1;
      }
      if students != null && n > 0 {
        assert SplitAt(students[..n], 1);
      }
    }

    /**
     * `binary_search_student`, with `left`, `right` and `mid` as signed
     * integers (see WrittenSearchStep for the `size_t` ones): a position
     * found holds the target id, and when the ids are sorted ascending an
     * id that is present is found.
     */
    method BinarySearch(targetId: Int32) returns (found: Option<nat>)
      requires Valid()
      ensures found.Some? ==> found.value < size && Elements()[found.value].id == targetId
      ensures found.None? && SortedById(Elements()) ==> forall k :: 0 <= k < size ==> Elements()[k].id != targetId
    {
      ghost var s := Elements();
      var left: int := 0;
      var right: int := size - 1;
      while left <= right
        invariant 0 <= left <= size && -1 <= right < size
        invariant SortedById(s) ==> forall k :: 0 <= k < left ==> s[k].id < targetId
        invariant SortedById(s) ==> forall k :: right < k < size ==> s[k].id > targetId
        decreases right - left
      {
        var mid := left + (right - left) / 2;
        if students[mid].id == targetId {
          return Some(mid);
        } else if students[mid].id < targetId {
          left := mid + 1;
        } else {
          right := mid - 1;
        }
      }
      return None;
    }
  }

  /** From position `m` on, GPAs never increase. */
  ghost predicate SortedFrom(s: seq<Student>, m: nat) {
    forall x, y :: m <= x < y < |s| ==> s[x].gpa >= s[y].gpa
  }

  /** Every GPA before position `m` is at least every GPA from `m` on. */
  ghost predicate SplitAt(s: seq<Student>, m: nat) {
    forall x, y :: 0 <= x < m <= y < |s| ==> s[x].gpa >= s[y].gpa
  }

  /**
   * One pass of the inner loop of `bubble_sort_students` over the first `m`
   * of the `n` records in use: it reorders only those `m`, keeps them above
   * the records after them, and leaves the lowest of them at position `m - 1`.
   */
  method BubblePass(a: array<Student>, n: nat, m: nat)
    requires 2 <= m <= n <= a.Length
    requires SortedFrom(a[..n], m) && SplitAt(a[..n], m)
    modifies a
    ensures SortedFrom(a[..n], m - 1) && SplitAt(a[..n], m - 1)
    ensures a[m..] == old(a[m..])
    ensures multiset(a[..m]) == old(multiset(a[..m]))
    ensures multiset(a[..n]) == old(multiset(a[..n]))
  {
    ghost var before := a[..n];
    var j: nat := 0;
    while j + 1 < m
      invariant j < m
      invariant forall x :: 0 <= x < j ==> a[x].gpa >= a[j].gpa
      invariant SplitAt(a[..n], m)
      invariant a[m..] == old(a[m..])
      invariant multiset(a[..m]) == old(multiset(a[..m]))
    {
      if a[j].gpa < a[j + 1].gpa {
        SwapAdjacent(a, n, m, j);
      }
      j := j + 1;
    }
    PassEnd(before, a[..n], m);
    assert a[m..n] == a[m..][..n - m];
    assert a[..n] == a[..m] + a[m..n];
    assert before == old(a[..m]) + before[m..n];
  }

  /** Exchanging neighbours `j` and `j + 1` among the first `m` records reorders only those `m`. */
  method SwapAdjacent(a: array<Student>, n: nat, m: nat, j: nat)
    requires j + 1 < m <= n <= a.Length
    requires SplitAt(a[..n], m)
    modifies a
    ensures a[j] == old(a[j + 1]) && a[j + 1] == old(a[j])
    ensures forall k :: 0 <= k < a.Length && k != j && k != j + 1 ==> a[k] == old(a[k])
    ensures SplitAt(a[..n], m)
    ensures a[m..] == old(a[m..])
    ensures multiset(a[..m]) == old(multiset(a[..m]))
  {
    a[j], a[j + 1] := a[j + 1], a[j];
  }

  /** After a pass, position `m - 1` joins the sorted tail and the split moves down by one. */
  lemma PassEnd(before: seq<Student>, after: seq<Student>, m: nat)
    requires 2 <= m <= |before| == |after|
    requires SortedFrom(before, m) && SplitAt(after, m)
    requires after[m..] == before[m..]
    requires forall x :: 0 <= x < m - 1 ==> after[x].gpa >= after[m - 1].gpa
    ensures SortedFrom(after, m - 1) && SplitAt(after, m - 1)
  {
    forall x, y | m - 1 <= x < y < |after|
      ensures after[x].gpa >= after[y].gpa
    {
      assert after[y] == after[m..][y - m] == before[y];
      if m <= x {
        assert after[x] == after[m..][x - m] == before[x];
      }
    }
  }

  // The source as written, in `size_t` arithmetic.

  /** The outer bound `arr->size - 1` of the source's bubble sort, on `size_t`. */
  function WrittenSortOuterBound(size: SizeT): SizeT {
    SizeSub(size, 1)
  }

  /** The inner bound `arr->size - i - 1` of the source's bubble sort, on `size_t`. */
  function WrittenSortInnerBound(size: SizeT, i: SizeT): SizeT {
    SizeSub(SizeSub(size, i), 1)
  }

  /**
   * On an empty array both bounds wrap to the largest `size_t`, so the first
   * pass compares positions 0 and 1 although no record is in use.
   */
  lemma WrittenSortOverrunsEmpty()
    ensures 0 < WrittenSortOuterBound(0) && 0 < WrittenSortInnerBound(0, 0)
    ensures WrittenSortOuterBound(0) == SizeMax && WrittenSortInnerBound(0, 0) == SizeMax
  {
  }

  /** On a non-empty array the `size_t` bounds are the signed ones that BubbleSort uses. */
  lemma WrittenSortBoundsAgree(size: SizeT, i: SizeT)
    requires 1 <= size && i < size
    ensures WrittenSortOuterBound(size) == size - 1
    ensures WrittenSortInnerBound(size, i) == size - i - 1
  {
  }

  /** What one iteration of the source's binary-search loop does. */
  datatype Probe =
    | Hit(index: nat)            // `arr->students[mid]` has the target id
    | Narrow(left: SizeT, right: SizeT)  // the loop continues on [left, right]
    | Outside(index: nat)        // `mid` lies beyond the records in use
    | Miss                       // `left > right`: NULL is returned

  /** The initial bounds `left = 0`, `right = arr->size - 1`, on `size_t`. */
  function WrittenSearchStart(size: SizeT): (SizeT, SizeT) {
    (0, SizeSub(size, 1))
  }

  /** One iteration of the source's binary search with `size_t` bounds. */
  function WrittenSearchStep(s: seq<Student>, targetId: Int32, left: SizeT, right: SizeT): Probe
    requires |s| < SizeMax
  {
    if left > right then Miss
    else
      var mid := left + (right - left) / 2;
      if mid >= |s| then Outside(mid)
      else if s[mid].id == targetId then Hit(mid)
      else if s[mid].id < targetId then Narrow(mid + 1, right)
      else Narrow(left, SizeSub(mid, 1))
  }

  /**
   * Wherever nothing wraps, one step of the source's search does what one
   * iteration of BinarySearch does: the only step that differs is the one
   * that probes position 0 with an id above the target.
   */
  lemma WrittenSearchStepAgrees(s: seq<Student>, targetId: Int32, left: SizeT, right: SizeT)
    requires |s| < SizeMax && left <= right < |s|
    requires var mid := left + (right - left) / 2; !(mid == 0 && s[0].id > targetId)
    ensures var mid := left + (right - left) / 2;
            WrittenSearchStep(s, targetId, left, right) ==
              if s[mid].id == targetId then Hit(mid)
              else if s[mid].id < targetId then Narrow(mid + 1, right)
              else Narrow(left, mid - 1)
  {
  }

  /**
   * Searching a one-record array for an id below the record's: `right = mid - 1`
   * wraps from 0 to the largest `size_t`, the loop goes on, and the next
   * `mid` lies far past the single record.
   */
  lemma WrittenSearchOverrunsBelowSmallest()
    ensures var s := [Student("", 5, 0.0, "")];
            && WrittenSearchStart(|s|) == (0, 0)
            && WrittenSearchStep(s, 3, 0, 0) == Narrow(0, SizeMax)
            && WrittenSearchStep(s, 3, 0, SizeMax) == Outside(SizeMax / 2)
  {
  }

  /** Searching an empty array: `right` starts at the largest `size_t` and the first `mid` is out of range. */
  lemma WrittenSearchOverrunsEmpty(targetId: Int32)
    ensures WrittenSearchStart(0) == (0, SizeMax)
    ensures WrittenSearchStep([], targetId, 0, SizeMax) == Outside(SizeMax / 2)
  {
  }
}
