/** The display order that Main.render computes from the context's students
    (src/components/Main/Main.js): escalated records (`order !== 0`) sorted by
    `order`, followed by the records with `order === 0` in list order. */
module Ordering {
  import opened Students

  predicate IsEscalated(x: Student) { x.order != 0 }

  predicate IsWaiting(x: Student) { x.order == 0 }

  /** The comparator handed to `sort`: it never answers 0, so ties are left
      to the engine. */
  function Compare(a: Student, b: Student): (r: int)
    ensures r != 0
    ensures r > 0 <==> a.order > b.order
  {
    if a.order > b.order then 1 else -1
  }

  ghost predicate SortedByOrder(s: seq<Student>) {
    forall i, j :: 0 <= i < j < |s| ==> s[i].order <= s[j].order
  }

  /** One step of an insertion sort driven by Compare: `x` moves left past
      every element the comparator puts after it. */
  function Insert(sorted: seq<Student>, x: Student): (r: seq<Student>)
    ensures multiset(r) == multiset(sorted) + multiset{x}
  {
    if sorted == [] then [x]
    else
      var n := |sorted| - 1;
      assert sorted == sorted[..n] + [sorted[n]];
      if Compare(sorted[n], x) > 0 then Insert(sorted[..n], x) + [sorted[n]]
      else sorted + [x]
  }

  /** `studentsToSort.sort(Compare)`, as an insertion sort that scans the
      array from the left.  ECMAScript leaves the result order
      implementation-defined for a comparator that never answers 0; this
      sort moves a record left only past a strictly larger `order`, so tied
      records keep their stored order (TiesKeepStoredOrder shows two),
      which an engine need not do. */
  function SortByOrder(s: seq<Student>): (r: seq<Student>)
    ensures multiset(r) == multiset(s)
  {
    if s == [] then []
    else
      var n := |s| - 1;
      assert s == s[..n] + [s[n]];
      Insert(SortByOrder(s[..n]), s[n])
  }

  /** `[...sortedStudents, ...studentsToList]`. */
  function Ordered(s: seq<Student>): (r: seq<Student>)
    ensures multiset(r) == multiset(s)
    ensures |r| == |s|
  {
    FilterCount(s, IsEscalated);
    FilterCount(s, IsWaiting);
    var e, w := Filter(s, IsEscalated), Filter(s, IsWaiting);
    assert multiset(e) + multiset(w) == multiset(s) by {
      forall x: Student ensures (multiset(e) + multiset(w))[x] == multiset(s)[x] {
      }
    }
    assert |multiset(SortByOrder(e) + w)| == |multiset(s)|;
    SortByOrder(e) + w
  }

  /** render: `this.context.students || []`, then the order above. */
  function Render(students: Option<seq<Student>>): (r: seq<Student>)
    ensures students.None? ==> r == []
    ensures students.Some? ==> multiset(r) == multiset(students.value)
  {
    match students
    case None => []
    case Some(s) => Ordered(s)
  }

  // ---------------------------------------------------------------------
  // Sorting
  // ---------------------------------------------------------------------

  lemma {:induction false} InsertBounded(sorted: seq<Student>, x: Student, bound: int)
    requires forall i :: 0 <= i < |sorted| ==> sorted[i].order <= bound
    requires x.order <= bound
    ensures forall i :: 0 <= i < |Insert(sorted, x)| ==> Insert(sorted, x)[i].order <= bound
  {
    if sorted != [] {
      var n := |sorted| - 1;
      if Compare(sorted[n], x) > 0 {
        InsertBounded(sorted[..n], x, bound);
      }
    }
  }

  lemma {:induction false} InsertSorted(sorted: seq<Student>, x: Student)
    requires SortedByOrder(sorted)
    ensures SortedByOrder(Insert(sorted, x))
  {
    if sorted != [] {
      var n := |sorted| - 1;
      var last := sorted[n];
      if Compare(last, x) > 0 {
        var front := sorted[..n];
        assert SortedByOrder(front);
        InsertSorted(front, x);
        InsertBounded(front, x, last.order);
      }
    }
  }

  /** The sorted part is in non-decreasing `order` and is a permutation of
      its input. */
  lemma {:induction false} SortSorted(s: seq<Student>)
    ensures SortedByOrder(SortByOrder(s))
    ensures multiset(SortByOrder(s)) == multiset(s)
  {
    if s != [] {
      SortSorted(s[..|s| - 1]);
      InsertSorted(SortByOrder(s[..|s| - 1]), s[|s| - 1]);
    }
  }

  /** Sorting a sequence that is already in order changes nothing: an
      element no smaller than the last one is appended in place. */
  lemma {:induction false} SortOfSorted(s: seq<Student>)
    requires SortedByOrder(s)
    ensures SortByOrder(s) == s
  {
    if s != [] {
      var n := |s| - 1;
      assert SortedByOrder(s[..n]);
      SortOfSorted(s[..n]);
      if n > 0 {
        assert Compare(s[..n][n - 1], s[n]) < 0;
      }
      assert Insert(s[..n], s[n]) == s[..n] + [s[n]];
      assert s[..n] + [s[n]] == s;
    }
  }

  /** Two sorted permutations of one another are equal when no two of their
      elements share an `order`: the comparator's silence on ties is the only
      freedom in the display order. */
  lemma {:induction false} SortedPermutationUnique(a: seq<Student>, b: seq<Student>)
    requires SortedByOrder(a) && SortedByOrder(b)
    requires multiset(a) == multiset(b)
    requires forall i, j :: 0 <= i < j < |a| ==> a[i].order != a[j].order
    ensures a == b
  {
    assert |a| == |b| by { assert |multiset(a)| == |multiset(b)|; }
    if a != [] {
      SameHead(a, b);
      SameTail(a, b);
      SortedPermutationUnique(a[1..], b[1..]);
      assert a == [a[0]] + a[1..] && b == [b[0]] + b[1..];
    }
  }

  lemma SameHead(a: seq<Student>, b: seq<Student>)
    requires a != [] && SortedByOrder(a) && SortedByOrder(b)
    requires multiset(a) == multiset(b)
    requires forall i, j :: 0 <= i < j < |a| ==> a[i].order != a[j].order
    ensures b != [] && a[0] == b[0]
  {
    assert a[0] in multiset(b);
    var j :| 0 <= j < |b| && b[j] == a[0];
    assert b[0] in multiset(a);
    var i :| 0 <= i < |a| && a[i] == b[0];
    assert a[i].order <= a[0].order;
    assert i == 0;
  }

  lemma SameTail(a: seq<Student>, b: seq<Student>)
    requires a != [] && b != [] && a[0] == b[0]
    requires multiset(a) == multiset(b)
    ensures multiset(a[1..]) == multiset(b[1..])
  {
    assert a == [a[0]] + a[1..] && b == [b[0]] + b[1..];
    assert multiset(a) == multiset{a[0]} + multiset(a[1..]);
    assert multiset(b) == multiset{a[0]} + multiset(b[1..]);
    forall x: Student ensures multiset(a[1..])[x] == multiset(b[1..])[x] {
      assert multiset(a)[x] == multiset{a[0]}[x] + multiset(a[1..])[x];
      assert multiset(b)[x] == multiset{a[0]}[x] + multiset(b[1..])[x];
    }
  }

  // ---------------------------------------------------------------------
  // The display order
  // ---------------------------------------------------------------------

  /** Sorting moves the escalated records around but brings in no other. */
  lemma SortedPartEscalated(s: seq<Student>)
    ensures
      var sorted := SortByOrder(Filter(s, IsEscalated));
      |sorted| == |Filter(s, IsEscalated)| &&
      forall i :: 0 <= i < |sorted| ==> sorted[i].order != 0
  {
    var e := Filter(s, IsEscalated);
    var sorted := SortByOrder(e);
    assert |sorted| == |e| by { assert |multiset(sorted)| == |multiset(e)|; }
    forall i | 0 <= i < |sorted| ensures sorted[i].order != 0 {
      assert sorted[i] in multiset(e);
      var k :| 0 <= k < |e| && e[k] == sorted[i];
    }
  }

  /** The first `k` displayed records are exactly the escalated ones, where
      `k` is the number of escalated records stored; they come in
      non-decreasing `order`, and the rest is the `order == 0` records in
      their stored relative order, each as often as it is stored. */
  lemma OrderedPartition(s: seq<Student>)
    ensures |Filter(s, IsEscalated)| <= |Ordered(s)|
    ensures forall i :: 0 <= i < |Ordered(s)| ==>
      (Ordered(s)[i].order != 0 <==> i < |Filter(s, IsEscalated)|)
    ensures forall i, j :: 0 <= i < j < |Filter(s, IsEscalated)| ==>
      Ordered(s)[i].order <= Ordered(s)[j].order
    ensures IsSubsequence(Ordered(s)[|Filter(s, IsEscalated)|..], s)
    ensures forall x: Student :: x.order == 0 ==>
      multiset(Ordered(s)[|Filter(s, IsEscalated)|..])[x] == multiset(s)[x]
  {
    var e := Filter(s, IsEscalated);
    var w := Filter(s, IsWaiting);
    var sorted := SortByOrder(e);
    var r := Ordered(s);
    assert r == sorted + w;
    SortedPartEscalated(s);
    assert r[..|e|] == sorted && r[|e|..] == w;
    forall i | 0 <= i < |r| ensures r[i].order != 0 <==> i < |e| {
      if i < |e| { assert r[i] == sorted[i]; } else { assert r[i] == w[i - |e|]; }
    }
    forall i, j | 0 <= i < j < |e| ensures r[i].order <= r[j].order {
      SortSorted(e);
      assert r[i] == sorted[i] && r[j] == sorted[j];
    }
    FilterCount(s, IsWaiting);
    FilterOrder(s, IsWaiting);
  }

  /** Every escalated record is displayed before every record with
      `order == 0`. */
  lemma EscalatedFirst(s: seq<Student>)
    ensures forall i, j ::
      0 <= i < |Ordered(s)| && 0 <= j < |Ordered(s)| && Ordered(s)[i].order != 0 && Ordered(s)[j].order == 0
      ==> i < j
  {
    OrderedPartition(s);
  }

  /** When no two escalated records share an `order`, the display order is
      the only one that is sorted, escalated-first and keeps the waiting
      records in list order. */
  lemma OrderedUnique(s: seq<Student>, sortedPart: seq<Student>)
    requires SortedByOrder(sortedPart)
    requires multiset(sortedPart) == multiset(Filter(s, IsEscalated))
    requires forall i, j :: 0 <= i < j < |sortedPart| ==> sortedPart[i].order != sortedPart[j].order
    ensures Ordered(s) == sortedPart + Filter(s, IsWaiting)
  {
    SortSorted(Filter(s, IsEscalated));
    SortedPermutationUnique(sortedPart, SortByOrder(Filter(s, IsEscalated)));
  }

  /** A list that is already escalated-first, with its escalated part in
      `order`, is displayed as it is stored. */
  lemma OrderedFixpoint(escalated: seq<Student>, waiting: seq<Student>)
    requires SortedByOrder(escalated)
    requires forall i :: 0 <= i < |escalated| ==> escalated[i].order != 0
    requires forall i :: 0 <= i < |waiting| ==> waiting[i].order == 0
    ensures Ordered(escalated + waiting) == escalated + waiting
  {
    FilterSplit(escalated, waiting, IsEscalated);
    FilterSplit(escalated, waiting, IsWaiting);
    FilterKeepsAll(escalated, IsEscalated);
    FilterDropsAll(waiting, IsEscalated);
    FilterDropsAll(escalated, IsWaiting);
    FilterKeepsAll(waiting, IsWaiting);
    assert escalated + [] == escalated && [] + waiting == waiting;
    SortOfSorted(escalated);
  }

  /** Rendering the rendered list again gives the same list. */
  lemma OrderedIdempotent(s: seq<Student>)
    ensures Ordered(Ordered(s)) == Ordered(s)
  {
    SortSorted(Filter(s, IsEscalated));
    SortedPartEscalated(s);
    OrderedFixpoint(SortByOrder(Filter(s, IsEscalated)), Filter(s, IsWaiting));
  }

  lemma {:induction false} FilterSplit(a: seq<Student>, b: seq<Student>, keep: Student -> bool)
    ensures Filter(a + b, keep) == Filter(a, keep) + Filter(b, keep)
  {
    if a != [] {
      assert (a + b)[1..] == a[1..] + b;
      FilterSplit(a[1..], b, keep);
    } else {
      assert a + b == b;
    }
  }

  /** With no record escalated, for example after hydration or reset, the
      display order is the stored order. */
  lemma QuietListShownAsStored(s: seq<Student>)
    requires forall i :: 0 <= i < |s| ==> s[i].order == 0
    ensures Ordered(s) == s
  {
    FilterDropsAll(s, IsEscalated);
    FilterKeepsAll(s, IsWaiting);
  }

  lemma ResetShownAsStored(s: seq<Student>)
    ensures Ordered(ResetAll(s)) == ResetAll(s)
  {
    QuietListShownAsStored(ResetAll(s));
  }

  lemma HydrateShownAsStored(fetched: seq<Student>)
    ensures Ordered(Hydrate(fetched)) == Hydrate(fetched)
  {
    QuietListShownAsStored(Hydrate(fetched));
  }

  /** A missing or empty list renders as nothing. */
  lemma RenderEmpty(students: Option<seq<Student>>)
    requires students.None? || students == Some([])
    ensures Render(students) == []
  {
  }

  /** Two alerted records stamped at t1 < t2 and one waiting record display
      as [first alerted, second alerted, waiting] whatever their stored order. */
  lemma TwoAlertsAndOneWaiting(a: Student, b: Student, c: Student)
    requires 0 < a.order < b.order && c.order == 0
    ensures Ordered([c, b, a]) == [a, b, c]
  {
    ExampleFilters(a, b, c);
    ExampleSort(a, b);
  }

  lemma ExampleFilters(a: Student, b: Student, c: Student)
    requires 0 < a.order < b.order && c.order == 0
    ensures Filter([c, b, a], IsEscalated) == [b, a]
    ensures Filter([c, b, a], IsWaiting) == [c]
  {
    var s := [c, b, a];
    assert s[1..] == [b, a] && s[1..][1..] == [a] && s[1..][1..][1..] == [];
    assert Filter([a], IsEscalated) == [a];
    assert Filter([a], IsWaiting) == [];
  }

  /** The model's sort keeps two records with equal `order` in stored order. */
  lemma TiesKeepStoredOrder(a: Student, b: Student)
    requires a.order == b.order
    ensures SortByOrder([a, b]) == [a, b]
  {
    assert [a, b][..1] == [a] && [a][..0] == [];
    assert SortByOrder([a]) == Insert([], a) == [a];
  }

  lemma ExampleSort(a: Student, b: Student)
    requires 0 < a.order < b.order
    ensures SortByOrder([b, a]) == [a, b]
  {
  }
}
