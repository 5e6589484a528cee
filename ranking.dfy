/** The subject ranking behind the overall comment:
    `sorted(marks.items(), key=lambda x: x[1], reverse=True)` (comments.py,
    lines 105-108), a stable sort from the highest mark to the lowest. */
module Ranking {
  import opened Cells

  /** Inserts x in front of the first entry whose mark is not above x's, so
      that x stays ahead of the entries with its mark that followed it. */
  function Insert(x: Entry, l: seq<Entry>): (r: seq<Entry>)
    ensures |r| == |l| + 1
  {
    if l == [] || x.mark >= l[0].mark then [x] + l else [l[0]] + Insert(x, l[1..])
  }

  /** The items ordered from the highest mark to the lowest, ties in input order. */
  function SortDescending(s: seq<Entry>): (r: seq<Entry>)
    ensures |r| == |s|
  {
    if s == [] then [] else Insert(s[0], SortDescending(s[1..]))
  }

  predicate Descending(s: seq<Entry>) {
    forall i, j :: 0 <= i < j < |s| ==> s[i].mark >= s[j].mark
  }

  /** The entries of s that have mark v, in their order in s. */
  function WithMark(s: seq<Entry>, v: int): seq<Entry> {
    if s == [] then [] else (if s[0].mark == v then [s[0]] else []) + WithMark(s[1..], v)
  }

  lemma {:induction false} InsertPermutes(x: Entry, l: seq<Entry>)
    ensures multiset(Insert(x, l)) == multiset([x] + l)
  {
    if l != [] && x.mark < l[0].mark {
      InsertPermutes(x, l[1..]);
      assert l == [l[0]] + l[1..];
    }
  }

  lemma {:induction false} InsertDescending(x: Entry, l: seq<Entry>)
    requires Descending(l)
    ensures Descending(Insert(x, l))
    ensures Insert(x, l)[0] == x || (l != [] && Insert(x, l)[0] == l[0])
  {
    if l != [] && x.mark < l[0].mark {
      InsertDescending(x, l[1..]);
      var r := Insert(x, l);
      var t := Insert(x, l[1..]);
      assert r == [l[0]] + t;
      forall j | 0 < j < |r|
        ensures r[0].mark >= r[j].mark
      {
        assert r[j] == t[j - 1];
        if j == 1 {
          assert t[0] == x || t[0] == l[1];
        } else {
          assert t[0].mark >= t[j - 1].mark;
          assert t[0] == x || t[0] == l[1];
        }
      }
    }
  }

  lemma {:induction false} InsertWithMark(x: Entry, l: seq<Entry>, v: int)
    ensures WithMark(Insert(x, l), v) == WithMark([x] + l, v)
  {
    if l != [] && x.mark < l[0].mark {
      InsertWithMark(x, l[1..], v);
      assert ([l[0]] + Insert(x, l[1..]))[1..] == Insert(x, l[1..]);
      assert ([x] + l)[1..] == l;
      assert ([x] + l[1..])[1..] == l[1..];
    } else {
      assert Insert(x, l) == [x] + l;
    }
  }

  /** The sort orders by mark, from the highest down, and keeps every item. */
  lemma {:induction false} SortDescendingPermutes(s: seq<Entry>)
    ensures Descending(SortDescending(s))
    ensures multiset(SortDescending(s)) == multiset(s)
  {
    if s != [] {
      SortDescendingPermutes(s[1..]);
      InsertDescending(s[0], SortDescending(s[1..]));
      InsertPermutes(s[0], SortDescending(s[1..]));
      assert s == [s[0]] + s[1..];
    }
  }

  /** The sort is stable: the items with any one mark keep their input order. */
  lemma {:induction false} SortDescendingStable(s: seq<Entry>, v: int)
    ensures WithMark(SortDescending(s), v) == WithMark(s, v)
  {
    if s != [] {
      SortDescendingStable(s[1..], v);
      InsertWithMark(s[0], SortDescending(s[1..]), v);
    }
  }

  lemma {:induction false} WithMarkEmpty(s: seq<Entry>, v: int)
    ensures WithMark(s, v) == [] <==> forall j :: 0 <= j < |s| ==> s[j].mark != v
  {
    if s != [] {
      WithMarkEmpty(s[1..], v);
      assert forall j :: 1 <= j < |s| ==> s[j] == s[1..][j - 1];
    }
  }

  /** The first item with mark v is the earliest one in s. */
  lemma {:induction false} WithMarkFirst(s: seq<Entry>, v: int) returns (i: nat)
    requires WithMark(s, v) != []
    ensures i < |s| && WithMark(s, v)[0] == s[i] && s[i].mark == v
    ensures forall j :: 0 <= j < i ==> s[j].mark != v
  {
    if s[0].mark == v {
      i := 0;
    } else {
      var k := WithMarkFirst(s[1..], v);
      i := k + 1;
      assert forall j :: 1 <= j < |s| ==> s[j] == s[1..][j - 1];
    }
  }

  /** The last item with mark v is the latest one in s. */
  lemma {:induction false} WithMarkLast(s: seq<Entry>, v: int) returns (i: nat)
    requires WithMark(s, v) != []
    ensures i < |s| && WithMark(s, v)[|WithMark(s, v)| - 1] == s[i] && s[i].mark == v
    ensures forall j :: i < j < |s| ==> s[j].mark != v
  {
    WithMarkEmpty(s[1..], v);
    assert forall j :: 1 <= j < |s| ==> s[j] == s[1..][j - 1];
    if WithMark(s[1..], v) == [] {
      i := 0;
    } else {
      var k := WithMarkLast(s[1..], v);
      i := k + 1;
    }
  }

  /** Every item's mark lies between the last and the first mark of the sorted order. */
  lemma SortedBounds(s: seq<Entry>, j: nat)
    requires j < |s|
    ensures SortDescending(s)[|s| - 1].mark <= s[j].mark <= SortDescending(s)[0].mark
  {
    var r := SortDescending(s);
    SortDescendingPermutes(s);
    assert s[j] in multiset(s);
    assert s[j] in r;
    var k :| 0 <= k < |r| && r[k] == s[j];
    assert k == 0 || r[0].mark >= r[k].mark;
    assert k == |r| - 1 || r[k].mark >= r[|r| - 1].mark;
  }

  /** The first-ranked subject is the earliest-inserted subject with the highest mark. */
  lemma FirstRankedIsEarliestHighest(s: seq<Entry>) returns (i: nat)
    requires |s| >= 1
    ensures i < |s| && SortDescending(s)[0] == s[i]
    ensures forall j :: 0 <= j < |s| ==> s[j].mark <= s[i].mark
    ensures forall j :: 0 <= j < i ==> s[j].mark < s[i].mark
  {
    var r := SortDescending(s);
    SortDescendingPermutes(s);
    var top := r[0].mark;
    SortDescendingStable(s, top);
    assert WithMark(r, top) == [r[0]] + WithMark(r[1..], top);
    i := WithMarkFirst(s, top);
    forall j | 0 <= j < |s|
      ensures s[j].mark <= top
    {
      SortedBounds(s, j);
    }
  }

  /** The last-ranked subject is the latest-inserted subject with the lowest mark. */
  lemma LastRankedIsLatestLowest(s: seq<Entry>) returns (i: nat)
    requires |s| >= 1
    ensures i < |s| && SortDescending(s)[|s| - 1] == s[i]
    ensures forall j :: 0 <= j < |s| ==> s[j].mark >= s[i].mark
    ensures forall j :: i < j < |s| ==> s[j].mark > s[i].mark
  {
    var r := SortDescending(s);
    SortDescendingPermutes(s);
    var bottom := r[|r| - 1].mark;
    SortDescendingStable(s, bottom);
    WithMarkEmpty(r, bottom);
    var k := WithMarkLast(r, bottom);
    assert k == |r| - 1;
    i := WithMarkLast(s, bottom);
    forall j | 0 <= j < |s|
      ensures s[j].mark >= bottom
    {
      SortedBounds(s, j);
    }
  }
}
