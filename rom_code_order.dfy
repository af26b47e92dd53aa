/** Sequences of codes ordered by raw value, and the sort the registry applies
    to its list of codes. */
module RomCodeOrder {
  import opened RomCodes
  import opened RomCodeFacts

  /** No later element is less than an earlier one. */
  predicate Ascending(s: seq<RomCode>) {
    forall i, j :: 0 <= i < j < |s| ==> !s[j].Less(s[i])
  }

  /** Every element is less than every later one. */
  predicate StrictlyAscending(s: seq<RomCode>) {
    forall i, j :: 0 <= i < j < |s| ==> s[i].Less(s[j])
  }

  /** No code occurs twice. */
  predicate Distinct(s: seq<RomCode>) {
    forall i, j :: 0 <= i < j < |s| ==> s[i] != s[j]
  }

  /** `x` placed in front of the first element of `s` that is not less than it. */
  function Insert(x: RomCode, s: seq<RomCode>): (r: seq<RomCode>)
    requires Ascending(s)
    ensures Ascending(r)
    ensures multiset(r) == multiset(s) + multiset{x}
    ensures forall y :: y in r <==> y == x || y in s
  {
    if s == [] || !s[0].Less(x) then
      InsertFront(x, s);
      [x] + s
    else
      var rest := Insert(x, s[1..]);
      InsertRecursive(x, s, rest);
      [s[0]] + rest
  }

  /** The recursive case of `Insert`: the head of `s`, less than `x`, stays in
      front of the insertion into the tail. */
  lemma InsertRecursive(x: RomCode, s: seq<RomCode>, rest: seq<RomCode>)
    requires Ascending(s) && s != [] && s[0].Less(x)
    requires Ascending(rest) && multiset(rest) == multiset(s[1..]) + multiset{x}
    requires forall y :: y in rest <==> y == x || y in s[1..]
    ensures Ascending([s[0]] + rest)
    ensures multiset([s[0]] + rest) == multiset(s) + multiset{x}
    ensures forall y :: y in [s[0]] + rest <==> y == x || y in s
  {
    assert s == [s[0]] + s[1..];
    InsertBehind(s[0], rest, s[1..]);
  }

  /** An element not greater than the head of an ascending sequence may go in
      front of it. */
  lemma InsertFront(x: RomCode, s: seq<RomCode>)
    requires Ascending(s) && (s == [] || !s[0].Less(x))
    ensures Ascending([x] + s)
  {
    var r := [x] + s;
    forall i, j | 0 <= i < j < |r|
      ensures !r[j].Less(r[i])
    {
      if i == 0 && j > 1 {
        LessIsStrictTotalOrder(s[j - 1], s[0], x);
        LessIsStrictTotalOrder(s[j - 1], x, s[0]);
        assert !s[j - 1].Less(s[0]);
      }
    }
  }

  /** An element not greater than anything in `rest` may go in front of it. */
  lemma InsertBehind(h: RomCode, rest: seq<RomCode>, tail: seq<RomCode>)
    requires Ascending(rest) && Ascending([h] + tail)
    requires forall y :: y in rest ==> y in tail || h.Less(y)
    ensures Ascending([h] + rest)
  {
    var r := [h] + rest;
    forall i, j | 0 <= i < j < |r|
      ensures !r[j].Less(r[i])
    {
      var y := rest[j - 1];
      assert r[j] == y;
      if i == 0 {
        if y in tail {
          var k :| 0 <= k < |tail| && tail[k] == y;
          assert ([h] + tail)[0] == h && ([h] + tail)[k + 1] == y;
        } else {
          LessIsStrictTotalOrder(h, y, h);
        }
      } else {
        assert r[i] == rest[i - 1];
      }
    }
  }

  /** Insertion sort: the model of `std::sort` on codes, ordering them by raw
      value. */
  function Sort(s: seq<RomCode>): (r: seq<RomCode>)
    ensures Ascending(r)
    ensures multiset(r) == multiset(s)
  {
    if s == [] then []
    else
      assert s == [s[0]] + s[1..];
      Insert(s[0], Sort(s[1..]))
  }

  /** Sorting codes that occur once each gives a strictly ascending sequence. */
  lemma {:induction false} SortOfDistinct(s: seq<RomCode>)
    requires Distinct(s)
    ensures StrictlyAscending(Sort(s))
  {
    if s != [] {
      assert s == [s[0]] + s[1..];
      SortOfDistinct(s[1..]);
      var sorted := Sort(s[1..]);
      assert s[0] !in s[1..];
      assert s[0] !in multiset(sorted);
      InsertStrict(s[0], sorted);
    }
  }

  /** Inserting a code not yet present keeps a sequence strictly ascending. */
  lemma {:induction false} InsertStrict(x: RomCode, s: seq<RomCode>)
    requires StrictlyAscending(s) && x !in s
    ensures StrictlyAscending(Insert(x, s))
  {
    var r := Insert(x, s);
    forall i, j | 0 <= i < j < |r|
      ensures r[i].Less(r[j])
    {
      assert !r[j].Less(r[i]);
      DuplicateInInsert(x, s, i, j);
      LessIsStrictTotalOrder(r[i], r[j], r[i]);
    }
  }

  /** Inserting a code not yet present into a sequence without duplicates
      creates none. */
  lemma DuplicateInInsert(x: RomCode, s: seq<RomCode>, i: nat, j: nat)
    requires StrictlyAscending(s) && x !in s
    requires i < j < |Insert(x, s)|
    ensures Insert(x, s)[i] != Insert(x, s)[j]
  {
    StrictImpliesDistinct(s);
    InsertDistinct(x, s);
  }

  /** A strictly ascending sequence has no duplicates. */
  lemma StrictImpliesDistinct(s: seq<RomCode>)
    requires StrictlyAscending(s)
    ensures Distinct(s)
  {
    forall i, j | 0 <= i < j < |s|
      ensures s[i] != s[j]
    {
      LessIsStrictTotalOrder(s[i], s[j], s[i]);
    }
  }

  /** Inserting a code not yet present into a sequence without duplicates
      leaves no duplicates. */
  lemma {:induction false} InsertDistinct(x: RomCode, s: seq<RomCode>)
    requires Ascending(s) && Distinct(s) && x !in s
    ensures Distinct(Insert(x, s))
  {
    if s == [] || !s[0].Less(x) {
    } else {
      assert s == [s[0]] + s[1..];
      InsertDistinct(x, s[1..]);
      var rest := Insert(x, s[1..]);
      assert s[0] != x && s[0] !in s[1..];
      assert s[0] !in rest;
    }
  }

  /** Two strictly ascending sequences with the same elements are equal: the
      ordered list of a set of codes is unique. */
  lemma {:induction false} StrictlyAscendingUnique(s: seq<RomCode>, t: seq<RomCode>)
    requires StrictlyAscending(s) && StrictlyAscending(t)
    requires forall c :: c in s <==> c in t
    ensures s == t
  {
    if s != [] {
      assert s[0] in t;
    }
    if t != [] {
      assert t[0] in s;
    }
    if s != [] {
      HeadLeast(s, t[0]);
      HeadLeast(t, s[0]);
      LessIsStrictTotalOrder(s[0], t[0], s[0]);
      HeadNotInTail(s);
      HeadNotInTail(t);
      StrictlyAscendingUnique(s[1..], t[1..]);
    }
  }

  /** The head of a strictly ascending sequence is its least element. */
  lemma HeadLeast(s: seq<RomCode>, c: RomCode)
    requires StrictlyAscending(s) && c in s
    ensures c == s[0] || s[0].Less(c)
  {
    var k :| 0 <= k < |s| && s[k] == c;
  }

  /** The tail of a strictly ascending sequence holds everything but its head. */
  lemma HeadNotInTail(s: seq<RomCode>)
    requires StrictlyAscending(s) && s != []
    ensures forall c :: c in s[1..] <==> c in s && c != s[0]
  {
    assert s == [s[0]] + s[1..];
    forall c | c in s[1..]
      ensures c != s[0]
    {
      var k :| 0 <= k < |s[1..]| && s[1..][k] == c;
      assert s[k + 1] == c;
      LessIsStrictTotalOrder(s[0], c, s[0]);
    }
  }

  /** An element of a strictly ascending sequence does not occur before its
      own position. */
  lemma NotInPrefix(s: seq<RomCode>, i: nat)
    requires StrictlyAscending(s) && i < |s|
    ensures s[i] !in s[..i]
  {
    forall k | 0 <= k < i
      ensures s[k] != s[i]
    {
      LessIsStrictTotalOrder(s[k], s[i], s[k]);
    }
  }

  /** A sequence without duplicates has as many elements as its set. */
  lemma {:induction false} DistinctCardinality(s: seq<RomCode>)
    requires Distinct(s)
    ensures |set c | c in s| == |s|
  {
    if s != [] {
      var t := s[1..];
      assert Distinct(t);
      DistinctCardinality(t);
      ElementsOfCons(s);
      assert s[0] !in t;
    }
  }

  /** The elements of a non-empty sequence are its head and those of its
      tail. */
  lemma ElementsOfCons(s: seq<RomCode>)
    requires s != []
    ensures (set c | c in s) == (set c | c in s[1..]) + {s[0]}
  {
    assert s == [s[0]] + s[1..];
  }

  /** Sorting keeps exactly the elements it was given. */
  lemma SortSameElements(s: seq<RomCode>)
    ensures forall c :: c in Sort(s) <==> c in s
  {
    forall c
      ensures c in Sort(s) <==> c in s
    {
      assert c in Sort(s) <==> c in multiset(Sort(s));
      assert c in s <==> c in multiset(s);
    }
  }
}
