/** Frequency tables: the tally `collections.Counter` makes of a list of
    matched literals (keys in first-seen order), and the stable sort by
    descending count that `sorted(..., reverse=True)` applies to it. */
module Counting {

  /** One item of a table: a colour literal and how often it occurs. */
  datatype Entry = Entry(color: string, count: nat)

  /** A dictionary from literal to count, in its iteration order. */
  type Table = seq<Entry>

  /** The count recorded for `x`, summed over every entry for `x`. */
  function CountOf(t: Table, x: string): nat {
    if t == [] then 0 else (if t[0].color == x then t[0].count else 0) + CountOf(t[1..], x)
  }

  /** The sum of all counts. */
  function Total(t: Table): nat {
    if t == [] then 0 else t[0].count + Total(t[1..])
  }

  predicate HasColor(t: Table, x: string) {
    exists i :: 0 <= i < |t| && t[i].color == x
  }

  /** No literal is a key twice, as in any dictionary. */
  predicate DistinctColors(t: Table) {
    forall i, j :: 0 <= i < j < |t| ==> t[i].color != t[j].color
  }

  predicate Positive(t: Table) {
    forall i :: 0 <= i < |t| ==> t[i].count >= 1
  }

  /** `t` is exactly the tally of `lits`: one entry per distinct literal,
      each with the number of times it occurs, the counts adding up to the
      number of literals. */
  ghost predicate Tallies(t: Table, lits: seq<string>) {
    && DistinctColors(t)
    && Positive(t)
    && Total(t) == |lits|
    && forall x :: CountOf(t, x) == multiset(lits)[x]
  }

  /** The first position of `x` in `s`. */
  function FirstIndex(s: seq<string>, x: string): (k: nat)
    requires x in s
    ensures k < |s| && s[k] == x && x !in s[..k]
  {
    if s[0] == x then 0 else 1 + FirstIndex(s[1..], x)
  }

  /** One step of `Counter`: `x` is counted once more; a known key keeps its
      place, a new key is added at the end with count 1. */
  function Increment(t: Table, x: string): (r: Table)
    ensures forall y :: CountOf(r, y) == CountOf(t, y) + (if y == x then 1 else 0)
    ensures Total(r) == Total(t) + 1
    ensures HasColor(t, x) ==> |r| == |t| && forall i :: 0 <= i < |t| ==> r[i].color == t[i].color
    ensures !HasColor(t, x) ==> r == t + [Entry(x, 1)]
  {
    if t == [] then [Entry(x, 1)]
    else if t[0].color == x then
      var r := [Entry(x, t[0].count + 1)] + t[1..];
      assert r[1..] == t[1..];
      r
    else
      var rest := Increment(t[1..], x);
      var r := [t[0]] + rest;
      assert r[1..] == rest;
      assert HasColor(t, x) <==> HasColor(t[1..], x) by { HasColorTail(t, x); }
      r
  }

  /** Counting keeps every count at least 1. */
  lemma {:induction false} IncrementPositive(t: Table, x: string)
    requires Positive(t)
    ensures Positive(Increment(t, x))
  {
    if t != [] && t[0].color != x {
      IncrementPositive(t[1..], x);
      assert Increment(t, x) == [t[0]] + Increment(t[1..], x);
    }
  }

  /** A table whose first key is not `x` has `x` exactly when its tail has. */
  lemma HasColorTail(t: Table, x: string)
    requires t != [] && t[0].color != x
    ensures HasColor(t, x) <==> HasColor(t[1..], x)
  {
    if HasColor(t, x) {
      var i :| 0 <= i < |t| && t[i].color == x;
      assert t[1..][i - 1].color == x;
    }
    if HasColor(t[1..], x) {
      var i :| 0 <= i < |t[1..]| && t[1..][i].color == x;
      assert t[i + 1].color == x;
    }
  }

  /** `Counter(lits)`: the literals counted from left to right. */
  function Tally(lits: seq<string>): Table {
    if lits == [] then [] else Increment(Tally(lits[..|lits| - 1]), lits[|lits| - 1])
  }

  /** `Counter` counts: the tally has one entry per distinct literal, each
      with its number of occurrences, and the counts add up to the number of
      literals. */
  lemma {:induction false} TallyCounts(lits: seq<string>)
    ensures Tallies(Tally(lits), lits)
  {
    if lits != [] {
      var pre, x := lits[..|lits| - 1], lits[|lits| - 1];
      assert lits == pre + [x];
      TallyCounts(pre);
      var t := Tally(pre);
      var r := Increment(t, x);
      IncrementPositive(t, x);
      assert DistinctColors(r) by {
        if !HasColor(t, x) {
          forall i | 0 <= i < |t| ensures t[i].color != x { }
        }
      }
    }
  }

  lemma {:induction false} FirstIndexOfPrefix(pre: seq<string>, x: string, y: string)
    requires y in pre
    ensures FirstIndex(pre + [x], y) == FirstIndex(pre, y)
  {
    if pre[0] != y {
      assert (pre + [x])[1..] == pre[1..] + [x];
      FirstIndexOfPrefix(pre[1..], x, y);
    }
  }

  lemma {:induction false} FirstIndexOfNew(pre: seq<string>, x: string)
    requires x !in pre
    ensures FirstIndex(pre + [x], x) == |pre|
  {
    if pre != [] {
      assert (pre + [x])[1..] == pre[1..] + [x];
      FirstIndexOfNew(pre[1..], x);
    }
  }

  lemma HasColorInTally(lits: seq<string>, i: nat)
    requires i < |Tally(lits)|
    ensures Tally(lits)[i].color in lits
  {
    var t := Tally(lits);
    TallyCounts(lits);
    assert CountOf(t, t[i].color) >= t[i].count by { CountOfEntry(t, i); }
  }

  /** Every key of `t` occurs in `lits`, and the keys come in the order in
      which each is first seen in `lits`. */
  predicate InFirstSeenOrder(t: Table, lits: seq<string>) {
    && (forall i :: 0 <= i < |t| ==> t[i].color in lits)
    && forall i, j :: 0 <= i < j < |t| && t[i].color in lits && t[j].color in lits ==>
         FirstIndex(lits, t[i].color) < FirstIndex(lits, t[j].color)
  }

  /** The keys of the tally come in the order in which each literal is first
      seen in the list. */
  lemma {:induction false} TallyFirstSeenOrder(lits: seq<string>)
    ensures InFirstSeenOrder(Tally(lits), lits)
  {
    if lits == [] {
      assert Tally(lits) == [];
    } else {
      var pre, x := lits[..|lits| - 1], lits[|lits| - 1];
      assert lits == pre + [x];
      var t := Tally(pre);
      assert Tally(lits) == Increment(t, x);
      TallyFirstSeenOrder(pre);
      TallyCounts(pre);
      OrderExtends(t, pre, x);
      if HasColor(t, x) {
        OrderSameColors(t, Increment(t, x), lits);
      } else {
        assert x !in pre by {
          if x in pre {
            assert CountOf(t, x) > 0;
            CountPositiveHasColor(t, x);
          }
        }
        FirstIndexOfNew(pre, x);
        OrderAppend(t, pre, x);
      }
    }
  }

  /** A literal appended to the list moves no first occurrence of a key. */
  lemma OrderExtends(t: Table, pre: seq<string>, x: string)
    requires InFirstSeenOrder(t, pre)
    ensures InFirstSeenOrder(t, pre + [x])
    ensures forall i :: 0 <= i < |t| ==> FirstIndex(pre + [x], t[i].color) < |pre|
  {
    forall i | 0 <= i < |t|
      ensures FirstIndex(pre + [x], t[i].color) == FirstIndex(pre, t[i].color) < |pre|
    {
      FirstIndexOfPrefix(pre, x, t[i].color);
    }
  }

  /** A table with the same keys in the same places keeps the order. */
  lemma OrderSameColors(t: Table, r: Table, lits: seq<string>)
    requires InFirstSeenOrder(t, lits)
    requires |r| == |t| && forall i :: 0 <= i < |t| ==> r[i].color == t[i].color
    ensures InFirstSeenOrder(r, lits)
  {
  }

  /** A key first seen at the end of the list goes after all others. */
  lemma OrderAppend(t: Table, pre: seq<string>, x: string)
    requires InFirstSeenOrder(t, pre + [x])
    requires forall i :: 0 <= i < |t| ==> FirstIndex(pre + [x], t[i].color) < |pre|
    requires FirstIndex(pre + [x], x) == |pre|
    ensures InFirstSeenOrder(t + [Entry(x, 1)], pre + [x])
  {
    var r := t + [Entry(x, 1)];
    forall i | 0 <= i < |r| ensures r[i].color in pre + [x] {
      if i < |t| {
        assert r[i] == t[i];
      }
    }
    forall i, j | 0 <= i < j < |r|
      ensures FirstIndex(pre + [x], r[i].color) < FirstIndex(pre + [x], r[j].color)
    {
      assert r[i] == t[i];
      if j < |t| {
        assert r[j] == t[j];
      }
    }
  }

  lemma {:induction false} CountOfEntry(t: Table, i: nat)
    requires i < |t|
    ensures CountOf(t, t[i].color) >= t[i].count
  {
    if i > 0 {
      CountOfEntry(t[1..], i - 1);
    }
  }

  lemma {:induction false} CountPositiveHasColor(t: Table, x: string)
    requires CountOf(t, x) > 0
    ensures HasColor(t, x)
  {
    if t[0].color != x {
      CountPositiveHasColor(t[1..], x);
      var i :| 0 <= i < |t[1..]| && t[1..][i].color == x;
      assert t[i + 1].color == x;
    }
  }

  /** In a table without repeated keys, the count recorded for a key is the
      count on its one entry. */
  lemma {:induction false} CountOfDistinct(t: Table, i: nat)
    requires DistinctColors(t) && i < |t|
    ensures CountOf(t, t[i].color) == t[i].count
  {
    if i == 0 {
      CountOfAbsent(t[1..], t[0].color);
    } else {
      CountOfDistinct(t[1..], i - 1);
    }
  }

  lemma {:induction false} CountOfAbsent(t: Table, x: string)
    requires forall i :: 0 <= i < |t| ==> t[i].color != x
    ensures CountOf(t, x) == 0
  {
    if t != [] {
      CountOfAbsent(t[1..], x);
    }
  }

  /** Non-increasing counts. */
  predicate SortedByCount(t: Table) {
    forall i, j :: 0 <= i < j < |t| ==> t[i].count >= t[j].count
  }

  /** The entries with count `c`, in table order. */
  function WithCount(t: Table, c: nat): Table {
    if t == [] then [] else (if t[0].count == c then [t[0]] else []) + WithCount(t[1..], c)
  }

  /** Places `e` before the first entry whose count is not larger, so that
      `e` precedes every entry of equal count. */
  function Insert(e: Entry, t: Table): Table {
    if t == [] || t[0].count <= e.count then [e] + t
    else [t[0]] + Insert(e, t[1..])
  }

  lemma {:induction false} InsertPermutes(e: Entry, t: Table)
    ensures multiset(Insert(e, t)) == multiset([e] + t)
  {
    if t != [] && t[0].count > e.count {
      InsertPermutes(e, t[1..]);
      assert [e] + t == [e] + [t[0]] + t[1..];
    }
  }

  lemma {:induction false} InsertSorted(e: Entry, t: Table)
    requires SortedByCount(t)
    ensures SortedByCount(Insert(e, t))
  {
    if t != [] && t[0].count > e.count {
      var s := Insert(e, t[1..]);
      InsertSorted(e, t[1..]);
      assert s[0] == e || s[0] == t[1];
      var r := [t[0]] + s;
      forall i, j | 0 <= i < j < |r| ensures r[i].count >= r[j].count {
        assert r[j] == s[j - 1];
        if i == 0 {
          assert s[0].count >= s[j - 1].count;
        } else {
          assert r[i] == s[i - 1];
        }
      }
    }
  }

  lemma {:induction false} InsertStable(e: Entry, t: Table, c: nat)
    ensures WithCount(Insert(e, t), c) == WithCount([e] + t, c)
  {
    if t != [] && t[0].count > e.count {
      InsertStable(e, t[1..], c);
      assert ([e] + t)[1..] == t;
      assert ([t[0]] + Insert(e, t[1..]))[1..] == Insert(e, t[1..]);
      assert ([e] + t[1..])[1..] == t[1..];
    }
  }

  lemma {:induction false} InsertKeepsCounts(e: Entry, t: Table, x: string)
    ensures CountOf(Insert(e, t), x) == CountOf([e] + t, x)
    ensures Total(Insert(e, t)) == Total([e] + t)
  {
    if t != [] && t[0].count > e.count {
      InsertKeepsCounts(e, t[1..], x);
      assert ([e] + t)[1..] == t;
      assert ([t[0]] + Insert(e, t[1..]))[1..] == Insert(e, t[1..]);
      assert ([e] + t[1..])[1..] == t[1..];
    }
  }

  /** Every entry of `Insert(e, t)` is `e` or an entry of `t`. */
  lemma {:induction false} InsertMember(e: Entry, t: Table, j: nat)
    requires j < |Insert(e, t)|
    ensures Insert(e, t)[j] == e || Insert(e, t)[j] in t
  {
    if t != [] && t[0].count > e.count && j > 0 {
      InsertMember(e, t[1..], j - 1);
    }
  }

  lemma {:induction false} InsertDistinct(e: Entry, t: Table)
    requires DistinctColors([e] + t)
    ensures DistinctColors(Insert(e, t))
  {
    if t != [] && t[0].count > e.count {
      var u := [e] + t;
      var s := Insert(e, t[1..]);
      assert DistinctColors([e] + t[1..]) by {
        forall i, j | 0 <= i < j < |[e] + t[1..]| ensures ([e] + t[1..])[i].color != ([e] + t[1..])[j].color {
          assert ([e] + t[1..])[i] == u[if i == 0 then 0 else i + 1];
          assert ([e] + t[1..])[j] == u[j + 1];
        }
      }
      InsertDistinct(e, t[1..]);
      forall j | 0 <= j < |s| ensures t[0].color != s[j].color {
        InsertMember(e, t[1..], j);
        assert u[1] == t[0];
        if s[j] == e {
          assert u[0] == e;
        } else {
          var k :| 0 <= k < |t[1..]| && t[1..][k] == s[j];
          assert u[k + 2] == s[j];
        }
      }
      assert Insert(e, t) == [t[0]] + s;
    }
  }

  /** `sorted(table.items(), key=count, reverse=True)`: an insertion sort
      that, like Python's, is stable. */
  function SortByCount(t: Table): (r: Table)
    ensures SortedByCount(r)
    ensures multiset(r) == multiset(t)
    ensures forall c :: WithCount(r, c) == WithCount(t, c)
  {
    if t == [] then []
    else
      var s := SortByCount(t[1..]);
      InsertSorted(t[0], s);
      InsertPermutes(t[0], s);
      assert t == [t[0]] + t[1..];
      assert forall c :: WithCount(Insert(t[0], s), c) == WithCount(t, c) by {
        forall c ensures WithCount(Insert(t[0], s), c) == WithCount(t, c) {
          InsertStable(t[0], s, c);
          assert ([t[0]] + s)[1..] == s;
        }
      }
      Insert(t[0], s)
  }

  /** Sorting keeps a table the tally of the same literals. */
  lemma {:induction false} SortKeepsTally(t: Table, lits: seq<string>)
    requires Tallies(t, lits)
    ensures Tallies(SortByCount(t), lits)
  {
    SortKeepsCounts(t);
  }

  lemma SortKeepsCounts(t: Table)
    ensures forall x :: CountOf(SortByCount(t), x) == CountOf(t, x)
    ensures Total(SortByCount(t)) == Total(t)
    ensures Positive(t) ==> Positive(SortByCount(t))
    ensures DistinctColors(t) ==> DistinctColors(SortByCount(t))
  {
    forall x ensures CountOf(SortByCount(t), x) == CountOf(t, x) {
      SortKeepsCountOf(t, x);
    }
    SortKeepsTotal(t);
    if Positive(t) {
      var r := SortByCount(t);
      forall j | 0 <= j < |r| ensures r[j].count >= 1 {
        assert r[j] in multiset(t);
      }
    }
    if DistinctColors(t) {
      SortDistinct(t);
    }
  }

  lemma {:induction false} SortKeepsCountOf(t: Table, x: string)
    ensures CountOf(SortByCount(t), x) == CountOf(t, x)
  {
    if t != [] {
      var s := SortByCount(t[1..]);
      SortKeepsCountOf(t[1..], x);
      InsertKeepsCounts(t[0], s, x);
      assert ([t[0]] + s)[1..] == s;
    }
  }

  lemma {:induction false} SortKeepsTotal(t: Table)
    ensures Total(SortByCount(t)) == Total(t)
  {
    if t != [] {
      var s := SortByCount(t[1..]);
      SortKeepsTotal(t[1..]);
      InsertKeepsCounts(t[0], s, "");
      assert ([t[0]] + s)[1..] == s;
    }
  }

  lemma {:induction false} SortDistinct(t: Table)
    requires DistinctColors(t)
    ensures DistinctColors(SortByCount(t))
  {
    if t != [] {
      var s := SortByCount(t[1..]);
      assert DistinctColors(t[1..]) by {
        forall i, j | 0 <= i < j < |t[1..]| ensures t[1..][i].color != t[1..][j].color {
          assert t[1..][i] == t[i + 1] && t[1..][j] == t[j + 1];
        }
      }
      SortDistinct(t[1..]);
      forall i, j | 0 <= i < j < |[t[0]] + s| ensures ([t[0]] + s)[i].color != ([t[0]] + s)[j].color {
        if i == 0 {
          var y := s[j - 1];
          assert y in multiset(t[1..]);
          var k :| 0 <= k < |t[1..]| && t[1..][k] == y;
          assert t[k + 1] == y;
        }
      }
      InsertDistinct(t[0], s);
    }
  }

  /** A rearrangement that keeps the entries of each count in their order,
      such as the stable sort, keeps entries of equal count in the order in
      which their literals were first seen. */
  lemma TiesInFirstSeenOrder(u: Table, r: Table, lits: seq<string>, i: nat, j: nat)
    requires InFirstSeenOrder(u, lits)
    requires forall c :: WithCount(r, c) == WithCount(u, c)
    requires i < j < |r| && r[i].count == r[j].count
    ensures r[i].color in lits && r[j].color in lits
    ensures FirstIndex(lits, r[i].color) < FirstIndex(lits, r[j].color)
  {
    var c := r[i].count;
    WithCountOrder(r, c, i, j);
    var p, q :| 0 <= p < q < |WithCount(r, c)| && WithCount(r, c)[p] == r[i] && WithCount(r, c)[q] == r[j];
    assert WithCount(r, c) == WithCount(u, c);
    WithCountOrigin(u, c, p, q);
    var a, b :| 0 <= a < b < |u| && u[a] == r[i] && u[b] == r[j];
  }

  /** An entry with count `c` has a place among the entries with count `c`. */
  lemma {:induction false} WithCountHas(t: Table, c: nat, j: nat)
    requires j < |t| && t[j].count == c
    ensures exists q :: 0 <= q < |WithCount(t, c)| && WithCount(t, c)[q] == t[j]
  {
    var w := WithCount(t, c);
    if j == 0 {
      assert w[0] == t[0];
    } else {
      var front: Table := if t[0].count == c then [t[0]] else [];
      assert w == front + WithCount(t[1..], c);
      WithCountHas(t[1..], c, j - 1);
      var q :| 0 <= q < |WithCount(t[1..], c)| && WithCount(t[1..], c)[q] == t[1..][j - 1];
      assert w[|front| + q] == t[j];
    }
  }

  /** Two entries with count `c` keep their order among the entries with
      count `c`. */
  lemma {:induction false} WithCountOrder(t: Table, c: nat, i: nat, j: nat)
    requires i < j < |t| && t[i].count == c && t[j].count == c
    ensures exists p, q :: 0 <= p < q < |WithCount(t, c)| && WithCount(t, c)[p] == t[i]
                           && WithCount(t, c)[q] == t[j]
  {
    var w := WithCount(t, c);
    if i == 0 {
      WithCountHas(t[1..], c, j - 1);
      var q :| 0 <= q < |WithCount(t[1..], c)| && WithCount(t[1..], c)[q] == t[1..][j - 1];
      assert w[0] == t[i] && w[1 + q] == t[j];
    } else {
      var front: Table := if t[0].count == c then [t[0]] else [];
      assert w == front + WithCount(t[1..], c);
      WithCountOrder(t[1..], c, i - 1, j - 1);
      var p, q :| 0 <= p < q < |WithCount(t[1..], c)| && WithCount(t[1..], c)[p] == t[1..][i - 1]
                  && WithCount(t[1..], c)[q] == t[1..][j - 1];
      assert w[|front| + p] == t[i] && w[|front| + q] == t[j];
    }
  }

  /** Every entry with count `c` comes from some place of the table. */
  lemma {:induction false} WithCountFrom(t: Table, c: nat, q: nat)
    requires q < |WithCount(t, c)|
    ensures exists b :: 0 <= b < |t| && t[b] == WithCount(t, c)[q]
  {
    var w := WithCount(t, c);
    var front: Table := if t[0].count == c then [t[0]] else [];
    assert w == front + WithCount(t[1..], c);
    if q < |front| {
      assert t[0] == w[q];
    } else {
      WithCountFrom(t[1..], c, q - |front|);
      var b :| 0 <= b < |t[1..]| && t[1..][b] == WithCount(t[1..], c)[q - |front|];
      assert t[b + 1] == w[q];
    }
  }

  /** Two places among the entries with count `c` come from two places of
      the table in the same order. */
  lemma {:induction false} WithCountOrigin(t: Table, c: nat, p: nat, q: nat)
    requires p < q < |WithCount(t, c)|
    ensures exists a, b :: 0 <= a < b < |t| && t[a] == WithCount(t, c)[p] && t[b] == WithCount(t, c)[q]
  {
    var w := WithCount(t, c);
    var front: Table := if t[0].count == c then [t[0]] else [];
    assert w == front + WithCount(t[1..], c);
    if p < |front| {
      WithCountFrom(t[1..], c, q - 1);
      var b :| 0 <= b < |t[1..]| && t[1..][b] == WithCount(t[1..], c)[q - 1];
      assert t[0] == w[p] && t[b + 1] == w[q];
    } else {
      WithCountOrigin(t[1..], c, p - |front|, q - |front|);
      var a, b :| 0 <= a < b < |t[1..]| && t[1..][a] == WithCount(t[1..], c)[p - |front|]
                  && t[1..][b] == WithCount(t[1..], c)[q - |front|];
      assert t[a + 1] == w[p] && t[b + 1] == w[q];
    }
  }
}
