/** The board of the kanban component: an ordered sequence of columns, each an
    ordered sequence of item ids, and the pure transition that `handleDrop`
    hands to `setColumns`. */
module Columns {

  type Column = seq<string>
  type Board = seq<Column>

  /** How many times `x` appears on the board, over all columns. */
  function Count(b: Board, x: string): nat
  {
    if b == [] then 0 else multiset(b[0])[x] + Count(b[1..], x)
  }

  /** The total number of cards on the board. */
  function Size(b: Board): nat
  {
    if b == [] then 0 else |b[0]| + Size(b[1..])
  }

  /** No id appears twice on the board: every id on it lies in exactly one
      column, once. */
  ghost predicate EachIdOnce(b: Board)
  {
    forall x :: Count(b, x) <= 1
  }

  /** `s` is `t` with some elements taken out, the rest in their original order. */
  ghost predicate IsSubsequence(s: seq<string>, t: seq<string>)
    decreases |t|
  {
    if s == [] then true
    else if t == [] then false
    else (s[0] == t[0] && IsSubsequence(s[1..], t[1..])) || IsSubsequence(s, t[1..])
  }

  /** The board the component starts with: "item1" in the first column,
      "item2" in the second. */
  function InitialBoard(): (b: Board)
    ensures |b| == 2 && Size(b) == 2 && EachIdOnce(b)
    ensures Count(b, "item1") == 1 && Count(b, "item2") == 1
  {
    var b := [["item1"], ["item2"]];
    assert b[1..] == [["item2"]] && b[1..][1..] == [];
    forall x
      ensures Count(b, x) == multiset(["item1"])[x] + multiset(["item2"])[x]
    {
      assert Count(b[1..], x) == multiset(["item2"])[x] + Count([], x);
    }
    b
  }

  /** `col.filter((i) => i !== item)`: every occurrence of `item` removed, the
      other ids kept, in order. */
  function FilterOut(col: Column, item: string): (r: Column)
    ensures multiset(r) == multiset(col)[item := 0]
    ensures item !in r
    ensures |r| == |col| - multiset(col)[item]
    ensures IsSubsequence(r, col)
  {
    if col == [] then []
    else
      var rest := FilterOut(col[1..], item);
      assert col == [col[0]] + col[1..];
      if col[0] == item then rest else [col[0]] + rest
  }

  /** The board after dropping `item`, carried from column `from`, onto column
      `to`. A drop onto the column it came from changes nothing; otherwise the
      item is filtered out of the source column and appended to the target. */
  function Drop(b: Board, item: string, from: nat, to: nat): (r: Board)
    requires from < |b| && to < |b|
    ensures |r| == |b|
    ensures from == to ==> r == b
    ensures from != to ==> r[to] == b[to] + [item]
    ensures from != to ==> item !in r[from] && IsSubsequence(r[from], b[from])
    ensures from != to ==> multiset(r[from]) == multiset(b[from])[item := 0]
    ensures forall c :: 0 <= c < |b| && c != from && c != to ==> r[c] == b[c]
  {
    if from == to then b
    else b[from := FilterOut(b[from], item)][to := b[to] + [item]]
  }

  /** Replacing one column trades that column's copies of `x` for the new
      column's. */
  lemma {:induction false} CountUpdate(b: Board, k: nat, c: Column, x: string)
    requires k < |b|
    ensures Count(b[k := c], x) + multiset(b[k])[x] == Count(b, x) + multiset(c)[x]
    decreases k
  {
    if k == 0 {
      assert b[k := c][1..] == b[1..];
    } else {
      CountUpdate(b[1..], k - 1, c, x);
      assert b[k := c][1..] == b[1..][k - 1 := c];
    }
  }

  /** Replacing one column trades that column's cards for the new column's. */
  lemma {:induction false} SizeUpdate(b: Board, k: nat, c: Column)
    requires k < |b|
    ensures Size(b[k := c]) + |b[k]| == Size(b) + |c|
    decreases k
  {
    if k == 0 {
      assert b[k := c][1..] == b[1..];
    } else {
      SizeUpdate(b[1..], k - 1, c);
      assert b[k := c][1..] == b[1..][k - 1 := c];
    }
  }

  /** Two distinct columns together hold no more copies of `x` than the whole board. */
  lemma TwoColumnsWithin(b: Board, c: nat, d: nat, x: string)
    requires c < |b| && d < |b| && c != d
    ensures multiset(b[c])[x] + multiset(b[d])[x] <= Count(b, x)
  {
    var e := b[c := []];
    CountUpdate(b, c, [], x);
    CountUpdate(e, d, [], x);
    assert e[d] == b[d];
  }

  /** Under EachIdOnce, an id found in column `c` occurs there once and in no
      other column. */
  lemma UniqueMeansOneColumn(b: Board, x: string, c: nat)
    requires EachIdOnce(b)
    requires c < |b| && x in b[c]
    ensures Count(b, x) == 1 && multiset(b[c])[x] == 1
    ensures forall d :: 0 <= d < |b| && d != c ==> x !in b[d]
  {
    CountUpdate(b, c, [], x);
    forall d | 0 <= d < |b| && d != c
      ensures x !in b[d]
    {
      TwoColumnsWithin(b, c, d, x);
    }
  }

  /** In a drop between different columns, the copies of `item` in the
      source column are replaced by one copy in the target column. */
  lemma DropCountOfItem(b: Board, item: string, from: nat, to: nat)
    requires from < |b| && to < |b| && from != to
    ensures Count(Drop(b, item, from, to), item) + multiset(b[from])[item] == Count(b, item) + 1
  {
    var f := FilterOut(b[from], item);
    var mid := b[from := f];
    assert Drop(b, item, from, to) == mid[to := b[to] + [item]];
    CountUpdate(b, from, f, item);
    CountUpdate(mid, to, b[to] + [item], item);
    assert mid[to] == b[to];
    assert multiset(b[to] + [item]) == multiset(b[to]) + multiset{item};
  }

  /** A drop leaves the count of every other id unchanged. */
  lemma DropCountOfOther(b: Board, item: string, from: nat, to: nat, x: string)
    requires from < |b| && to < |b| && x != item
    ensures Count(Drop(b, item, from, to), x) == Count(b, x)
  {
    if from != to {
      var f := FilterOut(b[from], item);
      var mid := b[from := f];
      assert Drop(b, item, from, to) == mid[to := b[to] + [item]];
      CountUpdate(b, from, f, x);
      CountUpdate(mid, to, b[to] + [item], x);
      assert mid[to] == b[to];
      assert multiset(b[to] + [item]) == multiset(b[to]) + multiset{item};
    }
  }

  /** A drop of an item that sits in its source column keeps the count of
      every id on a board that has each id once. */
  lemma DropKeepsCounts(b: Board, item: string, from: nat, to: nat)
    requires from < |b| && to < |b|
    requires EachIdOnce(b) && item in b[from]
    ensures forall x :: Count(Drop(b, item, from, to), x) == Count(b, x)
  {
    forall x
      ensures Count(Drop(b, item, from, to), x) == Count(b, x)
    {
      if x != item {
        DropCountOfOther(b, item, from, to, x);
      } else if from != to {
        UniqueMeansOneColumn(b, item, from);
        DropCountOfItem(b, item, from, to);
      }
    }
  }

  /** Under the same conditions the number of cards is unchanged. */
  lemma DropKeepsSize(b: Board, item: string, from: nat, to: nat)
    requires from < |b| && to < |b|
    requires EachIdOnce(b) && item in b[from]
    ensures Size(Drop(b, item, from, to)) == Size(b)
  {
    if from != to {
      UniqueMeansOneColumn(b, item, from);
      var f := FilterOut(b[from], item);
      var mid := b[from := f];
      assert Drop(b, item, from, to) == mid[to := b[to] + [item]];
      SizeUpdate(b, from, f);
      SizeUpdate(mid, to, b[to] + [item]);
      assert mid[to] == b[to];
    }
  }

  /** A drop of an item that sits in its source column keeps every id on
      the board exactly once. */
  lemma DropPreservesUnique(b: Board, item: string, from: nat, to: nat)
    requires from < |b| && to < |b|
    requires EachIdOnce(b) && item in b[from]
    ensures EachIdOnce(Drop(b, item, from, to))
  {
    DropKeepsCounts(b, item, from, to);
  }

  /** After such a drop the item sits in the target column and in no other. */
  lemma DropLandsInTarget(b: Board, item: string, from: nat, to: nat)
    requires from < |b| && to < |b|
    requires EachIdOnce(b) && item in b[from]
    ensures item in Drop(b, item, from, to)[to]
    ensures forall c :: 0 <= c < |b| && c != to ==> item !in Drop(b, item, from, to)[c]
  {
    DropPreservesUnique(b, item, from, to);
    UniqueMeansOneColumn(Drop(b, item, from, to), item, to);
  }

  /** Nothing checks that the item is in its source column. When it is not,
      the filter removes nothing and the append adds a copy: an id that was
      already on the board is then on it twice. */
  lemma DropOfAbsentItem(b: Board, item: string, from: nat, to: nat)
    requires from < |b| && to < |b| && from != to
    requires item !in b[from]
    ensures Count(Drop(b, item, from, to), item) == Count(b, item) + 1
    ensures Count(b, item) > 0 ==> !EachIdOnce(Drop(b, item, from, to))
  {
    DropCountOfItem(b, item, from, to);
  }
}
