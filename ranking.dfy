/**
 * The recommendations table and its two re-ranking buttons.
 *
 * Each row is a `Recommendation` object with a fixed serial number `sno` and a
 * display rank `rno`.  The table is created with the rows in list order and
 * `rno == sno == rank`; the up button rotates the rows left by one and the
 * down button rotates them right by one, and both rewrite every row's `rno`
 * to its new 1-based position.
 */
module Ranking {
  import opened Entries
  import opened Highlight

  /** One row of the table. */
  class Recommendation {
    const sno: int
    const title: string
    const authors: string
    const year: string
    var rno: int

    constructor (rno: int, sno: int, title: string, authors: string, year: string)
      ensures this.rno == rno && this.sno == sno
      ensures this.title == title && this.authors == authors && this.year == year
    {
      this.sno := sno;
      this.title := title;
      this.authors := authors;
      this.year := year;
      this.rno := rno;
    }

    method SetRno(rno: int)
      modifies this
      ensures this.rno == rno
    {
      this.rno := rno;
    }
  }

  /** The list rotated left by one: the first element moves to the end. */
  function RotateLeft<T>(s: seq<T>): seq<T>
    requires |s| > 0
  {
    s[1..] + [s[0]]
  }

  /** The list rotated right by one: the last element moves to the front. */
  function RotateRight<T>(s: seq<T>): seq<T>
    requires |s| > 0
  {
    [s[|s| - 1]] + s[..|s| - 1]
  }

  /** The serial numbers of a sequence of rows, in row order. */
  function Snos(rows: seq<Recommendation>): seq<int> {
    seq(|rows|, i requires 0 <= i < |rows| => rows[i].sno)
  }

  /** The ranks 1..n in order. */
  function Ranks(n: nat): seq<int> {
    seq(n, i => i + 1)
  }

  predicate DistinctRows(rows: seq<Recommendation>) {
    forall i, j :: 0 <= i < j < |rows| ==> rows[i] != rows[j]
  }

  /** The table view: its rows, and the list size it was created for. */
  class RecommendationTable {
    const size: nat
    var items: seq<Recommendation>

    /**
     * The table holds its own rows in some order: distinct objects, one per
     * recommendation, whose serial numbers are a permutation of 1..size.  Any
     * reordering of the rows (a column sort, say) keeps this.
     */
    ghost predicate SameRows()
      reads this
    {
      && |items| == size
      && DistinctRows(items)
      && multiset(Snos(items)) == multiset(Ranks(size))
    }

    /** Additionally, each row's rank is its 1-based position. */
    ghost predicate Valid()
      reads this, items
    {
      && SameRows()
      && (forall i :: 0 <= i < |items| ==> items[i].rno == i + 1)
    }

    /** Whether the row at position `i` is shaded as one of the lowest ranked. */
    predicate RowHighlighted(i: nat)
      reads this, items
      requires i < |items|
    {
      IsLowerOrderRow(size, items[i].rno)
    }

    /**
     * Builds the table for a recommendation list: one row per entry, numbered
     * 1..n in list order with `rno == sno == rank`, showing the entry's title,
     * authors and year (a missing field shows as "").
     */
    constructor (list: seq<Entry>)
      ensures Valid() && size == |list|
      ensures forall i :: 0 <= i < |list| ==> fresh(items[i])
      ensures forall i :: 0 <= i < |list| ==> items[i].sno == i + 1 && items[i].rno == i + 1
      ensures forall i :: 0 <= i < |list| ==>
        && items[i].title == list[i].title.GetOr("")
        && items[i].authors == AuthorOf(list[i])
        && items[i].year == "(" + list[i].year.GetOr("") + ")"
    {
      var data: seq<Recommendation> := [];
      var rank := 0;
      for i := 0 to |list|
        invariant rank == i == |data|
        invariant DistinctRows(data)
        invariant forall k :: 0 <= k < i ==> fresh(data[k])
        invariant forall k :: 0 <= k < i ==> data[k].sno == k + 1 && data[k].rno == k + 1
        invariant forall k :: 0 <= k < i ==>
          && data[k].title == list[k].title.GetOr("")
          && data[k].authors == AuthorOf(list[k])
          && data[k].year == "(" + list[k].year.GetOr("") + ")"
      {
        var entry := list[i];
        rank := rank + 1;
        var row := new Recommendation(rank, rank, entry.title.GetOr(""), AuthorOf(entry), "(" + entry.year.GetOr("") + ")");
        data := data + [row];
      }
      assert Snos(data) == Ranks(|list|);
      size := |list|;
      items := data;
    }

    /**
     * The up button.  On an empty table the first `get(0)` fails before
     * anything changes (`ok` is false).  Otherwise every row but the first
     * moves up one place, the first moves to the bottom, and each row's rank
     * becomes its new position.
     */
    method Up() returns (ok: bool)
      requires SameRows()
      modifies this, items
      ensures Valid()
      ensures ok == (|old(items)| > 0)
      ensures ok ==> items == RotateLeft(old(items))
      ensures !ok ==> items == old(items)
      ensures forall i :: 0 <= i < |items| ==> items[i].rno == i + 1
    {
      if |items| == 0 {
        return false;
      }
      var data := items;
      var n := |data|;
      assert DistinctRows(data);
      var modified: seq<Recommendation> := [];
      for i := 1 to n
        invariant modified == data[1..i]
        invariant items == data
        invariant forall k :: 1 <= k < i ==> data[k].rno == k
      {
        data[i].SetRno(i);
        modified := modified + [data[i]];
      }
      data[0].SetRno(n);
      modified := modified + [data[0]];
      assert modified == RotateLeft(data);
      assert forall k :: 0 <= k < n ==> modified[k].rno == k + 1;
      assert DistinctRows(modified) && multiset(Snos(modified)) == multiset(Ranks(size)) by {
        RotationKeepsRows(data);
      }
      items := modified;
      ok := true;
    }

    /**
     * The down button.  On an empty table `get(-1)` fails before anything
     * changes (`ok` is false).  Otherwise the last row moves to the top with
     * rank 1 and every other row moves down one place with rank position + 1.
     */
    method Down() returns (ok: bool)
      requires SameRows()
      modifies this, items
      ensures Valid()
      ensures ok == (|old(items)| > 0)
      ensures ok ==> items == RotateRight(old(items))
      ensures !ok ==> items == old(items)
      ensures forall i :: 0 <= i < |items| ==> items[i].rno == i + 1
    {
      if |items| == 0 {
        return false;
      }
      var data := items;
      var n := |data|;
      assert DistinctRows(data);
      data[n - 1].SetRno(1);
      var modified := [data[n - 1]];
      var j := 2;
      for i := 0 to n - 1
        invariant j == i + 2
        invariant modified == [data[n - 1]] + data[..i]
        invariant items == data
        invariant data[n - 1].rno == 1
        invariant forall k :: 0 <= k < i ==> data[k].rno == k + 2
      {
        data[i].SetRno(j);
        modified := modified + [data[i]];
        j := j + 1;
      }
      assert modified == RotateRight(data);
      assert forall k :: 0 <= k < n ==> modified[k].rno == k + 1;
      assert DistinctRows(modified) && multiset(Snos(modified)) == multiset(Ranks(size)) by {
        RotationKeepsRows(data);
      }
      items := modified;
      ok := true;
    }

    /**
     * In a valid table the shaded rows are exactly the last min(3, size)
     * positions, however often the rows were re-ranked.
     */
    lemma LastRowsHighlighted()
      requires Valid()
      ensures forall i :: 0 <= i < |items| ==> (RowHighlighted(i) <==> i >= size - MinHighlighted(size))
    {
    }
  }

  /** Rotating keeps the same rows: still distinct, same serial numbers. */
  lemma RotationKeepsRows(rows: seq<Recommendation>)
    requires |rows| > 0 && DistinctRows(rows)
    ensures DistinctRows(RotateLeft(rows)) && DistinctRows(RotateRight(rows))
    ensures multiset(Snos(RotateLeft(rows))) == multiset(Snos(rows))
    ensures multiset(Snos(RotateRight(rows))) == multiset(Snos(rows))
  {
    RotationPermutes(Snos(rows));
    assert Snos(RotateLeft(rows)) == RotateLeft(Snos(rows));
    assert Snos(RotateRight(rows)) == RotateRight(Snos(rows));
  }

  /** Each rotation is a permutation. */
  lemma RotationPermutes<T>(s: seq<T>)
    requires |s| > 0
    ensures multiset(RotateLeft(s)) == multiset(s)
    ensures multiset(RotateRight(s)) == multiset(s)
  {
    assert s == [s[0]] + s[1..];
    assert s == s[..|s| - 1] + [s[|s| - 1]];
  }

  /** Where each element goes: position i of the left rotation holds element i + 1 (mod n). */
  lemma RotateLeftAt<T>(s: seq<T>, i: int)
    requires 0 <= i < |s|
    ensures RotateLeft(s)[i] == s[(i + 1) % |s|]
  {
    if i + 1 < |s| {
      assert (i + 1) % |s| == i + 1;
    } else {
      assert (i + 1) % |s| == 0;
    }
  }

  /** Position i of the right rotation holds element i - 1 (mod n). */
  lemma RotateRightAt<T>(s: seq<T>, i: int)
    requires 0 <= i < |s|
    ensures RotateRight(s)[i] == s[(i + |s| - 1) % |s|]
  {
    if i == 0 {
      assert (i + |s| - 1) % |s| == |s| - 1;
    } else {
      assert (i + |s| - 1) % |s| == i - 1;
    }
  }

  /** Down undoes up, and up undoes down. */
  lemma RotationsAreInverse<T>(s: seq<T>)
    requires |s| > 0
    ensures RotateRight(RotateLeft(s)) == s
    ensures RotateLeft(RotateRight(s)) == s
  {
    assert s == [s[0]] + s[1..];
  }
}
