/**
 * Author indexing for the bubble chart of the Related Articles tab.
 *
 * Every distinct raw author string of the recommendation list gets a serial
 * number 1, 2, 3, ... in order of first appearance (the "authors map"), and
 * every serial number is mapped to how often its author string occurs in the
 * list (the "frequency map").  `SerialMap` and `FrequencyMap` define both maps
 * from the list; `PopulateAuthorAndFrequencyMaps` is the one-pass loop that
 * builds them, and the lemmas state what the chart relies on.
 */
module AuthorIndex {
  import opened Entries

  // ---------------------------------------------------------------------------
  // Specification functions

  /** Number of occurrences of `a` in `s`. */
  function Count(s: seq<string>, a: string): nat {
    if s == [] then 0
    else Count(s[..|s| - 1], a) + (if s[|s| - 1] == a then 1 else 0)
  }

  predicate NoDuplicates(d: seq<string>) {
    forall i, j :: 0 <= i < j < |d| ==> d[i] != d[j]
  }

  /** The distinct strings of `s`, each once, in order of first appearance. */
  function Distinct(s: seq<string>): seq<string> {
    if s == [] then []
    else if s[|s| - 1] in s[..|s| - 1] then Distinct(s[..|s| - 1])
    else Distinct(s[..|s| - 1]) + [s[|s| - 1]]
  }

  /** The position of the first occurrence of `a` in `s`. */
  function FirstIndex(s: seq<string>, a: string): (k: nat)
    requires a in s
    ensures k < |s| && s[k] == a
  {
    if s[0] == a then 0 else 1 + FirstIndex(s[1..], a)
  }

  /** The authors map: each distinct author string to its 1-based rank of first appearance. */
  function SerialMap(s: seq<string>): map<string, int> {
    Serials(Distinct(s))
  }

  /** Each string of `d` to its 1-based position of first occurrence in `d`. */
  function Serials(d: seq<string>): map<string, int> {
    map a | a in d :: FirstIndex(d, a) + 1
  }

  /** The frequency map: each serial number 1..k to the number of occurrences of its author string. */
  function FrequencyMap(s: seq<string>): map<int, int> {
    CountsUpTo(s, Distinct(s), |Distinct(s)|)
  }

  /** Serial numbers 1..k mapped to the number of occurrences in `s` of `d[0]`, ..., `d[k - 1]`. */
  function CountsUpTo(s: seq<string>, d: seq<string>, k: nat): map<int, int>
    requires k <= |d|
  {
    if k == 0 then map[] else CountsUpTo(s, d, k - 1)[k := Count(s, d[k - 1])]
  }

  /** Sum of `f[1] + ... + f[k]`. */
  function SumTo(f: map<int, int>, k: nat): int
    requires forall n :: 1 <= n <= k ==> n in f
  {
    if k == 0 then 0 else SumTo(f, k - 1) + f[k]
  }

  // ---------------------------------------------------------------------------
  // The loop

  /**
   * The loop over the recommendation list.  The maps start out empty, as at
   * their only call site, and are extended entry by entry: a new author string
   * gets the next serial number and frequency 1, a known one has its frequency
   * incremented.
   */
  method PopulateAuthorAndFrequencyMaps(list: seq<Entry>)
    returns (authorsMap: map<string, int>, frequencyMap: map<int, int>)
    ensures authorsMap == SerialMap(AuthorStrings(list))
    ensures frequencyMap == FrequencyMap(AuthorStrings(list))
  {
    ghost var authors := AuthorStrings(list);
    ghost var done: seq<string> := [];
    authorsMap, frequencyMap := map[], map[];
    var authorNumber := 0;
    for i := 0 to |list|
      invariant |done| == i
      invariant forall k :: 0 <= k < i ==> done[k] == authors[k]
      invariant authorNumber == |Distinct(done)|
      invariant authorsMap == SerialMap(done)
      invariant frequencyMap == FrequencyMap(done)
    {
      var a := AuthorOf(list[i]);
      PopulateStep(done, a);
      if a !in authorsMap {
        authorNumber := authorNumber + 1;
        authorsMap := authorsMap[a := authorNumber];
        frequencyMap := frequencyMap[authorNumber := 1];
      } else {
        frequencyMap := frequencyMap[authorsMap[a] := frequencyMap[authorsMap[a]] + 1];
      }
      done := done + [a];
    }
    assert done == authors;
  }

  /** One iteration of the loop, stated on the maps built from the prefix `s`. */
  lemma PopulateStep(s: seq<string>, a: string)
    ensures a in SerialMap(s) <==> a in s
    ensures a !in s ==>
      && |Distinct(s + [a])| == |Distinct(s)| + 1
      && SerialMap(s + [a]) == SerialMap(s)[a := |Distinct(s)| + 1]
      && FrequencyMap(s + [a]) == FrequencyMap(s)[|Distinct(s)| + 1 := 1]
    ensures a in s ==>
      && |Distinct(s + [a])| == |Distinct(s)|
      && SerialMap(s + [a]) == SerialMap(s)
      && SerialMap(s)[a] in FrequencyMap(s)
      && FrequencyMap(s + [a]) == FrequencyMap(s)[SerialMap(s)[a] := FrequencyMap(s)[SerialMap(s)[a]] + 1]
  {
    DistinctMembers(s);
    DistinctStep(s, a);
    SerialStep(s, a);
    if a in s {
      FrequencyStepKnown(s, a);
    } else {
      FrequencyStepNew(s, a);
    }
  }

  // ---------------------------------------------------------------------------
  // Facts about the specification functions

  lemma CountStep(s: seq<string>, a: string, x: string)
    ensures Count(s + [a], x) == Count(s, x) + (if a == x then 1 else 0)
  {
    assert (s + [a])[..|s|] == s;
  }

  lemma {:induction false} CountPositive(s: seq<string>, a: string)
    ensures Count(s, a) > 0 <==> a in s
  {
    if s != [] {
      var p := s[..|s| - 1];
      assert s == p + [s[|s| - 1]];
      CountPositive(p, a);
    }
  }

  lemma DistinctStep(s: seq<string>, a: string)
    ensures Distinct(s + [a]) == if a in s then Distinct(s) else Distinct(s) + [a]
  {
    assert (s + [a])[..|s|] == s;
  }

  lemma {:induction false} DistinctMembers(s: seq<string>)
    ensures forall x :: x in Distinct(s) <==> x in s
  {
    if s != [] {
      var p := s[..|s| - 1];
      assert s == p + [s[|s| - 1]];
      DistinctMembers(p);
    }
  }

  lemma {:induction false} DistinctNoDuplicates(s: seq<string>)
    ensures NoDuplicates(Distinct(s))
  {
    if s != [] {
      var p := s[..|s| - 1];
      assert s == p + [s[|s| - 1]];
      DistinctNoDuplicates(p);
      DistinctMembers(p);
    }
  }

  lemma {:induction false} FirstIndexIsFirst(s: seq<string>, a: string)
    requires a in s
    ensures forall j :: 0 <= j < FirstIndex(s, a) ==> s[j] != a
  {
    if s[0] != a {
      FirstIndexIsFirst(s[1..], a);
    }
  }

  lemma FirstIndexOfDistinct(d: seq<string>, i: int)
    requires NoDuplicates(d) && 0 <= i < |d|
    ensures FirstIndex(d, d[i]) == i
  {
    FirstIndexIsFirst(d, d[i]);
  }

  lemma {:induction false} FirstIndexAppend(d: seq<string>, a: string, x: string)
    requires x in d
    ensures FirstIndex(d + [a], x) == FirstIndex(d, x)
  {
    if d[0] != x {
      assert (d + [a])[1..] == d[1..] + [a];
      FirstIndexAppend(d[1..], a, x);
    }
  }

  lemma {:induction false} CountsUpToSpec(s: seq<string>, d: seq<string>, k: nat)
    requires k <= |d|
    ensures forall n :: n in CountsUpTo(s, d, k) <==> 1 <= n <= k
    ensures forall n :: 1 <= n <= k ==> CountsUpTo(s, d, k)[n] == Count(s, d[n - 1])
  {
    if k > 0 {
      CountsUpToSpec(s, d, k - 1);
    }
  }

  lemma FrequencyMapSpec(s: seq<string>)
    ensures forall n :: n in FrequencyMap(s) <==> 1 <= n <= |Distinct(s)|
    ensures forall n :: 1 <= n <= |Distinct(s)| ==> FrequencyMap(s)[n] == Count(s, Distinct(s)[n - 1])
  {
    CountsUpToSpec(s, Distinct(s), |Distinct(s)|);
  }

  // ---------------------------------------------------------------------------
  // One step of the loop

  lemma SerialStep(s: seq<string>, a: string)
    ensures a in s ==> SerialMap(s + [a]) == SerialMap(s)
    ensures a !in s ==> SerialMap(s + [a]) == SerialMap(s)[a := |Distinct(s)| + 1]
  {
    DistinctStep(s, a);
    if a !in s {
      SerialStepNew(s, a);
    }
  }

  lemma SerialStepNew(s: seq<string>, a: string)
    requires a !in s
    ensures SerialMap(s + [a]) == SerialMap(s)[a := |Distinct(s)| + 1]
  {
    assert Distinct(s + [a]) == Distinct(s) + [a] by {
      DistinctStep(s, a);
    }
    assert a !in Distinct(s) by {
      DistinctMembers(s);
    }
    SerialsAppend(Distinct(s), a);
  }

  lemma SerialsAppend(d: seq<string>, a: string)
    requires a !in d
    ensures Serials(d + [a]) == Serials(d)[a := |d| + 1]
  {
    var e := d + [a];
    var m, m' := Serials(d), Serials(e);
    var r := m[a := |d| + 1];
    assert m'.Keys == r.Keys by {
      assert forall x :: x in e <==> x in d || x == a;
    }
    forall x | x in m' ensures m'[x] == r[x] {
      if x == a {
        FirstIndexIsFirst(e, a);
      } else {
        FirstIndexAppend(d, a, x);
      }
    }
  }

  lemma FrequencyStepKnown(s: seq<string>, a: string)
    requires a in s
    ensures a in SerialMap(s) && SerialMap(s)[a] in FrequencyMap(s)
    ensures FrequencyMap(s + [a]) == FrequencyMap(s)[SerialMap(s)[a] := FrequencyMap(s)[SerialMap(s)[a]] + 1]
  {
    var d := Distinct(s);
    DistinctMembers(s);
    var j := FirstIndex(d, a) + 1;
    var f, f' := FrequencyMap(s), FrequencyMap(s + [a]);
    assert Distinct(s + [a]) == d by { DistinctStep(s, a); }
    FrequencyMapSpec(s);
    FrequencyMapSpec(s + [a]);
    forall n | 1 <= n <= |d| ensures f'[n] == f[j := f[j] + 1][n] {
      KnownCount(s, a, n);
    }
    assert f'.Keys == f[j := f[j] + 1].Keys;
  }

  lemma KnownCount(s: seq<string>, a: string, n: int)
    requires a in Distinct(s) && 1 <= n <= |Distinct(s)|
    ensures Count(s + [a], Distinct(s)[n - 1]) ==
      Count(s, Distinct(s)[n - 1]) + (if n == FirstIndex(Distinct(s), a) + 1 then 1 else 0)
  {
    var d := Distinct(s);
    CountStep(s, a, d[n - 1]);
    DistinctNoDuplicates(s);
    FirstIndexOfDistinct(d, n - 1);
  }

  lemma FrequencyStepNew(s: seq<string>, a: string)
    requires a !in s
    ensures FrequencyMap(s + [a]) == FrequencyMap(s)[|Distinct(s)| + 1 := 1]
  {
    var d := Distinct(s);
    var t := s + [a];
    var e := d + [a];
    assert Distinct(t) == e by {
      DistinctStep(s, a);
    }
    assert CountsUpTo(t, e, |d|) == CountsUpTo(s, d, |d|) by {
      DistinctMembers(s);
      CountsUpToNew(s, d, a, |d|);
    }
    assert Count(t, e[|d|]) == 1 by {
      CountStep(s, a, a);
      CountPositive(s, a);
    }
    calc {
      FrequencyMap(t);
      CountsUpTo(t, e, |e|);
      CountsUpTo(t, e, |d|)[|d| + 1 := Count(t, e[|d|])];
      CountsUpTo(s, d, |d|)[|d| + 1 := 1];
      FrequencyMap(s)[|d| + 1 := 1];
    }
  }

  lemma {:induction false} CountsUpToNew(s: seq<string>, d: seq<string>, a: string, k: nat)
    requires k <= |d| && a !in s
    requires forall i :: 0 <= i < |d| ==> d[i] in s
    ensures CountsUpTo(s + [a], d + [a], k) == CountsUpTo(s, d, k)
  {
    if k > 0 {
      CountsUpToNew(s, d, a, k - 1);
      CountStep(s, a, d[k - 1]);
    }
  }

  // ---------------------------------------------------------------------------
  // Properties of the two maps

  /**
   * The authors map has one key per distinct author string, its serial
   * numbers are exactly 1..k, and no two strings share one.
   */
  lemma SerialsAreOneToK(s: seq<string>)
    ensures |SerialMap(s)| == |Distinct(s)|
    ensures forall a :: a in SerialMap(s) <==> a in s
    ensures forall a :: a in SerialMap(s) ==> 1 <= SerialMap(s)[a] <= |SerialMap(s)|
    ensures forall n :: 1 <= n <= |SerialMap(s)| ==> n in SerialMap(s).Values
    ensures forall a, b :: a in SerialMap(s) && b in SerialMap(s) && a != b ==> SerialMap(s)[a] != SerialMap(s)[b]
  {
    var d := Distinct(s);
    SerialMapSize(s);
    assert forall a :: a in d <==> a in s by {
      DistinctMembers(s);
    }
    forall n | 1 <= n <= |d| ensures n in SerialMap(s).Values {
      assert FirstIndex(d, d[n - 1]) == n - 1 by {
        DistinctNoDuplicates(s);
        FirstIndexOfDistinct(d, n - 1);
      }
      assert SerialMap(s)[d[n - 1]] == n;
    }
    forall a, b | a in SerialMap(s) && b in SerialMap(s) && a != b
      ensures SerialMap(s)[a] != SerialMap(s)[b]
    {
      var i, j := FirstIndex(d, a), FirstIndex(d, b);
      assert d[i] == a && d[j] == b;
      assert SerialMap(s)[a] == i + 1 && SerialMap(s)[b] == j + 1;
    }
  }

  lemma {:induction false} SerialMapSize(s: seq<string>)
    ensures |SerialMap(s)| == |Distinct(s)|
  {
    if s != [] {
      var p := s[..|s| - 1];
      assert s == p + [s[|s| - 1]];
      SerialMapSize(p);
      SerialStep(p, s[|s| - 1]);
      DistinctStep(p, s[|s| - 1]);
      DistinctMembers(p);
    }
  }

  /**
   * Serial numbers follow the order of first appearance: `a` has a smaller
   * serial number than `b` exactly when `a` first occurs earlier in the list.
   */
  lemma SerialsFollowFirstAppearance(s: seq<string>, a: string, b: string)
    requires a in s && b in s
    ensures a in SerialMap(s) && b in SerialMap(s)
    ensures SerialMap(s)[a] < SerialMap(s)[b] <==> FirstIndex(s, a) < FirstIndex(s, b)
  {
    var d := Distinct(s);
    assert a in d && b in d by {
      DistinctMembers(s);
    }
    var i, j := FirstIndex(d, a), FirstIndex(d, b);
    assert SerialMap(s)[a] == i + 1 && SerialMap(s)[b] == j + 1;
    if i < j {
      assert FirstIndex(s, d[i]) < FirstIndex(s, d[j]) by {
        DistinctOrder(s);
      }
    } else if j < i {
      assert FirstIndex(s, d[j]) < FirstIndex(s, d[i]) by {
        DistinctOrder(s);
      }
    }
  }

  lemma {:induction false} DistinctOrder(s: seq<string>)
    ensures forall x :: x in Distinct(s) ==> x in s
    ensures forall i, j :: 0 <= i < j < |Distinct(s)| ==>
      FirstIndex(s, Distinct(s)[i]) < FirstIndex(s, Distinct(s)[j])
  {
    if s != [] {
      var p, a := s[..|s| - 1], s[|s| - 1];
      assert s == p + [a];
      var d := Distinct(p);
      DistinctStep(p, a);
      DistinctMembers(s);
      forall i, j | 0 <= i < j < |Distinct(s)|
        ensures FirstIndex(s, Distinct(s)[i]) < FirstIndex(s, Distinct(s)[j])
      {
        var x := d[i];
        assert x in p by {
          DistinctMembers(p);
        }
        FirstIndexAppend(p, a, x);
        if j < |d| {
          var y := d[j];
          assert y in p by {
            DistinctMembers(p);
          }
          FirstIndexAppend(p, a, y);
          assert FirstIndex(p, x) < FirstIndex(p, y) by {
            DistinctOrder(p);
          }
        } else {
          assert Distinct(s)[j] == a && a !in p by {
            DistinctMembers(p);
          }
          FirstIndexIsFirst(s, a);
        }
      }
    }
  }

  /**
   * The frequency stored under an author's serial number is the number of
   * list entries with that author string, and so at least 1.
   */
  lemma FrequencyIsCount(s: seq<string>, a: string)
    requires a in SerialMap(s)
    ensures SerialMap(s)[a] in FrequencyMap(s)
    ensures FrequencyMap(s)[SerialMap(s)[a]] == Count(s, a)
    ensures FrequencyMap(s)[SerialMap(s)[a]] >= 1
  {
    FrequencyMapSpec(s);
    DistinctMembers(s);
    CountPositive(s, a);
  }

  /** The frequency map has exactly the keys 1..k, k being the size of the authors map. */
  lemma FrequencyKeys(s: seq<string>)
    ensures forall n :: n in FrequencyMap(s) <==> 1 <= n <= |SerialMap(s)|
  {
    SerialMapSize(s);
    FrequencyMapSpec(s);
  }

  /** The frequencies add up to the length of the list. */
  lemma {:induction false} FrequenciesSumToLength(s: seq<string>)
    ensures forall n :: 1 <= n <= |Distinct(s)| ==> n in FrequencyMap(s)
    ensures SumTo(FrequencyMap(s), |Distinct(s)|) == |s|
  {
    FrequencyMapSpec(s);
    if s != [] {
      var p, a := s[..|s| - 1], s[|s| - 1];
      assert s == p + [a];
      FrequenciesSumToLength(p);
      var f, k := FrequencyMap(p), |Distinct(p)|;
      if a in p {
        assert a in SerialMap(p) by {
          DistinctMembers(p);
        }
        var j := SerialMap(p)[a];
        assert 1 <= j <= k;
        assert |Distinct(s)| == k && FrequencyMap(s) == f[j := f[j] + 1] by {
          PopulateStep(p, a);
        }
        SumToBump(f, k, j);
      } else {
        assert |Distinct(s)| == k + 1 && FrequencyMap(s) == f[k + 1 := 1] by {
          PopulateStep(p, a);
        }
        SumToFrame(f, k, k + 1, 1);
      }
    }
  }

  lemma {:induction false} SumToBump(f: map<int, int>, k: nat, j: int)
    requires forall n :: 1 <= n <= k ==> n in f
    requires 1 <= j <= k
    ensures SumTo(f[j := f[j] + 1], k) == SumTo(f, k) + 1
  {
    if k != j {
      SumToBump(f, k - 1, j);
    } else {
      SumToFrame(f, k - 1, j, f[j] + 1);
    }
  }

  lemma {:induction false} SumToFrame(f: map<int, int>, k: nat, j: int, v: int)
    requires forall n :: 1 <= n <= k ==> n in f
    requires j > k
    ensures SumTo(f[j := v], k) == SumTo(f, k)
  {
    if k > 0 {
      SumToFrame(f, k - 1, j, v);
    }
  }

  /**
   * Every entry of the list is a key of the authors map, and its serial
   * number is a key of the frequency map: the chart's two lookups never miss.
   */
  lemma EveryEntryIsMapped(list: seq<Entry>)
    ensures forall i :: 0 <= i < |list| ==>
      AuthorOf(list[i]) in SerialMap(AuthorStrings(list)) &&
      SerialMap(AuthorStrings(list))[AuthorOf(list[i])] in FrequencyMap(AuthorStrings(list))
  {
    var s := AuthorStrings(list);
    DistinctMembers(s);
    forall i | 0 <= i < |list|
      ensures AuthorOf(list[i]) in SerialMap(s) && SerialMap(s)[AuthorOf(list[i])] in FrequencyMap(s)
    {
      assert s[i] == AuthorOf(list[i]);
      FrequencyIsCount(s, s[i]);
    }
  }

  // ---------------------------------------------------------------------------
  // The chart series

  /**
   * One bubble of the chart: recommendation rank on the x axis, the author's
   * serial number on the y axis, and the author's frequency, which scales the
   * bubble's radius.
   */
  datatype Bubble = Bubble(rank: int, serial: int, frequency: int)

  /** What the chart needs of the authors map, stated per list entry. */
  lemma SerialsOfEntries(list: seq<Entry>)
    ensures forall i :: 0 <= i < |list| ==> AuthorOf(list[i]) in SerialMap(AuthorStrings(list))
    ensures forall i :: 0 <= i < |list| ==>
      1 <= SerialMap(AuthorStrings(list))[AuthorOf(list[i])] <= |Distinct(AuthorStrings(list))|
    ensures forall i, j :: 0 <= i < |list| && 0 <= j < |list| ==>
      (SerialMap(AuthorStrings(list))[AuthorOf(list[i])] == SerialMap(AuthorStrings(list))[AuthorOf(list[j])]
       <==> AuthorOf(list[i]) == AuthorOf(list[j]))
  {
    var s := AuthorStrings(list);
    EveryEntryIsMapped(list);
    SerialsAreOneToK(s);
  }

  /**
   * The per-entry loop that numbers the recommendations and plots one bubble
   * for each, after both maps were populated.
   */
  method ChartSeries(list: seq<Entry>) returns (series: seq<Bubble>)
    ensures |series| == |list|
    ensures forall i :: 0 <= i < |list| ==>
      && series[i].rank == i + 1
      && 1 <= series[i].serial <= |Distinct(AuthorStrings(list))|
      && series[i].frequency == Count(AuthorStrings(list), AuthorOf(list[i]))
    ensures forall i :: 0 <= i < |list| ==>
      AuthorOf(list[i]) in SerialMap(AuthorStrings(list)) &&
      series[i].serial == SerialMap(AuthorStrings(list))[AuthorOf(list[i])]
    ensures forall i, j :: 0 <= i < |list| && 0 <= j < |list| ==>
      (series[i].serial == series[j].serial <==> AuthorOf(list[i]) == AuthorOf(list[j]))
  {
    var authorsMap, frequencyMap := PopulateAuthorAndFrequencyMaps(list);
    ghost var s := AuthorStrings(list);
    assert forall k :: 0 <= k < |list| ==>
      AuthorOf(list[k]) in authorsMap && authorsMap[AuthorOf(list[k])] in frequencyMap by {
      EveryEntryIsMapped(list);
    }
    series := [];
    var rank := 0;
    for i := 0 to |list|
      invariant rank == i == |series|
      invariant forall k :: 0 <= k < i ==>
        series[k] == Bubble(k + 1, authorsMap[AuthorOf(list[k])], frequencyMap[authorsMap[AuthorOf(list[k])]])
    {
      var authors := AuthorOf(list[i]);
      rank := rank + 1;
      var bubble := Bubble(rank, authorsMap[authors], frequencyMap[authorsMap[authors]]);
      series := series + [bubble];
    }
    forall i | 0 <= i < |list| ensures series[i].frequency == Count(s, AuthorOf(list[i])) {
      assert s[i] == AuthorOf(list[i]);
      FrequencyIsCount(s, s[i]);
    }
    SerialsOfEntries(list);
  }
}
