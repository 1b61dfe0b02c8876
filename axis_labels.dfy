/**
 * The tick-label converter of the bubble chart's y axis.  The axis plots
 * serial numbers; `ToLabel` turns a serial number back into its author string
 * by searching the authors map, and `FromString` looks an author string up.
 */
module AxisLabels {
  import opened Entries
  import opened AuthorIndex

  /** No two keys of `m` share a value. */
  predicate Injective(m: map<string, int>) {
    forall a, b :: a in m && b in m && a != b ==> m[a] != m[b]
  }

  /**
   * `order` lists the keys of `m`, each once: the order in which the map's
   * entry set is iterated, which the hash map leaves unspecified.
   */
  predicate EnumeratesKeys(order: seq<string>, m: map<string, int>) {
    && NoDuplicates(order)
    && (forall i :: 0 <= i < |order| ==> order[i] in m)
    && (forall a :: a in m ==> a in order)
  }

  /**
   * The label of tick `n`: the key of the first entry, in iteration order,
   * whose value is `n`, or "" when no entry has that value.
   */
  function ToLabel(m: map<string, int>, order: seq<string>, n: int): string
    requires forall i :: 0 <= i < |order| ==> order[i] in m
  {
    if order == [] then ""
    else if m[order[0]] == n then order[0]
    else ToLabel(m, order[1..], n)
  }

  /**
   * The converter's `toString`: scans the entries in iteration order and
   * returns the key of the first one whose value is `n`, or "".
   */
  method TickLabel(m: map<string, int>, order: seq<string>, n: int) returns (author: string)
    requires forall i :: 0 <= i < |order| ==> order[i] in m
    ensures author == ToLabel(m, order, n)
    ensures author != "" ==> author in m && m[author] == n
  {
    for i := 0 to |order|
      invariant ToLabel(m, order[i..], n) == ToLabel(m, order, n)
    {
      if m[order[i]] == n {
        return order[i];
      }
      assert order[i..][1..] == order[i + 1..];
    }
    return "";
  }

  /** The tick value of an author string; a string that is not a key has none. */
  function FromString(m: map<string, int>, author: string): Option<int> {
    if author in m then Some(m[author]) else None
  }

  /** In an injective map the label of a key's value is that key, whatever the iteration order. */
  lemma {:induction false} LabelOfValue(m: map<string, int>, order: seq<string>, a: string)
    requires forall i :: 0 <= i < |order| ==> order[i] in m
    requires Injective(m) && a in m && a in order
    ensures ToLabel(m, order, m[a]) == a
  {
    if order[0] != a {
      LabelOfValue(m, order[1..], a);
    }
  }

  /** A tick value that no entry holds is labelled "". */
  lemma {:induction false} LabelOfUnassigned(m: map<string, int>, order: seq<string>, n: int)
    requires forall i :: 0 <= i < |order| ==> order[i] in m
    requires n !in m.Values
    ensures ToLabel(m, order, n) == ""
  {
    if order != [] {
      LabelOfUnassigned(m, order[1..], n);
    }
  }

  /** For an injective map the label does not depend on the iteration order. */
  lemma LabelIndependentOfOrder(m: map<string, int>, order1: seq<string>, order2: seq<string>, n: int)
    requires Injective(m) && EnumeratesKeys(order1, m) && EnumeratesKeys(order2, m)
    ensures ToLabel(m, order1, n) == ToLabel(m, order2, n)
  {
    if n in m.Values {
      var a :| a in m && m[a] == n;
      LabelOfValue(m, order1, a);
      LabelOfValue(m, order2, a);
    } else {
      LabelOfUnassigned(m, order1, n);
      LabelOfUnassigned(m, order2, n);
    }
  }

  /**
   * On the authors map built from a list: every author string survives the
   * round trip through its tick value, every serial number 1..k survives the
   * round trip through its label, and any other tick value is labelled "".
   */
  lemma AxisRoundTrip(s: seq<string>, order: seq<string>)
    requires EnumeratesKeys(order, SerialMap(s))
    ensures forall a :: a in s ==>
      FromString(SerialMap(s), a).Some? && ToLabel(SerialMap(s), order, FromString(SerialMap(s), a).value) == a
    ensures forall n :: 1 <= n <= |SerialMap(s)| ==>
      FromString(SerialMap(s), ToLabel(SerialMap(s), order, n)) == Some(n)
    ensures forall n :: (n < 1 || n > |SerialMap(s)|) ==> ToLabel(SerialMap(s), order, n) == ""
  {
    var m := SerialMap(s);
    SerialsAreOneToK(s);
    forall a | a in s ensures ToLabel(m, order, m[a]) == a {
      LabelOfValue(m, order, a);
    }
    forall n | 1 <= n <= |m| ensures FromString(m, ToLabel(m, order, n)) == Some(n) {
      assert n in m.Values;
      var a :| a in m && m[a] == n;
      LabelOfValue(m, order, a);
    }
    forall n | n < 1 || n > |m| ensures ToLabel(m, order, n) == "" {
      LabelOfUnassigned(m, order, n);
    }
  }
}
