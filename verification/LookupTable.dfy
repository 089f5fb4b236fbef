/** The command table: its order, the binary search over it, and what order buys. */
module LookupTable {
  import opened Base

  // ---------- Order of names ----------

  /** `AreInOrder`: the first name comes strictly before the second. */
  predicate InOrder(a: string, b: string) {
    b != "" && (a == "" || a[0] < b[0] || (a[0] == b[0] && InOrder(a[1..], b[1..])))
  }

  /** The sign of `strcmp`. */
  function Strcmp(a: string, b: string): int {
    if a == "" then (if b == "" then 0 else -1)
    else if b == "" then 1
    else if a[0] < b[0] then -1
    else if a[0] > b[0] then 1
    else Strcmp(a[1..], b[1..])
  }

  /** The compile-time order and the run-time comparison agree. */
  lemma {:induction false} StrcmpIsOrder(a: string, b: string)
    ensures Strcmp(a, b) == 0 <==> a == b
    ensures Strcmp(a, b) < 0 <==> InOrder(a, b)
    ensures Strcmp(a, b) > 0 <==> InOrder(b, a)
  {
    if a != "" && b != "" {
      StrcmpIsOrder(a[1..], b[1..]);
      assert a == [a[0]] + a[1..] && b == [b[0]] + b[1..];
    }
  }

  lemma {:induction false} OrderTransitive(a: string, b: string, c: string)
    requires InOrder(a, b) && InOrder(b, c)
    ensures InOrder(a, c)
  {
    if a != "" && a[0] == b[0] && b[0] == c[0] {
      OrderTransitive(a[1..], b[1..], c[1..]);
    }
  }

  lemma OrderIrreflexive(a: string)
    ensures !InOrder(a, a)
  {
    StrcmpIsOrder(a, a);
  }

  // ---------- Sorted tables ----------

  /** `IsSorted`: neighbours are in order. */
  predicate IsSorted(table: seq<string>) {
    forall k :: 0 < k < |table| ==> InOrder(table[k - 1], table[k])
  }

  lemma {:induction false} SortedPairs(table: seq<string>, i: nat, j: nat)
    requires IsSorted(table) && i < j < |table|
    ensures InOrder(table[i], table[j])
    decreases j - i
  {
    if i + 1 < j {
      SortedPairs(table, i, j - 1);
      OrderTransitive(table[i], table[j - 1], table[j]);
    }
  }

  /** A sorted table names every command once. */
  lemma SortedDistinct(table: seq<string>, i: nat, j: nat)
    requires IsSorted(table) && i < |table| && j < |table| && table[i] == table[j]
    ensures i == j
  {
    OrderIrreflexive(table[i]);
    if i < j {
      SortedPairs(table, i, j);
    } else if j < i {
      SortedPairs(table, j, i);
    }
  }

  /** The table of a build that compiles in only the entries marked in `enabled`. */
  function Build(table: seq<string>, enabled: seq<bool>): seq<string>
    requires |enabled| == |table|
  {
    if table == [] then []
    else Build(table[..|table| - 1], enabled[..|table| - 1]) + if enabled[|table| - 1] then [table[|table| - 1]] else []
  }

  lemma {:induction false} BuildMembers(table: seq<string>, enabled: seq<bool>, name: string)
    requires |enabled| == |table|
    ensures name in Build(table, enabled) <==> exists k :: 0 <= k < |table| && enabled[k] && table[k] == name
  {
    if table != [] {
      var n := |table| - 1;
      BuildMembers(table[..n], enabled[..n], name);
    }
  }

  /** Every build of a sorted table is sorted. */
  lemma {:induction false} BuildSorted(table: seq<string>, enabled: seq<bool>)
    requires IsSorted(table) && |enabled| == |table|
    ensures IsSorted(Build(table, enabled))
  {
    if table != [] {
      var n := |table| - 1;
      BuildSorted(table[..n], enabled[..n]);
      var before := Build(table[..n], enabled[..n]);
      if enabled[n] && before != [] {
        var last := before[|before| - 1];
        assert last in before;
        BuildMembers(table[..n], enabled[..n], last);
        var k :| 0 <= k < n && table[..n][k] == last;
        SortedPairs(table, k, n);
      }
    }
  }

  // ---------- Binary search ----------

  /** Finds the entry with the name, like a linear scan would. */
  method Find(name: string, table: seq<string>) returns (entry: Option<nat>)
    requires IsSorted(table) && |table| <= 0xffff
    ensures entry.Some? ==> entry.value < |table| && table[entry.value] == name
    ensures entry.None? ==> name !in table
  {
    var left: nat, right := 0, |table|;
    while left < right
      invariant left <= right <= |table|
      invariant forall k :: 0 <= k < left ==> table[k] != name
      invariant forall k :: right <= k < |table| ==> table[k] != name
    {
      var middle := (left + right) / 2;
      var compare := Strcmp(name, table[middle]);
      StrcmpIsOrder(name, table[middle]);
      if compare == 0 {
        return Some(middle);
      } else if compare > 0 {
        AllBefore(table, middle, name);
        left := middle + 1;
      } else {
        AllAfter(table, middle, name);
        right := middle;
      }
    }
    entry := None;
  }

  lemma AllBefore(table: seq<string>, middle: nat, name: string)
    requires IsSorted(table) && middle < |table| && InOrder(table[middle], name)
    ensures forall k :: 0 <= k <= middle ==> table[k] != name
  {
    OrderIrreflexive(name);
    forall k | 0 <= k < middle ensures table[k] != name {
      SortedPairs(table, k, middle);
      OrderTransitive(table[k], table[middle], name);
    }
  }

  lemma AllAfter(table: seq<string>, middle: nat, name: string)
    requires IsSorted(table) && middle < |table| && InOrder(name, table[middle])
    ensures forall k :: middle <= k < |table| ==> table[k] != name
  {
    OrderIrreflexive(name);
    forall k | middle < k < |table| ensures table[k] != name {
      SortedPairs(table, middle, k);
      OrderTransitive(name, table[middle], table[k]);
    }
  }
}
