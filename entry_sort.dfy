/**
 * Sorting the (id, command) entries of `GetCommandIds` by id, in place, as
 * `Array.Sort(commands, (x, y) => Comparer<TCommandId>.Default.Compare(x.Key, y.Key))` does.
 */
module EntrySort {
  import opened Commands

  /** A dictionary entry: `KeyValuePair<TCommandId, ICommand>`. */
  type Entry = (Id, Command)

  ghost predicate SortedByKey(s: seq<Entry>)
  {
    forall i, j :: 0 <= i < j < |s| ==> s[i].0 <= s[j].0
  }

  ghost predicate StrictlySortedByKey(s: seq<Entry>)
  {
    forall i, j :: 0 <= i < j < |s| ==> s[i].0 < s[j].0
  }

  ghost predicate DistinctKeys(s: seq<Entry>)
  {
    forall i, j :: 0 <= i < j < |s| ==> s[i].0 != s[j].0
  }

  /** Sorts `a` by key, ascending: the result is sorted and a permutation of the input. */
  method SortByKey(a: array<Entry>)
    modifies a
    ensures SortedByKey(a[..])
    ensures multiset(a[..]) == old(multiset(a[..]))
  {
    var i := 0;
    while i < a.Length
      invariant 0 <= i <= a.Length
      invariant SortedByKey(a[..i])
      invariant multiset(a[..]) == old(multiset(a[..]))
    {
      Insert(a, i);
      i := i + 1;
    }
    assert a[..] == a[..a.Length];
  }

  /** Moves `a[i]` left into the sorted prefix `a[..i]`, leaving `a[..i + 1]` sorted. */
  method Insert(a: array<Entry>, i: nat)
    requires i < a.Length
    requires SortedByKey(a[..i])
    modifies a
    ensures SortedByKey(a[..i + 1])
    ensures multiset(a[..]) == old(multiset(a[..]))
  {
    var j := i;
    while 0 < j && a[j].0 < a[j - 1].0
      invariant 0 <= j <= i
      invariant forall p, q :: 0 <= p < q <= i && p != j && q != j ==> a[p].0 <= a[q].0
      invariant forall q :: j < q <= i ==> a[j].0 <= a[q].0
      invariant multiset(a[..]) == old(multiset(a[..]))
    {
      Swap(a, j - 1, j);
      j := j - 1;
    }
  }

  /** Exchanges two entries of `a`. */
  method Swap(a: array<Entry>, i: nat, j: nat)
    requires i < j < a.Length
    modifies a
    ensures a[i] == old(a[j]) && a[j] == old(a[i])
    ensures forall k :: 0 <= k < a.Length && k != i && k != j ==> a[k] == old(a[k])
    ensures multiset(a[..]) == old(multiset(a[..]))
  {
    a[i], a[j] := a[j], a[i];
  }

  /** Sorting never gives two entries the same key if the input had none. */
  lemma PermutationKeepsDistinctKeys(s: seq<Entry>, t: seq<Entry>)
    requires multiset(s) == multiset(t)
    requires DistinctKeys(s)
    ensures DistinctKeys(t)
  {
    forall i, j | 0 <= i < j < |t|
      ensures t[i].0 != t[j].0
    {
      assert t[i] in multiset(s) && t[j] in multiset(s);
      var p :| 0 <= p < |s| && s[p] == t[i];
      var q :| 0 <= q < |s| && s[q] == t[j];
      if t[i] == t[j] {
        AtMostOnce(s, t[i]);
        AtLeastTwice(t, i, j);
      } else {
        assert p != q;
      }
    }
  }

  lemma {:induction false} AtMostOnce(s: seq<Entry>, e: Entry)
    requires DistinctKeys(s)
    ensures multiset(s)[e] <= 1
  {
    if s != [] {
      var init := s[..|s| - 1];
      assert s == init + [s[|s| - 1]];
      assert DistinctKeys(init);
      AtMostOnce(init, e);
      if e == s[|s| - 1] {
        assert forall i :: 0 <= i < |init| ==> init[i] != e;
        assert e !in init;
      }
    }
  }

  lemma AtLeastTwice(t: seq<Entry>, i: nat, j: nat)
    requires i < j < |t| && t[i] == t[j]
    ensures multiset(t)[t[i]] >= 2
  {
    assert t == t[..j] + [t[j]] + t[j + 1..];
    assert t[..j][i] == t[i];
  }

  /** In a strictly sorted sequence, the tail holds exactly the entries whose key exceeds the head's. */
  lemma InTail(s: seq<Entry>, e: Entry)
    requires StrictlySortedByKey(s) && s != []
    ensures e in s[1..] <==> e in s && e.0 > s[0].0
  {
  }

  /**
   * Two sequences of entries that are strictly sorted by key and hold the same
   * entries are equal: the sorted listing of a set of entries is unique.
   */
  lemma {:induction false} StrictlySortedUnique(s: seq<Entry>, t: seq<Entry>)
    requires StrictlySortedByKey(s) && StrictlySortedByKey(t)
    requires forall e :: e in s <==> e in t
    ensures s == t
  {
    assert s != [] ==> s[0] in s;
    assert t != [] ==> t[0] in t;
    if s != [] && t != [] {
      assert s[0] in t && t[0] in s;
      assert s[0] == t[0];
      forall e ensures e in s[1..] <==> e in t[1..] {
        if e in s[1..] { InTail(s, e); InTail(t, e); }
        if e in t[1..] { InTail(t, e); InTail(s, e); }
      }
      StrictlySortedUnique(s[1..], t[1..]);
      assert s == [s[0]] + s[1..] && t == [t[0]] + t[1..];
    }
  }
}
