/** printEndpoints: sort the extracted endpoints in place, then drop
    repeated entries; the strings that are left are the printed lines. */
module Endpoints {

  import opened StringOrder
  import opened Dedup

  /** Exchanges two entries of `a`. */
  method Swap(a: array<string>, i: nat, j: nat)
    requires i < a.Length && j < a.Length
    modifies a
    ensures a[..] == old(a[..])[i := old(a[j])][j := old(a[i])]
    ensures multiset(a[..]) == old(multiset(a[..]))
  {
    a[i], a[j] := a[j], a[i];
  }

  /** sort.Strings: sorts `a` in place into increasing order (an insertion
      sort stands in for the library's algorithm; only its result matters). */
  method SortStrings(a: array<string>)
    modifies a
    ensures Sorted(a[..])
    ensures multiset(a[..]) == old(multiset(a[..]))
  {
    var i := 0;
    while i < a.Length
      invariant 0 <= i <= a.Length
      invariant forall p, q :: 0 <= p < q < i ==> LessEq(a[p], a[q])
      invariant multiset(a[..]) == old(multiset(a[..]))
    {
      var j := i;
      while j > 0 && Less(a[j], a[j - 1])
        invariant 0 <= j <= i
        invariant forall p, q :: 0 <= p < q <= i && p != j && q != j ==> LessEq(a[p], a[q])
        invariant forall q :: j < q <= i ==> LessEq(a[j], a[q])
        invariant multiset(a[..]) == old(multiset(a[..]))
      {
        Swap(a, j - 1, j);
        j := j - 1;
      }
      if j > 0 {
        LessTotalEq(a[j - 1], a[j]);
        forall p | 0 <= p < j
          ensures LessEq(a[p], a[j])
        {
          LessEqTransitive(a[p], a[j - 1], a[j]);
        }
      }
      i := i + 1;
    }
  }

  /** Deduplicating a sorted list leaves a strictly increasing one. */
  lemma SortedUniqueStrictlyIncreasing(s: seq<string>)
    requires Sorted(s)
    ensures StrictlyIncreasing(Unique(s))
  {
    var r := Unique(s);
    UniqueFirstOccurrenceOrder(s);
    UniqueNoDuplicates(s);
    forall a, b | 0 <= a < b < |r|
      ensures Less(r[a], r[b])
    {
      var i, j := FirstIndex(s, r[a]), FirstIndex(s, r[b]);
      assert LessEq(s[i], s[j]);
    }
  }

  /** Sorting and then deduplicating any arrangement `t` of the extracted
      list `s`: the result is strictly increasing, holds exactly the strings
      of `s`, and is therefore the only such list. */
  lemma SortedThenUnique(s: seq<string>, t: seq<string>, r: seq<string>)
    requires multiset(t) == multiset(s) && Sorted(t)
    requires StrictlyIncreasing(r) && forall x :: x in r <==> x in s
    ensures Unique(t) == r
  {
    SortedUniqueStrictlyIncreasing(t);
    UniqueElements(t);
    forall x
      ensures x in Unique(t) <==> x in r
    {
      assert x in t <==> x in multiset(t);
      assert x in s <==> x in multiset(s);
    }
    StrictlyIncreasingDetermined(Unique(t), r);
  }

  /** printEndpoints: the lines it prints, in order. The array is left
      sorted, as sort.Strings leaves the caller's slice. */
  method PrintEndpoints(endpoints: array<string>) returns (printed: seq<string>)
    modifies endpoints
    ensures Sorted(endpoints[..])
    ensures multiset(endpoints[..]) == old(multiset(endpoints[..]))
    ensures printed == Unique(endpoints[..])
    ensures StrictlyIncreasing(printed)
    ensures forall x :: x in printed <==> x in old(endpoints[..])
  {
    SortStrings(endpoints);
    printed := UniqueStrings(endpoints[..]);
    SortedUniqueStrictlyIncreasing(endpoints[..]);
    forall x
      ensures x in endpoints[..] <==> x in old(endpoints[..])
    {
      assert x in endpoints[..] <==> x in multiset(endpoints[..]);
      assert x in old(endpoints[..]) <==> x in old(multiset(endpoints[..]));
    }
  }
}
