/** Order-preserving deduplication of a list of strings (uniqueStrings). */
module Dedup {

  import opened Lists

  /** No string occurs twice in `s`. */
  ghost predicate NoDuplicates(s: seq<string>) {
    forall i, j :: 0 <= i < j < |s| ==> s[i] != s[j]
  }

  /** The index of the first occurrence of `x` in `s`. */
  ghost function FirstIndex(s: seq<string>, x: string): (i: nat)
    requires x in s
    ensures i < |s| && s[i] == x && x !in s[..i]
  {
    if s[0] == x then 0
    else
      var i := 1 + FirstIndex(s[1..], x);
      assert s[..i] == [s[0]] + s[1..][..i - 1];
      i
  }

  /** Reference definition: the distinct strings of `s`, each kept where it
      first occurs. It is built from the back, one entry at a time, the way
      the loop of uniqueStrings builds its list. */
  function Unique(s: seq<string>): seq<string>
  {
    if s == [] then []
    else
      var r := Unique(s[..|s| - 1]);
      if s[|s| - 1] in r then r else r + [s[|s| - 1]]
  }

  /** uniqueStrings: one pass over the input with a map of the keys seen so
      far and a list that a key is appended to the first time it is seen. */
  method UniqueStrings(slice: seq<string>) returns (list: seq<string>)
    ensures list == Unique(slice)
    ensures NoDuplicates(list)
    ensures forall x :: x in list <==> x in slice
  {
    var keys: map<string, bool> := map[];
    list := [];
    for i := 0 to |slice|
      invariant list == Unique(slice[..i])
      invariant forall x :: x in keys <==> x in list
    {
      var entry := slice[i];
      assert slice[..i + 1][..i] == slice[..i];
      if entry !in keys {
        keys := keys[entry := true];
        list := list + [entry];
      }
    }
    assert slice[..|slice|] == slice;
    UniqueNoDuplicates(slice);
    UniqueElements(slice);
  }

  /** The output holds exactly the strings of the input. */
  lemma {:induction false} UniqueElements(s: seq<string>)
    ensures forall x :: x in Unique(s) <==> x in s
  {
    if s != [] {
      var t := s[..|s| - 1];
      UniqueElements(t);
      assert s == t + [s[|s| - 1]];
    }
  }

  /** The output holds no string twice. */
  lemma {:induction false} UniqueNoDuplicates(s: seq<string>)
    ensures NoDuplicates(Unique(s))
  {
    if s != [] {
      UniqueNoDuplicates(s[..|s| - 1]);
    }
  }

  /** Appending to `t` does not move the first occurrence of a string of `t`. */
  lemma FirstIndexAppend(t: seq<string>, x: string, y: string)
    requires y in t
    ensures FirstIndex(t + [x], y) == FirstIndex(t, y)
  {
    var i, k := FirstIndex(t, y), FirstIndex(t + [x], y);
    assert (t + [x])[..i] == t[..i];
    assert (t + [x])[..k] == t[..k] || k == |t|;
  }

  /** A string new to `t` first occurs in `t + [x]` at the end. */
  lemma FirstIndexAppendNew(t: seq<string>, x: string)
    requires x !in t
    ensures FirstIndex(t + [x], x) == |t|
  {
    assert forall j :: 0 <= j < |t| ==> (t + [x])[j] == t[j];
  }

  /** The output lists the strings in the order of their first occurrence in
      the input: it is the subsequence of first occurrences. */
  lemma {:induction false} UniqueFirstOccurrenceOrder(s: seq<string>)
    ensures forall x :: x in Unique(s) ==> x in s
    ensures forall a, b :: 0 <= a < b < |Unique(s)| ==>
              FirstIndex(s, Unique(s)[a]) < FirstIndex(s, Unique(s)[b])
  {
    UniqueElements(s);
    if s != [] {
      var t, x := s[..|s| - 1], s[|s| - 1];
      assert s == t + [x];
      UniqueFirstOccurrenceOrder(t);
      UniqueElements(t);
      var r, u := Unique(t), Unique(s);
      forall a, b | 0 <= a < b < |u|
        ensures FirstIndex(s, u[a]) < FirstIndex(s, u[b])
      {
        assert u[a] == r[a];
        FirstIndexAppend(t, x, r[a]);
        if b < |r| {
          assert u[b] == r[b];
          FirstIndexAppend(t, x, r[b]);
        } else {
          assert u[b] == x && x !in t;
          FirstIndexAppendNew(t, x);
        }
      }
    }
  }

  /** In a list ordered by first occurrence in `t + [x]`, where `x` is new,
      `x` comes last. */
  lemma NewStringComesLast(t: seq<string>, x: string, r: seq<string>, k: nat)
    requires x !in t
    requires forall y :: y in r ==> y in t + [x]
    requires forall a, b :: 0 <= a < b < |r| ==> FirstIndex(t + [x], r[a]) < FirstIndex(t + [x], r[b])
    requires k < |r| && r[k] == x
    ensures k == |r| - 1
  {
    FirstIndexAppendNew(t, x);
    assert r[|r| - 1] in t + [x];
    assert FirstIndex(t + [x], r[|r| - 1]) <= |t|;
  }

  /** An order by first occurrence in `t + [x]` among strings of `t` is the
      order by first occurrence in `t`. */
  lemma OrderRestrict(t: seq<string>, x: string, r: seq<string>)
    requires forall y :: y in r ==> y in t
    requires forall a, b :: 0 <= a < b < |r| ==> FirstIndex(t + [x], r[a]) < FirstIndex(t + [x], r[b])
    ensures forall a, b :: 0 <= a < b < |r| ==> FirstIndex(t, r[a]) < FirstIndex(t, r[b])
  {
    forall a, b | 0 <= a < b < |r|
      ensures FirstIndex(t, r[a]) < FirstIndex(t, r[b])
    {
      FirstIndexAppend(t, x, r[a]);
      FirstIndexAppend(t, x, r[b]);
    }
  }

  /** `r` lists the distinct strings of `s` in the order of their first
      occurrence in `s`. */
  ghost predicate FirstOccurrenceList(s: seq<string>, r: seq<string>) {
    && NoDuplicates(r)
    && (forall y :: y in r <==> y in s)
    && (forall a, b :: 0 <= a < b < |r| ==> FirstIndex(s, r[a]) < FirstIndex(s, r[b]))
  }

  /** Appending a string already seen leaves a first-occurrence list alone. */
  lemma FirstOccurrenceListOld(t: seq<string>, x: string, r: seq<string>)
    requires x in t && FirstOccurrenceList(t + [x], r)
    ensures FirstOccurrenceList(t, r)
  {
    assert forall y :: y in r <==> y in t;
    OrderRestrict(t, x, r);
  }

  /** Dropping the new string from the end of a first-occurrence list of
      `t + [x]` leaves exactly the strings of `t`. */
  lemma DropNewString(t: seq<string>, x: string, r: seq<string>)
    requires x !in t && r != [] && r[|r| - 1] == x
    requires NoDuplicates(r) && forall y :: y in r <==> y in t + [x]
    ensures forall y :: y in r[..|r| - 1] <==> y in t
  {
    var r' := r[..|r| - 1];
    assert r == r' + [x];
    forall y
      ensures y in r' <==> y in t
    {
      if y in r' {
        var i :| 0 <= i < |r'| && r'[i] == y;
        assert r[i] == y && r[i] != r[|r| - 1];
        assert y in r && y != x;
      }
      if y in t {
        assert y in t + [x] && y != x;
      }
    }
  }

  /** Appending a new string extends a first-occurrence list at its end. */
  lemma FirstOccurrenceListNew(t: seq<string>, x: string, r: seq<string>)
    requires x !in t && FirstOccurrenceList(t + [x], r)
    ensures r != [] && r[|r| - 1] == x && FirstOccurrenceList(t, r[..|r| - 1])
  {
    assert x in r;
    var k :| 0 <= k < |r| && r[k] == x;
    NewStringComesLast(t, x, r, k);
    var r' := r[..|r| - 1];
    DropNewString(t, x, r);
    forall a, b | 0 <= a < b < |r'|
      ensures r'[a] != r'[b] && FirstIndex(t, r'[a]) < FirstIndex(t, r'[b])
    {
      assert r'[a] == r[a] && r'[b] == r[b];
      assert r'[a] in r' && r'[b] in r';
      FirstIndexAppend(t, x, r[a]);
      FirstIndexAppend(t, x, r[b]);
    }
  }

  /** The three properties above determine the output: any list of the
      distinct strings of `s`, ordered by first occurrence, is Unique(s). */
  lemma {:induction false} FirstOccurrenceListIsUnique(s: seq<string>, r: seq<string>)
    requires FirstOccurrenceList(s, r)
    ensures r == Unique(s)
  {
    if s == [] {
      if r != [] {
        HeadIsElement(r);
        assert false;
      }
    } else {
      var t, x := s[..|s| - 1], s[|s| - 1];
      assert s == t + [x];
      if x in t {
        FirstOccurrenceListOld(t, x, r);
        FirstOccurrenceListIsUnique(t, r);
        UniqueElements(t);
      } else {
        FirstOccurrenceListNew(t, x, r);
        FirstOccurrenceListIsUnique(t, r[..|r| - 1]);
        UniqueElements(t);
        assert r == r[..|r| - 1] + [x];
      }
    }
  }

  /** A list without duplicates is its own deduplication. */
  lemma {:induction false} UniqueOfDistinct(s: seq<string>)
    requires NoDuplicates(s)
    ensures Unique(s) == s
  {
    if s != [] {
      var t := s[..|s| - 1];
      UniqueOfDistinct(t);
      assert s[|s| - 1] !in t;
      assert s == t + [s[|s| - 1]];
    }
  }

  /** Deduplicating twice is the same as deduplicating once. */
  lemma UniqueIdempotent(s: seq<string>)
    ensures Unique(Unique(s)) == Unique(s)
  {
    UniqueNoDuplicates(s);
    UniqueOfDistinct(Unique(s));
  }
}
