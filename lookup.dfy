/**
 * The "found count equals id count" idiom the services use to check that a
 * list of ids resolves: `Where(x => ids.Contains(x.Id)).Count == ids.Count`.
 * The query yields each matching row once, so the test also fails on a
 * repeated id.
 */
module Lookup {
  import opened Domain

  predicate NoDups(s: seq<Guid>) {
    forall i, j | 0 <= i < j < |s| :: s[i] != s[j]
  }

  function Elems(s: seq<Guid>): (e: set<Guid>)
    ensures forall x: Guid :: x in e <==> x in s
  {
    set x | x in s
  }

  /** `r` can be read off `s` left to right, skipping entries: LINQ `Where` keeps scan order. */
  predicate Subsequence(r: seq<Guid>, s: seq<Guid>)
    decreases |s|
  {
    if r == [] then true
    else if s == [] then false
    else if r[0] == s[0] then Subsequence(r[1..], s[1..])
    else Subsequence(r, s[1..])
  }

  /** A non-empty set has an element, for the `foreach` loops that pick one. */
  lemma NonEmpty(s: set<Guid>)
    requires s != {}
    ensures exists x :: x in s
  {
    if forall x :: x !in s {
      assert false;
    }
  }

  /** The keys a `Where(row => ids.Contains(row.Id))` query returns. */
  function Found(keys: set<Guid>, ids: seq<Guid>): (f: set<Guid>)
    ensures f == Elems(ids) * keys
  {
    set x | x in keys && x in ids
  }

  /** A list has as many distinct elements as entries exactly when it has no repeats. */
  lemma {:induction false} ElemsCard(s: seq<Guid>)
    ensures |Elems(s)| <= |s|
    ensures |Elems(s)| == |s| <==> NoDups(s)
  {
    if s == [] {
      assert Elems(s) == {};
    } else {
      var t := s[1..];
      ElemsCard(t);
      assert Elems(s) == {s[0]} + Elems(t);
      if s[0] in t {
        assert Elems(s) == Elems(t);
        var j :| 0 <= j < |t| && t[j] == s[0];
        assert s[0] == s[j + 1];
        assert !NoDups(s);
      } else {
        assert |Elems(s)| == |Elems(t)| + 1;
        if NoDups(t) {
          forall i, j | 0 <= i < j < |s| ensures s[i] != s[j] {
            if i == 0 {
              assert s[j] == t[j - 1];
            } else {
              assert s[i] == t[i - 1] && s[j] == t[j - 1];
            }
          }
        } else {
          var i, j :| 0 <= i < j < |t| && t[i] == t[j];
          assert s[i + 1] == s[j + 1];
        }
      }
    }
  }

  /** A subset is no larger than its superset, and equal when as large. */
  lemma SubsetCard(a: set<Guid>, b: set<Guid>)
    requires a <= b
    ensures |a| <= |b|
    ensures |a| == |b| ==> a == b
  {
    assert b == a + (b - a);
    assert |b| == |a| + |b - a|;
  }

  /** The id-list check passes exactly when the ids are distinct and all exist. */
  lemma FoundAllIff(keys: set<Guid>, ids: seq<Guid>)
    ensures |Found(keys, ids)| == |ids| <==> NoDups(ids) && Elems(ids) <= keys
  {
    var e := Elems(ids);
    var f := Found(keys, ids);
    ElemsCard(ids);
    assert f <= e;
    if |f| == |ids| {
      SubsetCard(f, e);
    }
    if NoDups(ids) && e <= keys {
      assert f == e;
    }
  }

  /** The same check over a set of ids (LINQ `Except` already removed repeats). */
  lemma FoundSetIff(keys: set<Guid>, ids: set<Guid>)
    ensures |ids * keys| == |ids| <==> ids <= keys
  {
    SubsetCard(ids * keys, ids);
    if ids <= keys {
      assert ids * keys == ids;
    }
  }

  /** LINQ `Skip(n)`: a count of zero or less skips nothing. */
  function Skip(s: seq<Guid>, n: int): (r: seq<Guid>)
    ensures |r| == if n <= 0 then |s| else if n >= |s| then 0 else |s| - n
    ensures forall i | 0 <= i < |r| :: r[i] == s[i + (if n <= 0 then 0 else n)]
    ensures forall x | x in r :: x in s
  {
    if n <= 0 then s else if n >= |s| then [] else s[n..]
  }

  /** LINQ `Take(n)`: a count of zero or less takes nothing. */
  function Take(s: seq<Guid>, n: int): (r: seq<Guid>)
    ensures |r| == if n <= 0 then 0 else if n >= |s| then |s| else n
    ensures r <= s
    ensures forall x | x in r :: x in s
  {
    if n <= 0 then [] else if n >= |s| then s else s[..n]
  }
}
