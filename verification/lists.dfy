/** Kotlin list operations the note screen and the view model rely on:
    `distinct()` (keeps the first occurrence of each element, in order) and
    `List.minus(element)` (drops the first occurrence of the element only). */
module Lists {

  /** No element occurs twice. */
  ghost predicate NoDuplicates<T>(s: seq<T>) {
    forall i, j :: 0 <= i < j < |s| ==> s[i] != s[j]
  }

  /** The elements of `s` not in `seen`, each at its first occurrence. */
  function DistinctFrom<T(==,!new)>(s: seq<T>, seen: set<T>): (r: seq<T>)
    ensures NoDuplicates(r)
    ensures forall x :: x in r <==> x in s && x !in seen
  {
    if s == [] then []
    else if s[0] in seen then DistinctFrom(s[1..], seen)
    else
      var rest := DistinctFrom(s[1..], seen + {s[0]});
      [s[0]] + rest
  }

  /** `s.distinct()`: every element once, in the order of first occurrence. */
  function Distinct<T(==,!new)>(s: seq<T>): (r: seq<T>)
    ensures NoDuplicates(r)
    ensures forall x :: x in r <==> x in s
  {
    DistinctFrom(s, {})
  }

  /** Kotlin builds `distinct()` by adding the elements to an insertion-ordered
      set one at a time; adding an element already present changes nothing.
      This is that characterisation, stated for any prefix. */
  lemma {:induction false} DistinctFromSnoc<T(!new)>(s: seq<T>, seen: set<T>, x: T)
    ensures DistinctFrom(s + [x], seen)
         == if x in s || x in seen then DistinctFrom(s, seen) else DistinctFrom(s, seen) + [x]
  {
    if s == [] {
      assert s + [x] == [x];
      assert DistinctFrom([x][1..], seen + {x}) == [];
    } else {
      assert (s + [x])[0] == s[0];
      assert (s + [x])[1..] == s[1..] + [x];
      if s[0] in seen {
        DistinctFromSnoc(s[1..], seen, x);
      } else {
        DistinctFromSnoc(s[1..], seen + {s[0]}, x);
      }
    }
  }

  lemma DistinctSnoc<T(!new)>(s: seq<T>, x: T)
    ensures Distinct(s + [x]) == if x in s then Distinct(s) else Distinct(s) + [x]
  {
    DistinctFromSnoc(s, {}, x);
  }

  /** A list without duplicates is its own `distinct()`; in particular
      `distinct()` is idempotent. */
  lemma {:induction false} DistinctFromOfUnique<T(!new)>(s: seq<T>, seen: set<T>)
    requires NoDuplicates(s)
    requires forall x :: x in s ==> x !in seen
    ensures DistinctFrom(s, seen) == s
  {
    if s != [] {
      assert s[0] in s;
      forall x | x in s[1..] ensures x !in seen + {s[0]} {
        var k :| 0 <= k < |s[1..]| && s[1..][k] == x;
        assert s[k + 1] == x;
      }
      DistinctFromOfUnique(s[1..], seen + {s[0]});
    }
  }

  lemma DistinctOfUnique<T(!new)>(s: seq<T>)
    requires NoDuplicates(s)
    ensures Distinct(s) == s
  {
    DistinctFromOfUnique(s, {});
  }

  lemma DistinctIdempotent<T(!new)>(s: seq<T>)
    ensures Distinct(Distinct(s)) == Distinct(s)
  {
    DistinctOfUnique(Distinct(s));
  }

  /** `s - x` for a Kotlin list: the first occurrence of `x` removed. */
  function RemoveFirst<T(==)>(s: seq<T>, x: T): (r: seq<T>)
    ensures multiset(r) == multiset(s) - multiset{x}
  {
    if s == [] then []
    else if s[0] == x then
      assert s == [s[0]] + s[1..];
      s[1..]
    else
      assert s == [s[0]] + s[1..];
      [s[0]] + RemoveFirst(s[1..], x)
  }

  /** `s - x` drops exactly the first occurrence of `x` and keeps every
      other element in its place. */
  lemma {:induction false} RemoveFirstAt<T>(s: seq<T>, x: T, i: nat)
    requires i < |s| && s[i] == x && x !in s[..i]
    ensures RemoveFirst(s, x) == s[..i] + s[i + 1..]
  {
    if i > 0 {
      var head, tail := s[0], s[1..];
      assert s[..i][0] == head;
      assert head != x;
      assert tail[..i - 1] == s[..i][1..];
      assert tail[i - 1] == x;
      RemoveFirstAt(tail, x, i - 1);
      assert tail[i..] == s[i + 1..];
      assert s[..i] == [head] + tail[..i - 1];
    }
  }

  /** `s - x` leaves a list without `x` unchanged. */
  lemma {:induction false} RemoveFirstNotIn<T>(s: seq<T>, x: T)
    requires x !in s
    ensures RemoveFirst(s, x) == s
  {
    if s != [] {
      assert s[0] in s;
      assert x !in s[1..] by {
        forall y | y in s[1..] ensures y in s {
          var k :| 0 <= k < |s[1..]| && s[1..][k] == y;
          assert s[k + 1] == y;
        }
      }
      RemoveFirstNotIn(s[1..], x);
      assert s == [s[0]] + s[1..];
    }
  }

  /** Removing an element from a duplicate-free list removes it entirely,
      shortens the list by one, and keeps every other element. */
  lemma RemoveFirstOfUnique<T>(s: seq<T>, x: T)
    requires NoDuplicates(s) && x in s
    ensures x !in RemoveFirst(s, x)
    ensures |RemoveFirst(s, x)| == |s| - 1
    ensures forall y :: y != x ==> (y in RemoveFirst(s, x) <==> y in s)
  {
    var r := RemoveFirst(s, x);
    assert multiset(s)[x] == 1 by {
      var i :| 0 <= i < |s| && s[i] == x;
      assert s == s[..i] + [x] + s[i + 1..];
      var pre, post := s[..i], s[i + 1..];
      assert x !in pre && x !in post by {
        forall k | 0 <= k < |pre| ensures pre[k] != x { assert s[k] != s[i]; }
        forall k | 0 <= k < |post| ensures post[k] != x { assert s[i + 1 + k] != s[i]; }
      }
      assert multiset(s) == multiset(s[..i]) + multiset{x} + multiset(s[i + 1..]);
    }
    assert multiset(r)[x] == 0;
    assert |multiset(r)| == |multiset(s)| - 1;
    forall y | y != x ensures y in r <==> y in s {
      assert y in r <==> y in multiset(r);
      assert y in s <==> y in multiset(s);
    }
  }
}
