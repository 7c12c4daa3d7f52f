/** The search filter applied to the note listing: a note stays when the
    query occurs, ignoring case, in its content or in its title. */
module Search {
  import opened Entities
  import opened Text
  import opened Listing

  predicate Matches(n: Note, query: string) {
    ContainsIgnoreCase(n.content, query) || ContainsIgnoreCase(n.title, query)
  }

  /** `notes.filter { it.content.contains(q, true) || it.title.contains(q, true) }` */
  function Filter(notes: seq<Note>, query: string): (r: seq<Note>)
    ensures |r| <= |notes|
    ensures forall n :: n in r ==> n in notes && Matches(n, query)
  {
    if notes == [] then []
    else (if Matches(notes[0], query) then [notes[0]] else []) + Filter(notes[1..], query)
  }

  /** A note is shown iff it is in the listing and matches the query. */
  lemma {:induction false} FilterMembership(notes: seq<Note>, query: string, n: Note)
    ensures n in Filter(notes, query) <==> n in notes && Matches(n, query)
  {
    if notes != [] {
      FilterMembership(notes[1..], query, n);
      assert notes == [notes[0]] + notes[1..];
    }
  }

  /** Filtering distributes over concatenation, so it keeps the relative
      order of the notes it retains. */
  lemma {:induction false} FilterAppend(a: seq<Note>, b: seq<Note>, query: string)
    ensures Filter(a + b, query) == Filter(a, query) + Filter(b, query)
  {
    if a != [] {
      assert (a + b)[0] == a[0];
      assert (a + b)[1..] == a[1..] + b;
      FilterAppend(a[1..], b, query);
    } else {
      assert a + b == b;
    }
  }

  /** `sub` is `s` with some elements dropped and the rest kept in order. */
  predicate IsSubsequence(sub: seq<Note>, s: seq<Note>) {
    if sub == [] then true
    else if s == [] then false
    else if sub[0] == s[0] then IsSubsequence(sub[1..], s[1..])
    else IsSubsequence(sub, s[1..])
  }

  lemma {:induction false} FilterIsSubsequence(notes: seq<Note>, query: string)
    ensures IsSubsequence(Filter(notes, query), notes)
  {
    if notes != [] {
      FilterIsSubsequence(notes[1..], query);
      var rest := Filter(notes[1..], query);
      if Matches(notes[0], query) {
        assert Filter(notes, query) == [notes[0]] + rest;
        assert ([notes[0]] + rest)[1..] == rest;
      } else {
        assert Filter(notes, query) == rest;
        SubsequenceSkip(rest, notes);
      }
    }
  }

  lemma {:induction false} SubsequenceSkip(sub: seq<Note>, s: seq<Note>)
    requires s != [] && IsSubsequence(sub, s[1..])
    ensures IsSubsequence(sub, s)
  {
    if sub != [] && sub[0] == s[0] {
      if s[1..] != [] {
        if sub[0] == s[1..][0] {
          SubsequenceSkip(sub[1..], s[1..]);
        } else {
          SubsequenceTail(sub, s[1..]);
        }
      }
    }
  }

  /** Dropping the head of a subsequence keeps it a subsequence. */
  lemma {:induction false} SubsequenceTail(sub: seq<Note>, s: seq<Note>)
    requires sub != [] && IsSubsequence(sub, s)
    ensures IsSubsequence(sub[1..], s)
  {
    if sub[0] == s[0] {
      if sub[1..] != [] {
        SubsequenceSkip(sub[1..], s);
      }
    } else {
      SubsequenceTail(sub, s[1..]);
      SubsequenceSkip(sub[1..], s);
    }
  }

  /** The empty query keeps every note. */
  lemma {:induction false} FilterEmptyQuery(notes: seq<Note>)
    ensures Filter(notes, "") == notes
  {
    if notes != [] {
      ContainsEmpty(notes[0].content);
      FilterEmptyQuery(notes[1..]);
    }
  }

  /** Filtering a listing leaves it in listing order. */
  lemma {:induction false} FilterKeepsListingOrder(notes: seq<Note>, query: string)
    requires InListingOrder(notes)
    ensures InListingOrder(Filter(notes, query))
  {
    if notes != [] {
      FilterKeepsListingOrder(notes[1..], query);
      var rest := Filter(notes[1..], query);
      if Matches(notes[0], query) {
        forall j | 0 <= j < |rest| ensures ListedBefore(notes[0], rest[j]) {
          assert rest[j] in rest;
          FilterMembership(notes[1..], query, rest[j]);
          var k :| 0 <= k < |notes[1..]| && notes[1..][k] == rest[j];
          assert notes[k + 1] == rest[j];
        }
      }
    }
  }
}
