/** The order of the note listing, `ORDER BY isPriority DESC, timestamp DESC`:
    pinned notes first, newest first within each group. The relation is a
    total preorder; rows that tie on both keys may come in any order. */
module Listing {
  import opened Entities

  /** `a` may be listed before `b`. */
  predicate ListedBefore(a: Note, b: Note) {
    (a.isPriority && !b.isPriority) || (a.isPriority == b.isPriority && a.timestamp >= b.timestamp)
  }

  predicate InListingOrder(s: seq<Note>) {
    forall i, j :: 0 <= i < j < |s| ==> ListedBefore(s[i], s[j])
  }

  /** The listing order is exactly "every pinned note before every unpinned
      note, timestamps non-increasing within each group". */
  lemma ListingOrderIff(s: seq<Note>)
    ensures InListingOrder(s) <==>
      && (forall i, j :: 0 <= i < j < |s| && s[j].isPriority ==> s[i].isPriority)
      && (forall i, j :: 0 <= i < j < |s| && s[i].isPriority == s[j].isPriority ==> s[i].timestamp >= s[j].timestamp)
  {
  }

  /** Inserts `n` into a listing before the first row it may precede. */
  function InsertListed(n: Note, s: seq<Note>): (r: seq<Note>)
    requires InListingOrder(s)
    ensures InListingOrder(r)
    ensures multiset(r) == multiset(s) + multiset{n}
  {
    if s == [] then [n]
    else if ListedBefore(n, s[0]) then [n] + s
    else
      assert s == [s[0]] + s[1..];
      var rest := InsertListed(n, s[1..]);
      assert InListingOrder([s[0]] + rest) by {
        forall j | 0 <= j < |rest| ensures ListedBefore(s[0], rest[j]) {
          assert rest[j] in multiset(rest);
          if rest[j] != n {
            assert rest[j] in multiset(s[1..]);
            var k :| 0 <= k < |s[1..]| && s[1..][k] == rest[j];
            assert s[k + 1] == rest[j];
          }
        }
      }
      [s[0]] + rest
  }

  /** The rows of the `getAllNotes` query, in listing order. */
  function SortForListing(s: seq<Note>): (r: seq<Note>)
    ensures InListingOrder(r)
    ensures multiset(r) == multiset(s)
  {
    if s == [] then []
    else
      assert s == [s[0]] + s[1..];
      InsertListed(s[0], SortForListing(s[1..]))
  }
}
