/** The bookings page's list: the seed rows, the create, update and delete
    handlers, and the status-and-search query that decides which rows the
    table shows. */
module Bookings {
  import opened Wrappers
  import opened Seqs
  import opened Text
  import opened Records

  /** The seven rows the page starts with. `new Date(2023, 4, d, h, m)` is
      day d of May 2023 (months count from 0) at h:m. */
  const InitialBookings: seq<Booking> := [
    Booking(1, "Jane Cooper", "jane@example.com", "555-123-4567", "Haircut",
            At("2023-05-12", 10, 30), "confirmed", "Regular customer, prefers stylist Maria"),
    Booking(2, "Esther Howard", "esther@example.com", "555-987-6543", "Manicure",
            At("2023-05-15", 14, 0), "pending", "First time customer"),
    Booking(3, "Robert Fox", "robert@example.com", "555-456-7890", "Massage",
            At("2023-05-10", 16, 30), "completed", "Prefers deep tissue"),
    Booking(4, "Kristin Watson", "kristin@example.com", "555-765-4321", "Facial",
            At("2023-05-18", 11, 15), "cancelled", "Cancellation due to illness"),
    Booking(5, "Michael Johnson", "michael@example.com", "555-234-5678", "Haircut",
            At("2023-05-20", 9, 0), "confirmed", "Wants a new style, bring reference photos"),
    Booking(6, "Cameron Williamson", "cameron@example.com", "555-876-5432", "Spa Package",
            At("2023-05-25", 13, 0), "pending", "Anniversary gift"),
    Booking(7, "Leslie Alexander", "leslie@example.com", "555-321-6789", "Pedicure",
            At("2023-05-22", 15, 45), "confirmed", "")
  ]

  /** No two rows share an id. */
  predicate UniqueIds(bs: seq<Booking>) {
    forall i, j :: 0 <= i < j < |bs| ==> bs[i].id != bs[j].id
  }

  /** Some row has the given id. */
  predicate HasId(bs: seq<Booking>, id: int) {
    exists i :: 0 <= i < |bs| && bs[i].id == id
  }

  /** The seed rows are numbered 1 to 7 in order and each has one of the
      four statuses. */
  lemma SeedWellFormed()
    ensures UniqueIds(InitialBookings)
    ensures forall i :: 0 <= i < |InitialBookings| ==> InitialBookings[i].id == i + 1
    ensures forall i :: 0 <= i < |InitialBookings| ==> InitialBookings[i].status in Statuses
  {
  }

  /** `Math.max(...bookings.map(b => b.id), 0)`: the largest id, and 0 when
      there is none or every id is below 0. */
  function MaxId(bs: seq<Booking>): (r: int)
    ensures r >= 0
    ensures forall i :: 0 <= i < |bs| ==> bs[i].id <= r
    ensures r == 0 || HasId(bs, r)
    decreases |bs|
  {
    if bs == [] then 0
    else
      var rest := MaxId(bs[1..]);
      assert forall i :: 1 <= i < |bs| ==> bs[i] == bs[1..][i - 1];
      if bs[0].id > rest then bs[0].id else rest
  }

  /** The id `handleCreateBooking` gives the next row. */
  function NextId(bs: seq<Booking>): (r: int)
    ensures r >= 1
    ensures forall i :: 0 <= i < |bs| ==> bs[i].id < r
    ensures bs == [] ==> r == 1
  {
    MaxId(bs) + 1
  }

  /** `handleCreateBooking`: append the submission under the next id. */
  function Create(bs: seq<Booking>, s: Submission): (r: seq<Booking>)
    ensures |r| == |bs| + 1 && r[..|bs|] == bs
    ensures r[|bs|] == FromSubmission(s, NextId(bs))
    ensures forall i :: 0 <= i < |bs| ==> bs[i].id < r[|bs|].id
    ensures bs == [] ==> r[|bs|].id == 1
  {
    bs + [FromSubmission(s, NextId(bs))]
  }

  /** Creating keeps the ids unique. */
  lemma CreateKeepsUnique(bs: seq<Booking>, s: Submission)
    requires UniqueIds(bs)
    ensures UniqueIds(Create(bs, s))
  {
    var r := Create(bs, s);
    forall i, j | 0 <= i < j < |r| ensures r[i].id != r[j].id {
      if j < |bs| {
        assert r[i] == bs[i] && r[j] == bs[j];
      }
    }
  }

  /** `handleUpdateBooking`: every row whose id equals the submission's id
      is replaced by the submission; a submission without an id matches no
      row. */
  function Update(bs: seq<Booking>, s: Submission): (r: seq<Booking>)
    ensures |r| == |bs|
    ensures forall i :: 0 <= i < |bs| ==> r[i].id == bs[i].id
    ensures forall i :: 0 <= i < |bs| && s.id != Some(bs[i].id) ==> r[i] == bs[i]
    ensures forall i :: 0 <= i < |bs| && s.id == Some(bs[i].id) ==> r[i] == FromSubmission(s, s.id.value)
  {
    seq(|bs|, i requires 0 <= i < |bs| => if s.id == Some(bs[i].id) then FromSubmission(s, bs[i].id) else bs[i])
  }

  /** An update whose id matches no row changes nothing. */
  lemma UpdateAbsentIsNoOp(bs: seq<Booking>, s: Submission)
    requires s.id.None? || !HasId(bs, s.id.value)
    ensures Update(bs, s) == bs
  {
  }

  /** Updating keeps the ids unique. */
  lemma UpdateKeepsUnique(bs: seq<Booking>, s: Submission)
    requires UniqueIds(bs)
    ensures UniqueIds(Update(bs, s))
  {
  }

  /** There is no status workflow: an update may move a row to any status,
      including text outside the four the page offers. */
  lemma UpdateSetsAnyStatus(bs: seq<Booking>, k: nat, s: Submission)
    requires k < |bs| && s.id == Some(bs[k].id)
    ensures Update(bs, s)[k].status == s.status
  {
  }

  /** `handleDeleteBooking`: keep the rows whose id differs. */
  function Delete(bs: seq<Booking>, id: int): (r: seq<Booking>)
    ensures IsSubsequence(r, bs)
    ensures !HasId(r, id)
    ensures forall b: Booking :: b.id != id ==> multiset(r)[b] == multiset(bs)[b]
    ensures !HasId(bs, id) ==> r == bs
  {
    Filter(bs, KeepOthers(id))
  }

  /** The predicate `handleDeleteBooking` filters with. */
  function KeepOthers(id: int): Booking -> bool {
    (b: Booking) => b.id != id
  }

  /** The ids left after a delete are the old ones minus the deleted one. */
  lemma DeleteIds(bs: seq<Booking>, id: int, x: int)
    ensures HasId(Delete(bs, id), x) <==> HasId(bs, x) && x != id
  {
    var r := Delete(bs, id);
    if HasId(r, x) {
      var i :| 0 <= i < |r| && r[i].id == x;
      SubsequenceMembers(r, bs, r[i]);
    }
    if HasId(bs, x) && x != id {
      var i :| 0 <= i < |bs| && bs[i].id == x;
      assert multiset(r)[bs[i]] == multiset(bs)[bs[i]] > 0;
      assert bs[i] in r;
    }
  }

  /** With unique ids, deleting an id that is present removes exactly one row. */
  lemma {:induction false} DeleteRemovesOne(bs: seq<Booking>, id: int)
    requires UniqueIds(bs) && HasId(bs, id)
    ensures |Delete(bs, id)| == |bs| - 1
    decreases |bs|
  {
    var rest := bs[1..];
    assert UniqueIds(rest) by {
      forall i, j | 0 <= i < j < |rest| ensures rest[i].id != rest[j].id {
        assert rest[i] == bs[i + 1] && rest[j] == bs[j + 1];
      }
    }
    assert bs == [bs[0]] + rest;
    if bs[0].id == id {
      assert !HasId(rest, id) by {
        forall i | 0 <= i < |rest| ensures rest[i].id != id {
          assert rest[i] == bs[i + 1];
        }
      }
      assert Delete(rest, id) == rest;
    } else {
      var i :| 0 <= i < |bs| && bs[i].id == id;
      assert rest[i - 1].id == id;
      DeleteRemovesOne(rest, id);
    }
  }

  /** A subsequence of rows with unique ids has unique ids. */
  lemma {:induction false} SubsequenceKeepsUnique(a: seq<Booking>, b: seq<Booking>)
    requires IsSubsequence(a, b) && UniqueIds(b)
    ensures UniqueIds(a)
    decreases |b|
  {
    if a == [] {
      return;
    }
    var rest := b[1..];
    assert UniqueIds(rest) by {
      forall i, j | 0 <= i < j < |rest| ensures rest[i].id != rest[j].id {
        assert rest[i] == b[i + 1] && rest[j] == b[j + 1];
      }
    }
    if a[0] == b[0] && IsSubsequence(a[1..], rest) {
      SubsequenceKeepsUnique(a[1..], rest);
      forall i, j | 0 <= i < j < |a| ensures a[i].id != a[j].id {
        if i == 0 {
          SubsequenceMembers(a[1..], rest, a[j]);
          var k :| 0 <= k < |rest| && rest[k] == a[j];
          assert b[k + 1] == a[j];
        } else {
          assert a[i] == a[1..][i - 1] && a[j] == a[1..][j - 1];
        }
      }
    } else {
      SubsequenceKeepsUnique(a, rest);
    }
  }

  /** Deleting keeps the ids unique. */
  lemma DeleteKeepsUnique(bs: seq<Booking>, id: int)
    requires UniqueIds(bs)
    ensures UniqueIds(Delete(bs, id))
  {
    SubsequenceKeepsUnique(Delete(bs, id), bs);
  }

  /** Deleting the row with the largest id m leaves only ids below m. */
  lemma DeleteBelowMax(bs: seq<Booking>, m: int)
    requires m == MaxId(bs) && m >= 1
    ensures MaxId(Delete(bs, m)) < m
  {
    var r := Delete(bs, m);
    var top := MaxId(r);
    if top != 0 {
      var i :| 0 <= i < |r| && r[i].id == top;
      assert HasId(r, top);
      DeleteIds(bs, m, top);
      var j :| 0 <= j < |bs| && bs[j].id == top;
      assert bs[j].id <= m;
    }
  }

  /** If m is 1 or m - 1 is still in use, deleting m leaves m - 1 as the
      largest id. */
  lemma ReuseWhenPredecessorKept(bs: seq<Booking>, m: int)
    requires m == MaxId(bs) && m >= 1
    requires m == 1 || HasId(bs, m - 1)
    ensures MaxId(Delete(bs, m)) == m - 1
    ensures NextId(Delete(bs, m)) == m
  {
    var r := Delete(bs, m);
    DeleteBelowMax(bs, m);
    if m != 1 {
      DeleteIds(bs, m, m - 1);
      var i :| 0 <= i < |r| && r[i].id == m - 1;
      assert r[i].id <= MaxId(r);
    }
  }

  /** If m - 1 is not in use and m is not 1, deleting m does not leave
      m - 1 as the largest id. */
  lemma NoReuseAfterGap(bs: seq<Booking>, m: int)
    requires m == MaxId(bs) && m > 1
    requires !HasId(bs, m - 1)
    ensures MaxId(Delete(bs, m)) != m - 1
    ensures NextId(Delete(bs, m)) != m
  {
    var r := Delete(bs, m);
    if MaxId(r) == m - 1 {
      assert HasId(r, m - 1);
      DeleteIds(bs, m, m - 1);
      assert false;
    }
  }

  /** Ids are not reserved: deleting the row that holds the largest id m and
      creating a row hands out m again exactly when m is 1 or m - 1 is still
      in use. */
  lemma DeleteMaxThenNextId(bs: seq<Booking>, m: int)
    requires m == MaxId(bs) && m >= 1
    ensures NextId(Delete(bs, m)) == m <==> m == 1 || HasId(bs, m - 1)
  {
    if m == 1 || HasId(bs, m - 1) {
      ReuseWhenPredecessorKept(bs, m);
    } else {
      NoReuseAfterGap(bs, m);
    }
  }

  /** Creating a row and deleting it again restores the list, so the next
      create hands out the same id a second time. */
  lemma CreateDeleteCreate(bs: seq<Booking>, s: Submission, t: Submission)
    ensures var n := NextId(bs);
            && Delete(Create(bs, s), n) == bs
            && Create(Delete(Create(bs, s), n), t)[|bs|].id == n
  {
    var n := NextId(bs);
    var x := FromSubmission(s, n);
    FilterAppend(bs, [x], KeepOthers(n));
    assert Filter([x], KeepOthers(n)) == [];
    assert !HasId(bs, n);
  }

  /** Rows numbered 1, 2, ..., n in order: deleting row n and creating a
      new row gives the new row id n again. */
  lemma {:induction false} NumberedIdReuse(bs: seq<Booking>)
    requires |bs| >= 1
    requires forall i :: 0 <= i < |bs| ==> bs[i].id == i + 1
    ensures MaxId(bs) == |bs|
    ensures NextId(Delete(bs, |bs|)) == |bs|
  {
    assert HasId(bs, |bs|) by { assert bs[|bs| - 1].id == |bs|; }
    var m := MaxId(bs);
    var i :| 0 <= i < |bs| && bs[i].id == m;
    DeleteMaxThenNextId(bs, m);
    if |bs| > 1 {
      assert bs[|bs| - 2].id == |bs| - 1;
    }
  }

  /** On the seed rows: deleting booking 7 and creating a new one gives the
      new row id 7 again. */
  lemma SeedIdReuse()
    ensures MaxId(InitialBookings) == 7
    ensures NextId(Delete(InitialBookings, 7)) == 7
  {
    SeedWellFormed();
    NumberedIdReuse(InitialBookings);
  }

  /** Whether the lowercased search term occurs in the lowercased customer,
      email or service. */
  predicate MatchesTerm(b: Booking, lowered: string) {
    || Contains(ToLower(b.customer), lowered)
    || Contains(ToLower(b.email), lowered)
    || Contains(ToLower(b.service), lowered)
  }

  /** Whether a row passes the status filter. */
  predicate StatusPasses(b: Booking, statusFilter: string) {
    statusFilter == AllStatuses || b.status == statusFilter
  }

  /** Whether a row passes the search. */
  predicate SearchPasses(b: Booking, term: string) {
    term == "" || MatchesTerm(b, ToLower(term))
  }

  /** The status step: `result.filter(booking => booking.status ===
      statusFilter)` unless the filter is "all". */
  function StatusStep(bs: seq<Booking>, statusFilter: string): (r: seq<Booking>)
    ensures IsSubsequence(r, bs)
    ensures statusFilter == AllStatuses ==> r == bs
    ensures forall b: Booking :: multiset(r)[b] == if StatusPasses(b, statusFilter) then multiset(bs)[b] else 0
  {
    if statusFilter != AllStatuses then
      Filter(bs, (b: Booking) => b.status == statusFilter)
    else
      SubsequenceRefl(bs);
      bs
  }

  /** The search step: keep the rows the lowercased term matches, unless
      the term is empty. */
  function SearchStep(bs: seq<Booking>, term: string): (r: seq<Booking>)
    ensures IsSubsequence(r, bs)
    ensures term == "" ==> r == bs
    ensures forall b: Booking :: multiset(r)[b] == if SearchPasses(b, term) then multiset(bs)[b] else 0
  {
    if term != "" then
      BySearch(bs, ToLower(term))
    else
      SubsequenceRefl(bs);
      bs
  }

  /** The search for an already lowercased term. */
  function BySearch(bs: seq<Booking>, lowered: string): seq<Booking> {
    Filter(bs, (b: Booking) => MatchesTerm(b, lowered))
  }

  /** The page's filter effect: the status step, then the search step. */
  function Query(bs: seq<Booking>, statusFilter: string, term: string): (r: seq<Booking>)
    ensures IsSubsequence(r, bs)
    ensures statusFilter == AllStatuses && term == "" ==> r == bs
  {
    var byStatus := StatusStep(bs, statusFilter);
    var r := SearchStep(byStatus, term);
    SubsequenceTrans(r, byStatus, bs);
    r
  }

  /** Whether a row belongs in the table, decided on the row alone. */
  predicate Selected(b: Booking, statusFilter: string, term: string) {
    StatusPasses(b, statusFilter) && SearchPasses(b, term)
  }

  /** The query keeps exactly the selected rows, each as often as it occurs. */
  lemma QueryExact(bs: seq<Booking>, statusFilter: string, term: string, b: Booking)
    ensures multiset(Query(bs, statusFilter, term))[b] == if Selected(b, statusFilter, term) then multiset(bs)[b] else 0
    ensures b in Query(bs, statusFilter, term) <==> b in bs && Selected(b, statusFilter, term)
  {
    var r := Query(bs, statusFilter, term);
    assert b in r <==> multiset(r)[b] > 0;
    assert b in bs <==> multiset(bs)[b] > 0;
  }

  /** With a status chosen, every row shown has that status. */
  lemma QueryHasStatus(bs: seq<Booking>, statusFilter: string, term: string)
    requires statusFilter != AllStatuses
    ensures forall i :: 0 <= i < |Query(bs, statusFilter, term)| ==> Query(bs, statusFilter, term)[i].status == statusFilter
  {
    var r := Query(bs, statusFilter, term);
    forall i | 0 <= i < |r| ensures r[i].status == statusFilter {
      QueryExact(bs, statusFilter, term, r[i]);
    }
  }

  /** The search ignores case in the term: lowering it first changes nothing. */
  lemma QueryIgnoresTermCase(bs: seq<Booking>, statusFilter: string, term: string)
    ensures Query(bs, statusFilter, ToLower(term)) == Query(bs, statusFilter, term)
  {
    ToLowerIdempotent(term);
  }
}
