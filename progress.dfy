/** What the pages derive from a user's rows: the approved count shown as
    `completed / 25`, and the media gallery of the public view page. */
module Progress {
  import opened Wrappers
  import opened Seqs
  import opened Records
  import opened Catalog
  import opened Ledger

  predicate IsApproved(s: Submission) {
    s.status == Approved
  }

  /** `submissions.filter(sub => sub.approval_status === 'approved').length`. */
  function Completed(subs: seq<Submission>): (n: nat)
    ensures n <= |subs|
  {
    |Filter(subs, IsApproved)|
  }

  /** The count is the number of approved rows, so it adds up over a split
      of the rows. */
  lemma CompletedAppend(a: seq<Submission>, b: seq<Submission>)
    ensures Completed(a + b) == Completed(a) + Completed(b)
  {
    FilterAppend(a, b, IsApproved);
  }

  /** Counted rows are approved rows, and every approved row is counted. */
  lemma CompletedCountsApproved(subs: seq<Submission>)
    ensures Completed(subs) == 0 <==> forall k :: 0 <= k < |subs| ==> !IsApproved(subs[k])
  {
    FilterMembers(subs, IsApproved);
    if Completed(subs) != 0 {
      assert Filter(subs, IsApproved)[0] in subs;
    }
  }

  function SquareOf(s: Submission): int {
    s.squareIndex
  }

  /** The display `completed / 25` never passes 25 while each square has at
      most one row. Nothing in the pages guarantees that: the form reopened
      by "Update File" inserts a second row for the same square, and its
      approval counts again. */
  lemma CompletedAtMostTotal(subs: seq<Submission>)
    requires DistinctBy(subs, SquareOf)
    requires forall k :: 0 <= k < |subs| ==> subs[k].squareIndex < TaskCount
    ensures Completed(subs) <= TaskCount
  {
    var a := Filter(subs, IsApproved);
    FilterKeepsDistinctBy(subs, SquareOf, IsApproved);
    FilterMembers(subs, IsApproved);
    forall k | 0 <= k < |a| ensures 0 <= SquareOf(a[k]) < TaskCount {
      var j :| 0 <= j < |subs| && subs[j] == a[k];
    }
    DistinctByBound(a, SquareOf, TaskCount);
  }

  /** Two approved rows for one square count twice. */
  lemma DuplicateCountsTwice(s: Submission, t: Submission)
    requires s.squareIndex == t.squareIndex && IsApproved(s) && IsApproved(t)
    ensures Completed([s, t]) == 2
  {
    FilterUnfold([s, t], IsApproved);
    FilterUnfold([t], IsApproved);
    assert [s, t][1..] == [t];
  }

  /** The score of a user on the leaderboard is the completed count of the
      user's rows in the table. */
  function Score(rows: seq<Submission>, user: nat): nat {
    Completed(RowsOf(rows, user))
  }

  /** The score is also what the leaderboard asks the store for: the rows
      with the user's id whose status is approved. */
  lemma ScoreIsApprovedRowsOfUser(rows: seq<Submission>, user: nat)
    ensures Score(rows, user) == |Filter(rows, (x: Submission) => x.userId == user && x.status == Approved)|
  {
    FilterFilter(rows, (x: Submission) => x.userId == user, IsApproved,
                 (x: Submission) => x.userId == user && x.status == Approved);
  }

  /** A user's score never passes 25 while the user has at most one row per
      square. */
  lemma ScoreAtMostTotal(rows: seq<Submission>, user: nat)
    requires DistinctBy(RowsOf(rows, user), SquareOf)
    requires forall k :: 0 <= k < |rows| ==> rows[k].squareIndex < TaskCount
    ensures Score(rows, user) <= TaskCount
  {
    RowsOfSpec(rows, user);
    var mine := RowsOf(rows, user);
    forall k | 0 <= k < |mine| ensures mine[k].squareIndex < TaskCount {
      var j :| 0 <= j < |rows| && rows[j] == mine[k];
    }
    CompletedAtMostTotal(mine);
  }

  /** Approving a pending row raises its owner's score by one, and rejecting
      an approved row lowers it by one, when ids are distinct. */
  lemma ReviewMovesScore(rows: seq<Submission>, k: nat, status: Status, now: nat)
    requires DistinctBy(rows, IdOf)
    requires k < |rows|
    ensures var after := UpdateById(rows, rows[k].id, status, now);
      Score(after, rows[k].userId) + (if IsApproved(rows[k]) then 1 else 0)
        == Score(rows, rows[k].userId) + (if status == Approved then 1 else 0)
  {
    var id, user := rows[k].id, rows[k].userId;
    UpdateByIdAt(rows, id, status, now);
    var after := UpdateById(rows, id, status, now);
    assert rows == rows[..k] + [rows[k]] + rows[k + 1..];
    assert after == after[..k] + [after[k]] + after[k + 1..];
    UpdateByIdSlice(rows, id, status, now, k);
    forall j | 0 <= j < |rows[..k]| ensures rows[..k][j].id != id {
      assert IdOf(rows[j]) != IdOf(rows[k]);
    }
    forall j | k + 1 <= j < |rows| ensures rows[j].id != id {
      assert IdOf(rows[k]) != IdOf(rows[j]);
    }
    UpdateByIdAbsent(rows[..k], id, status, now);
    UpdateByIdAbsent(rows[k + 1..], id, status, now);
    ScoreOfSplit(rows[..k], [rows[k]], rows[k + 1..], user);
    ScoreOfSplit(after[..k], [after[k]], after[k + 1..], user);
  }

  lemma ScoreOfSplit(a: seq<Submission>, b: seq<Submission>, c: seq<Submission>, user: nat)
    ensures Score(a + b + c, user) == Score(a, user) + Score(b, user) + Score(c, user)
  {
    var p := (x: Submission) => x.userId == user;
    FilterAppend(a + b, c, p);
    FilterAppend(a, b, p);
    CompletedAppend(Filter(a, p) + Filter(b, p), Filter(c, p));
    CompletedAppend(Filter(a, p), Filter(b, p));
  }

  /** An update cuts into the same pieces as its input. */
  lemma UpdateByIdSlice(rows: seq<Submission>, id: nat, status: Status, now: nat, k: nat)
    requires k < |rows|
    ensures var after := UpdateById(rows, id, status, now);
      && after[..k] == UpdateById(rows[..k], id, status, now)
      && after[k + 1..] == UpdateById(rows[k + 1..], id, status, now)
  {
    var after := UpdateById(rows, id, status, now);
    UpdateByIdAt(rows, id, status, now);
    UpdateByIdAt(rows[..k], id, status, now);
    UpdateByIdAt(rows[k + 1..], id, status, now);
  }

  /** Rows without the id come out of an update unchanged. */
  lemma {:induction false} UpdateByIdAbsent(rows: seq<Submission>, id: nat, status: Status, now: nat)
    requires forall j :: 0 <= j < |rows| ==> rows[j].id != id
    ensures UpdateById(rows, id, status, now) == rows
  {
    if rows != [] {
      UpdateByIdAbsent(rows[1..], id, status, now);
      assert [rows[0]] + rows[1..] == rows;
    }
  }

  /** A gallery card: anything but an attestation, with a non-empty
      `file_url`. The review status plays no part. */
  predicate InGallery(s: Submission) {
    s.kind != Attestation && Truthy(s.fileUrl)
  }

  /** `submissions.filter(sub => sub.submission_type !== 'attestation' && sub.file_url)`. */
  function Gallery(subs: seq<Submission>): seq<Submission> {
    Filter(subs, InGallery)
  }

  /** The gallery shows exactly the media rows, in the order loaded. */
  lemma GallerySpec(subs: seq<Submission>)
    ensures forall k :: 0 <= k < |Gallery(subs)| ==> Gallery(subs)[k] in subs && InGallery(Gallery(subs)[k])
    ensures forall k :: 0 <= k < |subs| && InGallery(subs[k]) ==> subs[k] in Gallery(subs)
    ensures IsSubsequence(Gallery(subs), subs)
  {
    FilterMembers(subs, InGallery);
    FilterIsSubsequence(subs, InGallery);
  }

  /** Reviewing a row does not move it in or out of the gallery: pending
      and rejected photos are shown like approved ones. */
  lemma {:induction false} GalleryIgnoresReview(rows: seq<Submission>, id: nat, status: Status, now: nat)
    ensures Gallery(UpdateById(rows, id, status, now)) == UpdateById(Gallery(rows), id, status, now)
  {
    if rows != [] {
      GalleryIgnoresReview(rows[1..], id, status, now);
      var r := UpdateById(rows, id, status, now);
      assert r[1..] == UpdateById(rows[1..], id, status, now);
      FilterUnfold(r, InGallery);
      FilterUnfold(rows, InGallery);
      assert InGallery(r[0]) == InGallery(rows[0]);
      if InGallery(rows[0]) {
        var g := Gallery(rows);
        assert g[0] == rows[0] && g[1..] == Gallery(rows[1..]);
      }
    }
  }

  /** A pending photo still appears. */
  lemma PendingPhotoShown(s: Submission)
    requires s.kind == Photo && Truthy(s.fileUrl) && s.status == Pending
    ensures Gallery([s]) == [s] && Completed([s]) == 0
  {
  }

  /** Non-decreasing by square, the order the view page asks the store for. */
  predicate SortedBySquare(subs: seq<Submission>) {
    forall i, j :: 0 <= i < j < |subs| ==> subs[i].squareIndex <= subs[j].squareIndex
  }

  /** The gallery keeps the square order of the rows it was given. */
  lemma {:induction false} GallerySorted(subs: seq<Submission>)
    requires SortedBySquare(subs)
    ensures SortedBySquare(Gallery(subs))
  {
    if subs != [] {
      GallerySorted(subs[1..]);
      FilterMembers(subs[1..], InGallery);
      if InGallery(subs[0]) {
        var g := Gallery(subs);
        assert g == [subs[0]] + Gallery(subs[1..]);
        forall j | 1 <= j < |g| ensures subs[0].squareIndex <= g[j].squareIndex {
          var m :| 0 <= m < |subs[1..]| && subs[1..][m] == g[j];
          assert subs[m + 1] == g[j];
        }
      }
    }
  }
}
