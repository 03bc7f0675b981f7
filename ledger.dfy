/** The `bingo_submissions` table as the pages see it through the hosted
    store: rows in insertion order, ids handed out by the store, and the
    three writes the pages issue (insert, update by id, delete by id). */
module Ledger {
  import opened Wrappers
  import opened Records
  import opened Seqs

  /** The reviewer recorded by both admin actions. */
  const Reviewer: string := "admin"

  /** What approve and reject write into a row: the new status, the
      reviewer and the time of review. */
  function Reviewed(s: Submission, status: Status, now: nat): Submission {
    s.(status := status, approvedBy := Some(Reviewer), approvedAt := Some(now))
  }

  /** A row with its three review columns blanked: what a review never
      touches. */
  function Unreviewed(s: Submission): Submission {
    s.(status := Pending, approvedBy := None, approvedAt := None)
  }

  /** `update({approval_status, approved_by, approved_at}).eq('id', id)`. */
  function UpdateById(rows: seq<Submission>, id: nat, status: Status, now: nat): (r: seq<Submission>)
    ensures |r| == |rows|
  {
    if rows == [] then []
    else [if rows[0].id == id then Reviewed(rows[0], status, now) else rows[0]]
         + UpdateById(rows[1..], id, status, now)
  }

  /** The update rewrites exactly the rows carrying `id`, and in them only
      the three review columns. */
  lemma {:induction false} UpdateByIdAt(rows: seq<Submission>, id: nat, status: Status, now: nat)
    ensures forall k :: 0 <= k < |rows| ==>
      UpdateById(rows, id, status, now)[k]
        == (if rows[k].id == id then Reviewed(rows[k], status, now) else rows[k])
  {
    if rows != [] {
      UpdateByIdAt(rows[1..], id, status, now);
      var r := UpdateById(rows, id, status, now);
      forall k | 1 <= k < |rows|
        ensures r[k] == (if rows[k].id == id then Reviewed(rows[k], status, now) else rows[k])
      {
        assert r[k] == UpdateById(rows[1..], id, status, now)[k - 1];
        assert rows[k] == rows[1..][k - 1];
      }
    }
  }

  /** What an update leaves alone: the ids, every row whose id differs,
      and every column except the review columns. */
  lemma UpdateByIdKeeps(rows: seq<Submission>, id: nat, status: Status, now: nat)
    ensures var r := UpdateById(rows, id, status, now);
      forall k :: 0 <= k < |rows| ==>
        && r[k].id == rows[k].id
        && Unreviewed(r[k]) == Unreviewed(rows[k])
        && (rows[k].id != id ==> r[k] == rows[k])
        && (rows[k].id == id ==> r[k].status == status && r[k].approvedBy == Some(Reviewer)
                                 && r[k].approvedAt == Some(now))
  {
    UpdateByIdAt(rows, id, status, now);
  }

  /** Neither action looks at the current status, so the last review wins:
      approving then rejecting is rejecting, and repeating an action is
      performing it once (with the later time). */
  lemma {:induction false} UpdateLastWins(rows: seq<Submission>, id: nat, s1: Status, t1: nat, s2: Status, t2: nat)
    ensures UpdateById(UpdateById(rows, id, s1, t1), id, s2, t2) == UpdateById(rows, id, s2, t2)
  {
    if rows != [] {
      UpdateLastWins(rows[1..], id, s1, t1, s2, t2);
    }
  }

  /** `delete().eq('id', id)`. */
  function DeleteById(rows: seq<Submission>, id: nat): seq<Submission> {
    Filter(rows, (x: Submission) => x.id != id)
  }

  /** After a delete no row carries the id, every other row is still there,
      in its order, and deleting an id no row carries changes nothing. */
  lemma DeleteByIdSpec(rows: seq<Submission>, id: nat)
    ensures var r := DeleteById(rows, id);
      && (forall k :: 0 <= k < |r| ==> r[k].id != id && r[k] in rows)
      && (forall k :: 0 <= k < |rows| && rows[k].id != id ==> rows[k] in r)
      && IsSubsequence(r, rows)
      && ((forall k :: 0 <= k < |rows| ==> rows[k].id != id) ==> r == rows)
  {
    var p := (x: Submission) => x.id != id;
    FilterMembers(rows, p);
    FilterIsSubsequence(rows, p);
    if forall k :: 0 <= k < |rows| ==> rows[k].id != id {
      FilterAllKept(rows, p);
    }
  }

  /** `select('*').eq('user_id', user)`, in table order. */
  function RowsOf(rows: seq<Submission>, user: nat): seq<Submission> {
    Filter(rows, (x: Submission) => x.userId == user)
  }

  /** The selection holds exactly the user's rows. */
  lemma RowsOfSpec(rows: seq<Submission>, user: nat)
    ensures forall k :: 0 <= k < |RowsOf(rows, user)| ==>
      RowsOf(rows, user)[k].userId == user && RowsOf(rows, user)[k] in rows
    ensures forall k :: 0 <= k < |rows| && rows[k].userId == user ==> rows[k] in RowsOf(rows, user)
  {
    FilterMembers(rows, (x: Submission) => x.userId == user);
  }

  predicate IdsBelow(rows: seq<Submission>, n: nat) {
    forall k :: 0 <= k < |rows| ==> rows[k].id < n
  }

  function IdOf(s: Submission): int {
    s.id
  }

  predicate IdsUnique(rows: seq<Submission>) {
    DistinctBy(rows, IdOf)
  }

  /** The store: the table's rows and the next id it will hand out. Each
      write takes the store's reply; any reply but `Ok` leaves the table as
      it was. Nothing stops two rows for the same user and square: the
      store may accept them or refuse them, and the model lets the reply
      decide. */
  class SubmissionTable {
    var rows: seq<Submission>
    var nextId: nat

    /** Ids are distinct and below the next one. */
    ghost predicate Valid()
      reads this
    {
      IdsBelow(rows, nextId) && IdsUnique(rows)
    }

    constructor ()
      ensures rows == [] && nextId == 0
      ensures Valid()
    {
      rows := [];
      nextId := 0;
    }

    /** `insert([draft]).select()`: on success the new row, with a fresh
        id and the store's clock, goes at the end. */
    method Insert(d: Draft, now: nat, reply: Reply) returns (row: Option<Submission>)
      requires Valid()
      modifies this
      ensures Valid()
      ensures reply.Ok? ==> && row == Some(Stored(d, old(nextId), now))
                            && rows == old(rows) + [row.value]
                            && nextId == old(nextId) + 1
      ensures !reply.Ok? ==> row.None? && rows == old(rows) && nextId == old(nextId)
    {
      if reply.Ok? {
        var s := Stored(d, nextId, now);
        rows := rows + [s];
        nextId := nextId + 1;
        row := Some(s);
      } else {
        row := None;
      }
    }

    /** The admin's update of one row's review columns. */
    method Update(id: nat, status: Status, now: nat, reply: Reply) returns (ok: bool)
      requires Valid()
      modifies this
      ensures Valid()
      ensures ok == reply.Ok?
      ensures rows == (if ok then UpdateById(old(rows), id, status, now) else old(rows))
      ensures nextId == old(nextId)
    {
      ok := reply.Ok?;
      if ok {
        UpdateByIdKeeps(rows, id, status, now);
        rows := UpdateById(rows, id, status, now);
      }
    }

    /** The owner's delete of one row. */
    method Delete(id: nat, reply: Reply) returns (ok: bool)
      requires Valid()
      modifies this
      ensures Valid()
      ensures ok == reply.Ok?
      ensures rows == (if ok then DeleteById(old(rows), id) else old(rows))
      ensures nextId == old(nextId)
    {
      ok := reply.Ok?;
      if ok {
        DeleteByIdSpec(rows, id);
        FilterKeepsDistinctBy(rows, IdOf, (x: Submission) => x.id != id);
        rows := DeleteById(rows, id);
      }
    }
  }
}
