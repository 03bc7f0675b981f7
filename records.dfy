/** The rows of the `bingo_submissions` table and the replies of the hosted
    store. Ids and timestamps are opaque naturals. */
module Records {
  import opened Wrappers

  datatype Status = Pending | Approved | Rejected

  /** The `approval_status` column as stored. */
  function StatusName(s: Status): string {
    match s
    case Pending => "pending"
    case Approved => "approved"
    case Rejected => "rejected"
  }

  /** The `type` of a task and the `submission_type` of a row. */
  datatype Kind = Photo | Video | Attestation

  datatype Submission = Submission(
    id: nat,
    userId: nat,
    squareIndex: nat,
    squareText: string,
    kind: Kind,
    fileUrl: Option<string>,
    isChallenge: bool,
    status: Status,
    approvedBy: Option<string>,
    approvedAt: Option<nat>,
    createdAt: nat)

  /** What the page sends on insert: every column except those the store
      fills in (`id`, `created_at`) and those no insert path sets
      (`approved_by`, `approved_at`). */
  datatype Draft = Draft(
    userId: nat,
    squareIndex: nat,
    squareText: string,
    kind: Kind,
    fileUrl: Option<string>,
    isChallenge: bool,
    status: Status)

  /** The row the store creates from a draft. */
  function Stored(d: Draft, id: nat, now: nat): Submission {
    Submission(id, d.userId, d.squareIndex, d.squareText, d.kind, d.fileUrl,
               d.isChallenge, d.status, None, None, now)
  }

  /** The outcome of one call to the store, which the model does not decide:
      success, an error object carrying a code (`23505` is a violated
      uniqueness constraint), or a thrown exception (a network failure, the
      upload timeout). */
  datatype Reply = Ok | Err(code: string) | Exception

  /** The code PostgreSQL reports for a violated uniqueness constraint. */
  const UniqueViolation: string := "23505"

  /** JavaScript truthiness of a nullable string column: neither `null` nor `""`. */
  predicate Truthy(s: Option<string>) {
    s.Some? && s.value != []
  }
}
