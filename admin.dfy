/** The admin page of a group: a password gate remembered per group in the
    tab's session storage, the list of the group's challenge submissions,
    a status filter over it, and the approve and reject actions. */
module Admin {
  import opened Wrappers
  import opened Seqs
  import opened Records
  import opened Ledger

  const AdminPassword: string := "picklemuffins"
  const DefaultFilter: string := "pending"
  const AllFilter: string := "all"

  /** The session-storage key that marks the group's panel as unlocked. */
  function AuthKey(group: string): string {
    "admin_auth_" + group
  }

  predicate Unlocked(session: map<string, string>, group: string) {
    AuthKey(group) in session && session[AuthKey(group)] == "true"
  }

  /** Distinct groups have distinct keys, so unlocking one group's panel
      unlocks no other. */
  lemma AuthKeyInjective(g1: string, g2: string)
    requires AuthKey(g1) == AuthKey(g2)
    ensures g1 == g2
  {
    var n := |"admin_auth_"|;
    assert g1 == AuthKey(g1)[n..] && g2 == AuthKey(g2)[n..];
  }

  /** The two actions an admin takes and the status each one writes. */
  datatype Action = Approve | Reject

  function Writes(a: Action): Status {
    if a == Approve then Approved else Rejected
  }

  /** A button of a submission card. */
  datatype Button = Button(action: Action, caption: string)

  /** The buttons each status offers: both for a pending row, "Revoke
      Approval" for an approved one, "Approve Anyway" for a rejected one. */
  function Buttons(status: Status): (bs: seq<Button>)
    ensures |bs| >= 1
  {
    match status
    case Pending => [Button(Approve, "✓ Approve"), Button(Reject, "✗ Reject")]
    case Approved => [Button(Reject, "Revoke Approval")]
    case Rejected => [Button(Approve, "Approve Anyway")]
  }

  predicate Offers(status: Status, a: Action) {
    exists k :: 0 <= k < |Buttons(status)| && Buttons(status)[k].action == a
  }

  /** Approve is offered exactly when the row is not approved, reject
      exactly when it is not rejected; so every offered action changes the
      status, and approved and rejected rows can always be moved to each
      other. */
  lemma OffersSpec(status: Status, a: Action)
    ensures Offers(status, Approve) <==> status != Approved
    ensures Offers(status, Reject) <==> status != Rejected
    ensures Offers(status, a) ==> Writes(a) != status
  {
    var bs := Buttons(status);
    if status == Pending {
      assert bs[0].action == Approve && bs[1].action == Reject;
    } else {
      assert bs[0].action == (if status == Approved then Reject else Approve);
    }
  }

  /** The tab in effect: `all` shows every loaded row, any other value the
      rows whose stored status is exactly that value. */
  function Filtered(subs: seq<Submission>, filter: string): seq<Submission> {
    if filter == AllFilter then subs
    else Filter(subs, (x: Submission) => StatusName(x.status) == filter)
  }

  lemma FilteredSpec(subs: seq<Submission>, filter: string)
    ensures filter == AllFilter ==> Filtered(subs, filter) == subs
    ensures filter != AllFilter ==>
      && (forall k :: 0 <= k < |Filtered(subs, filter)| ==>
            Filtered(subs, filter)[k] in subs && StatusName(Filtered(subs, filter)[k].status) == filter)
      && (forall k :: 0 <= k < |subs| && StatusName(subs[k].status) == filter ==> subs[k] in Filtered(subs, filter))
      && IsSubsequence(Filtered(subs, filter), subs)
  {
    if filter != AllFilter {
      var p := (x: Submission) => StatusName(x.status) == filter;
      FilterMembers(subs, p);
      FilterIsSubsequence(subs, p);
    }
  }

  /** The three status tabs split the loaded rows between them. */
  lemma {:induction false} TabsPartition(subs: seq<Submission>)
    ensures |Filtered(subs, "pending")| + |Filtered(subs, "approved")| + |Filtered(subs, "rejected")| == |subs|
  {
    if subs != [] {
      TabsPartition(subs[1..]);
      FilterUnfold(subs, (x: Submission) => StatusName(x.status) == "pending");
      FilterUnfold(subs, (x: Submission) => StatusName(x.status) == "approved");
      FilterUnfold(subs, (x: Submission) => StatusName(x.status) == "rejected");
    }
  }

  function CreatedKey(s: Submission): int {
    s.createdAt
  }

  /** The panel's query: the challenge rows of the group's users, newest
      first. */
  function ChallengeListing(rows: seq<Submission>, members: set<nat>): seq<Submission> {
    SortDesc(Filter(rows, (x: Submission) => x.isChallenge && x.userId in members), CreatedKey)
  }

  lemma ChallengeListingSpec(rows: seq<Submission>, members: set<nat>)
    ensures var l := ChallengeListing(rows, members);
      && (forall x :: x in l <==> x in rows && x.isChallenge && x.userId in members)
      && SortedDesc(l, CreatedKey)
      && |l| <= |rows|
  {
    var p := (x: Submission) => x.isChallenge && x.userId in members;
    var f := Filter(rows, p);
    FilterMembers(rows, p);
    SortDescPermutation(f, CreatedKey);
    SortDescSorted(f, CreatedKey);
    forall x ensures x in ChallengeListing(rows, members) <==> x in f {
      assert x in multiset(ChallengeListing(rows, members)) <==> x in multiset(f);
    }
  }

  /** What the page shows in place of the panel or the form. */
  datatype Screen =
    | InvalidUrl
    | PasswordForm(error: Option<string>)
    | Panel
    | Failure(message: string)

  const WrongPassword: string := "Incorrect password. Please try again."
  const GroupNotFound: string := "Group not found"
  const LoadFailed: string := "Failed to load submissions"
  const ApprovedAlert: string := "Challenge approved successfully!"
  const ApproveFailed: string := "Failed to approve submission. Please try again."
  const RejectedAlert: string := "Challenge rejected."
  const RejectFailed: string := "Failed to reject submission. Please try again."

  /** The page's module state: the group, the loaded rows and the filter,
      with the tab's session storage and the shared table. */
  class AdminPage {
    const table: SubmissionTable
    const groupName: Option<string>
    var session: map<string, string>
    var groupId: Option<nat>
    var allSubmissions: seq<Submission>
    var currentFilter: string
    var screen: Screen

    ghost predicate Valid()
      reads this, table
    {
      table.Valid()
    }

    /** The rows under the current tab. */
    function Visible(): seq<Submission>
      reads this
    {
      Filtered(allSubmissions, currentFilter)
    }

    /** Page load: a path without a group is refused; a session that already
        unlocked this group skips the form. */
    constructor (table: SubmissionTable, groupName: Option<string>, session: map<string, string>)
      requires table.Valid()
      ensures Valid()
      ensures this.table == table && this.groupName == groupName && this.session == session
      ensures groupId.None? && allSubmissions == [] && currentFilter == DefaultFilter
      ensures screen == (if groupName.None? then InvalidUrl
                         else if Unlocked(session, groupName.value) then Panel
                         else PasswordForm(None))
    {
      this.table := table;
      this.groupName := groupName;
      this.session := session;
      groupId := None;
      allSubmissions := [];
      currentFilter := DefaultFilter;
      screen := if groupName.None? then InvalidUrl
                else if Unlocked(session, groupName.value) then Panel
                else PasswordForm(None);
    }

    /** `handleAuth`: the right password unlocks this group for the rest of
        the session; any other keeps the form with an error. */
    method HandleAuth(password: string) returns (ok: bool)
      requires groupName.Some?
      modifies this
      ensures ok <==> password == AdminPassword
      ensures ok ==> session == old(session)[AuthKey(groupName.value) := "true"] && screen == Panel
      ensures !ok ==> session == old(session) && screen == PasswordForm(Some(WrongPassword))
      ensures ok ==> Unlocked(session, groupName.value)
      ensures forall g :: g != groupName.value ==> (Unlocked(session, g) <==> Unlocked(old(session), g))
      ensures groupId == old(groupId) && allSubmissions == old(allSubmissions) && currentFilter == old(currentFilter)
    {
      ok := password == AdminPassword;
      if ok {
        session := session[AuthKey(groupName.value) := "true"];
        screen := Panel;
        forall g | g != groupName.value ensures AuthKey(g) != AuthKey(groupName.value) {
          if AuthKey(g) == AuthKey(groupName.value) {
            AuthKeyInjective(g, groupName.value);
          }
        }
      } else {
        screen := PasswordForm(Some(WrongPassword));
      }
    }

    /** `loadSubmissions`: on success the panel's rows are the listing,
        rendered into the container an earlier error may have filled. */
    method LoadSubmissions(members: set<nat>, reply: Reply)
      modifies this
      ensures reply.Ok? ==> allSubmissions == ChallengeListing(table.rows, members) && screen == Panel
      ensures !reply.Ok? ==> allSubmissions == old(allSubmissions) && screen == Failure(LoadFailed)
      ensures session == old(session) && groupId == old(groupId) && currentFilter == old(currentFilter)
    {
      if reply.Ok? {
        allSubmissions := ChallengeListing(table.rows, members);
        screen := Panel;
      } else {
        screen := Failure(LoadFailed);
      }
    }

    /** `showAdminPanel`: the group lookup, then the listing. */
    method ShowAdminPanel(groupReply: Reply, id: nat, members: set<nat>, loadReply: Reply)
      modifies this
      ensures groupReply.Err? ==> screen == Failure(GroupNotFound) && groupId == old(groupId)
                                  && allSubmissions == old(allSubmissions)
      ensures groupReply.Exception? ==> screen == Failure(LoadFailed) && groupId == old(groupId)
                                        && allSubmissions == old(allSubmissions)
      ensures groupReply.Ok? ==> groupId == Some(id)
      ensures groupReply.Ok? && loadReply.Ok? ==>
        allSubmissions == ChallengeListing(table.rows, members) && screen == Panel
      ensures groupReply.Ok? && !loadReply.Ok? ==>
        allSubmissions == old(allSubmissions) && screen == Failure(LoadFailed)
      ensures session == old(session) && currentFilter == old(currentFilter)
    {
      screen := Panel;
      match groupReply
      case Err(_) => screen := Failure(GroupNotFound);
      case Exception => screen := Failure(LoadFailed);
      case Ok =>
        groupId := Some(id);
        LoadSubmissions(members, loadReply);
    }

    /** `filterSubmissions`: switches the tab and renders the loaded rows
        under it, replacing any error shown; the loaded rows stay. The tabs
        are part of the panel, so they can be clicked only while the panel,
        or an error rendered into it, is showing. */
    method FilterSubmissions(filter: string)
      requires screen == Panel || screen.Failure?
      modifies this
      ensures currentFilter == filter && Visible() == Filtered(allSubmissions, filter)
      ensures allSubmissions == old(allSubmissions) && session == old(session) && groupId == old(groupId)
      ensures screen == Panel
    {
      currentFilter := filter;
      screen := Panel;
    }

    /** `approveSubmission`: the update and, if it went through, a reload of
        the listing, whose own failure does not stop the success alert. */
    method ApproveSubmission(id: nat, now: nat, members: set<nat>, updateReply: Reply, reloadReply: Reply)
      returns (alert: string)
      requires Valid()
      modifies this, table
      ensures Valid()
      ensures table.rows == (if updateReply.Ok? then UpdateById(old(table.rows), id, Approved, now) else old(table.rows))
      ensures alert == (if updateReply.Ok? then ApprovedAlert else ApproveFailed)
      ensures updateReply.Ok? && reloadReply.Ok? ==>
        allSubmissions == ChallengeListing(table.rows, members) && screen == Panel
      ensures updateReply.Ok? && !reloadReply.Ok? ==>
        allSubmissions == old(allSubmissions) && screen == Failure(LoadFailed)
      ensures !updateReply.Ok? ==> allSubmissions == old(allSubmissions) && screen == old(screen)
      ensures session == old(session) && currentFilter == old(currentFilter)
      ensures groupId == old(groupId) && table.nextId == old(table.nextId)
    {
      var ok := table.Update(id, Approved, now, updateReply);
      if ok {
        LoadSubmissions(members, reloadReply);
        alert := ApprovedAlert;
      } else {
        alert := ApproveFailed;
      }
    }

    /** `rejectSubmission`: asks first; a cancelled confirmation changes
        nothing and shows nothing. */
    method RejectSubmission(id: nat, confirmed: bool, now: nat, members: set<nat>, updateReply: Reply, reloadReply: Reply)
      returns (alert: Option<string>)
      requires Valid()
      modifies this, table
      ensures Valid()
      ensures !confirmed ==> alert.None? && table.rows == old(table.rows) && allSubmissions == old(allSubmissions)
      ensures table.rows == (if confirmed && updateReply.Ok? then UpdateById(old(table.rows), id, Rejected, now)
                             else old(table.rows))
      ensures confirmed ==> alert == Some(if updateReply.Ok? then RejectedAlert else RejectFailed)
      ensures confirmed && updateReply.Ok? && reloadReply.Ok? ==>
        allSubmissions == ChallengeListing(table.rows, members) && screen == Panel
      ensures confirmed && updateReply.Ok? && !reloadReply.Ok? ==>
        allSubmissions == old(allSubmissions) && screen == Failure(LoadFailed)
      ensures !(confirmed && updateReply.Ok?) ==> allSubmissions == old(allSubmissions) && screen == old(screen)
      ensures session == old(session) && currentFilter == old(currentFilter)
      ensures groupId == old(groupId) && table.nextId == old(table.nextId)
    {
      if !confirmed {
        return None;
      }
      var ok := table.Update(id, Rejected, now, updateReply);
      if ok {
        LoadSubmissions(members, reloadReply);
        alert := Some(RejectedAlert);
      } else {
        alert := Some(RejectFailed);
      }
    }
  }

  /** Approving then revoking: the row ends rejected, whatever it was, and
      revoking then approving again ends approved; only the review columns
      of that row ever change. */
  lemma ReviewToggles(rows: seq<Submission>, id: nat, t1: nat, t2: nat)
    ensures UpdateById(UpdateById(rows, id, Approved, t1), id, Rejected, t2) == UpdateById(rows, id, Rejected, t2)
    ensures UpdateById(UpdateById(rows, id, Rejected, t1), id, Approved, t2) == UpdateById(rows, id, Approved, t2)
  {
    UpdateLastWins(rows, id, Approved, t1, Rejected, t2);
    UpdateLastWins(rows, id, Rejected, t1, Approved, t2);
  }

  /** Approving twice has the effect of approving once, at the later time. */
  lemma ApproveIdempotent(rows: seq<Submission>, id: nat, t1: nat, t2: nat)
    ensures UpdateById(UpdateById(rows, id, Approved, t1), id, Approved, t2) == UpdateById(rows, id, Approved, t2)
  {
    UpdateLastWins(rows, id, Approved, t1, Approved, t2);
  }
}
