/** The owner's board page (`/christmas-bingo/<group>/<user>/edit`): opening
    a square, answering an attestation, uploading a photo or pasting a
    link, and removing a submission. */
module EditPage {
  import opened Wrappers
  import opened JsText
  import opened Seqs
  import opened Records
  import opened Catalog
  import opened Words
  import opened StoragePath
  import opened Ledger
  import opened Bucket

  /** The row every insert path sends for square `index`: the square's
      text and challenge flag copied from the catalog, and the status the
      catalog's challenge flag decides. */
  function DraftFor(user: nat, index: nat, kind: Kind, fileUrl: Option<string>): (d: Draft)
    requires index < |Tasks|
    ensures d.userId == user && d.squareIndex == index && d.kind == kind && d.fileUrl == fileUrl
    ensures d.squareText == Tasks[index].text && d.isChallenge == Tasks[index].isChallenge
    ensures d.status == Pending <==> Tasks[index].isChallenge
    ensures d.status == Approved <==> !Tasks[index].isChallenge
  {
    Draft(user, index, Tasks[index].text, kind, fileUrl, Tasks[index].isChallenge,
          InitialStatus(Tasks[index]))
  }

  /** Only the three challenge squares wait for the admin; every other
      square counts as soon as it is submitted. */
  lemma DraftStatusByIndex(user: nat, index: nat, kind: Kind, fileUrl: Option<string>)
    requires index < |Tasks|
    ensures DraftFor(user, index, kind, fileUrl).status == Pending <==> index in {7, 11, 24}
  {
    CatalogShape();
  }

  /** The answer an attestation form produces: what goes into `file_url`,
      or the alert shown instead of an insert. */
  datatype Answer = Accept(fileUrl: Option<string>) | Reject(message: string)

  function TooFewWordsMessage(minWords: nat, count: nat): string {
    "Your summary must be at least " + NatToString(minWords) + " words. You currently have "
      + NatToString(count) + " words."
  }

  const UntickedMessage: string := "Please check the box to attest that you have completed this task."

  /** `submitAttestation` up to the insert: a text square needs
      `minWords` words and stores the trimmed text, a checkbox square needs
      the box ticked and stores nothing. */
  function AttestationAnswer(task: Task, textarea: string, checked: bool): (r: Answer)
    ensures task.requiresText ==> (r.Accept? <==> WordCount(textarea) >= task.minWords)
    ensures task.requiresText && r.Accept? ==> r.fileUrl == Some(Trim(textarea))
    ensures !task.requiresText ==> (r.Accept? <==> checked)
    ensures !task.requiresText && r.Accept? ==> r.fileUrl.None?
  {
    if task.requiresText then
      var count := WordCount(textarea);
      if count < task.minWords then Reject(TooFewWordsMessage(task.minWords, count))
      else Accept(Some(Trim(textarea)))
    else if checked then Accept(None)
    else Reject(UntickedMessage)
  }

  /** For the book-summary square, a summary of `n` words joined by single
      spaces, with any whitespace before and after, is accepted exactly
      when `n` is at least 100; the stored text is the summary without that
      outer whitespace. */
  lemma SummaryGate(ws: seq<string>, pre: string, post: string, checked: bool)
    requires forall k :: 0 <= k < |ws| ==> IsWord(ws[k])
    requires AllSpace(pre) && AllSpace(post)
    ensures var r := AttestationAnswer(Tasks[9], pre + JoinSpaces(ws) + post, checked);
      && (r.Accept? <==> |ws| >= 100)
      && (r.Accept? ==> r.fileUrl == Some(JoinSpaces(ws)))
  {
    CatalogShape();
    var text := pre + JoinSpaces(ws) + post;
    WordsOfJoin(ws);
    TrimPadded(pre, JoinSpaces(ws), post, ws);
    WordsOfTrim(text);
  }

  lemma TrimPadded(pre: string, core: string, post: string, ws: seq<string>)
    requires forall k :: 0 <= k < |ws| ==> IsWord(ws[k])
    requires core == JoinSpaces(ws)
    requires AllSpace(pre) && AllSpace(post)
    ensures Trim(pre + core + post) == core
  {
    if ws == [] {
      assert AllSpace(pre + core + post) by {
        assert pre + core + post == pre + post;
      }
      AllSpaceTrims(pre + core + post);
    } else {
      JoinFirst(ws);
      JoinLast(ws);
      TrimStartNoLead(pre, core + post);
      assert pre + core + post == pre + (core + post);
      TrimEndNoTrail(core, post);
    }
  }

  lemma AllSpaceTrims(s: string)
    requires AllSpace(s)
    ensures Trim(s) == []
  {
  }

  lemma {:induction false} TrimStartNoLead(pre: string, u: string)
    requires AllSpace(pre)
    requires u == [] || !IsSpace(u[0])
    ensures TrimStart(pre + u) == u
  {
    if pre != [] {
      assert (pre + u)[1..] == pre[1..] + u;
      TrimStartNoLead(pre[1..], u);
    } else {
      assert pre + u == u;
    }
  }

  lemma {:induction false} TrimEndNoTrail(u: string, post: string)
    requires AllSpace(post)
    requires u != [] && !IsSpace(u[|u| - 1])
    ensures TrimEnd(u + post) == u
  {
    if post != [] {
      var s := u + post;
      assert s[..|s| - 1] == u + post[..|post| - 1];
      TrimEndNoTrail(u, post[..|post| - 1]);
    } else {
      assert u + post == u;
    }
  }

  /** A file the browser hands over. Only its name matters here. */
  datatype File = File(name: string)

  /** What `submitUpload` does with the form: nothing, the pasted link, or
      the chosen file. */
  datatype Choice = NothingChosen | UseLink(url: string) | UseFile(file: File)

  const NothingChosenMessage: string := "Please select a file or paste a video link."

  /** A link field that is present and holds more than whitespace. */
  predicate HasLink(linkField: Option<string>) {
    linkField.Some? && Trim(linkField.value) != []
  }

  /** The file wins over the link; the link is used trimmed. */
  function UploadChoice(file: Option<File>, linkField: Option<string>): (c: Choice)
    ensures c.NothingChosen? <==> file.None? && !HasLink(linkField)
    ensures c.UseLink? <==> file.None? && HasLink(linkField)
    ensures c.UseLink? ==> c.url == Trim(linkField.value) && c.url != []
    ensures file.Some? ==> c == UseFile(file.value)
  {
    if file.None? && !HasLink(linkField) then NothingChosen
    else if file.None? then UseLink(Trim(linkField.value))
    else UseFile(file.value)
  }

  /** The link field is part of the form only for video squares. */
  predicate ShowsLinkField(task: Task) {
    task.kind == Video
  }

  /** No square of this board is a video square, so the link field never
      appears and every upload is a file. */
  lemma NoSquareShowsLinkField()
    ensures forall i :: 0 <= i < |Tasks| ==> !ShowsLinkField(Tasks[i])
  {
    CatalogShape();
  }

  const ChallengeReceivedMessage: string :=
    "Challenge submission received! It will appear on your board once the admin approves it."

  /** The alert after a successful insert of each kind. */
  datatype Path = TextPath | CheckboxPath | LinkPath | FilePath

  function SuccessMessage(task: Task, path: Path): (m: string)
    ensures path != TextPath && task.isChallenge ==> m == ChallengeReceivedMessage
    ensures path == TextPath ==> m == "Book summary submitted successfully!"
  {
    match path
    case TextPath => "Book summary submitted successfully!"
    case LinkPath => if task.isChallenge then ChallengeReceivedMessage else "Video link submitted successfully!"
    case _ => if task.isChallenge then ChallengeReceivedMessage else "Task completed successfully!"
  }

  /** What one action ends in. */
  datatype Outcome =
    | NoSquareOpen          // no square is open; the handler fails before writing
    | Cancelled             // the owner declined the confirmation, or the id is unknown
    | Refused(message: string)
    | StoreFailed           // a store call failed; an alert, nothing written
    | Done(message: string)

  /** The page's module state and the two stores it writes to. */
  class UserEditPage {
    const table: SubmissionTable
    const bucket: ObjectStore
    /** `SUPABASE_CONFIG.url`, the base of every public URL. */
    const projectUrl: string
    /** `currentUser.id`, `currentGroupName`, `currentUsername`. */
    const user: nat
    const groupName: string
    const username: string
    var submissions: seq<Submission>
    var currentTaskIndex: Option<nat>
    var currentFile: Option<File>

    /** An open square is on the board, a file is only chosen inside an
        open square, and the project URL has no `storage` segment. */
    ghost predicate Valid()
      reads this, table
    {
      && table.Valid()
      && (currentTaskIndex.Some? ==> currentTaskIndex.value < |Tasks|)
      && (currentFile.Some? ==> currentTaskIndex.Some?)
      && "storage" !in Split(projectUrl, '/')
    }

    /** `init` after the group and user are found: the owner's rows loaded. */
    constructor (table: SubmissionTable, bucket: ObjectStore, projectUrl: string,
                 user: nat, groupName: string, username: string)
      requires table.Valid()
      requires "storage" !in Split(projectUrl, '/')
      ensures this.table == table && this.bucket == bucket && this.projectUrl == projectUrl
      ensures this.user == user && this.groupName == groupName && this.username == username
      ensures submissions == RowsOf(table.rows, user)
      ensures currentTaskIndex.None? && currentFile.None?
      ensures Valid()
    {
      this.table := table;
      this.bucket := bucket;
      this.projectUrl := projectUrl;
      this.user := user;
      this.groupName := groupName;
      this.username := username;
      submissions := RowsOf(table.rows, user);
      currentTaskIndex := None;
      currentFile := None;
    }

    /** `handleSquareClick`: opens the square, showing the first of the
        owner's rows for it if there is one, else the new-submission form. */
    method HandleSquareClick(index: nat) returns (existing: Option<Submission>)
      requires Valid()
      requires index < |Tasks|
      modifies this
      ensures Valid()
      ensures currentTaskIndex == Some(index)
      ensures unchanged(this`submissions, this`currentFile)
      ensures existing.None? ==> forall k :: 0 <= k < |submissions| ==> submissions[k].squareIndex != index
      ensures existing.Some? ==>
        && existing.value.squareIndex == index
        && exists k :: 0 <= k < |submissions| && submissions[k] == existing.value
                       && forall j :: 0 <= j < k ==> submissions[j].squareIndex != index
    {
      currentTaskIndex := Some(index);
      var k := Find(submissions, (s: Submission) => s.squareIndex == index);
      existing := if k.Some? then Some(submissions[k.value]) else None;
      if k.Some? {
        assert submissions[k.value] == existing.value;
      }
    }

    /** `closeTaskModal`. */
    method CloseTaskModal()
      requires Valid()
      modifies this
      ensures Valid()
      ensures currentTaskIndex.None? && currentFile.None?
      ensures submissions == old(submissions)
    {
      currentTaskIndex := None;
      currentFile := None;
    }

    /** `handleFileSelect`: an empty pick leaves the choice as it was. */
    method SelectFile(file: Option<File>)
      requires Valid()
      requires currentTaskIndex.Some?
      modifies this
      ensures Valid()
      ensures currentFile == (if file.Some? then file else old(currentFile))
      ensures unchanged(this`submissions, this`currentTaskIndex)
    {
      if file.Some? {
        currentFile := file;
      }
    }

    /** `clearFileSelection`. */
    method ClearFileSelection()
      requires Valid()
      modifies this
      ensures Valid()
      ensures currentFile.None?
      ensures unchanged(this`submissions, this`currentTaskIndex)
    {
      currentFile := None;
    }

    /** After a successful write: reload the owner's rows and close. */
    method Finish()
      requires Valid()
      modifies this
      ensures Valid()
      ensures submissions == RowsOf(table.rows, user)
      ensures currentTaskIndex.None? && currentFile.None?
    {
      submissions := RowsOf(table.rows, user);
      currentTaskIndex := None;
      currentFile := None;
    }

    /** `submitAttestation` with `submitAttestationWithText` and
        `submitRegularAttestation`: the form's answer decides whether a row
        is inserted, and the row is an attestation of the open square. */
    method SubmitAttestation(textarea: string, checked: bool, now: nat, reply: Reply)
      returns (outcome: Outcome)
      requires Valid()
      modifies this, table
      ensures Valid()
      ensures old(currentTaskIndex).None? ==> outcome == NoSquareOpen
      ensures !outcome.Done? ==> currentTaskIndex == old(currentTaskIndex) && currentFile == old(currentFile)
      ensures table.nextId == (if outcome.Done? then old(table.nextId) + 1 else old(table.nextId))
      ensures !(old(currentTaskIndex).Some? && reply.Ok?
                && AttestationAnswer(Tasks[old(currentTaskIndex).value], textarea, checked).Accept?)
              ==> table.rows == old(table.rows) && submissions == old(submissions)
      ensures old(currentTaskIndex).Some? ==>
        var i := old(currentTaskIndex).value;
        match AttestationAnswer(Tasks[i], textarea, checked)
        case Reject(m) => outcome == Refused(m)
        case Accept(url) =>
          if reply.Ok? then
            && table.rows == old(table.rows) + [Stored(DraftFor(user, i, Attestation, url), old(table.nextId), now)]
            && submissions == RowsOf(table.rows, user)
            && currentTaskIndex.None? && currentFile.None?
            && outcome == Done(SuccessMessage(Tasks[i], if Tasks[i].requiresText then TextPath else CheckboxPath))
          else outcome == StoreFailed
    {
      if currentTaskIndex.None? {
        return NoSquareOpen;
      }
      var i := currentTaskIndex.value;
      var task := Tasks[i];
      match AttestationAnswer(task, textarea, checked)
      case Reject(m) =>
        outcome := Refused(m);
      case Accept(url) =>
        var row := table.Insert(DraftFor(user, i, Attestation, url), now, reply);
        if row.None? {
          outcome := StoreFailed;
        } else {
          Finish();
          outcome := Done(SuccessMessage(task, if task.requiresText then TextPath else CheckboxPath));
        }
    }

    /** `submitVideoLink`: a row of the open square whose `file_url` is
        the link as given; the page reloads and closes only when the
        insert succeeds. */
    method SubmitVideoLink(url: string, now: nat, insertReply: Reply) returns (outcome: Outcome)
      requires Valid()
      requires currentTaskIndex.Some?
      modifies this, table
      ensures Valid()
      ensures var i := old(currentTaskIndex).value;
        if insertReply.Ok? then
          && table.rows == old(table.rows) + [Stored(DraftFor(user, i, Tasks[i].kind, Some(url)), old(table.nextId), now)]
          && outcome == Done(SuccessMessage(Tasks[i], LinkPath))
          && submissions == RowsOf(table.rows, user)
          && currentTaskIndex.None? && currentFile.None?
        else
          table.rows == old(table.rows) && outcome == StoreFailed && submissions == old(submissions)
      ensures !outcome.Done? ==> currentTaskIndex == old(currentTaskIndex) && currentFile == old(currentFile)
      ensures table.nextId == (if outcome.Done? then old(table.nextId) + 1 else old(table.nextId))
    {
      var i := currentTaskIndex.value;
      var task := Tasks[i];
      var row := table.Insert(DraftFor(user, i, task.kind, Some(url)), now, insertReply);
      if row.None? {
        outcome := StoreFailed;
      } else {
        Finish();
        outcome := Done(SuccessMessage(task, LinkPath));
      }
    }

    /** The file branch of `submitUpload`: the upload under the file's
        upload path (refused when an object is already there), then a row
        of the open square whose `file_url` is the object's public URL. A
        failed insert after a successful upload leaves the object in the
        bucket. The object's name carries the browser's clock, `clientNow`;
        the row's `created_at` is the store's clock, `now`. */
    method UploadFile(f: File, clientNow: nat, now: nat, uploadReply: Reply, insertReply: Reply)
      returns (outcome: Outcome)
      requires Valid()
      requires currentTaskIndex.Some?
      modifies this, table, bucket
      ensures Valid()
      ensures var i := old(currentTaskIndex).value;
        var path := UploadPath(groupName, username, i, clientNow, f.name);
        var uploaded := uploadReply.Ok? && path !in old(bucket.objects);
        && bucket.objects == (if uploaded then old(bucket.objects) + {path} else old(bucket.objects))
        && if uploaded && insertReply.Ok? then
             && table.rows == old(table.rows)
                  + [Stored(DraftFor(user, i, Tasks[i].kind, Some(PublicUrl(projectUrl, StorageBucket, path))),
                            old(table.nextId), now)]
             && outcome == Done(SuccessMessage(Tasks[i], FilePath))
             && submissions == RowsOf(table.rows, user)
             && currentTaskIndex.None? && currentFile.None?
           else
             table.rows == old(table.rows) && outcome == StoreFailed && submissions == old(submissions)
      ensures !outcome.Done? ==> currentTaskIndex == old(currentTaskIndex) && currentFile == old(currentFile)
      ensures table.nextId == (if outcome.Done? then old(table.nextId) + 1 else old(table.nextId))
    {
      var i := currentTaskIndex.value;
      var task := Tasks[i];
      var path := UploadPath(groupName, username, i, clientNow, f.name);
      var uploaded := bucket.Upload(path, uploadReply);
      if !uploaded {
        outcome := StoreFailed;
      } else {
        var url := PublicUrl(projectUrl, StorageBucket, path);
        var row := table.Insert(DraftFor(user, i, task.kind, Some(url)), now, insertReply);
        if row.None? {
          outcome := StoreFailed;
        } else {
          Finish();
          outcome := Done(SuccessMessage(task, FilePath));
        }
      }
    }

    /** `submitUpload`: nothing chosen refuses, whether or not a square
        is open; a link alone goes, trimmed, to `SubmitVideoLink`; a chosen
        file, even with a link typed, goes to `UploadFile`. */
    method SubmitUpload(linkField: Option<string>, clientNow: nat, now: nat, uploadReply: Reply, insertReply: Reply)
      returns (outcome: Outcome)
      requires Valid()
      modifies this, table, bucket
      ensures Valid()
      ensures old(currentTaskIndex).None? ==>
        && table.rows == old(table.rows) && bucket.objects == old(bucket.objects)
        && outcome == (if UploadChoice(old(currentFile), linkField).NothingChosen? then Refused(NothingChosenMessage)
                       else NoSquareOpen)
      ensures old(currentTaskIndex).Some? ==>
        var i := old(currentTaskIndex).value;
        var task := Tasks[i];
        match UploadChoice(old(currentFile), linkField)
        case NothingChosen =>
          outcome == Refused(NothingChosenMessage) && table.rows == old(table.rows)
          && bucket.objects == old(bucket.objects)
        case UseLink(url) =>
          && bucket.objects == old(bucket.objects)
          && (insertReply.Ok? ==>
                && table.rows == old(table.rows) + [Stored(DraftFor(user, i, task.kind, Some(url)), old(table.nextId), now)]
                && outcome == Done(SuccessMessage(task, LinkPath)))
          && (!insertReply.Ok? ==> table.rows == old(table.rows) && outcome == StoreFailed)
        case UseFile(f) =>
          var path := UploadPath(groupName, username, i, clientNow, f.name);
          var uploaded := uploadReply.Ok? && path !in old(bucket.objects);
          && bucket.objects == (if uploaded then old(bucket.objects) + {path} else old(bucket.objects))
          && (uploaded && insertReply.Ok? ==>
                && table.rows == old(table.rows)
                     + [Stored(DraftFor(user, i, task.kind, Some(PublicUrl(projectUrl, StorageBucket, path))),
                               old(table.nextId), now)]
                && outcome == Done(SuccessMessage(task, FilePath)))
          && (!(uploaded && insertReply.Ok?) ==> table.rows == old(table.rows) && outcome == StoreFailed)
      ensures outcome.Done? ==> submissions == RowsOf(table.rows, user)
                                && currentTaskIndex.None? && currentFile.None?
      ensures !outcome.Done? ==> submissions == old(submissions)
      ensures !outcome.Done? ==> currentTaskIndex == old(currentTaskIndex) && currentFile == old(currentFile)
      ensures table.nextId == (if outcome.Done? then old(table.nextId) + 1 else old(table.nextId))
    {
      match UploadChoice(currentFile, linkField)
      case NothingChosen =>
        outcome := Refused(NothingChosenMessage);
      case UseLink(url) =>
        if currentTaskIndex.None? {
          return NoSquareOpen;
        }
        outcome := SubmitVideoLink(url, now, insertReply);
      case UseFile(f) =>
        outcome := UploadFile(f, clientNow, now, uploadReply, insertReply);
    }

    /** `removeSubmission`: after confirmation, the first loaded row with
        the id has the object its `file_url` names, as the code reads that
        name, removed from the bucket and is then deleted by id. An id not among the loaded rows
        changes nothing; a removal that throws stops before the delete,
        one that answers with an error does not. */
    method RemoveSubmission(id: nat, confirmed: bool, removeReply: Reply, deleteReply: Reply)
      returns (outcome: Outcome)
      requires Valid()
      modifies this, table, bucket
      ensures Valid()
      ensures var target := FindById(old(submissions), id);
        if !confirmed || target.None? then
          && outcome == Cancelled && table.rows == old(table.rows)
          && bucket.objects == old(bucket.objects) && submissions == old(submissions)
        else
          var obj := StoredObject(target.value);
          && bucket.objects == (if obj.Some? && removeReply.Ok? then old(bucket.objects) - {obj.value}
                                else old(bucket.objects))
          && if (obj.Some? && removeReply.Exception?) || !deleteReply.Ok? then
               outcome == StoreFailed && table.rows == old(table.rows) && submissions == old(submissions)
             else
               && outcome == Done("Submission removed successfully!")
               && table.rows == DeleteById(old(table.rows), id)
               && submissions == RowsOf(table.rows, user)
               && currentTaskIndex.None? && currentFile.None?
      ensures !outcome.Done? ==> currentTaskIndex == old(currentTaskIndex) && currentFile == old(currentFile)
      ensures table.nextId == old(table.nextId)
    {
      if !confirmed {
        return Cancelled;
      }
      var target := FindById(submissions, id);
      if target.None? {
        return Cancelled;
      }
      var obj := StoredObject(target.value);
      if obj.Some? {
        bucket.Remove(obj.value, removeReply);
        if removeReply.Exception? {
          return StoreFailed;
        }
      }
      var ok := table.Delete(id, deleteReply);
      if !ok {
        return StoreFailed;
      }
      Finish();
      outcome := Done("Submission removed successfully!");
    }
  }

  /** `submissions.find(s => s.id === id)`. */
  function FindById(subs: seq<Submission>, id: nat): (r: Option<Submission>)
    ensures r.None? ==> forall k :: 0 <= k < |subs| ==> subs[k].id != id
    ensures r.Some? ==> r.value.id == id && exists k :: 0 <= k < |subs| && subs[k] == r.value
                                                      && forall j :: 0 <= j < k ==> subs[j].id != id
  {
    var k := Find(subs, (s: Submission) => s.id == id);
    if k.Some? then Some(subs[k.value]) else None
  }

  /** The object `removeSubmission` asks the bucket to remove for a row:
      none for an empty `file_url`, else the name the code reads out of the
      URL, which keeps the bucket name in front. */
  function StoredObject(sub: Submission): Option<string> {
    if Truthy(sub.fileUrl) then BlobPathAsWritten(sub.fileUrl.value) else None
  }

  /** For the row of an upload, the removal names `bingo-uploads/<path>`
      rather than `<path>`, so the uploaded object outlives the removal of
      its row. */
  lemma UploadOutlivesRemoval(sub: Submission, projectUrl: string, path: string)
    requires "storage" !in Split(projectUrl, '/')
    requires sub.fileUrl == Some(PublicUrl(projectUrl, StorageBucket, path))
    ensures StoredObject(sub) == Some(StorageBucket + ['/'] + path)
    ensures StoredObject(sub).value != path
  {
    BlobPathAsWrittenOfPublicUrl(projectUrl, StorageBucket, path);
    JoinNonEmpty([projectUrl] + PublicPrefix + [StorageBucket, path], '/');
    assert |StorageBucket + ['/'] + path| > |path|;
  }

  /** The object the removal is meant to name, as the comment beside the
      extraction describes it. */
  function IntendedObject(sub: Submission): Option<string> {
    if Truthy(sub.fileUrl) then BlobPath(sub.fileUrl.value) else None
  }

  /** Read the intended way, the row of an upload names the object it was
      uploaded under, so removing the row would remove that object. */
  lemma IntendedObjectIsUpload(sub: Submission, projectUrl: string, path: string)
    requires "storage" !in Split(projectUrl, '/')
    requires sub.fileUrl == Some(PublicUrl(projectUrl, StorageBucket, path))
    ensures IntendedObject(sub) == Some(path)
  {
    BlobPathOfPublicUrl(projectUrl, StorageBucket, path);
    JoinNonEmpty([projectUrl] + PublicPrefix + [StorageBucket, path], '/');
  }

  lemma JoinNonEmpty(parts: seq<string>, c: char)
    requires |parts| > 1
    ensures Join(parts, c) != []
  {
  }

  /** A row without a `file_url`, such as a checkbox attestation, names
      no object. */
  lemma NoObjectWithoutUrl(sub: Submission)
    requires !Truthy(sub.fileUrl)
    ensures StoredObject(sub).None? && IntendedObject(sub).None?
  {
  }
}
