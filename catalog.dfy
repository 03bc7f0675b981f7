/** The fixed board of 25 tasks (`BINGO_TASKS`), the same for every group. */
module Catalog {
  import opened Records

  /** One square of the board. `minWords` is 0 where the entry sets none; it
      is read only when `requiresText` holds. */
  datatype Task = Task(text: string, kind: Kind, isChallenge: bool, requiresText: bool, minWords: nat)

  /** The number of squares, also the denominator of every progress display. */
  const TaskCount: nat := 25

  /** `BINGO_TASKS`. */
  const Tasks: seq<Task> :=
    [
      Task("send a picture with you family", Photo, false, false, 0),
      Task("send a video of you saying something you're thankful for in 2025 (share to group chat)", Attestation, false, false, 0),
      Task("cook your family a meal and record their review (share to group chat)", Attestation, false, false, 0),
      Task("record yourself calling a friend and telling them you love them (share to group chat)", Attestation, false, false, 0),
      Task("hold a plank for one full worship song - NO BREAKS (share video to group chat)", Attestation, false, false, 0),
      Task("record yourself giving someone a present and them opening it (share to group chat)", Attestation, false, false, 0),
      Task("volunteer somewhere", Photo, false, false, 0),
      Task("CHALLENGE: Bake the biggest Christmas-shaped cookie (Only 3 biggest cookies can X this square)", Photo, true, false, 0),
      Task("Do a dramatic reading of Luke 2:1–20 (share video to group chat)", Attestation, false, false, 0),
      Task("read a book and add a summary", Attestation, false, true, 100),
      Task("chug a sparkling water without burping - record whole thing or no credit (share to group chat)", Attestation, false, false, 0),
      Task("CHALLENGE: wrap a gift with oven mitts on - only fastest person can X (share video to group chat)", Attestation, true, false, 0),
      Task("attend church :)", Attestation, false, false, 0),
      Task("record yourself doing 25 push ups in a row with Christmas decor behind you 🎄 (share to group chat)", Attestation, false, false, 0),
      Task("go to a Christmas market", Photo, false, false, 0),
      Task("build a Christmas tree out of objects that aren't a tree", Photo, false, false, 0),
      Task("make a gingerbread house", Photo, false, false, 0),
      Task("make a cup of hot cocoa for someone else and record you giving it to them (share to group chat)", Attestation, false, false, 0),
      Task("take a photo with Santa or a reindeer", Photo, false, false, 0),
      Task("decorate a Christmas tree and photo with your favorite ornament", Photo, false, false, 0),
      Task("record yourself singing a Christmas song (share to group chat)", Attestation, false, false, 0),
      Task("reenact the birth of Jesus using sock puppets (share video to group chat)", Attestation, false, false, 0),
      Task("make a snowman - upload a picture", Photo, false, false, 0),
      Task("take a photo in Christmas attire (pjs, Santa hat, ugly sweater)", Photo, false, false, 0),
      Task("CHALLENGE: pose with the coolest Christmas lights (Only top three coolest can X this square)", Photo, true, false, 0)
    ]

  /** The shape of the board: 25 squares; squares 7, 11 and 24 are the
      challenges; square 9 alone asks for a text, of at least 100 words; and
      no square is of type video. */
  lemma CatalogShape()
    ensures |Tasks| == TaskCount
    ensures forall i :: 0 <= i < |Tasks| ==> (Tasks[i].isChallenge <==> i == 7 || i == 11 || i == 24)
    ensures forall i :: 0 <= i < |Tasks| ==> (Tasks[i].requiresText <==> i == 9)
    ensures Tasks[9].minWords == 100 && Tasks[9].kind == Attestation
    ensures forall i :: 0 <= i < |Tasks| ==> Tasks[i].kind != Video
  {
    ChallengeSquares();
    TextSquare();
    NoVideoSquare();
  }

  lemma ChallengeSquares()
    ensures |Tasks| == TaskCount
    ensures forall i :: 0 <= i < |Tasks| ==> (Tasks[i].isChallenge <==> i == 7 || i == 11 || i == 24)
  {
  }

  lemma TextSquare()
    ensures forall i :: 0 <= i < |Tasks| ==> (Tasks[i].requiresText <==> i == 9)
    ensures Tasks[9].minWords == 100 && Tasks[9].kind == Attestation
  {
  }

  lemma NoVideoSquare()
    ensures forall i :: 0 <= i < |Tasks| ==> Tasks[i].kind != Video
  {
  }

  /** The rule every insert path applies: a challenge waits for the admin,
      anything else counts at once. */
  function InitialStatus(t: Task): Status {
    if t.isChallenge then Pending else Approved
  }
}
