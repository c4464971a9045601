/**
 * The vote buttons on a post page. The component keeps its own copy of the
 * post's score (`voteCount`) and of the viewer's vote (`userVote`, 0 for
 * none), and a busy flag that disables both buttons while a vote is in
 * flight.
 */
module VoteButtonsUi {
  import opened Replies
  import opened VoteLedger
  import opened Db
  import PostActions

  datatype Button = Upvote | Downvote

  /** How the request and its reply travel between the browser and the server. */
  datatype Transport = Delivered | RequestLost | ReplyLost

  /** The value each button submits: +1 for the upvote button, -1 for the downvote button. */
  function ButtonValue(b: Button): (v: int)
    ensures PostActions.VoteSchemaValid(v) && v != 0
    ensures v == 1 <==> b == Upvote
  {
    match b
    case Upvote => 1
    case Downvote => -1
  }

  /**
   * The client's rule for its own copy of the vote after a successful call:
   * the result is either no vote or the clicked value, and a click with a
   * non-zero value always changes the copy.
   */
  function NextUserVote(userVote: int, value: int): (r: int)
    ensures r == 0 || r == value
    ensures r == userVote <==> userVote == 0 && value == 0
  {
    if userVote == value then 0 else value
  }

  /** Whether a click reaches the server, is applied and its reply comes back as a success. */
  predicate VoteSucceeds(value: int, fault: Fault, transport: Transport)
  {
    PostActions.VoteSchemaValid(value) && fault == NoFault && transport == Delivered
  }

  class VoteButtons {
    const postId: Id
    const userId: Id
    var voteCount: int
    var userVote: int
    var isLoading: bool

    /** The client's vote equals what the server has stored for the pair (0 = no row). */
    ghost predicate InSync(db: Store)
      reads this, db
    {
      userVote == Ballot(db.votes, postId, userId)
    }

    constructor (postId: Id, userId: Id, initialVoteCount: int, initialUserVote: int)
      ensures this.postId == postId && this.userId == userId
      ensures voteCount == initialVoteCount && userVote == initialUserVote && !isLoading
    {
      this.postId := postId;
      this.userId := userId;
      voteCount := initialVoteCount;
      userVote := initialUserVote;
      isLoading := false;
    }

    /**
     * `handleVote`: mark busy, call `votePost`, and on success take the
     * server's count and toggle the local vote; on a failure reply or a thrown
     * error only a toast is shown. Busy is cleared whatever happens.
     */
    method HandleVote(value: int, db: Store, fault: Fault, transport: Transport)
      requires db.Valid()
      modifies this, db
      ensures db.Valid() && !isLoading
      ensures VoteSucceeds(value, fault, transport) ==>
                && voteCount == Score(db.votes, postId)
                && userVote == NextUserVote(old(userVote), value)
      ensures !VoteSucceeds(value, fault, transport) ==>
                voteCount == old(voteCount) && userVote == old(userVote)
      ensures db.users == old(db.users) && db.posts == old(db.posts) && db.comments == old(db.comments)
      ensures db.votes == if transport != RequestLost && PostActions.VoteWritten(value, fault)
                          then ApplyVote(old(db.votes), postId, userId, value, old(db.nextId))
                          else old(db.votes)
      ensures db.nextId == if transport != RequestLost && PostActions.VoteWritten(value, fault)
                           then IdAfter(old(db.votes), postId, userId, old(db.nextId))
                           else old(db.nextId)
      ensures old(InSync(db)) && VoteSucceeds(value, fault, transport) ==> InSync(db)
    {
      isLoading := true;
      var reply: Reply<int>;
      if transport == RequestLost {
        reply := Thrown;
      } else {
        reply := PostActions.VotePost(db, postId, userId, value, fault);
        if transport == ReplyLost {
          reply := Thrown;
        }
      }
      match reply {
        case Ok(count) =>
          voteCount := count;
          userVote := NextUserVote(userVote, value);
          ghost var before := old(db.votes);
          if old(InSync(db)) {
            ApplyVoteBallot(before, postId, userId, value, old(db.nextId));
          }
        case Fail(_) =>
        case Thrown =>
      }
      isLoading := false;
    }

    /** A click on an enabled button submits that button's value. */
    method Click(b: Button, db: Store, fault: Fault, transport: Transport)
      requires db.Valid() && !isLoading
      modifies this, db
      ensures db.Valid() && !isLoading
      ensures VoteSucceeds(ButtonValue(b), fault, transport) ==>
                && voteCount == Score(db.votes, postId)
                && userVote == NextUserVote(old(userVote), ButtonValue(b))
      ensures !VoteSucceeds(ButtonValue(b), fault, transport) ==>
                voteCount == old(voteCount) && userVote == old(userVote)
      ensures db.users == old(db.users) && db.posts == old(db.posts) && db.comments == old(db.comments)
      ensures db.votes == if transport != RequestLost && PostActions.VoteWritten(ButtonValue(b), fault)
                          then ApplyVote(old(db.votes), postId, userId, ButtonValue(b), old(db.nextId))
                          else old(db.votes)
      ensures db.nextId == if transport != RequestLost && PostActions.VoteWritten(ButtonValue(b), fault)
                           then IdAfter(old(db.votes), postId, userId, old(db.nextId))
                           else old(db.nextId)
      ensures old(InSync(db)) && VoteSucceeds(ButtonValue(b), fault, transport) ==> InSync(db)
    {
      HandleVote(ButtonValue(b), db, fault, transport);
    }
  }

  /**
   * The post page's initial props: the score summed from the post's rows and
   * the viewer's stored value (0 when there is none). The buttons start in
   * step with the server.
   */
  method OpenPostPage(db: Store, postId: Id, userId: Id) returns (ui: VoteButtons)
    requires db.Valid()
    ensures fresh(ui) && ui.postId == postId && ui.userId == userId && !ui.isLoading
    ensures ui.voteCount == Score(db.votes, postId)
    ensures ui.InSync(db)
  {
    var votes := db.FindVotesOfPost(postId);
    var voteCount := PostActions.SumVotes(votes);
    var stored := db.FindVote(postId, userId);
    var userVote := match stored case Some(v) => v.value case None => 0;
    ui := new VoteButtons(postId, userId, voteCount, userVote);
  }

  /**
   * If the client's vote agrees with the server's stored ballot, it still
   * agrees after the server applies the same vote and the client applies its
   * own rule.
   */
  lemma MirrorPreserved(rows: seq<Vote>, postId: Id, userId: Id, value: int, nextId: Id, userVote: int)
    requires Wellformed(rows, nextId)
    requires userVote == Ballot(rows, postId, userId)
    ensures NextUserVote(userVote, value) == Ballot(ApplyVote(rows, postId, userId, value, nextId), postId, userId)
  {
    ApplyVoteBallot(rows, postId, userId, value, nextId);
  }

  /**
   * When the write happens but the client sees a failure (the recount fails,
   * or the reply is lost), the server's ballot moves while the client's copy
   * stays: for a button's value the two then disagree.
   */
  lemma LostSuccessDesyncs(rows: seq<Vote>, postId: Id, userId: Id, value: int, nextId: Id, userVote: int)
    requires Wellformed(rows, nextId) && value != 0
    requires userVote == Ballot(rows, postId, userId)
    ensures userVote != Ballot(ApplyVote(rows, postId, userId, value, nextId), postId, userId)
  {
    ApplyVoteBallot(rows, postId, userId, value, nextId);
  }
}
