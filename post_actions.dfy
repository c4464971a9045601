/**
 * The post actions: `createPost` (validate, then insert one post) and
 * `votePost` (validate, then apply the vote toggle and recount the post's
 * score).
 */
module PostActions {
  import opened Replies
  import opened VoteLedger
  import opened Db

  const FailedToCreatePost: string := "Failed to create post"
  const FailedToVote: string := "Failed to vote on post"

  /** `postSchema`: a title of 5 to 100 characters and content of at least 10; any category and author id. */
  predicate PostSchemaValid(title: string, content: string, categoryId: string)
  {
    5 <= |title| <= 100 && 10 <= |content|
  }

  /** The title bounds are inclusive at 5 and 100, the content bound at 10; the category is never checked. */
  lemma PostSchemaBoundaries(title: string, content: string, categoryId: string)
    ensures |content| >= 10 ==> (PostSchemaValid(title, content, categoryId) <==> 5 <= |title| <= 100)
    ensures |title| == 4 || |title| == 101 || |content| == 9 ==> !PostSchemaValid(title, content, categoryId)
    ensures PostSchemaValid(title, content, categoryId) ==> PostSchemaValid(title, content, "")
  {
  }

  /** `voteSchema`: a value between -1 and 1 inclusive; any post and user id. */
  predicate VoteSchemaValid(value: int)
  {
    -1 <= value <= 1
  }

  /** Whether a `votePost` call gets as far as writing the vote table. */
  predicate VoteWritten(value: int, fault: Fault)
  {
    VoteSchemaValid(value) && (fault == NoFault || fault == FailsAtRecount)
  }

  method CreatePost(db: Store, title: string, content: string, categoryId: string, authorId: Id,
                    writeFails: bool)
    returns (r: Reply<Id>)
    requires db.Valid()
    modifies db
    ensures db.Valid()
    ensures db.users == old(db.users) && db.comments == old(db.comments) && db.votes == old(db.votes)
    ensures !PostSchemaValid(title, content, categoryId) ==> r == Fail(InvalidFields) && unchanged(db)
    ensures PostSchemaValid(title, content, categoryId) && writeFails ==>
              r == Fail(FailedToCreatePost) && unchanged(db)
    ensures PostSchemaValid(title, content, categoryId) && !writeFails ==>
              && r == Ok(old(db.nextId))
              && (forall p | p in old(db.posts) :: p.id != r.value)
              && db.posts == old(db.posts) + [Post(r.value, title, content, categoryId, authorId)]
              && db.nextId == old(db.nextId) + 1
  {
    if !PostSchemaValid(title, content, categoryId) {
      return Fail(InvalidFields);
    }
    if writeFails {
      return Fail(FailedToCreatePost);
    }
    var id := db.nextId;
    db.posts := db.posts + [Post(id, title, content, categoryId, authorId)];
    db.nextId := db.nextId + 1;
    r := Ok(id);
  }

  /** The `reduce` that adds up the values of the rows `findMany` returned. */
  method SumVotes(votes: seq<Vote>) returns (total: int)
    ensures total == VoteSum(votes)
  {
    total := 0;
    for i := 0 to |votes|
      invariant total == VoteSum(votes[..i])
    {
      assert votes[..i + 1][..i] == votes[..i];
      total := total + votes[i].value;
    }
    assert votes[..|votes|] == votes;
  }

  /**
   * The three-way branch of `votePost` after the lookup: insert a row when
   * there is none, delete the row when it holds the same value, otherwise
   * overwrite its value.
   */
  method WriteVote(db: Store, existing: Option<Vote>, postId: Id, userId: Id, value: int)
    requires db.Valid() && VoteSchemaValid(value)
    requires existing == Lookup(db.votes, postId, userId)
    modifies db
    ensures db.Valid()
    ensures db.users == old(db.users) && db.posts == old(db.posts) && db.comments == old(db.comments)
    ensures db.votes == ApplyVote(old(db.votes), postId, userId, value, old(db.nextId))
    ensures db.nextId == IdAfter(old(db.votes), postId, userId, old(db.nextId))
  {
    ApplyVoteWellformed(db.votes, postId, userId, value, db.nextId);
    match existing {
      case Some(v) =>
        if v.value == value {
          db.votes := DeleteId(db.votes, v.id);
        } else {
          db.votes := UpdateId(db.votes, v.id, value);
        }
      case None =>
        db.votes := db.votes + [Vote(db.nextId, postId, userId, value)];
        db.nextId := db.nextId + 1;
    }
  }

  /**
   * `votePost`. A value outside [-1, 1] is refused before any store access.
   * Otherwise the pair's row is looked up and the toggle applied; then the
   * post's rows are read back and summed. A store failure at any of those
   * steps is caught and reported with one generic message; a failure of the
   * read-back comes after the write, which stays applied.
   */
  method VotePost(db: Store, postId: Id, userId: Id, value: int, fault: Fault) returns (r: Reply<int>)
    requires db.Valid()
    modifies db
    ensures db.Valid()
    ensures db.users == old(db.users) && db.posts == old(db.posts) && db.comments == old(db.comments)
    ensures db.votes == if VoteWritten(value, fault)
                        then ApplyVote(old(db.votes), postId, userId, value, old(db.nextId))
                        else old(db.votes)
    ensures db.nextId == if VoteWritten(value, fault)
                         then IdAfter(old(db.votes), postId, userId, old(db.nextId))
                         else old(db.nextId)
    ensures r == if !VoteSchemaValid(value) then Fail(InvalidFields)
                 else if fault == NoFault then Ok(Score(db.votes, postId))
                 else Fail(FailedToVote)
  {
    if !VoteSchemaValid(value) {
      return Fail(InvalidFields);
    }
    if fault == FailsAtLookup {
      return Fail(FailedToVote);
    }
    var existing := db.FindVote(postId, userId);
    if fault == FailsAtWrite {
      return Fail(FailedToVote);
    }
    WriteVote(db, existing, postId, userId, value);
    if fault == FailsAtRecount {
      return Fail(FailedToVote);
    }
    var votes := db.FindVotesOfPost(postId);
    var voteCount := SumVotes(votes);
    r := Ok(voteCount);
  }
}
