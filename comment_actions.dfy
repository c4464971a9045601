/** The comment action: `createComment` validates the content length, then inserts one comment. */
module CommentActions {
  import opened Replies
  import opened VoteLedger
  import opened Db

  const FailedToCreateComment: string := "Failed to create comment"

  /** `commentSchema`: content of 3 to 500 characters; any post and author id. */
  predicate CommentSchemaValid(content: string)
  {
    3 <= |content| <= 500
  }

  /** The length bounds are inclusive at both ends and exclusive just outside them. */
  lemma CommentLengthBoundaries(content: string)
    ensures |content| == 3 || |content| == 500 ==> CommentSchemaValid(content)
    ensures |content| == 2 || |content| == 501 ==> !CommentSchemaValid(content)
  {
  }

  method CreateComment(db: Store, content: string, postId: Id, authorId: Id, writeFails: bool)
    returns (r: Reply<Id>)
    requires db.Valid()
    modifies db
    ensures db.Valid()
    ensures db.users == old(db.users) && db.posts == old(db.posts) && db.votes == old(db.votes)
    ensures !CommentSchemaValid(content) ==> r == Fail(InvalidFields) && unchanged(db)
    ensures CommentSchemaValid(content) && writeFails ==> r == Fail(FailedToCreateComment) && unchanged(db)
    ensures CommentSchemaValid(content) && !writeFails ==>
              && r == Ok(old(db.nextId))
              && (forall c | c in old(db.comments) :: c.id != r.value)
              && db.comments == old(db.comments) + [Comment(r.value, content, postId, authorId)]
              && db.nextId == old(db.nextId) + 1
  {
    if !CommentSchemaValid(content) {
      return Fail(InvalidFields);
    }
    if writeFails {
      return Fail(FailedToCreateComment);
    }
    var id := db.nextId;
    db.comments := db.comments + [Comment(id, content, postId, authorId)];
    db.nextId := db.nextId + 1;
    r := Ok(id);
  }
}
