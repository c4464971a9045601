/**
 * The forum's store: the user, post, comment and vote tables that the server
 * actions read and write, held in memory. Every key is issued by the store
 * from one counter, so a new row's id is never in use.
 */
module Db {
  import opened Replies
  import opened VoteLedger

  datatype User = User(id: Id, name: string, email: string, password: string)

  datatype Post = Post(id: Id, title: string, content: string, categoryId: string, authorId: Id)

  datatype Comment = Comment(id: Id, content: string, postId: Id, authorId: Id)

  /** Where a store call inside an action fails, if anywhere. */
  datatype Fault = NoFault | FailsAtLookup | FailsAtWrite | FailsAtRecount

  /** No two users share an email. */
  ghost predicate EmailsUnique(users: seq<User>)
  {
    forall i, j | 0 <= i < j < |users| :: users[i].email != users[j].email
  }

  ghost predicate EmailTaken(users: seq<User>, email: string)
  {
    exists u | u in users :: u.email == email
  }

  class Store {
    var users: seq<User>
    var posts: seq<Post>
    var comments: seq<Comment>
    var votes: seq<Vote>
    var nextId: Id

    ghost predicate Valid()
      reads this
    {
      && Wellformed(votes, nextId)
      && EmailsUnique(users)
      && (forall u | u in users :: u.id < nextId)
      && (forall p | p in posts :: p.id < nextId)
      && (forall c | c in comments :: c.id < nextId)
    }

    /** An empty store. */
    constructor ()
      ensures Valid()
      ensures users == [] && posts == [] && comments == [] && votes == [] && nextId == 0
    {
      users, posts, comments, votes, nextId := [], [], [], [], 0;
    }

    /** `vote.findUnique({ where: { postId_userId } })`: the one row of the pair, if any. */
    method FindVote(postId: Id, userId: Id) returns (r: Option<Vote>)
      requires Valid()
      ensures r == Lookup(votes, postId, userId)
    {
      var i := 0;
      while i < |votes|
        invariant 0 <= i <= |votes|
        invariant forall j | 0 <= j < i :: !IsVoteOf(votes[j], postId, userId)
      {
        if IsVoteOf(votes[i], postId, userId) {
          LookupFindsUnique(votes, votes[i]);
          return Some(votes[i]);
        }
        i := i + 1;
      }
      return None;
    }

    /** `vote.findMany({ where: { postId } })`: the post's rows in table order. */
    method FindVotesOfPost(postId: Id) returns (r: seq<Vote>)
      ensures r == OfPost(votes, postId)
    {
      r := [];
      var i := 0;
      while i < |votes|
        invariant 0 <= i <= |votes|
        invariant r == OfPost(votes[..i], postId)
      {
        assert votes[..i + 1][..i] == votes[..i];
        if votes[i].postId == postId {
          r := r + [votes[i]];
        }
        i := i + 1;
      }
      assert votes[..|votes|] == votes;
    }

    /** `user.findUnique({ where: { email } })`. */
    method FindUserByEmail(email: string) returns (r: Option<User>)
      ensures r.Some? ==> r.value in users && r.value.email == email
      ensures r.None? <==> !EmailTaken(users, email)
    {
      var i := 0;
      while i < |users|
        invariant 0 <= i <= |users|
        invariant forall j | 0 <= j < i :: users[j].email != email
      {
        if users[i].email == email {
          return Some(users[i]);
        }
        i := i + 1;
      }
      return None;
    }
  }
}
