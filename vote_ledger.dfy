/**
 * The vote table and the toggle rule of `votePost`, as values.
 *
 * A table is the sequence of its rows in insertion order. A user's vote on a
 * post is the row for that (post, user) pair; the post's score is the sum of
 * the values of the post's rows, added up from the first row to the last.
 */
module VoteLedger {
  import opened Replies

  type Id = nat

  datatype Vote = Vote(id: Id, postId: Id, userId: Id, value: int)

  predicate IsVoteOf(v: Vote, postId: Id, userId: Id)
  {
    v.postId == postId && v.userId == userId
  }

  predicate SamePair(a: Vote, b: Vote)
  {
    a.postId == b.postId && a.userId == b.userId
  }

  /** At most one row per (post, user) pair. */
  ghost predicate PairsUnique(rows: seq<Vote>)
  {
    forall i, j | 0 <= i < j < |rows| :: !SamePair(rows[i], rows[j])
  }

  /** No two rows share an id. */
  ghost predicate IdsUnique(rows: seq<Vote>)
  {
    forall i, j | 0 <= i < j < |rows| :: rows[i].id != rows[j].id
  }

  /** Every id in the table was issued before `nextId`. */
  ghost predicate IdsBelow(rows: seq<Vote>, nextId: Id)
  {
    forall v | v in rows :: v.id < nextId
  }

  /** Every stored value passed the vote schema. */
  ghost predicate ValuesInRange(rows: seq<Vote>)
  {
    forall v | v in rows :: -1 <= v.value <= 1
  }

  ghost predicate Wellformed(rows: seq<Vote>, nextId: Id)
  {
    PairsUnique(rows) && IdsUnique(rows) && IdsBelow(rows, nextId) && ValuesInRange(rows)
  }

  /** The row stored for (postId, userId), if any. */
  function Lookup(rows: seq<Vote>, postId: Id, userId: Id): (r: Option<Vote>)
    decreases |rows|
    ensures r.Some? ==> r.value in rows && IsVoteOf(r.value, postId, userId)
    ensures r.None? <==> forall v | v in rows :: !IsVoteOf(v, postId, userId)
  {
    if rows == [] then None
    else
      var last := rows[|rows| - 1];
      assert rows == rows[..|rows| - 1] + [last];
      if IsVoteOf(last, postId, userId) then Some(last)
      else Lookup(rows[..|rows| - 1], postId, userId)
  }

  /** The user's vote on the post as the client shows it: the stored value, 0 when there is no row. */
  function Ballot(rows: seq<Vote>, postId: Id, userId: Id): (b: int)
    ensures b != 0 ==> Lookup(rows, postId, userId).Some?
    ensures ValuesInRange(rows) ==> -1 <= b <= 1
  {
    match Lookup(rows, postId, userId)
    case None => 0
    case Some(v) => v.value
  }

  /** The rows of one post, in table order (what `findMany({ where: { postId } })` returns). */
  function OfPost(rows: seq<Vote>, postId: Id): (r: seq<Vote>)
    decreases |rows|
    ensures |r| <= |rows|
    ensures forall v :: v in r <==> v in rows && v.postId == postId
  {
    if rows == [] then []
    else
      var last := rows[|rows| - 1];
      assert rows == rows[..|rows| - 1] + [last];
      OfPost(rows[..|rows| - 1], postId) + (if last.postId == postId then [last] else [])
  }

  /** `votes.reduce((acc, vote) => acc + vote.value, 0)`: a left fold over the values. */
  function VoteSum(votes: seq<Vote>): (total: int)
    decreases |votes|
    ensures ValuesInRange(votes) ==> -|votes| <= total <= |votes|
  {
    if votes == [] then 0
    else
      assert votes == votes[..|votes| - 1] + [votes[|votes| - 1]];
      VoteSum(votes[..|votes| - 1]) + votes[|votes| - 1].value
  }

  /** The aggregate score of a post. */
  function Score(rows: seq<Vote>, postId: Id): (s: int)
    ensures ValuesInRange(rows) ==> -|rows| <= s <= |rows|
    ensures (forall v | v in rows :: v.postId != postId) ==> s == 0
  {
    var mine := OfPost(rows, postId);
    assert ValuesInRange(rows) ==> ValuesInRange(mine);
    assert (forall v | v in rows :: v.postId != postId) ==> mine == [] by {
      if mine != [] { assert mine[0] in mine; }
    }
    VoteSum(mine)
  }

  /** `vote.delete({ where: { id } })`: the table without the row carrying `id`. */
  function DeleteId(rows: seq<Vote>, id: Id): (r: seq<Vote>)
    decreases |rows|
    ensures |r| <= |rows|
    ensures forall v :: v in r <==> v in rows && v.id != id
  {
    if rows == [] then []
    else
      var last := rows[|rows| - 1];
      assert rows == rows[..|rows| - 1] + [last];
      DeleteId(rows[..|rows| - 1], id) + (if last.id == id then [] else [last])
  }

  /** `vote.update({ where: { id }, data: { value } })`: the row carrying `id` gets the new value, in place. */
  function UpdateId(rows: seq<Vote>, id: Id, value: int): (r: seq<Vote>)
    decreases |rows|
    ensures |r| == |rows|
    ensures forall i | 0 <= i < |rows| ::
      r[i] == if rows[i].id == id then rows[i].(value := value) else rows[i]
  {
    if rows == [] then []
    else
      var last := rows[|rows| - 1];
      UpdateId(rows[..|rows| - 1], id, value) + [if last.id == id then last.(value := value) else last]
  }

  /**
   * The toggle of `votePost`: no row for the pair inserts one with the fresh
   * id; a row with the same value is deleted; a row with another value has its
   * value overwritten.
   */
  function ApplyVote(rows: seq<Vote>, postId: Id, userId: Id, value: int, freshId: Id): (r: seq<Vote>)
    ensures |r| == |rows| + 1 <==> Lookup(rows, postId, userId).None?
    ensures IdsUnique(rows) ==> forall v | v in r && !IsVoteOf(v, postId, userId) :: v in rows
  {
    match Lookup(rows, postId, userId)
    case None => rows + [Vote(freshId, postId, userId, value)]
    case Some(v) => if v.value == value then DeleteId(rows, v.id) else UpdateId(rows, v.id, value)
  }

  /** The store's next id after `ApplyVote`: only an insert consumes one. */
  function IdAfter(rows: seq<Vote>, postId: Id, userId: Id, nextId: Id): Id
  {
    if Lookup(rows, postId, userId).None? then nextId + 1 else nextId
  }

  // ---------------------------------------------------------------------------
  // Lemmas about single table operations

  lemma {:induction false} LookupFindsUnique(rows: seq<Vote>, v: Vote)
    requires PairsUnique(rows) && v in rows
    ensures Lookup(rows, v.postId, v.userId) == Some(v)
    decreases |rows|
  {
    var init, last := rows[..|rows| - 1], rows[|rows| - 1];
    assert rows == init + [last];
    if v != last {
      var i :| 0 <= i < |init| && init[i] == v;
      assert rows[i] == v;
      assert !SamePair(rows[i], rows[|rows| - 1]);
      assert PairsUnique(init) by {
        forall i, j | 0 <= i < j < |init| ensures !SamePair(init[i], init[j]) {
          assert init[i] == rows[i] && init[j] == rows[j];
        }
      }
      LookupFindsUnique(init, v);
    }
  }

  /** Appending a row whose pair and id are new keeps the table well formed. */
  lemma AppendWellformed(rows: seq<Vote>, v: Vote, nextId: Id)
    requires Wellformed(rows, nextId)
    requires Lookup(rows, v.postId, v.userId).None? && v.id == nextId && -1 <= v.value <= 1
    ensures Wellformed(rows + [v], nextId + 1)
  {
    var r := rows + [v];
    forall i, j | 0 <= i < j < |r| ensures !SamePair(r[i], r[j]) && r[i].id != r[j].id {
      if j == |rows| {
        assert r[i] in rows;
      } else {
        assert r[i] == rows[i] && r[j] == rows[j];
      }
    }
  }

  lemma {:induction false} DeleteIdUnique(rows: seq<Vote>, id: Id)
    requires PairsUnique(rows) && IdsUnique(rows)
    ensures PairsUnique(DeleteId(rows, id)) && IdsUnique(DeleteId(rows, id))
    decreases |rows|
  {
    if rows != [] {
      var init, last := rows[..|rows| - 1], rows[|rows| - 1];
      assert rows == init + [last];
      assert PairsUnique(init) && IdsUnique(init) by {
        forall i, j | 0 <= i < j < |init| ensures !SamePair(init[i], init[j]) && init[i].id != init[j].id {
          assert init[i] == rows[i] && init[j] == rows[j];
        }
      }
      DeleteIdUnique(init, id);
      var d := DeleteId(init, id);
      if last.id != id {
        var r := d + [last];
        assert DeleteId(rows, id) == r;
        forall i, j | 0 <= i < j < |r| ensures !SamePair(r[i], r[j]) && r[i].id != r[j].id {
          if j == |d| {
            assert r[i] in init;
            var k :| 0 <= k < |init| && init[k] == r[i];
            assert rows[k] == r[i];
          } else {
            assert r[i] == d[i] && r[j] == d[j];
          }
        }
      }
    }
  }

  lemma DeleteIdWellformed(rows: seq<Vote>, id: Id, nextId: Id)
    requires Wellformed(rows, nextId)
    ensures Wellformed(DeleteId(rows, id), nextId)
  {
    DeleteIdUnique(rows, id);
  }

  lemma UpdateIdWellformed(rows: seq<Vote>, id: Id, value: int, nextId: Id)
    requires Wellformed(rows, nextId) && -1 <= value <= 1
    ensures Wellformed(UpdateId(rows, id, value), nextId)
  {
    var r := UpdateId(rows, id, value);
    forall v | v in r ensures v.id < nextId && -1 <= v.value <= 1 {
      var k :| 0 <= k < |r| && r[k] == v;
      assert rows[k] in rows;
    }
  }

  /** A table without a pair's row has no vote for it; rows of other pairs are found as before. */
  lemma {:induction false} LookupAfterDelete(rows: seq<Vote>, x: Vote, postId: Id, userId: Id)
    requires PairsUnique(rows) && IdsUnique(rows) && x in rows
    ensures Lookup(DeleteId(rows, x.id), postId, userId)
         == if IsVoteOf(x, postId, userId) then None else Lookup(rows, postId, userId)
  {
    var d := DeleteId(rows, x.id);
    DeleteIdUnique(rows, x.id);
    if IsVoteOf(x, postId, userId) {
      forall v | v in d ensures !IsVoteOf(v, postId, userId) {
        var i :| 0 <= i < |rows| && rows[i] == v;
        var j :| 0 <= j < |rows| && rows[j] == x;
        assert i != j;
        assert !SamePair(rows[i], rows[j]) by {
          if i > j { assert !SamePair(rows[j], rows[i]); }
        }
      }
    } else {
      match Lookup(rows, postId, userId)
      case None =>
      case Some(v) =>
        assert v != x;
        assert v.id != x.id by {
          var i :| 0 <= i < |rows| && rows[i] == v;
          var j :| 0 <= j < |rows| && rows[j] == x;
          assert i != j;
          if i > j { assert rows[j].id != rows[i].id; } else { assert rows[i].id != rows[j].id; }
        }
        assert v in d;
        LookupFindsUnique(d, v);
    }
  }

  /** After an in-place update the pair's row is the old row with the new value; other pairs are unaffected. */
  lemma LookupAfterUpdate(rows: seq<Vote>, x: Vote, value: int, postId: Id, userId: Id)
    requires PairsUnique(rows) && IdsUnique(rows) && x in rows
    ensures Lookup(UpdateId(rows, x.id, value), postId, userId)
         == if IsVoteOf(x, postId, userId) then Some(x.(value := value)) else Lookup(rows, postId, userId)
  {
    var u := UpdateId(rows, x.id, value);
    assert PairsUnique(u) by {
      forall i, j | 0 <= i < j < |u| ensures !SamePair(u[i], u[j]) {
        assert SamePair(u[i], rows[i]) && SamePair(u[j], rows[j]);
      }
    }
    var j :| 0 <= j < |rows| && rows[j] == x;
    assert u[j] == x.(value := value);
    if IsVoteOf(x, postId, userId) {
      LookupFindsUnique(u, u[j]);
    } else {
      match Lookup(rows, postId, userId)
      case None =>
        forall v | v in u ensures !IsVoteOf(v, postId, userId) {
          var i :| 0 <= i < |u| && u[i] == v;
          assert rows[i] in rows;
        }
      case Some(v) =>
        var i :| 0 <= i < |rows| && rows[i] == v;
        assert rows[i].id != x.id by {
          if i < j { assert rows[i].id != rows[j].id; } else if i > j { assert rows[j].id != rows[i].id; }
        }
        assert u[i] == v;
        LookupFindsUnique(u, v);
    }
  }

  lemma {:induction false} VoteSumAppend(a: seq<Vote>, b: seq<Vote>)
    ensures VoteSum(a + b) == VoteSum(a) + VoteSum(b)
    decreases |b|
  {
    if b != [] {
      var b' := b[..|b| - 1];
      assert (a + b)[..|a + b| - 1] == a + b';
      VoteSumAppend(a, b');
    } else {
      assert a + b == a;
    }
  }

  /** Only the rows of `postId` count toward its score. */
  function Contribution(v: Vote, postId: Id): int
  {
    if v.postId == postId then v.value else 0
  }

  lemma ScoreAppend(rows: seq<Vote>, v: Vote, postId: Id)
    ensures Score(rows + [v], postId) == Score(rows, postId) + Contribution(v, postId)
  {
    var r := rows + [v];
    assert r[..|r| - 1] == rows;
    VoteSumAppend(OfPost(rows, postId), if v.postId == postId then [v] else []);
  }

  lemma {:induction false} DeleteAbsentId(rows: seq<Vote>, id: Id)
    requires forall v | v in rows :: v.id != id
    ensures DeleteId(rows, id) == rows
    decreases |rows|
  {
    if rows != [] {
      var init := rows[..|rows| - 1];
      assert rows == init + [rows[|rows| - 1]];
      DeleteAbsentId(init, id);
    }
  }

  /** Dropping the last row keeps ids unique, and the last row's id is not used before it. */
  lemma IdsUniqueInit(rows: seq<Vote>)
    requires IdsUnique(rows) && rows != []
    ensures IdsUnique(rows[..|rows| - 1])
    ensures forall v | v in rows[..|rows| - 1] :: v.id != rows[|rows| - 1].id
  {
    var init := rows[..|rows| - 1];
    forall i, j | 0 <= i < j < |init| ensures init[i].id != init[j].id {
      assert init[i] == rows[i] && init[j] == rows[j];
    }
    forall v | v in init ensures v.id != rows[|rows| - 1].id {
      var i :| 0 <= i < |init| && init[i] == v;
      assert rows[i].id != rows[|rows| - 1].id;
    }
  }

  lemma {:induction false} ScoreAfterDelete(rows: seq<Vote>, x: Vote, postId: Id)
    requires IdsUnique(rows) && x in rows
    ensures Score(DeleteId(rows, x.id), postId) == Score(rows, postId) - Contribution(x, postId)
    decreases |rows|
  {
    var init, last := rows[..|rows| - 1], rows[|rows| - 1];
    assert rows == init + [last];
    ScoreAppend(init, last, postId);
    IdsUniqueInit(rows);
    if last.id == x.id {
      assert x == last;
      DeleteAbsentId(init, x.id);
      assert DeleteId(rows, x.id) == init;
    } else {
      assert x in init;
      assert DeleteId(rows, x.id) == DeleteId(init, x.id) + [last];
      ScoreAfterDelete(init, x, postId);
      ScoreAppend(DeleteId(init, x.id), last, postId);
    }
  }

  lemma {:induction false} ScoreAfterUpdate(rows: seq<Vote>, x: Vote, value: int, postId: Id)
    requires IdsUnique(rows) && x in rows
    ensures Score(UpdateId(rows, x.id, value), postId)
         == Score(rows, postId) - Contribution(x, postId) + Contribution(x.(value := value), postId)
    decreases |rows|
  {
    var init, last := rows[..|rows| - 1], rows[|rows| - 1];
    assert rows == init + [last];
    var u := UpdateId(init, x.id, value);
    var last' := if last.id == x.id then last.(value := value) else last;
    assert UpdateId(rows, x.id, value) == u + [last'];
    ScoreAppend(init, last, postId);
    ScoreAppend(u, last', postId);
    IdsUniqueInit(rows);
    if last.id == x.id {
      assert x == last;
      UpdateAbsentId(init, x.id, value);
    } else {
      assert x in init;
      ScoreAfterUpdate(init, x, value, postId);
    }
  }

  lemma UpdateAbsentId(rows: seq<Vote>, id: Id, value: int)
    requires forall v | v in rows :: v.id != id
    ensures UpdateId(rows, id, value) == rows
  {
    var u := UpdateId(rows, id, value);
    forall i | 0 <= i < |rows| ensures u[i] == rows[i] {
      assert rows[i] in rows;
    }
  }

  // ---------------------------------------------------------------------------
  // Properties of the toggle

  /** The toggle keeps one row per pair, unique ids below the store's counter, and values in [-1, 1]. */
  lemma ApplyVoteWellformed(rows: seq<Vote>, postId: Id, userId: Id, value: int, nextId: Id)
    requires Wellformed(rows, nextId) && -1 <= value <= 1
    ensures Wellformed(ApplyVote(rows, postId, userId, value, nextId), IdAfter(rows, postId, userId, nextId))
  {
    match Lookup(rows, postId, userId)
    case None => AppendWellformed(rows, Vote(nextId, postId, userId, value), nextId);
    case Some(v) =>
      if v.value == value { DeleteIdWellformed(rows, v.id, nextId); }
      else { UpdateIdWellformed(rows, v.id, value, nextId); }
  }

  /** No vote yet: exactly one row is added, for this pair, with the fresh id and the given value. */
  lemma ApplyVoteInserts(rows: seq<Vote>, postId: Id, userId: Id, value: int, nextId: Id)
    requires Lookup(rows, postId, userId).None?
    ensures var r := ApplyVote(rows, postId, userId, value, nextId);
      && |r| == |rows| + 1
      && (forall v | v in rows :: v in r)
      && Lookup(r, postId, userId) == Some(Vote(nextId, postId, userId, value))
  {
    var r := ApplyVote(rows, postId, userId, value, nextId);
    assert r[..|r| - 1] == rows;
  }

  /** A stored vote with the same value: that row is deleted and the pair has no vote left. */
  lemma ApplyVoteRetracts(rows: seq<Vote>, postId: Id, userId: Id, value: int, nextId: Id)
    requires PairsUnique(rows) && IdsUnique(rows)
    requires Lookup(rows, postId, userId).Some? && Lookup(rows, postId, userId).value.value == value
    ensures var r := ApplyVote(rows, postId, userId, value, nextId);
      && Lookup(r, postId, userId).None?
      && (forall v :: v in r <==> v in rows && v != Lookup(rows, postId, userId).value)
  {
    var x := Lookup(rows, postId, userId).value;
    LookupAfterDelete(rows, x, postId, userId);
  }

  /** A stored vote with another value: the same row (same id) now holds the new value. */
  lemma ApplyVoteFlips(rows: seq<Vote>, postId: Id, userId: Id, value: int, nextId: Id)
    requires PairsUnique(rows) && IdsUnique(rows)
    requires Lookup(rows, postId, userId).Some? && Lookup(rows, postId, userId).value.value != value
    ensures var r := ApplyVote(rows, postId, userId, value, nextId);
      && |r| == |rows|
      && Lookup(r, postId, userId) == Some(Lookup(rows, postId, userId).value.(value := value))
  {
    var x := Lookup(rows, postId, userId).value;
    LookupAfterUpdate(rows, x, value, postId, userId);
  }

  /** Votes of every other (post, user) pair are untouched. */
  lemma ApplyVoteLeavesOthers(rows: seq<Vote>, postId: Id, userId: Id, value: int, nextId: Id, p: Id, u: Id)
    requires PairsUnique(rows) && IdsUnique(rows)
    requires (p, u) != (postId, userId)
    ensures Lookup(ApplyVote(rows, postId, userId, value, nextId), p, u) == Lookup(rows, p, u)
  {
    match Lookup(rows, postId, userId)
    case None =>
      var r := rows + [Vote(nextId, postId, userId, value)];
      assert r[..|r| - 1] == rows;
    case Some(x) =>
      if x.value == value { LookupAfterDelete(rows, x, p, u); }
      else { LookupAfterUpdate(rows, x, value, p, u); }
  }

  /**
   * The user's ballot after the toggle follows the client's rule: 0 when the
   * clicked value equals the previous ballot, otherwise the clicked value.
   */
  lemma ApplyVoteBallot(rows: seq<Vote>, postId: Id, userId: Id, value: int, nextId: Id)
    requires PairsUnique(rows) && IdsUnique(rows)
    ensures Ballot(ApplyVote(rows, postId, userId, value, nextId), postId, userId)
         == if Ballot(rows, postId, userId) == value then 0 else value
  {
    match Lookup(rows, postId, userId)
    case None => ApplyVoteInserts(rows, postId, userId, value, nextId);
    case Some(x) =>
      if x.value == value { ApplyVoteRetracts(rows, postId, userId, value, nextId); }
      else { ApplyVoteFlips(rows, postId, userId, value, nextId); }
  }

  /** The score moves by exactly the change in the voter's ballot, and no other post's score moves. */
  lemma ApplyVoteScore(rows: seq<Vote>, postId: Id, userId: Id, value: int, nextId: Id, p: Id)
    requires PairsUnique(rows) && IdsUnique(rows)
    ensures Score(ApplyVote(rows, postId, userId, value, nextId), p)
         == Score(rows, p)
            + if p == postId
              then Ballot(ApplyVote(rows, postId, userId, value, nextId), postId, userId) - Ballot(rows, postId, userId)
              else 0
  {
    ApplyVoteBallot(rows, postId, userId, value, nextId);
    match Lookup(rows, postId, userId)
    case None => ScoreAppend(rows, Vote(nextId, postId, userId, value), p);
    case Some(x) =>
      if x.value == value { ScoreAfterDelete(rows, x, p); }
      else { ScoreAfterUpdate(rows, x, value, p); }
  }

  /** Voting the same value twice from a no-vote state gives back the original table, hence the original score. */
  lemma ApplyVoteTwiceRestores(rows: seq<Vote>, postId: Id, userId: Id, value: int, nextId: Id)
    requires Wellformed(rows, nextId) && Lookup(rows, postId, userId).None?
    ensures ApplyVote(ApplyVote(rows, postId, userId, value, nextId), postId, userId, value, nextId + 1) == rows
  {
    var v := Vote(nextId, postId, userId, value);
    var r := rows + [v];
    assert r[..|r| - 1] == rows;
    assert Lookup(r, postId, userId) == Some(v);
    assert DeleteId(r, nextId) == DeleteId(rows, nextId) + [];
    DeleteAbsentId(rows, nextId);
  }

  /** After a vote with `value`, the pair's ballot is 0 or `value`. */
  lemma BallotAfterVote(rows: seq<Vote>, postId: Id, userId: Id, value: int, nextId: Id)
    requires PairsUnique(rows) && IdsUnique(rows)
    ensures var b := Ballot(ApplyVote(rows, postId, userId, value, nextId), postId, userId); b == 0 || b == value
  {
    ApplyVoteBallot(rows, postId, userId, value, nextId);
  }

  /** Voting a value other than the current ballot leaves that value as the ballot. */
  lemma BallotAfterChange(rows: seq<Vote>, postId: Id, userId: Id, value: int, nextId: Id)
    requires PairsUnique(rows) && IdsUnique(rows)
    requires Ballot(rows, postId, userId) != value
    ensures Ballot(ApplyVote(rows, postId, userId, value, nextId), postId, userId) == value
  {
    ApplyVoteBallot(rows, postId, userId, value, nextId);
  }

  /**
   * A vote followed by a different non-zero vote leaves the second value
   * stored for the pair; with ±1 votes this is switching direction.
   */
  lemma ApplyVoteThenSwitch(rows: seq<Vote>, postId: Id, userId: Id, first: int, second: int, nextId: Id)
    requires Wellformed(rows, nextId) && -1 <= first <= 1
    requires second != 0 && second != first
    ensures Ballot(ApplyVote(ApplyVote(rows, postId, userId, first, nextId),
                             postId, userId, second, IdAfter(rows, postId, userId, nextId)),
                   postId, userId) == second
  {
    var once := ApplyVote(rows, postId, userId, first, nextId);
    ApplyVoteWellformed(rows, postId, userId, first, nextId);
    BallotAfterVote(rows, postId, userId, first, nextId);
    BallotAfterChange(once, postId, userId, second, IdAfter(rows, postId, userId, nextId));
  }
}
