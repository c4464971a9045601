# Dad forum: vote ledger and server actions

A Dafny model of the stateful core of a small discussion forum. Users register,
write posts and comments, and up- or down-vote posts. The model covers:

- the **vote toggle** of `votePost`: a user's vote on a post is one row of the
  vote table. Voting when there is no row inserts one. Voting the stored value
  again deletes the row. Voting another value overwrites the row's value in
  place. The post's score is then re-read as the sum of all its rows' values;
- the **vote buttons** on a post page, which keep their own copy of the score
  and of the viewer's vote and update them from the server's reply;
- the **validate-then-insert actions** `createPost`, `createComment` and
  `registerUser`, including the duplicate-email refusal;
- the **content preview** of a post card, and the client form schemas compared
  with the server schemas.

Layout, one module per source file or concept:

| file | module | models |
|---|---|---|
| `replies.dfy` | `Replies` | the `{ success, message, ... }` reply shape |
| `vote_ledger.dfy` | `VoteLedger` | the vote table as values: lookup, delete, update, sum, the toggle `ApplyVote`, and its properties |
| `db.dfy` | `Db` | the store (`Store` class: users, posts, comments, votes, id counter) and its lookups |
| `post_actions.dfy` | `PostActions` | `createPost`, `votePost`, the vote-sum `reduce` |
| `comment_actions.dfy` | `CommentActions` | `createComment` |
| `auth_actions.dfy` | `AuthActions` | `registerUser` |
| `vote_buttons.dfy` | `VoteButtonsUi` | the `VoteButtons` component and the post page's initial props |
| `post_card.dfy` | `PostCard` | `contentPreview` |
| `client_forms.dfy` | `ClientForms` | the new-post and comment form schemas |

Modelling choices:

- The database is a `Store` object with one `seq` per table, in insertion
  order. The actions take it as a parameter, where the source uses a global
  `db`. Writes replace a table field; lookups are loops over it.
- Keys are natural numbers issued by the store's counter `nextId`. The source
  uses opaque string ids, and its schemas accept every string, so no id ever
  fails validation. A category id stays a `string` because categories are
  seeded data outside the model.
- A store failure is an input: `Fault` says at which step of `votePost` the
  store fails; the other actions take booleans. `Reply.Thrown` is a rejected
  promise: an exception the action does not catch, or a reply lost on the way
  back to the browser.
- The bcrypt hash and zod's email-format test are function parameters (`hash`,
  `isEmail`).
- `Ballot` is the viewer's vote as the client sees it: the stored value, or 0
  when there is no row. The post page (`app/posts/[id]/page.tsx`, line 62) computes the same
  thing for the buttons' initial props.

Three behaviours of the code that a reader might not expect:

- A stored vote can be 0. The vote schema (`app/actions/post.ts`, line 43)
  accepts any number from -1 to 1, so 0 passes. With no row for the pair,
  the insert branch stores a 0 row; a second 0 deletes it, and a ±1
  overwrites it. `ApplyVote` and its lemmas hold for every value in [-1, 1].
- Not every store failure is caught. In `registerUser` the email lookup
  (`app/actions/auth.ts`, lines 22-25) is outside the `try` block, so a
  failure there escapes (`Thrown`).
- In `votePost` a store failure while re-reading the votes comes after the
  write. The write stays applied, yet the reply is a failure, so the buttons
  keep their old vote (`LostSuccessDesyncs`).

## Model

| member | source | states |
|---|---|---|
| `VoteLedger.Lookup` | dad-forum/app/actions/post.ts:57-64 | the row found belongs to the table and to the (post, user) pair; none is found exactly when no row of the table has that pair |
| `VoteLedger.Ballot` | dad-forum/components/vote-buttons.tsx:13-18 | a non-zero ballot means the pair has a stored row; with stored values in [-1, 1] the ballot is in [-1, 1] |
| `VoteLedger.OfPost` | dad-forum/app/actions/post.ts:97-101 | the rows returned are exactly the table's rows of that post, never more rows than the table has |
| `VoteLedger.VoteSum` | dad-forum/app/actions/post.ts:103 | with every value in [-1, 1], the sum of n rows lies between -n and n |
| `VoteLedger.DeleteId` | dad-forum/app/actions/post.ts:69-73 | the rows left are exactly the rows whose id differs from the deleted id |
| `VoteLedger.Score` | dad-forum/app/actions/post.ts:97-103 | the post's score is the sum of its rows' values: with every value in [-1, 1] it lies within ± the table size, and a post with no rows scores 0 |
| `VoteLedger.ApplyVote` | dad-forum/app/actions/post.ts:66-94 | the table grows by one row exactly when the pair had no row; with unique ids, every row of the result that is not the pair's row was already in the table (the full behaviour is in the `ApplyVote*` lemmas below) |
| `VoteLedger.UpdateId` | dad-forum/app/actions/post.ts:76-83 | same length and order; the row with the id gets the new value and keeps everything else; every other row is unchanged |
| `VoteLedger.ApplyVoteWellformed` | dad-forum/app/actions/post.ts:57-94 | after the toggle there is still at most one row per (post, user) pair, ids stay unique and below the counter, values stay in [-1, 1] |
| `VoteLedger.ApplyVoteInserts` | dad-forum/app/actions/post.ts:85-94 | with no row for the pair, exactly one row is added, it has the fresh id and the given value, and every old row stays |
| `VoteLedger.ApplyVoteRetracts` | dad-forum/app/actions/post.ts:66-73 | with a stored row of the same value, that row and only that row is removed, and the pair has no vote left |
| `VoteLedger.ApplyVoteFlips` | dad-forum/app/actions/post.ts:74-84 | with a stored row of another value, the table keeps its size and the pair's row is the same row (same id) holding the new value |
| `VoteLedger.ApplyVoteLeavesOthers` | dad-forum/app/actions/post.ts:57-94 | the vote of every other (post, user) pair is the same before and after |
| `VoteLedger.ApplyVoteBallot` | dad-forum/app/actions/post.ts:66-94 | the pair's ballot becomes 0 if it equalled the submitted value, otherwise the submitted value |
| `VoteLedger.ApplyVoteScore` | dad-forum/app/actions/post.ts:96-106 | the post's score changes by exactly the change in the voter's ballot; every other post's score is unchanged |
| `VoteLedger.ApplyVoteTwiceRestores` | dad-forum/app/actions/post.ts:66-94 | from no vote, voting the same value twice gives back the original table, hence the original score |
| `VoteLedger.ApplyVoteThenSwitch` | dad-forum/app/actions/post.ts:74-94 | a vote followed by a different non-zero vote (for ±1: the opposite one) leaves the second value stored for the pair |
| `Db.Store.FindVote` | dad-forum/app/actions/post.ts:57-64 | the lookup loop returns the pair's row of the vote table, or none |
| `Db.Store.FindVotesOfPost` | dad-forum/app/actions/post.ts:97-101 | the loop returns exactly the post's rows, in table order |
| `Db.Store.FindUserByEmail` | dad-forum/app/actions/auth.ts:22-25 | a user is found, with that email, exactly when the email is already registered |
| `PostActions.PostSchemaBoundaries` | dad-forum/app/actions/post.ts:7-12 | with enough content, a title passes exactly when it has 5 to 100 characters; a 4- or 101-character title or 9-character content fails; the category id is never checked, so an empty one passes |
| `PostActions.CreatePost` | dad-forum/app/actions/post.ts:14-38 | a title outside 5..100 or content under 10 gives "Invalid fields" and no change; a failed insert gives "Failed to create post" and no change; otherwise exactly one post with the given fields and a fresh id is appended and its id returned, other tables untouched |
| `PostActions.SumVotes` | dad-forum/app/actions/post.ts:103 | the loop's total is the left-to-right sum of the rows' values |
| `PostActions.WriteVote` | dad-forum/app/actions/post.ts:66-94 | after the lookup, the vote table becomes the toggle of the old table, the counter advances only on an insert, the store invariant is kept and the other tables are untouched |
| `PostActions.VotePost` | dad-forum/app/actions/post.ts:46-110 | a value outside [-1, 1] gives "Invalid fields" and no change; a failed lookup or write gives "Failed to vote on post" and no change; otherwise the vote table becomes the toggle of the old one and, unless the re-read fails, the reply is the post's new score; users, posts and comments are untouched; the store invariant is kept |
| `CommentActions.CommentLengthBoundaries` | dad-forum/app/actions/comment.ts:8 | content of exactly 3 or 500 characters passes; 2 or 501 does not |
| `CommentActions.CreateComment` | dad-forum/app/actions/comment.ts:13-36 | content outside 3..500 gives "Invalid fields" and no change; a failed insert gives "Failed to create comment" and no change; otherwise exactly one comment with the given content, post and author and a fresh id is appended, existing comments stay, and its id is returned |
| `AuthActions.RegisterSchemaBoundaries` | dad-forum/app/actions/auth.ts:7-11 | a well-formed email with a name of at least 2 and a password of at least 8 characters passes; a 1-character name, a 7-character password or a malformed email fails |
| `AuthActions.RegisterUser` | dad-forum/app/actions/auth.ts:13-48 | a short name or password or a malformed email gives "Invalid fields" before any lookup; a failed lookup escapes; a registered email gives "User with this email already exists" and no change; a failed insert gives "Failed to create user"; otherwise exactly one user is appended whose stored password is the hash of the input; emails stay unique |
| `AuthActions.RegisterTwice` | dad-forum/app/actions/auth.ts:22-29 | once a registration succeeds, a second one with the same email and valid fields is refused and adds no user |
| `VoteButtonsUi.ButtonValue` | dad-forum/components/vote-buttons.tsx:57 | a button submits +1 (upvote) or -1 (downvote), never 0, and always a value the vote schema accepts |
| `VoteButtonsUi.NextUserVote` | dad-forum/components/vote-buttons.tsx:33 | after a successful call the client's vote is 0 or the clicked value, and it changes on every click unless both the old vote and the value are 0 |
| `VoteButtonsUi.VoteButtons.constructor` | dad-forum/components/vote-buttons.tsx:17-19 | the component starts with the initial count and vote and not loading |
| `VoteButtonsUi.VoteButtons.HandleVote` | dad-forum/components/vote-buttons.tsx:21-50 | on success the count becomes the server's score and the vote becomes 0 if it equalled the clicked value, else the clicked value; on a failure reply or a thrown error both stay; loading is false afterwards; the vote table and id counter become those of `votePost` (unchanged when the request never arrives), users, posts and comments stay; a client in step with the server stays in step after a success |
| `VoteButtonsUi.VoteButtons.Click` | dad-forum/components/vote-buttons.tsx:54-74 | an enabled button runs `handleVote` with its own value: on success the count is the new score and the vote follows the client's rule; otherwise both stay; the store changes exactly as `votePost` changes it (nothing when the request is lost); a client in step stays in step after a success |
| `VoteButtonsUi.OpenPostPage` | dad-forum/components/vote-buttons.tsx:9-19 | the post page (`app/posts/[id]/page.tsx`, lines 61-62) starts the buttons with the post's score and the viewer's stored value, so they start in step with the server |
| `VoteButtonsUi.MirrorPreserved` | dad-forum/components/vote-buttons.tsx:33 | if the client's vote equals the server's ballot before a vote, the client's rule and the server's toggle give equal ballots after it |
| `VoteButtonsUi.LostSuccessDesyncs` | dad-forum/components/vote-buttons.tsx:31-46 | when the server applies a non-zero vote but the client sees a failure, the client's unchanged vote differs from the server's new ballot |
| `PostCard.ContentPreview` | dad-forum/components/post-card.tsx:28 | content of at most 150 characters is shown whole; longer content is cut to its first 150 characters followed by "..."; the preview never exceeds 153 characters and always starts with the first min(150, length) characters of the content |
| `ClientForms.NewPostFormWithinServer` | dad-forum/components/new-post-form.tsx:16-31 | whatever the new-post form accepts, the server's post schema accepts |
| `ClientForms.NewPostFormIsServerWithCategory` | dad-forum/components/new-post-form.tsx:16-31 | the form accepts exactly what the server's post schema accepts with a non-empty category id, so the category is the only difference |
| `ClientForms.EmptyCategoryOnlyServerAccepts` | dad-forum/components/new-post-form.tsx:28-30 | a witness of that difference: the server accepts an empty category id that the form refuses |
| `ClientForms.CommentFormMatchesServer` | dad-forum/components/comment-form.tsx:13-22 | the comment form and the server's comment schema accept exactly the same content |

## Left out

- The database engine: Prisma's calls become operations on in-memory tables. Unique-constraint enforcement, foreign keys and cascading deletes are not modelled. A create that would break a foreign key is covered only as a generic failed insert.
- Concurrency: each action runs as one sequential step. The race between the vote lookup and the write is not modelled.
- Vote values are integers. The vote schema also accepts fractions such as 0.5; those are not modelled.
- String lengths count characters. zod and `substring` count UTF-16 code units, so surrogate pairs are not modelled.
- The bcrypt hash is a function parameter. Its random salt and cost factor 10 are not modelled, and neither is a hash failure, which would escape uncaught. zod's email-format test is a parameter too.
- Session lookup, `revalidatePath`, `redirect`, toasts, routing, all JSX rendering, date formatting, and the pages' data fetching are not modelled. The post page's initial props are the one exception (`OpenPostPage`).
- A logged-out viewer gets no vote buttons at all (`app/posts/[id]/post-detail-client.tsx`, line 64, renders them only for a signed-in user), so the model has no logged-out button state.
- The `published` flag and `createdAt` timestamp are database defaults and are not modelled.
- Seeding and reset scripts are not modelled: they load fixed demo data.
- The buttons' busy state during the await is not modelled. `Click` requires the buttons to be enabled, and `HandleVote` runs to completion in one step.
