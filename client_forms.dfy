/**
 * The schemas of the new-post and comment forms, which the browser checks
 * before calling the server actions, compared with the server's schemas.
 */
module ClientForms {
  import PostActions
  import CommentActions

  /** The new-post form: the server's title and content bounds, and a category must be chosen. */
  predicate NewPostFormValid(title: string, content: string, categoryId: string)
  {
    5 <= |title| <= 100 && 10 <= |content| && 1 <= |categoryId|
  }

  /** The comment form: 3 to 500 characters. */
  predicate CommentFormValid(content: string)
  {
    3 <= |content| <= 500
  }

  /** Whatever the new-post form lets through, the server's post schema accepts. */
  lemma NewPostFormWithinServer(title: string, content: string, categoryId: string)
    ensures NewPostFormValid(title, content, categoryId) ==> PostActions.PostSchemaValid(title, content, categoryId)
  {
  }

  /** A witness of the difference: the server accepts an empty category id, which the form refuses. */
  lemma EmptyCategoryOnlyServerAccepts()
    ensures PostActions.PostSchemaValid("Hello", "Hello there", "")
    ensures !NewPostFormValid("Hello", "Hello there", "")
  {
  }

  /** Exactly the category: the form accepts what the server's post schema accepts with a chosen category. */
  lemma NewPostFormIsServerWithCategory(title: string, content: string, categoryId: string)
    ensures NewPostFormValid(title, content, categoryId) <==>
              PostActions.PostSchemaValid(title, content, categoryId) && 1 <= |categoryId|
  {
  }

  /** The comment form and the server's comment schema accept exactly the same content. */
  lemma CommentFormMatchesServer(content: string)
    ensures CommentFormValid(content) <==> CommentActions.CommentSchemaValid(content)
  {
  }
}
