/** The application's database handle: the `users`, `posts` and `comments`
    collections, updated in place by the route handlers. */
module Store {
  import opened Documents
  import opened Collections

  class Database {
    var users: seq<User>
    /** The posts collection, keyed by `_id`. */
    var posts: map<Id, Post>
    /** The natural (insertion) order of the posts collection. */
    var order: seq<Id>
    var comments: seq<Comment>
    /** The next id the store will assign; every id in use is below it. */
    var nextId: Id

    /** What every handler keeps true:
        - the natural order lists each stored post once, under its own id;
        - every id in use was assigned by the store before `nextId`;
        - no two users share an email address;
        - a post marked solved refers to a comment made on that post. */
    ghost predicate Valid()
      reads this
    {
      && NoDuplicates(order)
      && Indexed(order, posts)
      && (forall k :: k in posts ==> k in order)
      && (forall k :: k in posts ==> k < nextId)
      && (forall c :: c in comments ==> c.id < nextId)
      && (forall u :: u in users ==> u.id < nextId)
      && UniqueEmails(users)
      && SolutionsHeld(posts, comments)
    }

    /** An empty database. */
    constructor ()
      ensures Valid()
      ensures users == [] && posts == map[] && order == [] && comments == []
    {
      users, posts, order, comments, nextId := [], map[], [], [], 0;
    }
  }

  /** Every solved post names a comment whose `post_id` is that post. */
  ghost predicate SolutionsHeld(posts: map<Id, Post>, comments: seq<Comment>) {
    forall k :: k in posts && posts[k].answered.Solved? ==>
      SolutionOn(comments, posts[k].answered.commentId, k)
  }
}
