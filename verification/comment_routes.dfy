/** The comment routes: add a comment, mark a comment as the solution. */
module CommentRoutes {
  import opened Documents
  import opened Collections
  import opened Store

  /** `add_comment`: appends one comment under the route's post id, carrying
      the caller's id and current name. Any text is accepted, `None` and
      the empty string included, and the post is not looked up. */
  method AddComment(db: Database, caller: Caller, postId: Id, text: Field, now: Time)
    returns (r: Response)
    requires db.Valid()
    modifies db
    ensures db.Valid()
    ensures r == RedirectTo(PostPage(postId))
    ensures db.comments == old(db.comments) + [Comment(old(db.nextId), postId, caller.id, caller.name, text, now)]
    ensures forall c :: c in old(db.comments) ==> c.id != old(db.nextId)
    ensures db.posts == old(db.posts) && db.order == old(db.order) && db.users == old(db.users)
  {
    var comment := Comment(db.nextId, postId, caller.id, caller.name, text, now);
    ghost var before := db.comments;
    db.comments := db.comments + [comment];
    db.nextId := db.nextId + 1;
    forall k | k in db.posts && db.posts[k].answered.Solved?
      ensures SolutionOn(db.comments, db.posts[k].answered.commentId, k)
    {
      var c :| c in before && c.id == db.posts[k].answered.commentId && c.postId == k;
      assert c in db.comments;
    }
    r := RedirectTo(PostPage(postId));
  }

  /** `mark_as_solution`: not found when the comment or its post is
      missing; when the caller wrote the comment's post, that post's
      `answered` becomes the comment's id, whatever it was before; otherwise
      nothing changes. Every found case goes back to the post. */
  method MarkAsSolution(db: Database, caller: Caller, commentId: Id) returns (r: Response)
    requires db.Valid()
    modifies db
    ensures db.Valid()
    ensures FindComment(old(db.comments), commentId).None? ==> r == NotFound && unchanged(db)
    ensures FindComment(old(db.comments), commentId).Some? ==>
      var c := FindComment(old(db.comments), commentId).value;
      && c.id == commentId
      && (c.postId !in old(db.posts) ==> r == NotFound && unchanged(db))
      && (c.postId in old(db.posts) ==> r == RedirectTo(PostPage(c.postId)))
      && (c.postId in old(db.posts) && caller.id != old(db.posts)[c.postId].authorId ==> unchanged(db))
      && (c.postId in old(db.posts) && caller.id == old(db.posts)[c.postId].authorId ==>
           && db.posts == old(db.posts)[c.postId := old(db.posts)[c.postId].(answered := Answer.Solved(commentId))]
           && SolutionOn(db.comments, commentId, c.postId)
           && db.order == old(db.order) && db.comments == old(db.comments)
           && db.users == old(db.users) && db.nextId == old(db.nextId))
  {
    var found := FindComment(db.comments, commentId);
    if found.None? {
      return NotFound;
    }
    var comment := found.value;
    if comment.postId !in db.posts {
      return NotFound;
    }
    var postId := comment.postId;
    var post := db.posts[postId];
    if caller.id == post.authorId {
      db.posts := db.posts[postId := post.(answered := Answer.Solved(comment.id))];
      assert SolutionOn(db.comments, comment.id, postId);
    }
    r := RedirectTo(PostPage(postId));
  }
}
