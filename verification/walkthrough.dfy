/** A session of the forum replayed against the handlers' contracts alone:
    two signups with one email, a post, a comment by another user, a
    refused and an accepted solution marking, and the cascading delete. */
module Walkthrough {
  import opened Documents
  import opened Collections
  import opened Store
  import opened PostRoutes
  import opened CommentRoutes
  import opened AuthRoutes

  /** A second signup with a registered email is refused; a new email is
      accepted and gets its own id. */
  method SignupSession() returns (db: Database, author: Caller, other: Caller)
    ensures db.Valid() && author.id != other.id
  {
    db := new Database();
    var hash := (s: string) => if s == "secret" then "d1" else "d2";

    var r := Signup(db, "U1", "a@x.com", "secret", hash, 1);
    assert r == RedirectTo(LoginPage) && |db.users| == 1;
    var u1 := db.users[0];
    assert FindByEmail(db.users, "a@x.com") == Some(u1);
    r := Signup(db, "U1 again", "a@x.com", "other", hash, 2);
    assert r == RedirectTo(SignupPage) && db.users == [u1];
    assert FindByEmail(db.users, "b@x.com").None?;
    r := Signup(db, "U2", "b@x.com", "secret", hash, 3);
    assert |db.users| == 2 && db.users[0] == u1;
    var u2 := db.users[1];
    author, other := Caller(u1.id, u1.name), Caller(u2.id, u2.name);
  }

  /** A post's life: created unsolved, commented on by another user, not
      markable by that user, marked by its author, kept against a delete by
      the other user and deleted with its comment by its author. */
  method PostSession(author: Caller, other: Caller)
    requires author.id != other.id
  {
    var db := new Database();
    var r := CreatePost(db, author, Some("T"), Some("C"), None, 4);
    var p := r.view.postId;
    assert p in db.posts && db.posts[p].answered == Answer.Unsolved;

    r := AddComment(db, other, p, Some("try this"), 5);
    assert |db.comments| == 1 && db.comments[0].postId == p;
    var k := db.comments[0].id;

    r := MarkAsSolution(db, other, k);
    assert r == RedirectTo(PostPage(p)) && db.posts[p].answered == Answer.Unsolved;
    r := MarkAsSolution(db, author, k);
    assert db.posts[p].answered == Answer.Solved(k);

    r := DeletePost(db, other, p);
    assert r == RedirectTo(PostPage(p)) && p in db.posts;
    r := DeletePost(db, author, p);
    assert p !in db.posts && db.comments == [];
  }
}
