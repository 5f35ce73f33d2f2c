/** The post routes: create, view, list, edit and delete a post. */
module PostRoutes {
  import opened Documents
  import opened Collections
  import opened Store

  /** A post together with its comments, as the post page shows them. */
  datatype Thread = Thread(post: Post, comments: seq<Comment>)

  /** One entry of the sort drop-down: the title shown and the sort key. */
  datatype Choice = Choice(title: string, key: string)

  /** What the listing page receives: the other sort choices, the current
      one, and the posts. */
  datatype Listing = Listing(dropList: map<string, Choice>, dropCurrent: Choice, posts: seq<Post>)

  /** The drop-down dictionary, keyed by sort key. */
  const SortChoices: map<string, Choice> :=
    map["newest" := Choice("Newest First", "newest"), "oldest" := Choice("Oldest First", "oldest")]

  /** `create_post` on a submitted form: inserts one unsolved post owned by
      the caller, carrying the caller's name at this moment, and shows it. */
  method CreatePost(db: Database, caller: Caller, title: Field, content: Field,
                    featuredImage: Field, now: Time) returns (r: Response)
    requires db.Valid()
    modifies db
    ensures db.Valid()
    ensures old(db.nextId) !in old(db.posts)
    ensures r == RedirectTo(PostPage(old(db.nextId)))
    ensures db.posts == old(db.posts)[old(db.nextId) :=
      Post(old(db.nextId), title, content, featuredImage, caller.id, caller.name, now, Answer.Unsolved)]
    ensures db.order == old(db.order) + [old(db.nextId)]
    ensures db.comments == old(db.comments) && db.users == old(db.users)
  {
    var id := db.nextId;
    var post := Post(id, title, content, featuredImage, caller.id, caller.name, now, Answer.Unsolved);
    SnocNoDuplicates(db.order, id);
    db.posts := db.posts[id := post];
    db.order := db.order + [id];
    db.nextId := db.nextId + 1;
    r := RedirectTo(PostPage(id));
  }

  /** `view_post`: not found when no post has the id; otherwise the post
      and exactly the comments whose `post_id` is that id. */
  function ViewPost(posts: map<Id, Post>, comments: seq<Comment>, postId: Id): (r: Option<Thread>)
    ensures r.None? <==> postId !in posts
    ensures r.Some? ==> r.value.post == posts[postId]
    ensures r.Some? ==> forall c :: c in r.value.comments <==> c in comments && c.postId == postId
  {
    if postId !in posts then None
    else Some(Thread(posts[postId], CommentsOn(comments, postId)))
  }

  /** The drop-down lookup of `show_posts`: the entry for `sort` and the
      dictionary without it; `None` where the lookup raises `KeyError`. */
  function DropDown(sort: string): (r: Option<(Choice, map<string, Choice>)>)
    ensures r.Some? <==> sort == "newest" || sort == "oldest"
    ensures r.Some? ==> r.value.0.key == sort
    ensures r.Some? ==> r.value.1.Keys == {"newest", "oldest"} - {sort}
    ensures r.Some? ==> forall k :: k in r.value.1 ==> r.value.1[k].key == k
  {
    if sort in SortChoices then Some((SortChoices[sort], SortChoices - {sort})) else None
  }

  /** What `show_posts` renders for `sort`, or `None` for a key the
      drop-down lacks (including "random" and "viewed"). */
  function Feed(order: seq<Id>, posts: map<Id, Post>, sort: string): (r: Option<Listing>)
    requires Indexed(order, posts)
    ensures r.Some? <==> sort == "newest" || sort == "oldest"
    ensures r.Some? ==> r.value.dropCurrent.key == sort && sort !in r.value.dropList
    ensures r.Some? ==> forall p :: p in r.value.posts <==>
      p.id in order && posts[p.id] == p && p.answered == Answer.Unsolved
  {
    match DropDown(sort)
    case None => None
    case Some((current, rest)) =>
      var postlist := UnsolvedPosts(order, posts);
      ReversedSameElements(postlist);
      Some(Listing(rest, current, if sort == "newest" then Reversed(postlist) else postlist))
  }

  /** `show_posts`: queries the unsolved posts, copies them into a list and
      reverses it for "newest". */
  method ShowPosts(db: Database, sort: string) returns (r: Option<Listing>)
    requires db.Valid()
    ensures r == Feed(db.order, db.posts, sort)
  {
    var postlist := UnsolvedPosts(db.order, db.posts);
    var choice := DropDown(sort);
    if choice.None? {
      return None;
    }
    var (current, rest) := choice.value;
    if sort == "newest" {
      var postArray: seq<Post> := [];
      for i := 0 to |postlist|
        invariant postArray == postlist[..i]
      {
        postArray := postArray + [postlist[i]];
      }
      assert postArray == postlist;
      postArray := Reversed(postArray);
      postlist := postArray;
    }
    r := Some(Listing(rest, current, postlist));
  }

  /** Over the same store, "oldest" is the natural order of the unsolved
      posts and "newest" is exactly its reverse, and the other way round. */
  lemma NewestReversesOldest(order: seq<Id>, posts: map<Id, Post>)
    requires Indexed(order, posts)
    ensures Feed(order, posts, "newest").Some? && Feed(order, posts, "oldest").Some?
    ensures Feed(order, posts, "oldest").value.posts == UnsolvedPosts(order, posts)
    ensures Feed(order, posts, "newest").value.posts == Reversed(Feed(order, posts, "oldest").value.posts)
    ensures Feed(order, posts, "oldest").value.posts == Reversed(Feed(order, posts, "newest").value.posts)
  {
    ReversedTwice(UnsolvedPosts(order, posts));
  }

  /** A newly created post heads the "newest" listing, in front of what
      was listed before. */
  lemma NewPostLeadsNewest(order: seq<Id>, posts: map<Id, Post>, p: Post)
    requires Indexed(order, posts) && p.id !in posts && p.answered == Answer.Unsolved
    ensures Indexed(order + [p.id], posts[p.id := p])
    ensures Feed(order + [p.id], posts[p.id := p], "newest").value.posts
         == [p] + Feed(order, posts, "newest").value.posts
  {
    var posts' := posts[p.id := p];
    var before := UnsolvedPosts(order, posts);
    UnsolvedFrame(order, posts, p);
    UnsolvedAppend(order, posts', p.id);
    assert UnsolvedPosts(order + [p.id], posts') == before + [p];
    NewestReversesOldest(order, posts);
    NewestReversesOldest(order + [p.id], posts');
    ReversedSnoc(before, p);
  }

  lemma ReversedSnoc(s: seq<Post>, x: Post)
    ensures Reversed(s + [x]) == [x] + Reversed(s)
  {
    assert forall i :: 0 <= i < |s| + 1 ==> Reversed(s + [x])[i] == ([x] + Reversed(s))[i];
  }

  /** `edit_post`: not found before any ownership check; a caller who is
      not the author is sent to the post and nothing changes; the author's
      form (`submit`) replaces title, featured image and content only. */
  method EditPost(db: Database, caller: Caller, postId: Id, submit: bool,
                  title: Field, content: Field, featuredImage: Field) returns (r: Response)
    requires db.Valid()
    modifies db
    ensures db.Valid()
    ensures postId !in old(db.posts) ==> r == NotFound && unchanged(db)
    ensures postId in old(db.posts) && caller.id != old(db.posts)[postId].authorId ==>
      r == RedirectTo(PostPage(postId)) && unchanged(db)
    ensures postId in old(db.posts) && caller.id == old(db.posts)[postId].authorId && !submit ==>
      r == Ok && unchanged(db)
    ensures postId in old(db.posts) && caller.id == old(db.posts)[postId].authorId && submit ==>
      && r == RedirectTo(PostPage(postId))
      && db.posts == old(db.posts)[postId := old(db.posts)[postId].(
           title := title, featuredImage := featuredImage, content := content)]
      && db.order == old(db.order) && db.comments == old(db.comments)
      && db.users == old(db.users) && db.nextId == old(db.nextId)
  {
    if postId !in db.posts {
      return NotFound;
    }
    var post := db.posts[postId];
    if caller.id != post.authorId {
      return RedirectTo(PostPage(postId));
    }
    if submit {
      db.posts := db.posts[postId := post.(title := title, featuredImage := featuredImage, content := content)];
      r := RedirectTo(PostPage(postId));
    } else {
      r := Ok;
    }
  }

  /** `delete_post`: not found before any ownership check; the author
      removes the post and every comment on it and nothing else; any other
      caller is sent to the post and nothing changes. */
  method DeletePost(db: Database, caller: Caller, postId: Id) returns (r: Response)
    requires db.Valid()
    modifies db
    ensures db.Valid()
    ensures postId !in old(db.posts) ==> r == NotFound && unchanged(db)
    ensures postId in old(db.posts) && caller.id != old(db.posts)[postId].authorId ==>
      r == RedirectTo(PostPage(postId)) && unchanged(db)
    ensures postId in old(db.posts) && caller.id == old(db.posts)[postId].authorId ==>
      && r == RedirectTo(ProfilePage)
      && db.posts == old(db.posts) - {postId}
      && db.order == WithoutId(old(db.order), postId)
      && db.comments == CommentsNotOn(old(db.comments), postId)
      && db.users == old(db.users) && db.nextId == old(db.nextId)
  {
    if postId !in db.posts {
      return NotFound;
    }
    if caller.id != db.posts[postId].authorId {
      return RedirectTo(PostPage(postId));
    }
    ghost var oldComments := db.comments;
    db.posts := db.posts - {postId};
    db.order := WithoutId(db.order, postId);
    db.comments := CommentsNotOn(db.comments, postId);
    forall k | k in db.posts && db.posts[k].answered.Solved?
      ensures SolutionOn(db.comments, db.posts[k].answered.commentId, k)
    {
      SolutionSurvivesCascade(oldComments, db.posts[k].answered.commentId, k, postId);
    }
    r := RedirectTo(ProfilePage);
  }
}
