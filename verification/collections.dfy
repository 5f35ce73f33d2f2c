/** The queries the route handlers issue against the document store
    (`find`, `find_one`, `delete_many`), written as functions over the
    collections, and the facts about them that the handlers rely on. */
module Collections {
  import opened Documents

  // ---------------------------------------------------------------------
  // Comments: `find({"post_id": p})` and `delete_many({"post_id": p})`
  // ---------------------------------------------------------------------

  /** The comments whose `post_id` is `pid`, in natural order. */
  function CommentsOn(cs: seq<Comment>, pid: Id): (r: seq<Comment>)
    ensures forall c :: c in r <==> c in cs && c.postId == pid
    ensures |r| <= |cs|
  {
    if cs == [] then []
    else (if cs[0].postId == pid then [cs[0]] else []) + CommentsOn(cs[1..], pid)
  }

  /** What `delete_many({"post_id": pid})` leaves: the other comments, in
      natural order. */
  function CommentsNotOn(cs: seq<Comment>, pid: Id): (r: seq<Comment>)
    ensures forall c :: c in r <==> c in cs && c.postId != pid
    ensures |r| <= |cs|
  {
    if cs == [] then []
    else (if cs[0].postId != pid then [cs[0]] else []) + CommentsNotOn(cs[1..], pid)
  }

  /** The cascade splits the comments exactly: what is deleted and what
      survives together make up the collection, duplicates included. */
  lemma {:induction false} CascadePartition(cs: seq<Comment>, pid: Id)
    ensures multiset(CommentsOn(cs, pid)) + multiset(CommentsNotOn(cs, pid)) == multiset(cs)
    ensures |CommentsOn(cs, pid)| + |CommentsNotOn(cs, pid)| == |cs|
  {
    if cs != [] {
      CascadePartition(cs[1..], pid);
      assert cs == [cs[0]] + cs[1..];
    }
  }

  /** Deleting the comments of one post leaves the thread of every other
      post exactly as it was, order included. */
  lemma {:induction false} OtherThreadsKept(cs: seq<Comment>, pid: Id, other: Id)
    requires other != pid
    ensures CommentsOn(CommentsNotOn(cs, pid), other) == CommentsOn(cs, other)
  {
    if cs != [] {
      OtherThreadsKept(cs[1..], pid, other);
      var head := if cs[0].postId != pid then [cs[0]] else [];
      assert CommentsNotOn(cs, pid) == head + CommentsNotOn(cs[1..], pid);
      CommentsOnAppend(head, CommentsNotOn(cs[1..], pid), other);
    }
  }

  /** The comment filter distributes over concatenation. */
  lemma {:induction false} CommentsOnAppend(a: seq<Comment>, b: seq<Comment>, pid: Id)
    ensures CommentsOn(a + b, pid) == CommentsOn(a, pid) + CommentsOn(b, pid)
  {
    if a == [] {
      assert a + b == b;
    } else {
      var whole := a + b;
      assert whole[0] == a[0] && whole[1..] == a[1..] + b;
      CommentsOnAppend(a[1..], b, pid);
      var head := if a[0].postId == pid then [a[0]] else [];
      calc {
        CommentsOn(whole, pid);
        head + CommentsOn(a[1..] + b, pid);
        head + (CommentsOn(a[1..], pid) + CommentsOn(b, pid));
        (head + CommentsOn(a[1..], pid)) + CommentsOn(b, pid);
        CommentsOn(a, pid) + CommentsOn(b, pid);
      }
    }
  }

  /** `find_one({"_id": cid})` on the comments: the first comment with that id. */
  function FindComment(cs: seq<Comment>, cid: Id): (r: Option<Comment>)
    ensures r.Some? ==> r.value in cs && r.value.id == cid
    ensures r.None? <==> forall c :: c in cs ==> c.id != cid
  {
    if cs == [] then None
    else if cs[0].id == cid then Some(cs[0])
    else FindComment(cs[1..], cid)
  }

  /** The comment `cid` is in `cs` and belongs to the post `pid`. */
  ghost predicate SolutionOn(cs: seq<Comment>, cid: Id, pid: Id) {
    exists c :: c in cs && c.id == cid && c.postId == pid
  }

  /** A solution comment of one post survives the cascade of another. */
  lemma SolutionSurvivesCascade(cs: seq<Comment>, cid: Id, pid: Id, deleted: Id)
    requires SolutionOn(cs, cid, pid) && pid != deleted
    ensures SolutionOn(CommentsNotOn(cs, deleted), cid, pid)
  {
    var c :| c in cs && c.id == cid && c.postId == pid;
    assert c in CommentsNotOn(cs, deleted);
  }

  // ---------------------------------------------------------------------
  // Posts: the natural order of the collection and `find({"answered": "unsolved"})`
  // ---------------------------------------------------------------------

  predicate NoDuplicates(s: seq<Id>) {
    forall i, j :: 0 <= i < j < |s| ==> s[i] != s[j]
  }

  lemma SnocNoDuplicates(s: seq<Id>, x: Id)
    requires x !in s && NoDuplicates(s)
    ensures NoDuplicates(s + [x])
  {
    var t := s + [x];
    forall i, j | 0 <= i < j < |t| ensures t[i] != t[j] {
      if j == |s| {
        assert t[i] == s[i];
      } else {
        assert t[i] == s[i] && t[j] == s[j];
      }
    }
  }

  /** The natural order `order` lists posts of `posts`, each stored under its own id. */
  predicate Indexed(order: seq<Id>, posts: map<Id, Post>) {
    forall k :: k in order ==> k in posts && posts[k].id == k
  }

  lemma IndexedParts(a: seq<Id>, b: seq<Id>, posts: map<Id, Post>)
    requires Indexed(a + b, posts)
    ensures Indexed(a, posts) && Indexed(b, posts)
  {
    forall x | x in b ensures x in posts && posts[x].id == x {
      assert x in a + b;
    }
  }

  /** The natural order after `delete_one({"_id": k})`. */
  function WithoutId(order: seq<Id>, k: Id): (r: seq<Id>)
    ensures forall x :: x in r <==> x in order && x != k
    ensures NoDuplicates(order) ==> NoDuplicates(r)
  {
    if order == [] then []
    else
      var rest := WithoutId(order[1..], k);
      if order[0] != k then
        assert NoDuplicates(order) ==> NoDuplicates([order[0]] + rest) by {
          if NoDuplicates(order) {
            assert order[0] !in order[1..] by {
              forall j | 0 <= j < |order[1..]| ensures order[1..][j] != order[0] {
                assert order[1..][j] == order[j + 1];
              }
            }
            ConsNoDuplicates(order[0], rest);
          }
        }
        [order[0]] + rest
      else rest
  }

  lemma ConsNoDuplicates(x: Id, s: seq<Id>)
    requires x !in s && NoDuplicates(s)
    ensures NoDuplicates([x] + s)
  {
    var t := [x] + s;
    forall i, j | 0 <= i < j < |t| ensures t[i] != t[j] {
      if i == 0 {
        assert t[j] == s[j - 1];
      } else {
        assert t[i] == s[i - 1] && t[j] == s[j - 1];
      }
    }
  }

  /** The posts whose `answered` is "unsolved", in the natural order. */
  function UnsolvedPosts(order: seq<Id>, posts: map<Id, Post>): (r: seq<Post>)
    requires Indexed(order, posts)
    ensures forall p :: p in r <==> p.id in order && posts[p.id] == p && p.answered == Answer.Unsolved
    ensures |r| <= |order|
  {
    if order == [] then []
    else
      var p := posts[order[0]];
      (if p.answered == Answer.Unsolved then [p] else []) + UnsolvedPosts(order[1..], posts)
  }

  /** A post appended to the natural order comes last among the unsolved ones. */
  lemma {:induction false} UnsolvedAppend(order: seq<Id>, posts: map<Id, Post>, k: Id)
    requires Indexed(order + [k], posts)
    ensures UnsolvedPosts(order + [k], posts)
         == UnsolvedPosts(order, posts) + (if posts[k].answered == Answer.Unsolved then [posts[k]] else [])
  {
    var tail := if posts[k].answered == Answer.Unsolved then [posts[k]] else [];
    if order == [] {
      assert order + [k] == [k];
    } else {
      var rest := order[1..];
      var whole := order + [k];
      assert whole[0] == order[0] && whole[1..] == rest + [k];
      IndexedParts([order[0]], rest + [k], posts);
      UnsolvedAppend(rest, posts, k);
      var h := posts[order[0]];
      var head := if h.answered == Answer.Unsolved then [h] else [];
      calc {
        UnsolvedPosts(whole, posts);
        head + UnsolvedPosts(rest + [k], posts);
        head + (UnsolvedPosts(rest, posts) + tail);
        (head + UnsolvedPosts(rest, posts)) + tail;
        UnsolvedPosts(order, posts) + tail;
      }
    }
  }

  /** Storing a post under an id that the natural order does not list
      changes no listing over that order. */
  lemma {:induction false} UnsolvedFrame(order: seq<Id>, posts: map<Id, Post>, p: Post)
    requires Indexed(order, posts) && p.id !in order
    ensures Indexed(order, posts[p.id := p])
    ensures UnsolvedPosts(order, posts[p.id := p]) == UnsolvedPosts(order, posts)
  {
    if order != [] {
      UnsolvedFrame(order[1..], posts, p);
    }
  }

  /** `list.reverse()`: the sequence read back to front. */
  function Reversed<T>(s: seq<T>): (r: seq<T>)
    ensures |r| == |s|
    ensures forall i :: 0 <= i < |s| ==> r[i] == s[|s| - 1 - i]
  {
    if s == [] then [] else Reversed(s[1..]) + [s[0]]
  }

  /** Reversing twice gives back the original order. */
  lemma ReversedTwice<T>(s: seq<T>)
    ensures Reversed(Reversed(s)) == s
  {
  }

  /** Reversing keeps exactly the same elements. */
  lemma ReversedSameElements<T>(s: seq<T>)
    ensures forall x :: x in Reversed(s) <==> x in s
  {
    forall x | x in s ensures x in Reversed(s) {
      var i :| 0 <= i < |s| && s[i] == x;
      assert Reversed(s)[|s| - 1 - i] == x;
    }
  }

  // ---------------------------------------------------------------------
  // Users: `find_one({"email": e})`
  // ---------------------------------------------------------------------

  /** At most one user per email address. */
  predicate UniqueEmails(users: seq<User>) {
    forall i, j :: 0 <= i < j < |users| ==> users[i].email != users[j].email
  }

  /** The first user, in natural order, registered with `email`. */
  function FindByEmail(users: seq<User>, email: string): (r: Option<User>)
    ensures r.Some? ==> r.value in users && r.value.email == email
    ensures r.None? <==> forall u :: u in users ==> u.email != email
  {
    if users == [] then None
    else if users[0].email == email then Some(users[0])
    else FindByEmail(users[1..], email)
  }

  /** With unique emails, the user found is the only one with that email. */
  lemma FindByEmailUnique(users: seq<User>, u: User)
    requires UniqueEmails(users) && u in users
    ensures FindByEmail(users, u.email) == Some(u)
  {
    var r := FindByEmail(users, u.email);
    var i :| 0 <= i < |users| && users[i] == u;
    var j :| 0 <= j < |users| && users[j] == r.value;
    if i < j || j < i {
      assert users[i].email == users[j].email;
    }
  }

  /** Appending a user whose email is not yet registered keeps emails unique. */
  lemma AppendFreshEmail(users: seq<User>, u: User)
    requires UniqueEmails(users) && FindByEmail(users, u.email).None?
    ensures UniqueEmails(users + [u])
  {
    var us := users + [u];
    forall i, j | 0 <= i < j < |us| ensures us[i].email != us[j].email {
      if j == |users| {
        assert us[i] in users;
      }
    }
  }
}
