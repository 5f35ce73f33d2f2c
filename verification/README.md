# MakeOverflow forum: content and identity rules

MakeOverflow is a small question-and-answer forum. Users sign up and log in.
They write posts, comment on posts, and the author of a post marks one comment
as its solution. The listing page shows the posts that are still unsolved,
newest or oldest first.

This project is a sequential, in-memory model of the route handlers that
enforce those rules. The MongoDB collections become the fields of one
`Database` object:

- `users`: a sequence;
- `posts`: a map from post id to post, plus `order`, the natural (insertion)
  order of the collection;
- `comments`: a sequence;
- `nextId`: the next id the store assigns.

Each handler is a method that changes the `Database` in place and answers
`NotFound`, `RedirectTo(view)` or `Ok`. The reads (`view_post`, the login
decision) are functions of the collections. `show_posts` is a method with the
source's copy loop, proved equal to the specification function `Feed`.

Modules:

- `Documents` (documents.dfy): the user, post and comment records.
  `Answer = Unsolved | Solved(commentId)` is the post's `answered` field.
  Also the response type.
- `Collections` (collections.dfy): the store queries the handlers issue
  (`find`, `find_one`, `delete_many`) as functions, with the lemmas about them.
- `Store` (store.dfy): the `Database` class and its invariant `Valid()`.
  The invariant says that the natural order lists each stored post once, that
  all ids in use are below `nextId`, that no two users share an email, and that
  every solved post names a comment made on that post.
- `PostRoutes`, `CommentRoutes`, `AuthRoutes`: the handlers of
  `routes/post.py`, `routes/comment.py` and `app.py`.
- `Walkthrough` (walkthrough.dfy): two client sessions, checked against the
  handlers' contracts alone. The first makes two signups with one email and
  one with another email. The second makes a post, a comment, two markings and
  two deletes.

Assumptions:

- Posts are looked up by `ObjectId(post_id)`, while comments store the raw
  route string as `post_id`. The model uses one id type for both, so it assumes
  that the string/ObjectId conversion is a bijection.
- The natural order of the posts collection is taken to be insertion order.
- Password hashing and checking are function parameters (`hash`, `check`).
  No property of them is assumed.
- The logged-in user is a `Caller` parameter.
- Timestamps are `Time` parameters.

Behaviour of the code the model keeps:

- `add_comment` does not look up the post it comments on.
- `add_comment` stores whatever comment text it receives, including an absent
  or empty one.
- A sort key other than "newest" or "oldest" raises `KeyError` at the
  drop-down lookup, a server error. `Feed` returns `None` for it.
- Every handler keeps "a solved post names a comment made on that post": it is
  part of `Valid()`, because marking takes the post from the comment and a
  delete removes only the comments of the deleted post.

## Model

| member | source | states |
|---|---|---|
| `PostRoutes.CreatePost` | routes/post.py:17-35 | Exactly one post is added, under an id that was not in use. It is `Unsolved`, its author is the caller and its author name is the caller's name at that moment. It goes last in natural order. Comments and users are unchanged, and the caller is sent to the new post. |
| `PostRoutes.ViewPost` | routes/post.py:46-47 | Not found exactly when no post has the id. Otherwise it returns that post and exactly the comments whose `post_id` is the id. |
| `PostRoutes.DropDown` | routes/post.py:62-67 | The lookup succeeds exactly for "newest" and "oldest". The current choice carries the given key. The remaining drop-down holds exactly {newest, oldest} minus that key. |
| `PostRoutes.Feed` | routes/post.py:60-83 | Fails exactly for keys other than "newest" and "oldest", so the "random" and "viewed" branches are never reached. On success it lists exactly the stored unsolved posts, with no solved post, and the current choice is the given key. |
| `PostRoutes.ShowPosts` | routes/post.py:60-91 | The copy loop and the reverse produce exactly the listing `Feed` specifies for the current store. |
| `PostRoutes.NewestReversesOldest` | routes/post.py:69-83 | Over the same store, "oldest" is the unsolved posts in natural order. "newest" is exactly its reverse, and "oldest" is the reverse of "newest". |
| `PostRoutes.NewPostLeadsNewest` | routes/post.py:32-35 | After a new unsolved post is stored, "newest" lists it first, followed by the previous listing. |
| `PostRoutes.EditPost` | routes/post.py:99-130 | A missing post gives not-found, checked before ownership. A non-author is redirected to the post and nothing changes. An author who opens the form (GET) changes nothing. An author's submitted form changes only title, featured image and content of that one post. Author, name, date, `answered`, other posts, comments and users stay as they were. |
| `PostRoutes.DeletePost` | routes/post.py:138-150 | A missing post gives not-found. A non-author is redirected to the post and nothing changes. The author removes the post from the map and from the natural order, and removes the comments whose `post_id` is its id. Users and the other posts are unchanged. The invariant is kept. |
| `CommentRoutes.AddComment` | routes/comment.py:19-31 | Exactly one comment is appended, with a fresh id, the route's post id, the caller's id, the caller's current name and any text (including none). Posts and users are unchanged. The caller is sent to the post. |
| `CommentRoutes.MarkAsSolution` | routes/comment.py:39-59 | A missing comment, or a comment whose post is missing, gives not-found with no change. Otherwise the caller is sent to the parent post. If the caller is not that post's author, nothing changes. If the caller is the author, only that post's `answered` changes, to the comment's id, whatever it was before. That comment is then on that post. |
| `AuthRoutes.Signup` | app.py:61-85 | An email already registered sends the caller back to signup and changes nothing. Otherwise exactly one user is appended, with the submitted email, `hash(password)` as password and `is_authenticated` true, and the caller is sent to login. Emails stay unique. |
| `AuthRoutes.Login` | app.py:94-116 | A session is opened only for a stored user with that email whose hash checks, and the caller is then sent to the profile. With no user for the email, there is no session and the caller is sent back to login. The users collection is an input and is only read. |
| `AuthRoutes.LoginExactlyForOwner` | app.py:103-108 | When emails are unique, the user registered with the email gets a session exactly when the password checks against that user's hash. |
| `Collections.CommentsOn` | routes/post.py:47 | Holds exactly the comments with the given `post_id`. |
| `Collections.CommentsNotOn` | routes/post.py:145 | What `delete_many` leaves: exactly the comments whose `post_id` differs. |
| `Collections.CascadePartition` | routes/post.py:145 | The deleted comments and the surviving ones together make up the collection as a multiset. The cascade removes exactly the matching comments and nothing else. |
| `Collections.OtherThreadsKept` | routes/post.py:145 | After the cascade for one post, the comment thread of every other post is exactly as before, order included. |
| `Collections.SolutionSurvivesCascade` | routes/post.py:145 | A solution comment of one post survives the cascade delete of another post. |
| `Collections.FindComment` | routes/comment.py:39 | Finds a comment with the requested id, or reports that none exists. |
| `Collections.WithoutId` | routes/post.py:144 | Removes exactly the deleted id from the natural order and keeps it free of duplicates. |
| `Collections.UnsolvedPosts` | routes/post.py:61 | Holds exactly the stored posts whose `answered` is unsolved. |
| `Collections.UnsolvedAppend` | routes/post.py:61 | A post appended to the natural order comes last among the unsolved posts. |
| `Collections.Reversed` | routes/post.py:73 | Same length, and element i is element n-1-i of the input. |
| `Collections.ReversedTwice` | routes/post.py:73 | Reversing twice restores the sequence. |
| `Collections.FindByEmail` | app.py:78 | Finds a user with the email, or reports that no user has it. |
| `Collections.FindByEmailUnique` | app.py:103 | When emails are unique, the lookup finds the one user registered with the email. |
| `Collections.AppendFreshEmail` | app.py:78-84 | Appending a user whose email is not registered keeps emails unique. So a sequence of signups keeps at most one user per email. |

## Left out

- GET requests of `create_post`, `signup` and `login`: they only render a form. The GET of `edit_post` is modelled, because the ownership check runs before it.
- Form parsing: post and comment fields are `Option<string>` (`request.form.get` may give `None`). Signup and login fields are plain strings. A signup or login request without an email or password field is not modelled.
- Malformed ids: `ObjectId(...)` raises on a malformed string. This is not a not-found and is not modelled.
- `generate_password_hash` and `check_password_hash`: parameters with no properties. Nothing is claimed about the strength of the hash. The model does not show that the stored digest differs from the plaintext.
- Sessions: `login_user`, remember-me, `logout_user`, the `load_user` loader and `@login_required`. The caller is a parameter, and a login outcome only names the user a session would be opened for.
- `datetime.now()`: passed in as a parameter.
- `home`, `myprofile`, `logout`, the 404 and 401 error handlers, and the application setup: they render, redirect or configure only.
- Template rendering and `flash` messages (among them those of the failed signup and login, app.py:81 and app.py:107): a rendered page is `Ok`, a redirect carries only its target, and the listing's data is returned as a value.
- Concurrency: the model is sequential. The check-then-insert race on email uniqueness and last-writer-wins between requests are not modelled.
- Comment ids are not stated to be distinct. `FindComment` returns the first match. Fresh ids from `nextId` make it the only one.
