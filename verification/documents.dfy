/** The documents the forum keeps in its three collections (users, posts,
    comments) and the outcomes a route handler can produce.

    Every identifier is a store-assigned `Id`. The routes receive post ids
    as strings and convert them with `ObjectId(...)`; comments keep the raw
    string as their `post_id`. This model uses one id type for both and so
    assumes that the string/ObjectId conversion is a bijection. */
module Documents {

  datatype Option<+T> = None | Some(value: T)

  /** Store-assigned identifier of a user, post or comment. */
  type Id = nat

  /** A `datetime.now()` value, passed in by the caller of an operation. */
  type Time = nat

  /** An opaque password hash produced by the hashing library. */
  type Digest = string

  /** A value read with `request.form.get`: absent fields are `None`. */
  type Field = Option<string>

  /** The `answered` field of a post: the string "unsolved" or the id of
      the comment marked as the solution. */
  datatype Answer = Unsolved | Solved(commentId: Id)

  datatype User = User(
    id: Id,
    name: string,
    email: string,
    password: Digest,
    dateCreated: Time,
    isAuthenticated: bool)

  /** `authorName` is a snapshot of the author's name when the post was made. */
  datatype Post = Post(
    id: Id,
    title: Field,
    content: Field,
    featuredImage: Field,
    authorId: Id,
    authorName: string,
    dateCreated: Time,
    answered: Answer)

  datatype Comment = Comment(
    id: Id,
    postId: Id,
    author: Id,
    authorName: string,
    text: Field,
    postDate: Time)

  /** The logged-in user (`current_user`) on whose behalf a route runs. */
  datatype Caller = Caller(id: Id, name: string)

  /** The pages a handler redirects to. */
  datatype View = PostPage(postId: Id) | ProfilePage | SignupPage | LoginPage

  /** What a route handler answers: a 404 from `find_one_or_404`, a
      redirect, or a rendered page. */
  datatype Response = NotFound | RedirectTo(view: View) | Ok
}
