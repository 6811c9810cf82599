/** The Blog document of the Mongoose schema in server/src/models/blog.model.ts,
    the user summary that `populate("userId", "username email")` joins in, and
    the shapes the repository writes. */
module BlogModel {
  import opened Wrappers
  import opened Text
  import opened Ids

  /** A stored blog. `title`, `content`, `imageUrl` and `userId` are the schema's
      required fields; `createdAt` and `updatedAt` are kept by the store
      (`timestamps: true`). The schema declares no `isPublished` field: a
      created blog carries none (`None`), and only an explicit update writes it. */
  datatype Blog = Blog(
    id: Id,
    title: string,
    content: string,
    imageUrl: string,
    userId: Id,
    isPublished: Option<bool>,
    createdAt: int,
    updatedAt: int)

  /** The payload of `create`: the schema's four required fields. */
  datatype NewBlog = NewBlog(title: string, content: string, imageUrl: string, userId: Id)

  /** A `Partial<IBlog>` passed to `findByIdAndUpdate`: `None` leaves a field as
      it is (an absent or `undefined` key). */
  datatype BlogPatch = BlogPatch(
    title: Option<string>,
    content: Option<string>,
    imageUrl: Option<string>,
    userId: Option<Id>,
    isPublished: Option<bool>)

  /** A user record as far as the blog code reads it. */
  datatype User = User(username: string, email: string)

  /** The `userId` of a populated blog: the author's `_id`, `username` and
      `email`, or `null` when the referenced user does not exist. */
  datatype AuthorRef = Missing | Author(id: Id, username: string, email: string)

  /** A blog as `find` and `findById` return it, with its author joined in. */
  datatype Populated = Populated(blog: Blog, author: AuthorRef)

  /** The names of the required fields of `d` that Mongoose's `required`
      validator rejects (an empty string fails `required`), in schema order. */
  function MissingRequired(d: NewBlog): (fields: seq<string>)
    ensures fields == [] <==> d.title != "" && d.content != "" && d.imageUrl != "" && d.userId != ""
    ensures |fields| <= 4
  {
    (if d.title == "" then ["title"] else [])
    + (if d.content == "" then ["content"] else [])
    + (if d.imageUrl == "" then ["imageUrl"] else [])
    + (if d.userId == "" then ["userId"] else [])
  }

  /** The message of the `ValidationError` that `save()` throws. */
  function ValidationMessage(fields: seq<string>): (m: string)
    ensures |m| >= 24 && m[..24] == "Blog validation failed: "
    ensures fields == [] ==> m == "Blog validation failed: "
    ensures |fields| == 1 ==> m == "Blog validation failed: " + fields[0] + ": Path `" + fields[0] + "` is required."
    ensures fields != [] ==> |m| > 24 + |fields[0]| && m[24..24 + |fields[0]|] == fields[0]
  {
    "Blog validation failed: " + FieldErrors(fields)
  }

  function FieldErrors(fields: seq<string>): string
  {
    if fields == [] then ""
    else
      var one := fields[0] + ": Path `" + fields[0] + "` is required.";
      if |fields| == 1 then one else one + ", " + FieldErrors(fields[1..])
  }

  /** The document `new Blog(d).save()` stores under `id` at time `now`. */
  function Stored(id: Id, d: NewBlog, now: int): (b: Blog)
    ensures b.id == id && b.userId == d.userId && b.isPublished == None
    ensures b.title == d.title && b.content == d.content && b.imageUrl == d.imageUrl
    ensures b.createdAt == now && b.updatedAt == now
  {
    Blog(id, d.title, d.content, d.imageUrl, d.userId, None, now, now)
  }

  /** `findByIdAndUpdate(id, p)`: every field `p` gives is set, the rest keep
      their value, and the timestamps plugin sets `updatedAt` to `now`. */
  function ApplyPatch(b: Blog, p: BlogPatch, now: int): (r: Blog)
    ensures r.id == b.id && r.createdAt == b.createdAt && r.updatedAt == now
    ensures r.title == p.title.GetOr(b.title) && r.content == p.content.GetOr(b.content)
    ensures r.imageUrl == p.imageUrl.GetOr(b.imageUrl) && r.userId == p.userId.GetOr(b.userId)
    ensures r.isPublished == (if p.isPublished.Some? then p.isPublished else b.isPublished)
  {
    b.(title := p.title.GetOr(b.title),
       content := p.content.GetOr(b.content),
       imageUrl := p.imageUrl.GetOr(b.imageUrl),
       userId := p.userId.GetOr(b.userId),
       isPublished := if p.isPublished.Some? then p.isPublished else b.isPublished,
       updatedAt := now)
  }

  /** `populate("userId", "username email")` against the user collection. */
  function Populate(b: Blog, users: map<Id, User>): (p: Populated)
    ensures p.blog == b
    ensures p.author.Author? <==> b.userId in users
    ensures p.author.Author? ==> p.author.id == b.userId
                                 && p.author.username == users[b.userId].username
                                 && p.author.email == users[b.userId].email
  {
    Populated(b, if b.userId in users then Author(b.userId, users[b.userId].username, users[b.userId].email) else Missing)
  }

  /** The ownership test of `deleteBlog`: the populated author is an object
      whose `_id` differs from `requester`. A `null` author (a blog whose user
      no longer exists) never counts as owned by someone else. */
  predicate OwnedByOther(p: Populated, requester: Id)
  {
    p.author.Author? && p.author.id != requester
  }

  /** On a populated blog, the test refuses exactly when the blog's author
      still exists and is not the requester. */
  lemma OwnedByOtherOfPopulate(b: Blog, users: map<Id, User>, requester: Id)
    ensures OwnedByOther(Populate(b, users), requester) <==> b.userId in users && b.userId != requester
    ensures b.userId == requester ==> !OwnedByOther(Populate(b, users), requester)
  {
  }

  /** A patch that sets nothing but `isPublished`. */
  const PublishPatch := BlogPatch(None, None, None, None, Some(true))

  /** Applying a patch twice at the same time gives the same document as once. */
  lemma ApplyPatchIdempotent(b: Blog, p: BlogPatch, now: int)
    ensures ApplyPatch(ApplyPatch(b, p, now), p, now) == ApplyPatch(b, p, now)
  {
  }
}
