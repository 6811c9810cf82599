/** server/src/services/blog.service.ts: the blog operations the controller
    calls, over the Blog repository and the User collection it reads. */
module Service {
  import opened Wrappers
  import opened Text
  import opened Ids
  import opened BlogModel
  import opened BlogRepo

  /** The reply of `getAllBlogs`. `totalPages` is `None` where `Math.ceil`
      yields a non-finite number (a zero limit). */
  datatype ListResult = ListResult(blogs: seq<Populated>, total: int, page: int, totalPages: Option<int>)

  /** `{ isPublished }`, with `userId` added only when it is truthy. */
  function ListQuery(userId: Option<Id>, isPublished: Option<bool>): (q: BlogQuery)
    ensures q.isPublished == isPublished
    ensures q.userId.Some? <==> Truthy(userId)
    ensures q.userId.Some? ==> q.userId == userId
  {
    BlogQuery(isPublished, if Truthy(userId) then userId else None)
  }

  /** The listed form of a blog: its content cut to the first 100 characters,
      everything else as found. */
  function Preview(p: Populated): (r: Populated)
    ensures r.author == p.author
    ensures r.blog.content <= p.blog.content
    ensures |r.blog.content| == Min(100, |p.blog.content|)
    ensures r.blog.(content := p.blog.content) == p.blog
  {
    Populated(p.blog.(content := Prefix(p.blog.content, 100)), p.author)
  }

  /** What `getAllBlogs(page, limit, userId, isPublished)` answers over the
      collection `coll` and the users `users`. */
  function ListSpec(coll: seq<Blog>, users: map<Id, User>, page: int, limit: int,
                    userId: Option<Id>, isPublished: Option<bool>): (r: Result<ListResult, Error>)
    ensures r.Failure? <==> (page - 1) * limit < 0
    ensures r.Failure? ==> r.error == Error(NegativeSkipMessage((page - 1) * limit))
    ensures r.Success? ==>
              && FindSpec(coll, users, ListQuery(userId, isPublished), page, limit).Success?
              && var found := FindSpec(coll, users, ListQuery(userId, isPublished), page, limit).value;
              && |r.value.blogs| == |found.blogs|
              && (forall i :: 0 <= i < |found.blogs| ==> r.value.blogs[i] == Preview(found.blogs[i]))
    ensures r.Success? ==> r.value.total == |Filter(coll, ListQuery(userId, isPublished))|
    ensures r.Success? ==> r.value.page == page && r.value.totalPages == CeilQuotient(r.value.total, limit)
  {
    match FindSpec(coll, users, ListQuery(userId, isPublished), page, limit)
    case Failure(e) => Failure(Rewrap(e.message, "Error in GetAllBlogs BlogService"))
    case Success(found) =>
      Success(ListResult(Previews(found.blogs), found.total, page, CeilQuotient(found.total, limit)))
  }

  /** `blogs.map(...)` with the preview shaping. */
  function Previews(s: seq<Populated>): (r: seq<Populated>)
    ensures |r| == |s| && forall i :: 0 <= i < |s| ==> r[i] == Preview(s[i])
  {
    seq(|s|, i requires 0 <= i < |s| => Preview(s[i]))
  }

  lemma MultiplyMonotone(a: int, b: int, d: int)
    requires a <= b && d >= 1
    ensures a * d <= b * d
  {
    assert b * d - a * d == (b - a) * d;
    ProductNonNegative(b - a, d);
  }

  /** `totalPages` counts the pages that hold a blog: page `p` has blogs after
      it exactly when `p < totalPages`. */
  lemma MorePagesIffMoreBlogs(total: nat, limit: int, p: int)
    requires limit >= 1
    ensures CeilQuotient(total, limit).Some?
    ensures p < CeilQuotient(total, limit).value <==> p * limit < total
  {
    var t := CeilDiv(total, limit);
    if p < t {
      MultiplyMonotone(p, t - 1, limit);
    } else {
      MultiplyMonotone(t, p, limit);
    }
  }

  /** Every listed blog is a stored blog the query selects, shown with at most
      100 characters of its content. */
  lemma ListedAreTruncatedStored(coll: seq<Blog>, users: map<Id, User>, page: int, limit: int,
                                 userId: Option<Id>, isPublished: Option<bool>)
    requires ListSpec(coll, users, page, limit, userId, isPublished).Success?
    ensures var listed := ListSpec(coll, users, page, limit, userId, isPublished).value.blogs;
            forall i :: 0 <= i < |listed| ==>
              && |listed[i].blog.content| <= 100
              && listed[i].blog.(content := FindSpec(coll, users, ListQuery(userId, isPublished), page, limit).value.blogs[i].blog.content) in coll
              && (Truthy(userId) ==> listed[i].blog.userId == userId.value)
  {
    var found := FindSpec(coll, users, ListQuery(userId, isPublished), page, limit).value;
    var listed := ListSpec(coll, users, page, limit, userId, isPublished).value.blogs;
    forall i | 0 <= i < |listed|
      ensures listed[i].blog.(content := found.blogs[i].blog.content) in coll
      ensures Truthy(userId) ==> listed[i].blog.userId == userId.value
    {
      assert found.blogs[i] in found.blogs;
    }
  }

  /** The reply of `createBlogs` and `updateBlog`. */
  datatype BlogReply = BlogReply(ok: bool, msg: string, blog: Blog)

  /** The reply of `getBlog`. */
  datatype DetailReply = DetailReply(ok: bool, msg: string, blog: Populated)

  /** The reply of `deleteBlog` and `blogPublish`. */
  datatype Ack = Ack(ok: bool, msg: string)

  /** The payload `createBlogs` persists. */
  function CreatePayload(userId: Id, title: string, content: string, imageUrl: string): (d: NewBlog)
    ensures d.title == Trim(title) && d.content == Trim(content)
    ensures d.imageUrl == imageUrl && d.userId == userId
  {
    NewBlog(Trim(title), Trim(content), imageUrl, userId)
  }

  /** The patch `updateBlog` applies: the given title and content, the
      requester as author, and the uploaded image when there is one. */
  function UpdatePatch(title: Option<string>, content: Option<string>, userId: Id, imageUrl: Option<string>): (p: BlogPatch)
    ensures p.title == title && p.content == content && p.imageUrl == imageUrl
    ensures p.userId == Some(userId) && p.isPublished.None?
  {
    BlogPatch(title, content, imageUrl, Some(userId), None)
  }

  /** The blog service. `repo` is the Blog repository; its `users` stand for
      the User repository, which this model only reads. The image host is an
      oracle: `upload` is the URL it would answer, `None` for no URL. */
  class BlogService {
    const repo: BlogRepository

    constructor (repo: BlogRepository)
      ensures this.repo == repo
    {
      this.repo := repo;
    }

    /** `getAllBlogs(page, limit, userId?, isPublished?)`. */
    method GetAllBlogs(page: int, limit: int, userId: Option<Id>, isPublished: Option<bool>) returns (r: Result<ListResult, Error>)
      requires repo.Valid()
      ensures r == ListSpec(repo.Collection(), repo.users, page, limit, userId, isPublished)
    {
      var found := repo.Find(ListQuery(userId, isPublished), page, limit);
      ghost var coll := repo.Collection();
      assert found == FindSpec(coll, repo.users, ListQuery(userId, isPublished), page, limit);
      match found
      case Failure(e) =>
        r := Failure(Rewrap(e.message, "Error in GetAllBlogs BlogService"));
      case Success(f) =>
        r := Success(ListResult(Previews(f.blogs), f.total, page, CeilQuotient(f.total, limit)));
    }

    /** `createBlogs(userId, { title, content }, file)`. `uploadCalled` says
        whether the image host was asked. */
    method CreateBlogs(userId: Id, title: Option<string>, content: Option<string>, upload: Option<string>, now: int)
        returns (r: Result<BlogReply, Error>, uploadCalled: bool)
      requires repo.Valid()
      modifies repo
      ensures repo.Valid()
      ensures uploadCalled <==> Truthy(title) && Truthy(content)
      ensures !uploadCalled ==> r == Failure(Error("Title and content must be provided"))
      ensures uploadCalled && !Truthy(upload) ==> r == Failure(Error("Image upload failed"))
      ensures r.Failure? ==> repo.blogs == old(repo.blogs) && repo.order == old(repo.order)
      ensures uploadCalled && Truthy(upload) ==>
                var d := CreatePayload(userId, title.value, content.value, upload.value);
                && (MissingRequired(d) != [] ==> r == Failure(DbFault(ValidationMessage(MissingRequired(d)))))
                && (MissingRequired(d) == [] ==>
                      && r.Success? && r.value.ok && r.value.msg == "Blog created successfully"
                      && r.value.blog == Stored(r.value.blog.id, d, now)
                      && r.value.blog.id !in old(repo.blogs)
                      && repo.blogs == old(repo.blogs)[r.value.blog.id := r.value.blog]
                      && repo.order == old(repo.order) + [r.value.blog.id])
    {
      uploadCalled := false;
      if !Truthy(title) || !Truthy(content) {
        return Failure(Error("Title and content must be provided")), uploadCalled;
      }
      uploadCalled := true;
      var imageUrl := upload;
      if !Truthy(imageUrl) {
        return Failure(Error("Image upload failed")), uploadCalled;
      }
      var payload := CreatePayload(userId, title.value, content.value, imageUrl.value);
      var created := repo.Create(payload, now);
      match created
      case Failure(e) =>
        r := Failure(e);
      case Success(b) =>
        r := Success(BlogReply(true, "Blog created successfully", b));
    }

    /** `getBlog(blogId)`: the whole stored blog with its author. */
    method GetBlog(blogId: Id) returns (r: Result<DetailReply, Error>)
      ensures blogId !in repo.blogs ==> r == Failure(Error("Cannot find Blog"))
      ensures blogId in repo.blogs ==>
                && r.Success? && !r.value.ok && r.value.msg == "Blog Details fetched successfully"
                && r.value.blog.blog == repo.blogs[blogId]
                && r.value.blog == Populate(repo.blogs[blogId], repo.users)
    {
      var blog := repo.FindById(blogId);
      if blog.None? {
        return Failure(Error("Cannot find Blog"));
      }
      r := Success(DetailReply(false, "Blog Details fetched successfully", blog.value));
    }

    /** `updateBlog({ title, content }, blogId, userId, file?)`. `hasFile` says
        whether a file came with the request; `uploadCalled` whether the image
        host was asked. No ownership is checked. */
    method UpdateBlog(title: Option<string>, content: Option<string>, blogId: Id, userId: Id,
                      hasFile: bool, upload: Option<string>, now: int)
        returns (r: Result<BlogReply, Error>, uploadCalled: bool)
      requires repo.Valid()
      modifies repo
      ensures repo.Valid() && repo.order == old(repo.order)
      ensures uploadCalled <==> userId in repo.users && hasFile
      ensures userId !in repo.users ==> r == Failure(Error("Invalid Credential: User not found"))
      ensures uploadCalled && !Truthy(upload) ==> r == Failure(Error("Error uploading in image"))
      ensures r.Failure? ==> repo.blogs == old(repo.blogs)
      ensures userId in repo.users && (!hasFile || Truthy(upload)) ==>
                var p := UpdatePatch(title, content, userId, if hasFile then upload else None);
                && (blogId !in old(repo.blogs) ==> r == Failure(Error("Error updating blog")))
                && (blogId in old(repo.blogs) ==>
                      && r == Success(BlogReply(true, "Blog updated successfully", ApplyPatch(old(repo.blogs)[blogId], p, now)))
                      && repo.blogs == old(repo.blogs)[blogId := r.value.blog])
    {
      uploadCalled := false;
      if userId !in repo.users {
        return Failure(Error("Invalid Credential: User not found")), uploadCalled;
      }
      var updateData := UpdatePatch(title, content, userId, None);
      if hasFile {
        uploadCalled := true;
        var imageUrl := upload;
        if !Truthy(imageUrl) {
          return Failure(Error("Error uploading in image")), uploadCalled;
        }
        updateData := updateData.(imageUrl := imageUrl);
      }
      var updated := repo.Update(blogId, updateData, now);
      if updated.None? {
        return Failure(Error("Error updating blog")), uploadCalled;
      }
      r := Success(BlogReply(true, "Blog updated successfully", updated.value));
    }

    /** `deleteBlog(blogId, userId)`: refused when the populated author is
        somebody else. */
    method DeleteBlog(blogId: Id, userId: Id) returns (r: Result<Ack, Error>)
      requires repo.Valid()
      modifies repo
      ensures repo.Valid()
      ensures blogId !in old(repo.blogs) ==> r == Failure(Error("Blog not found"))
      ensures blogId in old(repo.blogs) && OwnedByOther(Populate(old(repo.blogs)[blogId], repo.users), userId) ==>
                r == Failure(Error("You are not authorized to delete this blog"))
      ensures r.Failure? ==> repo.blogs == old(repo.blogs) && repo.order == old(repo.order)
      ensures blogId in old(repo.blogs) && !OwnedByOther(Populate(old(repo.blogs)[blogId], repo.users), userId) ==>
                && r == Success(Ack(true, "Blog deleted successfully"))
                && repo.blogs == old(repo.blogs) - {blogId}
                && repo.order == Without(old(repo.order), blogId)
    {
      var blog := repo.FindById(blogId);
      if blog.None? {
        return Failure(Error("Blog not found"));
      }
      if OwnedByOther(blog.value, userId) {
        return Failure(Error("You are not authorized to delete this blog"));
      }
      var deleted := repo.Delete(blogId);
      if deleted.None? {
        assert false;
        return Failure(Error("Failed to delete blog"));
      }
      r := Success(Ack(true, "Blog deleted successfully"));
    }

    /** `blogPublish(userId, blogId)`: any known user may publish any blog. */
    method BlogPublish(userId: Id, blogId: Id, now: int) returns (r: Result<Ack, Error>)
      requires repo.Valid()
      modifies repo
      ensures repo.Valid() && repo.order == old(repo.order)
      ensures userId !in repo.users ==> r == Failure(Error("User Not Fount")) && repo.blogs == old(repo.blogs)
      ensures userId in repo.users && blogId !in old(repo.blogs) ==>
                r == Failure(Error("Cannont find the BlogId")) && repo.blogs == old(repo.blogs)
      ensures userId in repo.users && blogId in old(repo.blogs) ==>
                && r == Success(Ack(true, "Blog Published Successfully"))
                && repo.blogs == old(repo.blogs)[blogId := ApplyPatch(old(repo.blogs)[blogId], PublishPatch, now)]
                && repo.blogs[blogId].isPublished == Some(true)
    {
      if userId !in repo.users {
        return Failure(Error("User Not Fount"));
      }
      var update := repo.Update(blogId, PublishPatch, now);
      if update.None? {
        return Failure(Error("Cannont find the BlogId"));
      }
      r := Success(Ack(true, "Blog Published Successfully"));
    }
  }

  /** A blog created through the service is found again, whole and untruncated,
      by `getBlog`. */
  method CreateThenGet(s: BlogService, userId: Id, title: string, content: string, url: string, now: int)
      returns (created: Result<BlogReply, Error>, detail: Result<DetailReply, Error>)
    requires s.repo.Valid()
    modifies s.repo
    ensures created.Success? ==>
              && detail.Success?
              && detail.value.blog.blog == created.value.blog
              && detail.value.blog.blog.content == Trim(content)
  {
    var uploadCalled;
    created, uploadCalled := s.CreateBlogs(userId, Some(title), Some(content), Some(url), now);
    var id := if created.Success? then created.value.blog.id else "";
    detail := s.GetBlog(id);
  }

  /** Publishing a blog a second time at the same moment succeeds again and
      leaves the store as the first call left it. */
  method PublishTwice(s: BlogService, userId: Id, blogId: Id, now: int)
      returns (first: Result<Ack, Error>, second: Result<Ack, Error>, ghost afterFirst: map<Id, Blog>)
    requires s.repo.Valid()
    modifies s.repo
    ensures first.Success? ==> second == first
    ensures first.Success? ==> s.repo.blogs == afterFirst
    ensures first.Success? ==> blogId in s.repo.blogs && s.repo.blogs[blogId].isPublished == Some(true)
  {
    ghost var before := s.repo.blogs;
    first := s.BlogPublish(userId, blogId, now);
    afterFirst := s.repo.blogs;
    second := s.BlogPublish(userId, blogId, now);
    if first.Success? {
      RepublishSameStore(before, afterFirst, s.repo.blogs, blogId, now);
    }
  }

  /** Applying the publish patch to a blog already published at `now` leaves
      the store as it was. */
  lemma RepublishSameStore(before: map<Id, Blog>, mid: map<Id, Blog>, after: map<Id, Blog>, blogId: Id, now: int)
    requires blogId in before
    requires mid == before[blogId := ApplyPatch(before[blogId], PublishPatch, now)]
    requires after == mid[blogId := ApplyPatch(mid[blogId], PublishPatch, now)]
    ensures after == mid
  {
    ApplyPatchIdempotent(before[blogId], PublishPatch, now);
  }
}
