/** server/src/controllers/blog.controller.ts: the request guards of each
    handler. A handler either answers at once (a rejected request) or hands
    its checked inputs to one service operation. What the service answers is
    then sent with the handler's success status, or, when it fails, by
    `FailureReply`. `ObjectId.isValid` is the parameter `validId`. */
module Controller {
  import opened Wrappers
  import opened Text
  import opened Ids

  datatype Status = Ok | Created | BadRequest | Unauthorized | ServerError

  /** The HTTP code of each status. */
  function Code(s: Status): int {
    match s
    case Ok => 200
    case Created => 201
    case BadRequest => 400
    case Unauthorized => 401
    case ServerError => 500
  }

  /** A JSON reply `{ ok?, msg }` with its status. */
  datatype Reply = Reply(status: Status, ok: Option<bool>, msg: string)

  /** The service operation a handler calls, with the arguments it passes. */
  datatype ServiceCall =
    | CreateBlogs(author: Id, title: string, content: string)
    | GetAllBlogs(page: Option<int>, limit: Option<int>, userId: Option<Id>, isPublished: bool)
    | GetBlog(blogId: Id)
    | UpdateBlog(title: string, content: string, blogId: Id, userId: Option<Id>, hasFile: bool)
    | DeleteBlog(blogId: Id, userId: Option<Id>)
    | BlogPublish(userId: Option<Id>, blogId: Id)

  /** The replies a handler sends before calling the service, and the call it
      makes, if any. */
  datatype Outcome = Outcome(sent: seq<Reply>, call: Option<ServiceCall>)

  /** An answer at once, with `ok: false`; the service is not called. */
  function Reject(status: Status, msg: string): Outcome {
    Outcome([Reply(status, Some(false), msg)], None)
  }

  /** No answer yet; the service is called. */
  function Proceed(call: ServiceCall): Outcome {
    Outcome([], Some(call))
  }

  /** `s?.trim()` is truthy: present, and not only whitespace. */
  predicate HasText(s: Option<string>) {
    s.Some? && Trim(s.value) != ""
  }

  /** `content.trim().split(/\s+/).length`. */
  function WordCount(content: string): (n: nat)
    ensures n >= 1
  {
    |Split(Trim(content))|
  }

  /** Once the content holds some text, the count the handlers compute is the
      number of words in it. */
  lemma WordCountIsWords(content: string)
    requires Trim(content) != ""
    ensures WordCount(content) == |Words(content)|
  {
    SplitOfTrimmed(Trim(content));
    WordsOfTrim(content);
  }

  /** `createBlog`: the user, then title and content, then at least 50 words,
      then the image file; the service gets the trimmed title and content. */
  function CreateBlog(user: Option<Id>, title: Option<string>, content: Option<string>, hasFile: bool): (o: Outcome)
    ensures !Truthy(user) ==> o == Reject(Unauthorized, "Unauthorized")
    ensures Truthy(user) && !(HasText(title) && HasText(content)) ==>
              o == Reject(BadRequest, "Title and content are required")
    ensures Truthy(user) && HasText(title) && HasText(content) && |Words(content.value)| < 50 ==>
              o == Reject(BadRequest, "Content must be at least 50 words")
    ensures Truthy(user) && HasText(title) && HasText(content) && |Words(content.value)| >= 50 && !hasFile ==>
              o == Reject(BadRequest, "Image is required")
    ensures Truthy(user) && HasText(title) && HasText(content) && |Words(content.value)| >= 50 && hasFile ==>
              o == Proceed(CreateBlogs(user.value, Trim(title.value), Trim(content.value)))
  {
    if !Truthy(user) then Reject(Unauthorized, "Unauthorized")
    else if !HasText(title) || !HasText(content) then Reject(BadRequest, "Title and content are required")
    else
      WordCountIsWords(content.value);
      if WordCount(content.value) < 50 then Reject(BadRequest, "Content must be at least 50 words")
      else if !hasFile then Reject(BadRequest, "Image is required")
      else Proceed(CreateBlogs(user.value, Trim(title.value), Trim(content.value)))
  }

  /** `parseInt` of a query parameter with its default. */
  function QueryInt(param: Option<string>, default: string): (r: Option<int>)
    ensures param.None? ==> r == ParseInt(default)
    ensures param.Some? ==> r == ParseInt(param.value)
    ensures param == Some("") ==> r == None
  {
    ParseInt(param.GetOr(default))
  }

  /** `getAllBlogs`: page (default "1") then limit (default "10") must parse
      to at least 1; published blogs are asked for. */
  function GetAllBlogsHandler(user: Option<Id>, page: Option<string>, limit: Option<string>): (o: Outcome)
    ensures var p := QueryInt(page, "1");
            (p.None? || p.value < 1) ==> o == Reject(BadRequest, "Invalid page number")
    ensures var p, l := QueryInt(page, "1"), QueryInt(limit, "10");
            p.Some? && p.value >= 1 && (l.None? || l.value < 1) ==> o == Reject(BadRequest, "Invalid limit")
    ensures o.call.Some? <==> o.sent == []
    ensures o.call.Some? ==>
              && o.call.value.GetAllBlogs? && o.call.value.userId == user && o.call.value.isPublished
              && o.call.value.page.Some? && o.call.value.page.value >= 1
              && o.call.value.limit.Some? && o.call.value.limit.value >= 1
              && o.call.value.page == QueryInt(page, "1") && o.call.value.limit == QueryInt(limit, "10")
  {
    var p, l := QueryInt(page, "1"), QueryInt(limit, "10");
    if p.None? || p.value < 1 then Reject(BadRequest, "Invalid page number")
    else if l.None? || l.value < 1 then Reject(BadRequest, "Invalid limit")
    else Proceed(GetAllBlogs(p, l, user, true))
  }

  /** Without query parameters, `getAllBlogs` asks for page 1 of 10. */
  lemma GetAllBlogsDefaults(user: Option<Id>)
    ensures GetAllBlogsHandler(user, None, None) == Proceed(GetAllBlogs(Some(1), Some(10), user, true))
  {
    DefaultsParse();
    assert QueryInt(None, "1") == Some(1) && QueryInt(None, "10") == Some(10);
  }

  lemma DefaultsParse()
    ensures ParseInt("1") == Some(1) && ParseInt("10") == Some(10)
  {
    assert NatToString(1) == "1";
    assert NatToString(10) == NatToString(1) + "0" == "10";
    ParseRendered(1, []);
    ParseRendered(10, []);
    assert "1" + [] == "1" && "10" + [] == "10";
  }

  /** A negative page, such as `?page=-3`, is refused. */
  lemma NegativePageRefused(user: Option<Id>, n: nat, limit: Option<string>)
    requires n >= 1
    ensures GetAllBlogsHandler(user, Some("-" + NatToString(n)), limit) == Reject(BadRequest, "Invalid page number")
  {
    assert QueryInt(Some("-" + NatToString(n)), "1") == Some(-(n as int)) by {
      ParseNegativeRendered(n, []);
      assert "-" + NatToString(n) + [] == "-" + NatToString(n);
    }
  }

  /** A page and limit written in decimal, as the client writes them, pass
      the guards unchanged. */
  lemma GetAllBlogsAcceptsRendered(user: Option<Id>, page: nat, limit: nat)
    requires page >= 1 && limit >= 1
    ensures GetAllBlogsHandler(user, Some(NatToString(page)), Some(NatToString(limit)))
            == Proceed(GetAllBlogs(Some(page), Some(limit), user, true))
  {
    assert QueryInt(Some(NatToString(page)), "1") == Some(page) by {
      ParseRendered(page, []);
      assert NatToString(page) + [] == NatToString(page);
    }
    assert QueryInt(Some(NatToString(limit)), "10") == Some(limit) by {
      ParseRendered(limit, []);
      assert NatToString(limit) + [] == NatToString(limit);
    }
  }

  /** `getUserBlogs`: no validation; the requester's published blogs. */
  function GetUserBlogs(user: Option<Id>, page: Option<string>, limit: Option<string>): (o: Outcome)
    ensures o.sent == []
    ensures o.call == Some(GetAllBlogs(QueryInt(page, "1"), QueryInt(limit, "10"), user, true))
  {
    Proceed(GetAllBlogs(QueryInt(page, "1"), QueryInt(limit, "10"), user, true))
  }

  /** `draftedBlogs`: no validation; the requester's blogs with
      `isPublished: false`. */
  function DraftedBlogs(user: Option<Id>, page: Option<string>, limit: Option<string>): (o: Outcome)
    ensures o.sent == []
    ensures o.call == Some(GetAllBlogs(QueryInt(page, "1"), QueryInt(limit, "10"), user, false))
  {
    Proceed(GetAllBlogs(QueryInt(page, "1"), QueryInt(limit, "10"), user, false))
  }

  /** `getUserBlogs` and `draftedBlogs` differ only in the `isPublished` they
      ask for. */
  lemma UserAndDraftListsDiffer(user: Option<Id>, page: Option<string>, limit: Option<string>)
    ensures GetUserBlogs(user, page, limit).call.value.isPublished
    ensures !DraftedBlogs(user, page, limit).call.value.isPublished
    ensures GetUserBlogs(user, page, limit).call.value.(isPublished := false) == DraftedBlogs(user, page, limit).call.value
  {
  }

  /** The id guard of `updateBlog` and `deleteBlog`. */
  predicate ValidBlogId(blogId: string, validId: string -> bool) {
    blogId != "" && validId(blogId)
  }

  /** `updateBlog`: a valid id, then title and content, then at least 50
      words; the service gets the title and content untrimmed. */
  function UpdateBlogHandler(user: Option<Id>, blogId: string, title: Option<string>, content: Option<string>,
                             hasFile: bool, validId: string -> bool): (o: Outcome)
    ensures !ValidBlogId(blogId, validId) ==> o == Reject(BadRequest, "Valid blog ID is required")
    ensures ValidBlogId(blogId, validId) && !(HasText(title) && HasText(content)) ==>
              o == Reject(BadRequest, "Title and content are required")
    ensures ValidBlogId(blogId, validId) && HasText(title) && HasText(content) && |Words(content.value)| < 50 ==>
              o == Reject(BadRequest, "Content must be at least 50 words")
    ensures ValidBlogId(blogId, validId) && HasText(title) && HasText(content) && |Words(content.value)| >= 50 ==>
              o == Proceed(UpdateBlog(title.value, content.value, blogId, user, hasFile))
  {
    if !ValidBlogId(blogId, validId) then Reject(BadRequest, "Valid blog ID is required")
    else if !HasText(title) || !HasText(content) then Reject(BadRequest, "Title and content are required")
    else
      WordCountIsWords(content.value);
      if WordCount(content.value) < 50 then Reject(BadRequest, "Content must be at least 50 words")
      else Proceed(UpdateBlog(title.value, content.value, blogId, user, hasFile))
  }

  /** `deleteBlog`: a valid id, then the service. */
  function DeleteBlogHandler(user: Option<Id>, blogId: string, validId: string -> bool): (o: Outcome)
    ensures !ValidBlogId(blogId, validId) ==> o == Reject(BadRequest, "Valid blog ID is required")
    ensures ValidBlogId(blogId, validId) ==> o == Proceed(DeleteBlog(blogId, user))
  {
    if !ValidBlogId(blogId, validId) then Reject(BadRequest, "Valid blog ID is required")
    else Proceed(DeleteBlog(blogId, user))
  }

  /** `publishBlog`: only `ObjectId.isValid` is asked, then the service. */
  function PublishBlogHandler(user: Option<Id>, blogId: string, validId: string -> bool): (o: Outcome)
    ensures !validId(blogId) ==> o == Reject(BadRequest, "Blog Id is required")
    ensures validId(blogId) ==> o == Proceed(BlogPublish(user, blogId))
  {
    if !validId(blogId) then Reject(BadRequest, "Blog Id is required")
    else Proceed(BlogPublish(user, blogId))
  }

  /** `getBlogDetails`: an invalid id gets a 200 reply without `ok`, and the
      handler does not return, so `getBlog` is called in every case. */
  function GetBlogDetails(blogId: string, validId: string -> bool): (o: Outcome)
    ensures o.call == Some(GetBlog(blogId))
    ensures ValidBlogId(blogId, validId) ==> o.sent == []
    ensures !ValidBlogId(blogId, validId) ==> o.sent == [Reply(Ok, None, "Blog id is required")]
  {
    var sent := if !ValidBlogId(blogId, validId) then [Reply(Ok, None, "Blog id is required")] else [];
    Outcome(sent, Some(GetBlog(blogId)))
  }

  /** The handlers of the controller. */
  datatype Handler =
    | CreateBlogH | GetAllBlogsH | GetBlogDetailsH | GetUserBlogsH
    | UpdateBlogH | DeleteBlogH | DraftedBlogsH | PublishBlogH

  /** The status a handler sends the service's answer with. */
  function SuccessStatus(h: Handler): (s: Status)
    ensures s == Created <==> h == CreateBlogH
    ensures s != Created ==> s == Ok
  {
    if h == CreateBlogH then Created else Ok
  }

  /** What a handler sends when the service throws: status 500 and the
      error's message, with a fallback in `createBlog` and `deleteBlog`;
      `ok: false` is left out by `getBlogDetails`, `draftedBlogs` and
      `publishBlog`. */
  function FailureReply(h: Handler, e: Error): (r: Reply)
    ensures r.status == ServerError
    ensures e.message != "" ==> r.msg == e.message
    ensures e.message == "" && h == CreateBlogH ==> r.msg == "Internal Server Error"
    ensures e.message == "" && h == DeleteBlogH ==> r.msg == "Something went wrong"
    ensures h != CreateBlogH && h != DeleteBlogH ==> r.msg == e.message
    ensures r.ok == None <==> h in {GetBlogDetailsH, DraftedBlogsH, PublishBlogH}
    ensures r.ok.Some? ==> !r.ok.value
  {
    var msg := if e.message != "" then e.message
               else if h == CreateBlogH then "Internal Server Error"
               else if h == DeleteBlogH then "Something went wrong"
               else e.message;
    var ok := if h == GetBlogDetailsH || h == DraftedBlogsH || h == PublishBlogH then None else Some(false);
    Reply(ServerError, ok, msg)
  }

  /** Every guard that stops `createBlog` answers once and leaves the service
      uncalled; passing all of them calls it once. */
  lemma CreateGuardsDecideOnce(user: Option<Id>, title: Option<string>, content: Option<string>, hasFile: bool)
    ensures var o := CreateBlog(user, title, content, hasFile);
            (o.call.None? && |o.sent| == 1 && o.sent[0].ok == Some(false)) || (o.call.Some? && o.sent == [])
  {
  }

  /** The same for `updateBlog`, whose guards all answer 400. */
  lemma UpdateGuardsDecideOnce(user: Option<Id>, blogId: string, title: Option<string>, content: Option<string>,
                               hasFile: bool, validId: string -> bool)
    ensures var o := UpdateBlogHandler(user, blogId, title, content, hasFile, validId);
            (o.call.None? && |o.sent| == 1 && o.sent[0].status == BadRequest) || (o.call.Some? && o.sent == [])
  {
  }
}
