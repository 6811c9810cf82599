/** client/src/pages/Home.tsx: the public feed, paged in one blog at a time.
    Each request's answer is a parameter. */
module HomePage {
  import opened Wrappers
  import opened ClientLists

  /** The page size the feed asks for. */
  const FeedPageSize := 1

  /** The error text: the thrown message, or the fallback when it is empty. */
  function LoadError(message: string): (e: string)
    ensures e != ""
    ensures message != "" ==> e == message
  {
    if message != "" then message else "Failed to load blogs"
  }

  class Home {
    var blogs: seq<ClientBlog>
    var page: int
    var hasMore: bool
    var isLoading: bool
    var error: Option<string>
    var isInitialMount: bool

    /** The initial state: no blogs, page 1, more to load, first mount ahead. */
    constructor ()
      ensures blogs == [] && page == 1 && hasMore && !isLoading && error == None && isInitialMount
    {
      blogs, page, hasMore, isLoading, error, isInitialMount := [], 1, true, false, None, true;
    }

    /** `fetchBlogs(pageNum)`: nothing while loading or when nothing is left;
        otherwise page `pageNum` of one blog is asked for. A reply is merged in
        and moves the counters; an error keeps the blogs and sets `error`. */
    method FetchBlogs(pageNum: int, reply: Result<PageReply, string>) returns (request: Option<PageRequest>)
      modifies this
      ensures old(isLoading) || !old(hasMore) ==> request == None && unchanged(this)
      ensures !old(isLoading) && old(hasMore) ==>
                && request == Some(PageRequest(pageNum, FeedPageSize))
                && !isLoading && isInitialMount == old(isInitialMount)
                && (reply.Success? ==>
                      && blogs == Merge(old(blogs), reply.value.blogs)
                      && hasMore == (pageNum < reply.value.totalPages)
                      && page == pageNum + 1
                      && error == None)
                && (reply.Failure? ==>
                      && blogs == old(blogs) && hasMore && page == old(page)
                      && error == Some(LoadError(reply.error)))
    {
      if isLoading || !hasMore {
        return None;
      }
      isLoading := true;
      error := None;
      request := Some(PageRequest(pageNum, FeedPageSize));
      match reply {
        case Success(response) =>
          blogs := Merge(blogs, response.blogs);
          hasMore := pageNum < response.totalPages;
          page := pageNum + 1;
        case Failure(message) =>
          error := Some(LoadError(message));
      }
      isLoading := false;
    }

    /** The mount effect: page 1 is fetched on the first run only. */
    method OnMount(reply: Result<PageReply, string>) returns (request: Option<PageRequest>)
      modifies this
      ensures !isInitialMount
      ensures !old(isInitialMount) ==> request == None && unchanged(this)
      ensures old(isInitialMount) && (old(isLoading) || !old(hasMore)) ==>
                && request == None && blogs == old(blogs) && page == old(page) && hasMore == old(hasMore)
                && isLoading == old(isLoading) && error == old(error)
      ensures old(isInitialMount) && !old(isLoading) && old(hasMore) ==>
                && request == Some(PageRequest(1, FeedPageSize))
                && !isLoading
                && (reply.Success? ==>
                      && blogs == Merge(old(blogs), reply.value.blogs)
                      && hasMore == (1 < reply.value.totalPages)
                      && page == 2
                      && error == None)
                && (reply.Failure? ==>
                      && blogs == old(blogs) && hasMore && page == old(page)
                      && error == Some(LoadError(reply.error)))
    {
      if !isInitialMount {
        return None;
      }
      isInitialMount := false;
      request := FetchBlogs(1, reply);
    }
  }

  /** However often the effect runs, only its first run asks for a page. */
  method MountTwice(h: Home, first: Result<PageReply, string>, second: Result<PageReply, string>)
      returns (r1: Option<PageRequest>, r2: Option<PageRequest>)
    requires h.isInitialMount && !h.isLoading && h.hasMore
    modifies h
    ensures r1 == Some(PageRequest(1, FeedPageSize)) && r2 == None
  {
    r1 := h.OnMount(first);
    r2 := h.OnMount(second);
  }
}
