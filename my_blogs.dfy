/** client/src/pages/MyBlogs.tsx: the author's own published blogs and
    drafts, each list paged in separately. React state setters become field
    assignments done in the order the code calls them; each request's answer
    is a parameter. */
module MyBlogsPage {
  import opened Wrappers
  import opened ClientLists

  /** The page size the page asks for. */
  const PageSize := 5

  class MyBlogs {
    var publishedBlogs: seq<ClientBlog>
    var draftBlogs: seq<ClientBlog>
    var page: int
    var draftPage: int
    var hasMore: bool
    var hasMoreDrafts: bool
    var isLoading: bool
    var isLoadingDrafts: bool
    var initialLoading: bool
    var editingBlogId: Option<string>
    var isDeleteModalOpen: bool

    /** The initial state: empty lists, page 1 of each, more to load. */
    constructor ()
      ensures publishedBlogs == [] && draftBlogs == []
      ensures page == 1 && draftPage == 1 && hasMore && hasMoreDrafts
      ensures !isLoading && !isLoadingDrafts && initialLoading && editingBlogId == None && !isDeleteModalOpen
    {
      publishedBlogs, draftBlogs := [], [];
      page, draftPage := 1, 1;
      hasMore, hasMoreDrafts := true, true;
      isLoading, isLoadingDrafts, initialLoading := false, false, true;
      editingBlogId := None;
      isDeleteModalOpen := false;
    }

    /** `fetchBlogs(pageNum)`: nothing while loading or when nothing is left;
        otherwise page `pageNum` of 5 is asked for and, when it arrives, merged
        into the published list. `reply` is the answer, or the error thrown. */
    method FetchBlogs(pageNum: int, reply: Result<PageReply, string>) returns (request: Option<PageRequest>)
      modifies this
      ensures old(isLoading) || !old(hasMore) ==> request == None && unchanged(this)
      ensures !old(isLoading) && old(hasMore) ==>
                && request == Some(PageRequest(pageNum, PageSize))
                && !isLoading && !initialLoading
                && draftBlogs == old(draftBlogs) && draftPage == old(draftPage) && hasMoreDrafts == old(hasMoreDrafts)
                && isLoadingDrafts == old(isLoadingDrafts) && editingBlogId == old(editingBlogId)
                && isDeleteModalOpen == old(isDeleteModalOpen)
                && (reply.Success? ==>
                      && publishedBlogs == Merge(old(publishedBlogs), reply.value.blogs)
                      && hasMore == (pageNum < reply.value.totalPages)
                      && page == pageNum + 1)
                && (reply.Failure? ==> publishedBlogs == old(publishedBlogs) && hasMore && page == old(page))
    {
      if isLoading || !hasMore {
        return None;
      }
      isLoading := true;
      request := Some(PageRequest(pageNum, PageSize));
      if reply.Success? {
        publishedBlogs := Merge(publishedBlogs, reply.value.blogs);
        hasMore := pageNum < reply.value.totalPages;
        page := pageNum + 1;
      }
      isLoading := false;
      initialLoading := false;
    }

    /** `fetchDrafts(pageNum)`: the same for the drafts, guarded by their own
        loading flag, and leaving `initialLoading` alone. */
    method FetchDrafts(pageNum: int, reply: Result<PageReply, string>) returns (request: Option<PageRequest>)
      modifies this
      ensures old(isLoadingDrafts) || !old(hasMoreDrafts) ==> request == None && unchanged(this)
      ensures !old(isLoadingDrafts) && old(hasMoreDrafts) ==>
                && request == Some(PageRequest(pageNum, PageSize))
                && !isLoadingDrafts
                && publishedBlogs == old(publishedBlogs) && page == old(page) && hasMore == old(hasMore)
                && isLoading == old(isLoading) && initialLoading == old(initialLoading)
                && editingBlogId == old(editingBlogId) && isDeleteModalOpen == old(isDeleteModalOpen)
                && (reply.Success? ==>
                      && draftBlogs == Merge(old(draftBlogs), reply.value.blogs)
                      && hasMoreDrafts == (pageNum < reply.value.totalPages)
                      && draftPage == pageNum + 1)
                && (reply.Failure? ==> draftBlogs == old(draftBlogs) && hasMoreDrafts && draftPage == old(draftPage))
    {
      if isLoadingDrafts || !hasMoreDrafts {
        return None;
      }
      isLoadingDrafts := true;
      request := Some(PageRequest(pageNum, PageSize));
      if reply.Success? {
        draftBlogs := Merge(draftBlogs, reply.value.blogs);
        hasMoreDrafts := pageNum < reply.value.totalPages;
        draftPage := pageNum + 1;
      }
      isLoadingDrafts := false;
    }

    /** `handleUpdate(updated)`: after a successful save the blog replaces its
        entry in the list its `isPublished` names and leaves the other list;
        `succeeded` says whether the request went through. */
    method HandleUpdate(updated: ClientBlog, succeeded: bool)
      modifies this
      ensures !isLoading && editingBlogId == None
      ensures page == old(page) && draftPage == old(draftPage) && hasMore == old(hasMore)
      ensures hasMoreDrafts == old(hasMoreDrafts) && isLoadingDrafts == old(isLoadingDrafts)
      ensures initialLoading == old(initialLoading) && isDeleteModalOpen == old(isDeleteModalOpen)
      ensures !succeeded ==> publishedBlogs == old(publishedBlogs) && draftBlogs == old(draftBlogs)
      ensures succeeded && updated.isPublished ==>
                publishedBlogs == ReplaceById(old(publishedBlogs), updated) && draftBlogs == RemoveById(old(draftBlogs), updated.id)
      ensures succeeded && !updated.isPublished ==>
                draftBlogs == ReplaceById(old(draftBlogs), updated) && publishedBlogs == RemoveById(old(publishedBlogs), updated.id)
    {
      isLoading := true;
      if succeeded {
        if updated.isPublished {
          publishedBlogs := ReplaceById(publishedBlogs, updated);
          draftBlogs := RemoveById(draftBlogs, updated.id);
        } else {
          draftBlogs := ReplaceById(draftBlogs, updated);
          publishedBlogs := RemoveById(publishedBlogs, updated.id);
        }
      }
      isLoading := false;
      editingBlogId := None;
    }

    /** `handleDelete(id)`: after a successful delete the id is gone from both
        lists. */
    method HandleDelete(id: string, succeeded: bool)
      modifies this
      ensures !isLoading && !isDeleteModalOpen
      ensures page == old(page) && draftPage == old(draftPage) && hasMore == old(hasMore)
      ensures hasMoreDrafts == old(hasMoreDrafts) && isLoadingDrafts == old(isLoadingDrafts)
      ensures initialLoading == old(initialLoading) && editingBlogId == old(editingBlogId)
      ensures !succeeded ==> publishedBlogs == old(publishedBlogs) && draftBlogs == old(draftBlogs)
      ensures succeeded ==> publishedBlogs == RemoveById(old(publishedBlogs), id) && draftBlogs == RemoveById(old(draftBlogs), id)
      ensures succeeded ==> !HasId(publishedBlogs, id) && !HasId(draftBlogs, id)
    {
      isLoading := true;
      if succeeded {
        publishedBlogs := RemoveById(publishedBlogs, id);
        draftBlogs := RemoveById(draftBlogs, id);
        RemovedIdAbsent(old(publishedBlogs), id);
        RemovedIdAbsent(old(draftBlogs), id);
      }
      isLoading := false;
      isDeleteModalOpen := false;
    }

    /** `handlePublishSuccess(blogId)`: the draft moves to the front of the
        published list, marked published; an unknown id changes nothing. */
    method HandlePublishSuccess(blogId: string)
      modifies this
      ensures !HasId(old(draftBlogs), blogId) ==> unchanged(this)
      ensures HasId(old(draftBlogs), blogId) ==>
                && draftBlogs == RemoveById(old(draftBlogs), blogId)
                && publishedBlogs == [FindById(old(draftBlogs), blogId).value.(isPublished := true)] + old(publishedBlogs)
                && !HasId(draftBlogs, blogId)
                && page == old(page) && draftPage == old(draftPage) && hasMore == old(hasMore)
                && hasMoreDrafts == old(hasMoreDrafts) && isLoading == old(isLoading)
                && isLoadingDrafts == old(isLoadingDrafts) && initialLoading == old(initialLoading)
                && editingBlogId == old(editingBlogId) && isDeleteModalOpen == old(isDeleteModalOpen)
    {
      var publishedBlog := FindById(draftBlogs, blogId);
      if publishedBlog.Some? {
        var updatedBlog := publishedBlog.value.(isPublished := true);
        RemovedIdAbsent(draftBlogs, blogId);
        draftBlogs := RemoveById(draftBlogs, blogId);
        publishedBlogs := [updatedBlog] + publishedBlogs;
      }
    }
  }

  /** A blog published through `handlePublishSuccess` is at the head of the
      published list and no longer among the drafts; the other drafts stay. */
  method PublishMovesDraft(m: MyBlogs, blogId: string)
    requires HasId(m.draftBlogs, blogId)
    modifies m
    ensures |m.publishedBlogs| == |old(m.publishedBlogs)| + 1
    ensures m.publishedBlogs[0].id == blogId && m.publishedBlogs[0].isPublished
    ensures m.publishedBlogs[1..] == old(m.publishedBlogs)
    ensures forall b :: b in m.draftBlogs <==> b in old(m.draftBlogs) && b.id != blogId
  {
    m.HandlePublishSuccess(blogId);
  }
}
