/** client/src/pages/BlogDetails.tsx: one blog's page, its load, and the
    read-time estimate shown with it. */
module BlogDetailsPage {
  import opened Wrappers
  import opened Text
  import opened ClientLists

  /** The reading speed the estimate assumes. */
  const WordsPerMinute := 200

  /** `Math.ceil(content.split(/\s+/).length / 200)`. */
  function ReadMinutes(content: string): (m: nat)
    ensures m >= 1
    ensures (m - 1) * WordsPerMinute < |Split(content)| <= m * WordsPerMinute
  {
    var q := CeilDiv(|Split(content)|, WordsPerMinute);
    assert 0 < q * WordsPerMinute;
    q
  }

  /** `${minutes} min read`; the minutes can be read back off it. */
  function ReadTimeLabel(content: string): (shown: string)
    ensures ParseInt(shown) == Some(ReadMinutes(content))
    ensures |shown| > 9 && shown[|shown| - 9..] == " min read"
  {
    ParseRendered(ReadMinutes(content), " min read");
    NatToString(ReadMinutes(content)) + " min read"
  }

  /** Even the empty text takes a minute: it splits into one empty piece. */
  lemma EmptyTakesAMinute()
    ensures |Split("")| == 1 && ReadMinutes("") == 1
  {
  }

  /** For text without whitespace at either end the estimate counts its
      words; whitespace at an end counts as one more piece each. */
  lemma ReadMinutesCountsWords(content: string)
    requires content != ""
    ensures Trimmed(content) ==> |Split(content)| == |Words(content)|
    ensures |Split(content)| == |Words(content)| + (if IsSpace(content[0]) then 1 else 0)
                                                + (if IsSpace(content[|content| - 1]) then 1 else 0)
  {
    SplitCount(content);
  }

  /** 200 pieces read in one minute, 201 take two. */
  lemma MinuteBoundary(a: string, b: string)
    requires |Split(a)| == 200 && |Split(b)| == 201
    ensures ReadMinutes(a) == 1 && ReadMinutes(b) == 2
  {
    assert ReadMinutes(a) == CeilDiv(200, WordsPerMinute);
    assert ReadMinutes(b) == CeilDiv(201, WordsPerMinute);
  }

  class BlogDetails {
    var blog: Option<ClientBlog>
    var error: Option<string>
    var isLoading: bool

    /** The initial state: nothing loaded, loading. */
    constructor ()
      ensures blog == None && error == None && isLoading
    {
      blog, error, isLoading := None, None, true;
    }

    /** `fetchBlog` for the route parameter `id`; `reply` is the `blog` field
        of the answer (`None` when the answer carries none, as a 200 reply
        `{ msg }` does) or the error thrown. `requested` says whether a
        request was sent. */
    method FetchBlog(id: Option<string>, reply: Result<Option<ClientBlog>, string>) returns (requested: bool)
      modifies this
      ensures !isLoading
      ensures requested <==> Truthy(id)
      ensures !Truthy(id) ==> error == Some("Invalid blog ID") && blog == old(blog)
      ensures Truthy(id) && reply.Success? ==> blog == reply.value && error == None
      ensures Truthy(id) && reply.Failure? ==>
                blog == old(blog) && error == Some("Failed to load blog. Please try again later.")
    {
      if !Truthy(id) {
        error := Some("Invalid blog ID");
        isLoading := false;
        return false;
      }
      requested := true;
      isLoading := true;
      match reply {
        case Success(b) =>
          blog := b;
          error := None;
        case Failure(_) =>
          error := Some("Failed to load blog. Please try again later.");
      }
      isLoading := false;
    }
  }
}
