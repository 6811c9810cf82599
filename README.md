# Blog platform core, modelled in Dafny

This project models the core of a MERN blog platform. On the server, the
Blog schema, a generic Mongoose repository, the Blog repository with its
paginated, author-joined `find`, the blog service and the request guards of
the blog controller are modelled. On the client, four pages are modelled: the
"My Blogs" page that keeps published and draft lists, the public feed, the
login / sign-up form, and the blog details page with its read-time estimate.

Layout, one module per file:

- `wrappers.dfy` (`Wrappers`): `Option`, `Result`, and the thrown `Error`
  with the `err.message || fallback` rethrow.
- `text.dfy` (`Text`): JavaScript string behaviour the core relies on:
  - the `\s` whitespace class and `trim()`;
  - `split(/\s+/)`, with a reference count of words;
  - `parseInt(s, 10)` and decimal rendering;
  - integer `Math.ceil` of a quotient.
- `ids.dfy` (`Ids`): document ids, issued from a counter.
- `blog_model.dfy` (`BlogModel`): covers `server/src/models/blog.model.ts`:
  - the stored blog and the create payload;
  - the `required` validator and the update patch;
  - the `populate` join.
- `generic_repository.dfy` (`GenericRepo`): covers `server/src/repositories/GenericRepository.ts`. It is a class over a map of documents.
- `blog_repository.dfy` (`BlogRepo`): covers `server/src/repositories/BlogRepository.ts`. `find` is a specification function (filter, sort newest first, skip, limit, populate, count). The class keeps the collection and proves its store invariant.
- `blog_service.dfy` (`Service`): covers `server/src/services/blog.service.ts`. It is a class over the Blog repository. The image host is an oracle argument.
- `blog_controller.dfy` (`Controller`): covers `server/src/controllers/blog.controller.ts`. Each handler is a function from its inputs to the replies it sends early and the service call it makes.
- `client_lists.dfy` (`ClientLists`): the list updates the client pages share (merge a page without duplicates, remove by id, replace by id, find by id).
- `my_blogs.dfy`, `home.dfy`, `auth_page.dfy`, `blog_details.dfy`: the page state of `MyBlogs.tsx`, `Home.tsx`, `AuthPage.tsx` and `BlogDetails.tsx`. Each is a class whose methods update the fields the way the React setters do. A request's answer is an argument.

How the system is represented:

- A database fault, an upload result and a server reply are inputs of the
  operation that meets them.
- The clock is the argument `now`.
- `ObjectId.isValid` is the argument `validId`.

## Model

| member | source | states |
|---|---|---|
| Wrappers.Rewrap | server/src/repositories/GenericRepository.ts:15-17 | the rethrown error carries the original message when it is non-empty, the fallback otherwise |
| Text.Trim | server/src/controllers/blog.controller.ts:27 | `trim()` is empty exactly when the string is all whitespace; otherwise it starts and ends with a non-whitespace character |
| Text.TrimIsInfix | server/src/services/blog.service.ts:76-77 | the trimmed string is a contiguous piece of the input, and everything cut off on either side is whitespace |
| Text.TrimmedIsFixed | server/src/services/blog.service.ts:76-77 | a string with no whitespace at either end is left unchanged by `trim()` |
| Text.Split | client/src/pages/BlogDetails.tsx:40 | `split(/\s+/)` yields at least one piece, and no piece holds whitespace |
| Text.WordsOfTrim | server/src/controllers/blog.controller.ts:35 | trimming does not change the words (maximal non-whitespace runs) of a text |
| Text.SplitOfTrimmed | server/src/controllers/blog.controller.ts:35 | on a non-empty text with no whitespace at either end, `split(/\s+/)` gives exactly its words |
| Text.SplitCount | client/src/pages/BlogDetails.tsx:40 | on any non-empty text, the piece count is the word count plus one for leading whitespace and one for trailing whitespace |
| Text.CeilDiv | client/src/pages/BlogDetails.tsx:41 | the quotient `q` satisfies `(q-1)*d < n <= q*d`, the defining bounds of the ceiling |
| Text.CeilQuotient | server/src/services/blog.service.ts:52 | `Math.ceil(total/limit)` is non-finite (None) exactly for a zero limit; otherwise it is the integer ceiling, with signs handled |
| Text.Prefix | server/src/services/blog.service.ts:43 | `slice(0, n)` keeps the first `n` characters, or the whole string when it is shorter |
| Text.NatToString | client/src/pages/BlogDetails.tsx:42 | the rendering of a number is non-empty, all decimal digits, and starts with `0` only for zero |
| Text.ParseInt | server/src/controllers/blog.controller.ts:71-72 | `parseInt(s, 10)` is NaN (None) exactly when no digit follows the leading whitespace and optional sign; otherwise it is the value of the leading digits, negated exactly when the sign is `-` |
| Text.ParseRendered | server/src/controllers/blog.controller.ts:71-72 | `parseInt` reads back the number a decimal rendering was made from, whatever non-digit text follows |
| Text.ParseNegativeRendered | server/src/controllers/blog.controller.ts:71-72 | `parseInt` of `-` followed by a decimal rendering gives the negated number |
| Ids.IssueIdFresh | server/src/repositories/BlogRepository.ts:7-10 | the id a save issues was never issued before, and every earlier id stays issued |
| BlogModel.MissingRequired | server/src/models/blog.model.ts:5-8 | the validator rejects exactly the payloads with an empty title, content, imageUrl or userId |
| BlogModel.Stored | server/src/models/blog.model.ts:4-10 | a saved blog keeps the payload's four fields, carries no `isPublished` and has both timestamps set to the save time |
| BlogModel.ValidationMessage | server/src/models/blog.model.ts:5-8 | the `ValidationError` message starts with "Blog validation failed: " and names the first missing path; for one missing path it is exactly "<path>: Path `<path>` is required." after that prefix |
| BlogModel.OwnedByOtherOfPopulate | server/src/services/blog.service.ts:145-153 | on a populated blog the ownership test refuses exactly when the author still exists and is not the requester; the author never refuses themself |
| BlogModel.ApplyPatch | server/src/repositories/BlogRepository.ts:38-40 | each field the patch gives is set and every other field is kept; `id` and `createdAt` stay and `updatedAt` becomes the update time |
| BlogModel.Populate | server/src/repositories/BlogRepository.ts:35-37 | the author is joined exactly when the referenced user exists, with that user's id, username and email |
| BlogModel.ApplyPatchIdempotent | server/src/services/blog.service.ts:165 | applying the same patch twice at the same time is the same as applying it once |
| GenericRepo.FirstMatch | server/src/repositories/GenericRepository.ts:29-31 | yields a stored document that matches, and none precedes it in natural order; yields nothing exactly when no stored document matches |
| GenericRepo.AllMatching | server/src/repositories/GenericRepository.ts:37-39 | lists only stored matching documents, and every stored matching document |
| GenericRepo.FindAllDefaultListsEverything | server/src/repositories/GenericRepository.ts:37 | with the default empty filter, every stored document is listed and nothing else |
| GenericRepo.GenericRepository.FindById | server/src/repositories/GenericRepository.ts:12-18 | the stored document with that id, or null; a fault is rethrown with the "Unable to find by ID" fallback |
| GenericRepo.GenericRepository.Create | server/src/repositories/GenericRepository.ts:20-27 | stores the data under a fresh id, appended to the natural order, and returns it; when it fails, the store is unchanged and the fault is rethrown with its fallback |
| GenericRepo.GenericRepository.FindOne | server/src/repositories/GenericRepository.ts:29-35 | the first matching document or null; a fault is rethrown with the "Unable to find one" fallback |
| GenericRepo.GenericRepository.FindAll | server/src/repositories/GenericRepository.ts:37-43 | exactly the stored documents that match; a fault is rethrown with the "Unable to find all" fallback |
| GenericRepo.GenericRepository.Update | server/src/repositories/GenericRepository.ts:44-46 | merges the patch into the stored document and returns the value after the update; when no id matches it returns null and changes nothing; a fault is not wrapped |
| GenericRepo.GenericRepository.Delete | server/src/repositories/GenericRepository.ts:48-50 | removes the document and returns it, with all other documents kept; when no id matches it returns null and changes nothing; a fault is not wrapped |
| GenericRepo.CreateFindDelete | server/src/repositories/GenericRepository.ts:12-50 | a created document is found by its id with its data, delete returns that same document, the id is then found no more, and other documents are untouched |
| BlogRepo.Filter | server/src/repositories/BlogRepository.ts:17 | keeps exactly the blogs whose author is the query's non-empty `userId`; everything is kept when there is none |
| BlogRepo.FilterIgnoresIsPublished | server/src/repositories/BlogRepository.ts:17 | the filter is the same whatever `isPublished` the query carries |
| BlogRepo.FilterDistinct | server/src/repositories/BlogRepository.ts:17 | filtering a collection with distinct ids keeps them distinct |
| BlogRepo.Insert | server/src/repositories/BlogRepository.ts:22 | inserting adds exactly one blog (as a multiset) |
| BlogRepo.InsertNewestFirst | server/src/repositories/BlogRepository.ts:22 | inserting into a list ordered newest first keeps it ordered newest first |
| BlogRepo.SortNewestFirst | server/src/repositories/BlogRepository.ts:22 | the sort is a permutation of its input |
| BlogRepo.SortProperties | server/src/repositories/BlogRepository.ts:22 | the sorted list is ordered by `createdAt`, newest first; it has the same members and keeps ids distinct |
| BlogRepo.PageEnd | server/src/repositories/BlogRepository.ts:24 | where `.limit` stops lies between where `.skip` starts and the end of the result |
| BlogRepo.Window | server/src/repositories/BlogRepository.ts:16-24 | `.skip(s).limit(l)` fails exactly on a negative skip, with the server's message; otherwise it is the slice from the skip to the limit's end |
| BlogRepo.PopulateAll | server/src/repositories/BlogRepository.ts:21 | each blog of the page is joined with its author, in order |
| BlogRepo.FindSpec | server/src/repositories/BlogRepository.ts:11-34 | fails exactly when `(page-1)*limit` is negative; otherwise `total` counts every matching blog, each returned blog is a stored, selected, populated blog, and at most `limit` are returned |
| BlogRepo.FindIsSortedSlice | server/src/repositories/BlogRepository.ts:16-24 | for page >= 1 and limit >= 1, the page is the populated slice `[(page-1)*limit, min(+limit, total))` of the matching blogs sorted newest first |
| BlogRepo.SelectsByCases | server/src/repositories/BlogRepository.ts:17 | with no or an empty `userId` every blog passes the filter; with one, exactly that user's blogs pass; the query's `isPublished` plays no part |
| BlogRepo.FindNewestFirst | server/src/repositories/BlogRepository.ts:22 | every page the query answers successfully (any page and limit the database accepts) is ordered by `createdAt`, newest first |
| BlogRepo.FindIgnoresIsPublished | server/src/repositories/BlogRepository.ts:17 | `find` answers the same whatever `isPublished` the query asks for |
| BlogRepo.PagesDisjoint | server/src/repositories/BlogRepository.ts:16-24 | two different pages of the same filter and limit share no blog |
| BlogRepo.StoreAdd | server/src/repositories/BlogRepository.ts:7-10 | storing under the id the counter issues keeps the store invariant, and that id was unused |
| BlogRepo.StoreRemove | server/src/repositories/BlogRepository.ts:41-43 | removing an id keeps the store invariant |
| BlogRepo.StoreReplace | server/src/repositories/BlogRepository.ts:38-40 | replacing a stored blog under its own id keeps the store invariant |
| BlogRepo.BlogRepository.Collection | server/src/repositories/BlogRepository.ts:20 | the collection in natural order holds exactly the stored blogs, each once |
| BlogRepo.BlogRepository.Create | server/src/repositories/BlogRepository.ts:7-10 | a payload missing a required field throws the validation error and stores nothing; otherwise the blog is saved under a fresh id at the end of the natural order |
| BlogRepo.BlogRepository.Find | server/src/repositories/BlogRepository.ts:11-34 | answers what `FindSpec` states over the current collection; the defaults are `{}`, page 1, limit 10 |
| BlogRepo.BlogRepository.FindById | server/src/repositories/BlogRepository.ts:35-37 | the stored blog joined with its author, or null |
| BlogRepo.BlogRepository.Update | server/src/repositories/BlogRepository.ts:38-40 | the blog after the patch, and exactly that change to the store; null and no change when the id is unknown |
| BlogRepo.BlogRepository.Delete | server/src/repositories/BlogRepository.ts:41-43 | the removed blog, now gone from the store and the order; null and no change when the id is unknown |
| Service.ListQuery | server/src/services/blog.service.ts:29-32 | the query carries `isPublished` as given, and `userId` exactly when it is truthy |
| Service.Preview | server/src/services/blog.service.ts:41-44 | the content becomes its first `min(100, length)` characters, and every other field and the author stay as found |
| Service.Previews | server/src/services/blog.service.ts:41-44 | every listed blog is shaped by the preview rule, in order |
| Service.ListSpec | server/src/services/blog.service.ts:17-58 | fails exactly on a negative skip; on success the previews of the found page are returned, `total` counts every matching blog, `page` is echoed and `totalPages` is the ceiling of `total/limit` |
| Service.MorePagesIffMoreBlogs | server/src/services/blog.service.ts:52 | for limit >= 1, `p < totalPages` exactly when blogs remain after page `p` |
| Service.ListedAreTruncatedStored | server/src/services/blog.service.ts:35-44 | every listed blog is a stored blog with its content cut to at most 100 characters, authored by the requester when a `userId` is given |
| Service.CreatePayload | server/src/services/blog.service.ts:75-80 | the payload is the trimmed title and content, the uploaded URL and the requester |
| Service.UpdatePatch | server/src/services/blog.service.ts:111-114 | the patch is the given title and content, with the requester as author and no `isPublished` |
| Service.BlogService.GetAllBlogs | server/src/services/blog.service.ts:17-58 | answers what `ListSpec` states over the current collection |
| Service.BlogService.CreateBlogs | server/src/services/blog.service.ts:59-89 | throws before uploading on a missing title or content, and before saving on a failed upload; otherwise it saves exactly the trimmed payload under a fresh id, or throws the validation error; on every failure nothing is stored |
| Service.BlogService.GetBlog | server/src/services/blog.service.ts:91-99 | "Cannot find Blog" for an unknown id; otherwise the whole, untruncated stored blog with its author, with `ok: false` |
| Service.BlogService.UpdateBlog | server/src/services/blog.service.ts:100-134 | an unknown requester throws; the upload is asked only when a file came and a failed upload throws; an unknown blog throws; otherwise the patch (the requester as author, the new URL when there is one) is applied, with no ownership check |
| Service.BlogService.DeleteBlog | server/src/services/blog.service.ts:135-159 | an unknown blog throws; a blog whose populated author is someone else throws and stays; otherwise it is removed |
| Service.BlogService.BlogPublish | server/src/services/blog.service.ts:160-170 | an unknown requester or blog throws and changes nothing; otherwise the blog gets `isPublished: true`, with no ownership check |
| Service.CreateThenGet | server/src/services/blog.service.ts:59-99 | a blog created through the service is found again by `getBlog`, whole, with its trimmed content |
| Service.PublishTwice | server/src/services/blog.service.ts:160-170 | publishing again with the same `now` succeeds again and leaves the store as the first call left it; a later republish moves `updatedAt` |
| Service.RepublishSameStore | server/src/services/blog.service.ts:165 | applying the publish patch again with the same `now` leaves the store unchanged; at a later time only `updatedAt` would differ |
| Controller.WordCount | server/src/controllers/blog.controller.ts:35 | `content.trim().split(/\s+/).length` is at least 1, even for blank content |
| Controller.WordCountIsWords | server/src/controllers/blog.controller.ts:35 | once the content has text, `content.trim().split(/\s+/).length` is its number of words |
| Controller.QueryInt | server/src/controllers/blog.controller.ts:69-72 | an absent parameter is parsed from its default, a present one from its own text; a present but empty one (`?page=`) is NaN and does not fall back to the default |
| Controller.CreateBlog | server/src/controllers/blog.controller.ts:13-56 | checks, in order, the user (401), title and content (400), at least 50 words (400) and the file (400); the first failure decides the reply, and otherwise the service gets the trimmed title and content |
| Controller.GetAllBlogsHandler | server/src/controllers/blog.controller.ts:67-91 | a page that does not parse to at least 1 is refused first, then such a limit; a call is made exactly when nothing was sent, asking for published blogs with the parsed values |
| Controller.DefaultsParse | server/src/controllers/blog.controller.ts:69-72 | the default strings "1" and "10" parse to 1 and 10 |
| Controller.GetAllBlogsDefaults | server/src/controllers/blog.controller.ts:69 | without query parameters, page 1 of 10 published blogs is asked for |
| Controller.NegativePageRefused | server/src/controllers/blog.controller.ts:71-81 | a negative page such as `?page=-3` is refused with "Invalid page number" |
| Controller.GetAllBlogsAcceptsRendered | server/src/controllers/blog.controller.ts:71-91 | a page and limit of at least 1, written in decimal, pass the guards unchanged |
| Controller.GetUserBlogs | server/src/controllers/blog.controller.ts:118-124 | no guard: the parsed page and limit are forwarded for the requester's published blogs |
| Controller.DraftedBlogs | server/src/controllers/blog.controller.ts:210-216 | no guard: the parsed page and limit are forwarded for the requester's blogs with `isPublished: false` |
| Controller.UserAndDraftListsDiffer | server/src/controllers/blog.controller.ts:118-223 | the two listing handlers make the same call except for the `isPublished` flag |
| Controller.UpdateBlogHandler | server/src/controllers/blog.controller.ts:136-172 | checks, in order, a valid id, then title and content, then at least 50 words; it forwards the title and content untrimmed |
| Controller.DeleteBlogHandler | server/src/controllers/blog.controller.ts:184-197 | an empty or invalid id is refused; otherwise the service is called |
| Controller.PublishBlogHandler | server/src/controllers/blog.controller.ts:225-233 | an invalid id is refused with "Blog Id is required"; otherwise the service is called |
| Controller.GetBlogDetails | server/src/controllers/blog.controller.ts:103-111 | an invalid id sends "Blog id is required" with status 200 and still calls `getBlog`; a valid id only calls it |
| Controller.SuccessStatus | server/src/controllers/blog.controller.ts:56 | the success status is 201 from `createBlog` and 200 from every other handler; the body sent with it is the service's answer, except that `getAllBlogs` wraps it as `{ ok: true, data }` (line 93) |
| Controller.FailureReply | server/src/controllers/blog.controller.ts:57-238 | a thrown error is sent with 500 and its message, with the fallbacks of `createBlog` and `deleteBlog`; `ok: false` is present except in the three handlers that omit it |
| Controller.CreateGuardsDecideOnce | server/src/controllers/blog.controller.ts:17-56 | either one refusal with `ok: false` is sent and the service is not called, or nothing is sent and it is called |
| Controller.UpdateGuardsDecideOnce | server/src/controllers/blog.controller.ts:142-172 | either one 400 refusal is sent and the service is not called, or nothing is sent and it is called |
| ClientLists.NewOnes | client/src/pages/MyBlogs.tsx:55-57 | keeps exactly the fetched blogs whose id the previous list lacks; when none of the fetched ids is known it is the fetched page itself, in its order; a one-blog page is kept unless its id is known |
| ClientLists.NewOnesConcat | client/src/pages/MyBlogs.tsx:55-57 | filtering a page is filtering each of its parts in turn, so the kept blogs stay in fetched order |
| ClientLists.Merge | client/src/pages/MyBlogs.tsx:54-59 | the previous list stays as a prefix, and what follows is exactly the fetched blogs with an unknown id; when no fetched id is known the result is the previous list followed by the page, in order |
| ClientLists.MergeIds | client/src/pages/Home.tsx:39-45 | the merged list holds an id exactly when the previous list or the page holds it |
| ClientLists.NewOnesUnique | client/src/pages/Home.tsx:41-43 | the blogs added from a page with distinct ids have distinct ids |
| ClientLists.MergeUnique | client/src/pages/Home.tsx:39-45 | merging a page with distinct ids into a list with distinct ids keeps the ids distinct |
| ClientLists.MergeIdempotent | client/src/pages/Home.tsx:40-44 | merging the same page a second time (an overlapping fetch) changes nothing |
| ClientLists.RemoveById | client/src/pages/MyBlogs.tsx:189-190 | the kept entries are exactly those with a different id; a one-entry list is kept or emptied by its id |
| ClientLists.RemoveByIdConcat | client/src/pages/MyBlogs.tsx:189-190 | removal distributes over concatenation, so the kept entries stay in their order with their repeats |
| ClientLists.RemovedIdAbsent | client/src/pages/MyBlogs.tsx:189-190 | after the removal no entry has the id |
| ClientLists.RemoveAbsent | client/src/pages/MyBlogs.tsx:169 | removing an id that no entry has leaves the list as it is |
| ClientLists.ReplaceById | client/src/pages/MyBlogs.tsx:166-168 | the same length, with every entry that has the updated blog's id replaced by it and the rest kept |
| ClientLists.ReplaceKeepsIds | client/src/pages/MyBlogs.tsx:165-175 | replacement keeps every id in place, adds no blog the list lacked, and keeps the ids distinct |
| ClientLists.FindById | client/src/pages/MyBlogs.tsx:201 | finds nothing exactly when no entry has the id; otherwise finds the first entry with that id |
| MyBlogsPage.MyBlogs.constructor | client/src/pages/MyBlogs.tsx:29-41 | empty lists, page 1 of each, more to load, initial loading |
| MyBlogsPage.MyBlogs.FetchBlogs | client/src/pages/MyBlogs.tsx:46-71 | nothing changes while loading or when no pages are left; otherwise page `pageNum` of 5 is asked for and a reply is merged in, setting `hasMore = pageNum < totalPages` and `page = pageNum + 1`; loading ends either way and the drafts are untouched |
| MyBlogsPage.MyBlogs.FetchDrafts | client/src/pages/MyBlogs.tsx:73-103 | the same guard, merge and counters on the drafts only |
| MyBlogsPage.MyBlogs.HandleUpdate | client/src/pages/MyBlogs.tsx:160-182 | after a save, the blog replaces its entry in the list `isPublished` names and leaves the other list; a failed save changes no list; loading ends and the editor closes |
| MyBlogsPage.MyBlogs.HandleDelete | client/src/pages/MyBlogs.tsx:184-198 | after a delete, the id is gone from both lists and every other entry stays; the modal closes |
| MyBlogsPage.MyBlogs.HandlePublishSuccess | client/src/pages/MyBlogs.tsx:199-207 | the draft leaves the drafts and heads the published list with `isPublished: true`; an unknown id changes nothing |
| MyBlogsPage.PublishMovesDraft | client/src/pages/MyBlogs.tsx:199-207 | the published list grows by one at its head, which is the published draft, and the drafts lose exactly that id |
| HomePage.LoadError | client/src/pages/Home.tsx:51 | the thrown message, or "Failed to load blogs" when the message is empty |
| HomePage.Home.constructor | client/src/pages/Home.tsx:19-28 | no blogs, page 1, more to load, not loading, no error, first mount ahead |
| HomePage.Home.FetchBlogs | client/src/pages/Home.tsx:30-58 | nothing changes while loading or when no pages are left; otherwise page `pageNum` of one blog is asked for; a reply is merged in and moves the counters, while a failure keeps the blogs and sets the error; loading ends either way |
| HomePage.Home.OnMount | client/src/pages/Home.tsx:60-65 | the first run clears the first-mount flag and, unless a load is running or nothing more is left, fetches page 1 with the state `fetchBlogs` then leaves (merged list, next page, `hasMore` from the total, or the error); every later run changes nothing |
| HomePage.MountTwice | client/src/pages/Home.tsx:60-65 | of two runs of the mount effect, only the first asks for a page |
| AuthPage.Validate | client/src/pages/AuthPage.tsx:26-45 | the first failing check, in order: email, password, then in sign-up mode the username and a length of at least 6; none fails exactly when all pass |
| AuthPage.LoginIgnoresUsernameAndLength | client/src/pages/AuthPage.tsx:36-45 | in login mode the username and the password's length play no part |
| AuthPage.SignupLengthCountsSpaces | client/src/pages/AuthPage.tsx:41 | with the other fields filled in, sign-up is allowed exactly when the password as typed has at least 6 characters, so padding with spaces passes a password shorter than 6 once trimmed |
| AuthPage.FailureText | client/src/pages/AuthPage.tsx:55-70 | a refused request shows the server's message or the mode's fallback; a throw shows its message or "Authentication failed" |
| AuthPage.AuthForm.constructor | client/src/pages/AuthPage.tsx:10-16 | login mode, empty fields, no error |
| AuthPage.AuthForm.HandleSubmit | client/src/pages/AuthPage.tsx:20-74 | a failed check sets its message, sends nothing and keeps the fields; otherwise the mode's request is sent; an accepted sign-up switches to login, keeps the email and clears password and username; a refusal or throw sets the failure text; loading ends on every path |
| AuthPage.AuthForm.ToggleMode | client/src/pages/AuthPage.tsx:76-83 | the other mode, with error, sign-up flag and every field cleared |
| AuthPage.SignupThenLogin | client/src/pages/AuthPage.tsx:58-64 | after an accepted sign-up, retyping the password sends a login request with the email used at sign-up |
| BlogDetailsPage.ReadMinutes | client/src/pages/BlogDetails.tsx:38-41 | at least one minute, and the ceiling of the piece count over 200 |
| BlogDetailsPage.ReadTimeLabel | client/src/pages/BlogDetails.tsx:38-43 | the label ends in " min read", and `parseInt` reads the estimated minutes back off it |
| BlogDetailsPage.EmptyTakesAMinute | client/src/pages/BlogDetails.tsx:40-41 | the empty text splits into one piece and reads in one minute |
| BlogDetailsPage.ReadMinutesCountsWords | client/src/pages/BlogDetails.tsx:40 | the count is the word count, plus one for each end of the text that is whitespace |
| BlogDetailsPage.MinuteBoundary | client/src/pages/BlogDetails.tsx:39-41 | 200 pieces read in one minute, 201 in two |
| BlogDetailsPage.BlogDetails.constructor | client/src/pages/BlogDetails.tsx:9-11 | no blog, no error, loading |
| BlogDetailsPage.BlogDetails.FetchBlog | client/src/pages/BlogDetails.tsx:13-35 | a missing or empty id sets "Invalid blog ID" and sends no request; otherwise the blog is requested; an answer sets the blog to its `blog` field (nothing when it has none, so a loaded blog is cleared) and clears the error, while a failure sets the fixed message; loading ends on every path |

## Left out

- Service.BlogService.GetAllBlogs: takes integer page and limit. `getUserBlogs` and `draftedBlogs` can forward `NaN`, and how Mongoose treats a `NaN` skip or limit is library behaviour that is not modelled.
- BlogModel.ApplyPatch: writes `isPublished` although the schema does not declare it. Mongoose's strict mode, which drops undeclared keys, is not modelled.
- BlogRepo.BlogRepository.Find: assumes the database fails only on a negative skip. Connection faults and a `CastError` for a malformed `userId` are not modelled.
- Database faults on `findById`, `update`, `delete` and `save` in `BlogRepository.ts` are not modelled. One example is a `CastError` for a malformed id. Only the schema validator's rejection is modelled. In `GenericRepository.ts` a fault is an argument.
- Service.Preview: cuts after 100 characters (code points). `slice(0, 100)` counts UTF-16 code units, which differ for characters outside the Basic Multilingual Plane.
- Text.ParseInt: reads digits into an unbounded integer. JavaScript's `parseInt` yields an IEEE double, which rounds past 2^53 (`"9007199254740993"` reads as 9007199254740992), so its claims, and the read-back of `Text.ParseRendered`, hold as JavaScript behaviour only below 2^53.
- BlogRepo.FindSpec: computes the skip `(page - 1) * limit` exactly. In the source it is a double, and the database takes a 64-bit skip, so the result holds only while the product stays below 2^53 in size.
- BlogRepo.NegativeSkipMessage: the text of the database's refusal of a negative skip is an assumption about the MongoDB server's error message; the repository's code does not contain it.
- Controller.SuccessStatus: only the status of a success is a value of the model; the body of a success reply (the service's answer, or `{ ok: true, data }` in `getAllBlogs`) is not modelled.
- Text.CeilQuotient: integer ceiling in place of the floating-point `Math.ceil(total / limit)`. A zero limit gives no number, where JavaScript gives `Infinity` or `NaN`.
- Text.IsSpace: covers the characters of the JavaScript `\s` class and of `trim()`. Strings are sequences of characters, with no UTF-16 surrogates.
- The image host (`CloudinaryService.uploadImage`) is an oracle argument: a URL, or nothing for an upload that resolves without a `secure_url` (`server/src/config/cloudnary.ts:23`).
- An upload error is not modelled. Cloudinary's error makes `uploadImage` reject with `null` (`server/src/config/cloudnary.ts:19-21`), so `createBlogs` and `updateBlog` throw `null`. The controllers' `catch` blocks then read `err.message` of `null` (`blog.controller.ts:57-62`, `175-179`), which throws again inside the handler, and no reply is sent.
- Ids are decimal strings issued from a counter, not 12-byte ObjectIds. `ObjectId.isValid` is the argument `validId`.
- BlogRepo.SortNewestFirst: breaks ties between equal `createdAt` values by a fixed order. The database does not promise that order.
- The User repository is a read-only map from id to username and email. The model does not write to it.
- `Promise.all` in `find` is modelled as two reads of the same collection. A write that lands between the page read and the count is not modelled.
- Service calls run one at a time. A concurrent write between one service's repository calls is not modelled. So the "Failed to delete blog" branch of `deleteBlog` (`server/src/services/blog.service.ts:154-157`), which another delete landing between `findById` and `delete` would reach, is unreachable in `Service.BlogService.DeleteBlog`.
- The dependency injection wiring, Express routing (which handlers it reaches is noted under "Behaviour as written") and `sendResponse`'s `res.status().json` are left out. The replies are values.
- Sending a second response after `getBlogDetails` has already replied is an Express runtime error. It appears here only as two entries in the handler's outcome.
- Toasts, `console` output, navigation, JSX, `handleLogout`, `handleObserver` and the IntersectionObserver are UI and are left out.
- `login(response.user)` in `AuthPage.tsx` appears only as the `loggedIn` result.
- React state setters take effect here at once and in call order. Stale closures, such as the `draftBlogs` value captured by `handlePublishSuccess`, and batching are not modelled.
- The client HTTP wrappers (`fetchUserBlogs`, `updateBlog`, `deleteBlog`, `getBlogById`, `loginUser`, `registerUser`) are not part of this model. Their answers are arguments.
- MyBlogsPage.MyBlogs.FetchBlogs: a failed fetch shows a toast only, so the failure case states no error field. The same holds for `FetchDrafts`, `HandleUpdate` and `HandleDelete`.

## Behaviour as written

These follow the code as written. Each one is stated by the member named.

- `updateBlog` and `blogPublish` do not check that the requester owns the blog. `updateBlog` also makes the requester the author (`Service.BlogService.UpdateBlog`, `Service.BlogService.BlogPublish`).
- The Blog repository's filter ignores `isPublished`. For the same author, page and limit, published and draft listings therefore return the same blogs (`BlogRepo.FindIgnoresIsPublished`).
- `getBlog` answers a successful lookup with `ok: false` (`Service.BlogService.GetBlog`).
- `getBlogDetails` does not return after refusing an invalid id: it still calls the service and sends again (`Controller.GetBlogDetails`).
- `server/src/routes/blog.routes.ts:12-17` routes only POST `/`, GET `/`, GET `/user`, and GET, PUT and DELETE `/:blogId`. No route reaches `publishBlog` or `draftedBlogs`, so `Controller.PublishBlogHandler`, `Controller.DraftedBlogs`, `Controller.UserAndDraftListsDiffer` and `Service.BlogService.BlogPublish` describe code that HTTP requests cannot reach.
- `MyBlogs.tsx:7` imports `fetchUserDrafts` from `client/src/services/blog.service.ts`, which neither defines nor exports it (its export list is at line 74). The import cannot resolve, so the call at `MyBlogs.tsx:79` cannot succeed: at best it throws into the toast-only catch. The success case of `MyBlogsPage.MyBlogs.FetchDrafts` therefore describes an answer the program as written never receives.
- `deleteBlog` skips the ownership check when the author no longer exists, because the populated author is `null` (`BlogModel.OwnedByOther`, `Service.BlogService.DeleteBlog`).
- The sign-up length check counts whitespace around the password (`AuthPage.SignupLengthCountsSpaces`).
- The read time counts whitespace at either end of the content as one extra piece each, and the empty text takes one minute (`BlogDetailsPage.ReadMinutesCountsWords`, `BlogDetailsPage.EmptyTakesAMinute`).
