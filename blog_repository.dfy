/** server/src/repositories/BlogRepository.ts: the Blog collection, its
    paginated, author-joined `find`, and single-document reads and writes. */
module BlogRepo {
  import opened Wrappers
  import opened Text
  import opened Ids
  import opened BlogModel

  /** The query object `find` receives. Only `userId` is read from it. */
  datatype BlogQuery = BlogQuery(isPublished: Option<bool>, userId: Option<Id>)

  /** The default query `{}`. */
  const AnyBlog := BlogQuery(None, None)

  /** Whether a blog passes the filter `query.userId ? { userId } : {}`: a
      non-empty `userId` must equal the blog's author; nothing else is compared. */
  predicate Selects(q: BlogQuery, b: Blog) {
    q.userId.Some? && q.userId.value != "" ==> b.userId == q.userId.value
  }

  /** Without a (non-empty) user every blog passes; with one, exactly that
      user's blogs pass; the `isPublished` field of the query plays no part. */
  lemma SelectsByCases(q: BlogQuery, b: Blog)
    ensures (q.userId.None? || q.userId == Some("")) ==> Selects(q, b)
    ensures q.userId.Some? && q.userId.value != "" ==> (Selects(q, b) <==> b.userId == q.userId.value)
    ensures Selects(q, b) <==> Selects(q.(isPublished := None), b)
  {
  }

  /** The blogs of `s` that the filter keeps, in order. */
  function Filter(s: seq<Blog>, q: BlogQuery): (r: seq<Blog>)
    ensures |r| <= |s|
    ensures forall b :: b in r <==> b in s && Selects(q, b)
  {
    if s == [] then []
    else
      var rest := Filter(s[1..], q);
      assert forall b :: b in s <==> b == s[0] || b in s[1..];
      if Selects(q, s[0]) then [s[0]] + rest else rest
  }

  predicate DistinctIds(s: seq<Blog>) {
    forall i, j :: 0 <= i < j < |s| ==> s[i].id != s[j].id
  }

  /** The first blog's id occurs nowhere else. */
  lemma HeadIdUnique(s: seq<Blog>)
    requires s != [] && DistinctIds(s)
    ensures forall x :: x in s[1..] ==> x.id != s[0].id
  {
    forall x | x in s[1..] ensures x.id != s[0].id {
      var m :| 0 <= m < |s[1..]| && s[1..][m] == x;
      assert s[m + 1] == x;
    }
  }

  lemma ConsDistinct(b: Blog, t: seq<Blog>)
    requires DistinctIds(t) && forall x :: x in t ==> x.id != b.id
    ensures DistinctIds([b] + t)
  {
    var r := [b] + t;
    forall i, j | 0 <= i < j < |r| ensures r[i].id != r[j].id {
      if i == 0 { assert r[j] == t[j - 1]; assert r[j] in t; } else { assert r[i] == t[i - 1] && r[j] == t[j - 1]; }
    }
  }

  /** Filtering keeps ids distinct. */
  lemma {:induction false} FilterDistinct(s: seq<Blog>, q: BlogQuery)
    requires DistinctIds(s)
    ensures DistinctIds(Filter(s, q))
  {
    if s != [] {
      assert DistinctIds(s[1..]);
      FilterDistinct(s[1..], q);
      HeadIdUnique(s);
      if Selects(q, s[0]) {
        ConsDistinct(s[0], Filter(s[1..], q));
      }
    }
  }

  /** `sort({ createdAt: -1 })`. */
  predicate NewestFirst(s: seq<Blog>) {
    forall i, j :: 0 <= i < j < |s| ==> s[i].createdAt >= s[j].createdAt
  }

  /** Inserts `b` into a newest-first list, ahead of the blogs that are not
      newer than it. */
  function Insert(b: Blog, s: seq<Blog>): (r: seq<Blog>)
    ensures |r| == |s| + 1
    ensures multiset(r) == multiset(s) + multiset{b}
  {
    if s == [] || s[0].createdAt <= b.createdAt then [b] + s
    else
      assert s == [s[0]] + s[1..];
      [s[0]] + Insert(b, s[1..])
  }

  /** A blog no older than the head of a newest-first list can go in front. */
  lemma ConsNewestFirst(h: Blog, t: seq<Blog>)
    requires NewestFirst(t) && (t != [] ==> h.createdAt >= t[0].createdAt)
    ensures NewestFirst([h] + t)
  {
    var r := [h] + t;
    forall i, j | 0 <= i < j < |r| ensures r[i].createdAt >= r[j].createdAt {
      if i == 0 {
        assert r[j] == t[j - 1];
      } else {
        assert r[i] == t[i - 1] && r[j] == t[j - 1];
      }
    }
  }

  lemma {:induction false} InsertNewestFirst(b: Blog, s: seq<Blog>)
    requires NewestFirst(s)
    ensures NewestFirst(Insert(b, s))
  {
    if s == [] || s[0].createdAt <= b.createdAt {
      ConsNewestFirst(b, s);
    } else {
      var u := s[1..];
      assert NewestFirst(u);
      InsertNewestFirst(b, u);
      var t := Insert(b, u);
      assert t[0] == (if u == [] || u[0].createdAt <= b.createdAt then b else u[0]);
      assert u != [] ==> u[0] == s[1];
      ConsNewestFirst(s[0], t);
    }
  }

  lemma {:induction false} InsertDistinct(b: Blog, s: seq<Blog>)
    requires DistinctIds(s) && forall x :: x in s ==> x.id != b.id
    ensures DistinctIds(Insert(b, s))
  {
    if s == [] || s[0].createdAt <= b.createdAt {
      ConsDistinct(b, s);
    } else {
      var t := Insert(b, s[1..]);
      assert DistinctIds(s[1..]);
      InsertDistinct(b, s[1..]);
      HeadIdUnique(s);
      forall x | x in t ensures x.id != s[0].id {
        assert x in multiset(t);
      }
      ConsDistinct(s[0], t);
    }
  }

  /** Newest first, with blogs of equal `createdAt` kept in the order of `s`
      (the collection's natural order). */
  function SortNewestFirst(s: seq<Blog>): (r: seq<Blog>)
    ensures multiset(r) == multiset(s)
    ensures |r| == |s|
  {
    if s == [] then []
    else
      assert s == [s[0]] + s[1..];
      Insert(s[0], SortNewestFirst(s[1..]))
  }

  /** The sort keeps exactly the blogs it was given. */
  lemma SortMembers(s: seq<Blog>)
    ensures forall x :: x in SortNewestFirst(s) <==> x in s
  {
    var r := SortNewestFirst(s);
    assert forall x :: x in r <==> x in multiset(r);
  }

  /** The sort orders newest first and keeps ids distinct. */
  lemma {:induction false} SortProperties(s: seq<Blog>)
    ensures NewestFirst(SortNewestFirst(s))
    ensures DistinctIds(s) ==> DistinctIds(SortNewestFirst(s))
    ensures forall x :: x in SortNewestFirst(s) <==> x in s
  {
    var r := SortNewestFirst(s);
    assert forall x :: x in r <==> x in multiset(r);
    if s != [] {
      var t := SortNewestFirst(s[1..]);
      SortProperties(s[1..]);
      InsertNewestFirst(s[0], t);
      if DistinctIds(s) {
        assert DistinctIds(s[1..]);
        HeadIdUnique(s);
        InsertDistinct(s[0], t);
      }
    }
  }

  function Min(a: int, b: int): int {
    if a <= b then a else b
  }

  /** Where `.skip(skip)` starts in a result of `n` blogs. */
  function PageStart(n: nat, skip: nat): nat {
    Min(skip, n)
  }

  /** Where `.limit(limit)` stops: 0 is no limit, a negative limit is a
      single batch of at most `-limit` blogs. */
  function PageEnd(n: nat, skip: nat, limit: int): (e: nat)
    ensures PageStart(n, skip) <= e <= n
  {
    var start := PageStart(n, skip);
    if limit == 0 then n
    else if limit > 0 then Min(start + limit, n)
    else Min(start - limit, n)
  }

  /** The rendering of a possibly negative integer. */
  function IntToString(i: int): string {
    if i < 0 then "-" + NatToString(-i) else NatToString(i)
  }

  /** The database server's message for a negative skip. */
  function NegativeSkipMessage(skip: int): string {
    "BSON field 'skip' value must be >= 0, actual value '" + IntToString(skip) + "'"
  }

  /** `.skip(skip).limit(limit)` on a sorted result. */
  function Window(s: seq<Blog>, skip: int, limit: int): (r: Result<seq<Blog>, Error>)
    ensures r.Failure? <==> skip < 0
    ensures r.Failure? ==> r.error == DbFault(NegativeSkipMessage(skip))
    ensures r.Success? ==> r.value == s[PageStart(|s|, skip)..PageEnd(|s|, skip, limit)]
  {
    if skip < 0 then Failure(DbFault(NegativeSkipMessage(skip)))
    else Success(s[PageStart(|s|, skip)..PageEnd(|s|, skip, limit)])
  }

  function PopulateAll(s: seq<Blog>, users: map<Id, User>): (r: seq<Populated>)
    ensures |r| == |s|
    ensures forall i :: 0 <= i < |s| ==> r[i] == Populate(s[i], users)
  {
    seq(|s|, i requires 0 <= i < |s| => Populate(s[i], users))
  }

  /** What `find` returns: one page of blogs and the number of matches. */
  datatype FindResult = FindResult(blogs: seq<Populated>, total: int)

  /** `find(query, page, limit)` over the collection `coll` (in natural order),
      with the user collection `users` for the author join. */
  function FindSpec(coll: seq<Blog>, users: map<Id, User>, q: BlogQuery, page: int, limit: int): (r: Result<FindResult, Error>)
    ensures r.Failure? <==> (page - 1) * limit < 0
    ensures r.Failure? ==> r.error == Rewrap(NegativeSkipMessage((page - 1) * limit), "Error in BlogRepository find")
    ensures r.Success? ==> r.value.total == |Filter(coll, q)|
    ensures r.Success? ==> forall p :: p in r.value.blogs ==> p.blog in coll && Selects(q, p.blog) && p == Populate(p.blog, users)
    ensures r.Success? && limit > 0 ==> |r.value.blogs| <= limit
  {
    var matching := Filter(coll, q);
    var sorted := SortNewestFirst(matching);
    match Window(sorted, (page - 1) * limit, limit)
    case Failure(e) => Failure(Rewrap(e.message, "Error in BlogRepository find"))
    case Success(w) =>
      SortMembers(matching);
      PageMembers(sorted, PageStart(|sorted|, (page - 1) * limit), PageEnd(|sorted|, (page - 1) * limit, limit), users);
      Success(FindResult(PopulateAll(w, users), |matching|))
  }

  /** Every entry of a populated piece of `s` is a blog of `s` with its author
      joined in. */
  lemma PageMembers(s: seq<Blog>, i: nat, j: nat, users: map<Id, User>)
    requires i <= j <= |s|
    ensures forall p :: p in PopulateAll(s[i..j], users) ==> p.blog in s && p == Populate(p.blog, users)
  {
    var w := s[i..j];
    var r := PopulateAll(w, users);
    forall p | p in r ensures p.blog in s && p == Populate(p.blog, users) {
      var k :| 0 <= k < |r| && r[k] == p;
      assert w[k] == s[i + k];
    }
  }

  lemma ProductNonNegative(a: int, b: int)
    requires a >= 0 && b >= 0
    ensures a * b >= 0
  {
  }

  /** A contiguous piece of a newest-first list is newest first. */
  lemma SliceNewestFirst(s: seq<Blog>, i: nat, j: nat)
    requires i <= j <= |s| && NewestFirst(s)
    ensures NewestFirst(s[i..j])
  {
    var t := s[i..j];
    forall x, y | 0 <= x < y < |t| ensures t[x].createdAt >= t[y].createdAt {
      assert t[x] == s[i + x] && t[y] == s[i + y];
    }
  }

  /** The page `find` returns is the sorted matches from `skip = (page - 1) *
      limit` on, at most `limit` of them; `start` and `end` are its bounds. */
  lemma FindIsSortedSlice(coll: seq<Blog>, users: map<Id, User>, q: BlogQuery, page: int, limit: int)
      returns (start: nat, end: nat)
    requires page >= 1 && limit >= 1
    ensures start == PageStart(|Filter(coll, q)|, (page - 1) * limit)
    ensures end == Min(start + limit, |Filter(coll, q)|)
    ensures start <= end <= |SortNewestFirst(Filter(coll, q))|
    ensures FindSpec(coll, users, q, page, limit).Success?
    ensures FindSpec(coll, users, q, page, limit).value.blogs
            == PopulateAll(SortNewestFirst(Filter(coll, q))[start..end], users)
    ensures NewestFirst(SortNewestFirst(Filter(coll, q)))
  {
    var sorted := SortNewestFirst(Filter(coll, q));
    var skip := (page - 1) * limit;
    ProductNonNegative(page - 1, limit);
    SortProperties(Filter(coll, q));
    start := PageStart(|sorted|, skip);
    end := Min(start + limit, |sorted|);
    assert Window(sorted, skip, limit) == Success(sorted[start..end]);
  }

  /** Each page `find` returns is ordered newest first, whatever page and
      limit it was given (a zero or negative limit included). */
  lemma FindNewestFirst(coll: seq<Blog>, users: map<Id, User>, q: BlogQuery, page: int, limit: int)
    requires FindSpec(coll, users, q, page, limit).Success?
    ensures var page := FindSpec(coll, users, q, page, limit).value.blogs;
            forall i, j :: 0 <= i < j < |page| ==> page[i].blog.createdAt >= page[j].blog.createdAt
  {
    var sorted := SortNewestFirst(Filter(coll, q));
    var skip := (page - 1) * limit;
    SortProperties(Filter(coll, q));
    var start, end := PageStart(|sorted|, skip), PageEnd(|sorted|, skip, limit);
    assert Window(sorted, skip, limit) == Success(sorted[start..end]);
    var w := sorted[start..end];
    SliceNewestFirst(sorted, start, end);
    var r := PopulateAll(w, users);
    assert FindSpec(coll, users, q, page, limit).value.blogs == r;
    forall i, j | 0 <= i < j < |r| ensures r[i].blog.createdAt >= r[j].blog.createdAt {
      assert r[i].blog == w[i] && r[j].blog == w[j];
    }
  }

  /** `find` never reads `isPublished` from its query. */
  lemma FindIgnoresIsPublished(coll: seq<Blog>, users: map<Id, User>, q: BlogQuery, page: int, limit: int, published: Option<bool>)
    ensures FindSpec(coll, users, q, page, limit) == FindSpec(coll, users, q.(isPublished := published), page, limit)
  {
    assert Filter(coll, q) == Filter(coll, q.(isPublished := published)) by {
      FilterIgnoresIsPublished(coll, q, published);
    }
  }

  lemma {:induction false} FilterIgnoresIsPublished(s: seq<Blog>, q: BlogQuery, published: Option<bool>)
    ensures Filter(s, q) == Filter(s, q.(isPublished := published))
  {
    if s != [] {
      FilterIgnoresIsPublished(s[1..], q, published);
    }
  }

  /** Later pages start where earlier ones end. */
  lemma SkipsApart(p1: int, p2: int, limit: int)
    requires 1 <= p1 < p2 && limit >= 1
    ensures 0 <= (p1 - 1) * limit && (p1 - 1) * limit + limit <= (p2 - 1) * limit
  {
    ProductNonNegative(p1 - 1, limit);
    ProductNonNegative(p2 - p1 - 1, limit);
    assert (p2 - 1) * limit == (p1 - 1) * limit + limit + (p2 - p1 - 1) * limit;
  }

  /** Two non-overlapping pieces of a list with distinct ids share no id. */
  lemma SlicesDisjoint(s: seq<Blog>, a1: nat, e1: nat, a2: nat, e2: nat)
    requires DistinctIds(s) && a1 <= e1 <= a2 <= e2 <= |s|
    ensures forall x, y :: x in s[a1..e1] && y in s[a2..e2] ==> x.id != y.id
  {
    forall x, y | x in s[a1..e1] && y in s[a2..e2] ensures x.id != y.id {
      var i :| 0 <= i < e1 - a1 && s[a1..e1][i] == x;
      var j :| 0 <= j < e2 - a2 && s[a2..e2][j] == y;
      assert s[a1 + i] == x && s[a2 + j] == y;
    }
  }

  /** With no write in between, two different pages of the same query share
      no blog. */
  lemma PagesDisjoint(coll: seq<Blog>, users: map<Id, User>, q: BlogQuery, p1: int, p2: int, limit: int)
    requires DistinctIds(coll)
    requires 1 <= p1 < p2 && limit >= 1
    ensures FindSpec(coll, users, q, p1, limit).Success? && FindSpec(coll, users, q, p2, limit).Success?
    ensures var b1 := FindSpec(coll, users, q, p1, limit).value.blogs;
            var b2 := FindSpec(coll, users, q, p2, limit).value.blogs;
            forall i, j :: 0 <= i < |b1| && 0 <= j < |b2| ==> b1[i].blog.id != b2[j].blog.id
  {
    var matching := Filter(coll, q);
    var sorted := SortNewestFirst(matching);
    SkipsApart(p1, p2, limit);
    var a1, e1 := FindIsSortedSlice(coll, users, q, p1, limit);
    var a2, e2 := FindIsSortedSlice(coll, users, q, p2, limit);
    FilterDistinct(coll, q);
    SortProperties(matching);
    SlicesDisjoint(sorted, a1, e1, a2, e2);
    var w1, w2 := sorted[a1..e1], sorted[a2..e2];
    var b1 := FindSpec(coll, users, q, p1, limit).value.blogs;
    var b2 := FindSpec(coll, users, q, p2, limit).value.blogs;
    forall i, j | 0 <= i < |b1| && 0 <= j < |b2| ensures b1[i].blog.id != b2[j].blog.id {
      assert b1[i].blog == w1[i] && b2[j].blog == w2[j];
      assert w1[i] in w1 && w2[j] in w2;
    }
  }

  /** The natural-order listing of the collection. */
  function Listing(order: seq<Id>, blogs: map<Id, Blog>): (s: seq<Blog>)
    requires forall i :: 0 <= i < |order| ==> order[i] in blogs
    ensures |s| == |order| && forall i :: 0 <= i < |order| ==> s[i] == blogs[order[i]]
  {
    seq(|order|, i requires 0 <= i < |order| => blogs[order[i]])
  }

  /** The store's invariant: `order` lists each stored id once, every
      document sits under its own id, and every id was issued before the
      counter `nextSeq`. */
  ghost predicate StoreInvariant(blogs: map<Id, Blog>, order: seq<Id>, nextSeq: nat) {
    && (forall id :: id in blogs <==> id in order)
    && Distinct(order)
    && (forall id :: id in blogs ==> blogs[id].id == id && Issued(id, nextSeq))
  }

  /** Storing a document under the id the counter issues keeps the invariant,
      and that id was not in use. */
  lemma StoreAdd(blogs: map<Id, Blog>, order: seq<Id>, nextSeq: nat, b: Blog)
    requires StoreInvariant(blogs, order, nextSeq) && b.id == IssueId(nextSeq)
    ensures b.id !in blogs
    ensures StoreInvariant(blogs[b.id := b], order + [b.id], nextSeq + 1)
  {
    IssueIdFresh(nextSeq);
    var m, o := blogs[b.id := b], order + [b.id];
    forall i, j | 0 <= i < j < |o| ensures o[i] != o[j] {
      assert o[i] == order[i] && order[i] in blogs;
      if j < |order| {
        assert o[j] == order[j];
      }
    }
    forall id | id in m ensures m[id].id == id && Issued(id, nextSeq + 1) {
      if id != b.id {
        assert m[id] == blogs[id];
      }
    }
    forall id ensures id in m <==> id in o {
      assert id in o <==> id in order || id == b.id;
    }
  }

  /** Removing a document and its id keeps the invariant. */
  lemma StoreRemove(blogs: map<Id, Blog>, order: seq<Id>, nextSeq: nat, id: Id)
    requires StoreInvariant(blogs, order, nextSeq)
    ensures StoreInvariant(blogs - {id}, Without(order, id), nextSeq)
  {
    var m := blogs - {id};
    forall x | x in m ensures m[x].id == x && Issued(x, nextSeq) {
      assert m[x] == blogs[x];
    }
  }

  /** Replacing a document by one with the same id keeps the invariant. */
  lemma StoreReplace(blogs: map<Id, Blog>, order: seq<Id>, nextSeq: nat, b: Blog)
    requires StoreInvariant(blogs, order, nextSeq) && b.id in blogs
    ensures StoreInvariant(blogs[b.id := b], order, nextSeq)
  {
    var m := blogs[b.id := b];
    forall x | x in m ensures m[x].id == x && Issued(x, nextSeq) {
      if x != b.id {
        assert m[x] == blogs[x];
      }
    }
    assert forall x :: x in m <==> x in blogs;
  }

  /** The Blog collection. `blogs` maps ids to documents, `order` is the
      natural (insertion) order that breaks ties of the `createdAt` sort,
      `nextSeq` the id counter, and `users` the User collection that
      `populate` reads; this model never writes users. */
  class BlogRepository {
    var blogs: map<Id, Blog>
    var order: seq<Id>
    var nextSeq: nat
    const users: map<Id, User>

    ghost predicate Valid()
      reads this
    {
      StoreInvariant(blogs, order, nextSeq)
    }

    /** The collection in natural order. */
    function Collection(): (s: seq<Blog>)
      reads this
      requires Valid()
      ensures DistinctIds(s)
      ensures forall b :: b in s <==> b.id in blogs && blogs[b.id] == b
    {
      var s := Listing(order, blogs);
      assert forall b: Blog :: b.id in blogs && blogs[b.id] == b ==> b in s by {
        forall b: Blog | b.id in blogs && blogs[b.id] == b ensures b in s {
          var i :| 0 <= i < |order| && order[i] == b.id;
          assert s[i] == b;
        }
      }
      s
    }

    constructor (users: map<Id, User>)
      ensures Valid() && blogs == map[] && order == [] && this.users == users
    {
      blogs, order, nextSeq := map[], [], 0;
      this.users := users;
    }

    /** `create`: `new Blog(data).save()`. The schema's `required` validator
      rejects an empty required field, and nothing is stored then. */
    method Create(data: NewBlog, now: int) returns (r: Result<Blog, Error>)
      requires Valid()
      modifies this
      ensures Valid()
      ensures MissingRequired(data) != [] ==>
                r == Failure(DbFault(ValidationMessage(MissingRequired(data))))
                && blogs == old(blogs) && order == old(order)
      ensures MissingRequired(data) == [] ==>
                && r.Success? && r.value == Stored(r.value.id, data, now)
                && r.value.id !in old(blogs)
                && blogs == old(blogs)[r.value.id := r.value]
                && order == old(order) + [r.value.id]
    {
      var missing := MissingRequired(data);
      if missing != [] {
        return Failure(DbFault(ValidationMessage(missing)));
      }
      var id := IssueId(nextSeq);
      var b := Stored(id, data, now);
      StoreAdd(blogs, order, nextSeq, b);
      blogs := blogs[id := b];
      order := order + [id];
      nextSeq := nextSeq + 1;
      r := Success(b);
    }

    /** `find(query = {}, page = 1, limit = 10)`. */
    method Find(query: BlogQuery := AnyBlog, page: int := 1, limit: int := 10) returns (r: Result<FindResult, Error>)
      requires Valid()
      ensures r == FindSpec(Collection(), users, query, page, limit)
    {
      r := FindSpec(Collection(), users, query, page, limit);
    }

    /** `findById(id)` with the author joined in, or null. */
    method FindById(id: Id) returns (r: Option<Populated>)
      ensures id in blogs ==> r == Some(Populate(blogs[id], users))
      ensures id !in blogs ==> r == None
    {
      r := if id in blogs then Some(Populate(blogs[id], users)) else None;
    }

    /** `update` (`findByIdAndUpdate(id, data, { new: true })`): the document
      after the update, or null with nothing changed. */
    method Update(id: Id, patch: BlogPatch, now: int) returns (r: Option<Blog>)
      requires Valid()
      modifies this
      ensures Valid() && order == old(order)
      ensures id !in old(blogs) ==> r == None && blogs == old(blogs)
      ensures id in old(blogs) ==> && r == Some(ApplyPatch(old(blogs)[id], patch, now))
                                   && blogs == old(blogs)[id := r.value]
    {
      if id !in blogs {
        return None;
      }
      var b := ApplyPatch(blogs[id], patch, now);
      StoreReplace(blogs, order, nextSeq, b);
      blogs := blogs[id := b];
      r := Some(b);
    }

    /** `delete` (`findByIdAndDelete(id)`): the removed document, or null. */
    method Delete(id: Id) returns (r: Option<Blog>)
      requires Valid()
      modifies this
      ensures Valid()
      ensures id !in old(blogs) ==> r == None && blogs == old(blogs) && order == old(order)
      ensures id in old(blogs) ==> && r == Some(old(blogs)[id])
                                   && blogs == old(blogs) - {id}
                                   && order == Without(old(order), id)
    {
      if id !in blogs {
        return None;
      }
      r := Some(blogs[id]);
      StoreRemove(blogs, order, nextSeq, id);
      blogs := blogs - {id};
      order := Without(order, id);
    }
  }
}
