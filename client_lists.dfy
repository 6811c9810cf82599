/** The list updates the client pages share (client/src/pages/MyBlogs.tsx and
    client/src/pages/Home.tsx): appending a fetched page without duplicates,
    removing a blog by id, and replacing a blog by id. */
module ClientLists {
  import opened Wrappers

  /** A blog as the client holds it (`IBlog`). */
  datatype ClientBlog = ClientBlog(id: string, title: string, content: string, imageUrl: string, isPublished: bool)

  /** One page of a listing reply: its blogs and `totalPages`. */
  datatype PageReply = PageReply(blogs: seq<ClientBlog>, totalPages: int)

  /** A listing request: the page and the page size asked for. */
  datatype PageRequest = PageRequest(page: int, limit: int)

  /** `s.some(blog => blog._id === id)`. */
  predicate HasId(s: seq<ClientBlog>, id: string) {
    exists i :: 0 <= i < |s| && s[i].id == id
  }

  predicate UniqueIds(s: seq<ClientBlog>) {
    forall i, j :: 0 <= i < j < |s| ==> s[i].id != s[j].id
  }

  /** The fetched blogs whose id `prev` does not hold, in fetched order. */
  function NewOnes(prev: seq<ClientBlog>, fetched: seq<ClientBlog>): (r: seq<ClientBlog>)
    ensures |r| <= |fetched|
    ensures forall b :: b in r <==> b in fetched && !HasId(prev, b.id)
    ensures (forall b :: b in fetched ==> !HasId(prev, b.id)) ==> r == fetched
    ensures |fetched| == 1 ==> r == if HasId(prev, fetched[0].id) then [] else fetched
  {
    if fetched == [] then []
    else
      var rest := NewOnes(prev, fetched[1..]);
      assert forall b :: b in fetched <==> b == fetched[0] || b in fetched[1..];
      if HasId(prev, fetched[0].id) then rest else [fetched[0]] + rest
  }

  /** `[...prev, ...fetched.filter(b => !prev.some(p => p._id === b._id))]`. */
  function Merge(prev: seq<ClientBlog>, fetched: seq<ClientBlog>): (r: seq<ClientBlog>)
    ensures |prev| <= |r| <= |prev| + |fetched|
    ensures r[..|prev|] == prev
    ensures forall b :: b in r[|prev|..] <==> b in fetched && !HasId(prev, b.id)
    ensures (forall b :: b in fetched ==> !HasId(prev, b.id)) ==> r == prev + fetched
  {
    var r := prev + NewOnes(prev, fetched);
    assert r[|prev|..] == NewOnes(prev, fetched);
    r
  }

  /** The new blogs of two pages read back to back are those of the first
      followed by those of the second: the filter keeps the fetched order. */
  lemma {:induction false} NewOnesConcat(prev: seq<ClientBlog>, a: seq<ClientBlog>, b: seq<ClientBlog>)
    ensures NewOnes(prev, a + b) == NewOnes(prev, a) + NewOnes(prev, b)
  {
    if a != [] {
      var ab := a + b;
      assert ab[0] == a[0] && ab[1..] == a[1..] + b;
      NewOnesConcat(prev, a[1..], b);
      if HasId(prev, a[0].id) {
        assert NewOnes(prev, ab) == NewOnes(prev, ab[1..]);
        assert NewOnes(prev, a) == NewOnes(prev, a[1..]);
      } else {
        assert NewOnes(prev, ab) == [a[0]] + NewOnes(prev, ab[1..]);
        assert NewOnes(prev, a) == [a[0]] + NewOnes(prev, a[1..]);
      }
    } else {
      assert a + b == b;
    }
  }

  /** Every id the merge holds comes from `prev` or from `fetched`, and every
      fetched id ends up in it. */
  lemma MergeIds(prev: seq<ClientBlog>, fetched: seq<ClientBlog>, id: string)
    ensures HasId(Merge(prev, fetched), id) <==> HasId(prev, id) || HasId(fetched, id)
  {
    var r := Merge(prev, fetched);
    if HasId(r, id) && !HasId(prev, id) {
      var i :| 0 <= i < |r| && r[i].id == id;
      assert i >= |prev|;
      assert r[i] == r[|prev|..][i - |prev|];
      assert r[i] in fetched;
      var j :| 0 <= j < |fetched| && fetched[j] == r[i];
    }
    if HasId(fetched, id) && !HasId(prev, id) {
      var j :| 0 <= j < |fetched| && fetched[j].id == id;
      assert fetched[j] in r[|prev|..];
      var k :| 0 <= k < |r[|prev|..]| && r[|prev|..][k] == fetched[j];
      assert r[|prev| + k].id == id;
    }
    if HasId(prev, id) {
      var i :| 0 <= i < |prev| && prev[i].id == id;
      assert r[i] == prev[i];
    }
  }

  /** Merging a page with distinct ids into a list with distinct ids keeps
      the ids distinct. */
  /** A blog kept from the tail of a page with distinct ids does not share
      the id of the page's first blog. */
  lemma LaterIdDiffers(prev: seq<ClientBlog>, fetched: seq<ClientBlog>, b: ClientBlog)
    requires fetched != [] && UniqueIds(fetched)
    requires b in NewOnes(prev, fetched[1..])
    ensures b.id != fetched[0].id
  {
    assert b in fetched[1..];
    var m :| 0 <= m < |fetched[1..]| && fetched[1..][m] == b;
    assert fetched[m + 1] == b;
  }

  lemma {:induction false} NewOnesUnique(prev: seq<ClientBlog>, fetched: seq<ClientBlog>)
    requires UniqueIds(fetched)
    ensures UniqueIds(NewOnes(prev, fetched))
  {
    if fetched != [] {
      var rest := NewOnes(prev, fetched[1..]);
      assert UniqueIds(fetched[1..]);
      NewOnesUnique(prev, fetched[1..]);
      if !HasId(prev, fetched[0].id) {
        var r := [fetched[0]] + rest;
        forall i, j | 0 <= i < j < |r| ensures r[i].id != r[j].id {
          if i == 0 {
            assert r[j] == rest[j - 1];
            LaterIdDiffers(prev, fetched, rest[j - 1]);
          } else {
            assert r[i] == rest[i - 1] && r[j] == rest[j - 1];
          }
        }
      }
    }
  }

  lemma MergeUnique(prev: seq<ClientBlog>, fetched: seq<ClientBlog>)
    requires UniqueIds(prev) && UniqueIds(fetched)
    ensures UniqueIds(Merge(prev, fetched))
  {
    var n := NewOnes(prev, fetched);
    NewOnesUnique(prev, fetched);
    var r := prev + n;
    forall i, j | 0 <= i < j < |r| ensures r[i].id != r[j].id {
      if j >= |prev| && i < |prev| {
        assert r[j] == n[j - |prev|] && n[j - |prev|] in n;
        assert !HasId(prev, r[j].id);
        assert r[i] == prev[i];
      } else if i >= |prev| {
        assert r[i] == n[i - |prev|] && r[j] == n[j - |prev|];
      }
    }
  }

  /** Merging the same page a second time changes nothing. */
  lemma MergeIdempotent(prev: seq<ClientBlog>, fetched: seq<ClientBlog>)
    ensures Merge(Merge(prev, fetched), fetched) == Merge(prev, fetched)
  {
    var m := Merge(prev, fetched);
    forall b | b in fetched ensures HasId(m, b.id) {
      var j :| 0 <= j < |fetched| && fetched[j] == b;
      MergeIds(prev, fetched, b.id);
    }
    NewOnesAllKnown(m, fetched);
    assert m + [] == m;
  }

  /** A page whose every id is already held adds nothing. */
  lemma {:induction false} NewOnesAllKnown(prev: seq<ClientBlog>, fetched: seq<ClientBlog>)
    requires forall b :: b in fetched ==> HasId(prev, b.id)
    ensures NewOnes(prev, fetched) == []
  {
    if fetched != [] {
      assert fetched[0] in fetched;
      assert forall b :: b in fetched[1..] ==> b in fetched;
      NewOnesAllKnown(prev, fetched[1..]);
    }
  }

  /** `s.filter(blog => blog._id !== id)`. */
  function RemoveById(s: seq<ClientBlog>, id: string): (r: seq<ClientBlog>)
    ensures |r| <= |s|
    ensures forall b :: b in r <==> b in s && b.id != id
    ensures |s| == 1 ==> r == if s[0].id == id then [] else s
  {
    if s == [] then []
    else
      var rest := RemoveById(s[1..], id);
      assert forall b :: b in s <==> b == s[0] || b in s[1..];
      if s[0].id == id then rest else [s[0]] + rest
  }

  /** Removal works piece by piece: the kept entries stay in their order,
      repeats included. */
  lemma {:induction false} RemoveByIdConcat(a: seq<ClientBlog>, b: seq<ClientBlog>, id: string)
    ensures RemoveById(a + b, id) == RemoveById(a, id) + RemoveById(b, id)
  {
    if a != [] {
      var ab := a + b;
      assert ab[0] == a[0] && ab[1..] == a[1..] + b;
      RemoveByIdConcat(a[1..], b, id);
      if a[0].id == id {
        assert RemoveById(ab, id) == RemoveById(ab[1..], id);
        assert RemoveById(a, id) == RemoveById(a[1..], id);
      } else {
        assert RemoveById(ab, id) == [a[0]] + RemoveById(ab[1..], id);
        assert RemoveById(a, id) == [a[0]] + RemoveById(a[1..], id);
      }
    } else {
      assert a + b == b;
    }
  }

  /** After removal no entry has the id. */
  lemma RemovedIdAbsent(s: seq<ClientBlog>, id: string)
    ensures !HasId(RemoveById(s, id), id)
  {
    var r := RemoveById(s, id);
    forall i | 0 <= i < |r| ensures r[i].id != id {
      assert r[i] in r;
    }
  }

  /** Removing an id nobody has changes nothing. */
  lemma {:induction false} RemoveAbsent(s: seq<ClientBlog>, id: string)
    requires !HasId(s, id)
    ensures RemoveById(s, id) == s
  {
    if s != [] {
      assert s[0].id != id;
      assert !HasId(s[1..], id) by {
        forall i | 0 <= i < |s[1..]| ensures s[1..][i].id != id {
          assert s[1..][i] == s[i + 1];
        }
      }
      RemoveAbsent(s[1..], id);
      assert s == [s[0]] + s[1..];
    }
  }

  /** `s.map(blog => blog._id === x._id ? x : blog)`. */
  function ReplaceById(s: seq<ClientBlog>, x: ClientBlog): (r: seq<ClientBlog>)
    ensures |r| == |s|
    ensures forall i :: 0 <= i < |s| ==> r[i] == if s[i].id == x.id then x else s[i]
  {
    seq(|s|, i requires 0 <= i < |s| => if s[i].id == x.id then x else s[i])
  }

  /** Replacing keeps every id where it was, so a blog that is not in the
      list is not added. */
  lemma ReplaceKeepsIds(s: seq<ClientBlog>, x: ClientBlog)
    ensures forall i :: 0 <= i < |s| ==> ReplaceById(s, x)[i].id == s[i].id
    ensures !HasId(s, x.id) ==> ReplaceById(s, x) == s
    ensures UniqueIds(s) ==> UniqueIds(ReplaceById(s, x))
  {
  }

  /** `s.find(blog => blog._id === id)`. */
  function FindById(s: seq<ClientBlog>, id: string): (r: Option<ClientBlog>)
    ensures r.None? <==> !HasId(s, id)
    ensures r.Some? ==> r.value in s && r.value.id == id
    ensures r.Some? ==> exists k :: 0 <= k < |s| && s[k] == r.value && forall i :: 0 <= i < k ==> s[i].id != id
  {
    if s == [] then None
    else if s[0].id == id then Some(s[0])
    else
      var rest := FindById(s[1..], id);
      assert HasId(s[1..], id) ==> HasId(s, id) by {
        if HasId(s[1..], id) {
          var i :| 0 <= i < |s[1..]| && s[1..][i].id == id;
          assert s[i + 1].id == id;
        }
      }
      assert HasId(s, id) ==> HasId(s[1..], id) by {
        if HasId(s, id) {
          var i :| 0 <= i < |s| && s[i].id == id;
          assert i > 0 && s[1..][i - 1].id == id;
        }
      }
      assert rest.Some? ==> exists k :: 0 <= k < |s| && s[k] == rest.value && forall i :: 0 <= i < k ==> s[i].id != id by {
        if rest.Some? {
          var k :| 0 <= k < |s[1..]| && s[1..][k] == rest.value && forall i :: 0 <= i < k ==> s[1..][i].id != id;
          assert s[k + 1] == rest.value;
          forall i | 0 <= i < k + 1 ensures s[i].id != id {
            if i > 0 { assert s[i] == s[1..][i - 1]; }
          }
        }
      }
      rest
  }
}
