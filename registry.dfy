/** The `suspectiveBlogs` dictionary and the three callbacks that fill it:
    registration of the suspects found on the directory pages, replacement
    of each blog's post list, and the fold of the per-post spam results.
    The dictionary maps an alias to a `Blog` record; the order in which
    `Object.keys` lists the aliases is their insertion order, kept in `keys`. */
module Registry {
  import opened Wrappers
  import opened Alias
  import opened Pages
  import opened Comments

  /** The record kept for one blog. */
  datatype Blog = Blog(
    lastPostPublished: int,
    analyzedPosts: seq<Post>,
    analyzedComments: nat,
    spamComments: nat,
    spamLinks: seq<string>)

  /** The dictionary as a value: its entries and its aliases in insertion order. */
  datatype Table = Table(blogs: map<string, Blog>, keys: seq<string>)

  predicate NoDuplicates<T(==)>(s: seq<T>) {
    forall i, j :: 0 <= i < j < |s| ==> s[i] != s[j]
  }

  /** The key list names every entry once and nothing else. */
  ghost predicate WellFormed(t: Table) {
    && NoDuplicates(t.keys)
    && (forall a :: a in t.blogs <==> a in t.keys)
  }

  /** The spam bookkeeping of a blog: no entry repeats, there are no more
      entries than spam comments and no more spam comments than comments. */
  ghost predicate SpamBounded(b: Blog) {
    && NoDuplicates(b.spamLinks)
    && |b.spamLinks| <= b.spamComments <= b.analyzedComments
  }

  /** Every entry's spam bookkeeping is bounded. */
  ghost predicate AllBounded(t: Table) {
    forall a :: a in t.blogs ==> SpamBounded(t.blogs[a])
  }

  /** The concatenation of a sequence of sequences, in order. */
  function Flatten<T>(xss: seq<seq<T>>): (r: seq<T>)
    decreases |xss|
  {
    if xss == [] then [] else xss[0] + Flatten(xss[1..])
  }

  /** An element occurs in the concatenation exactly when it occurs in one of the parts. */
  lemma {:induction false} FlattenMembers<T>(xss: seq<seq<T>>, x: T)
    ensures x in Flatten(xss) <==> exists i :: 0 <= i < |xss| && x in xss[i]
    decreases |xss|
  {
    if xss != [] {
      var tail := xss[1..];
      FlattenMembers(tail, x);
      assert Flatten(xss) == xss[0] + Flatten(tail);
      if x in Flatten(tail) {
        var i :| 0 <= i < |tail| && x in tail[i];
        assert x in xss[i + 1];
      }
      if exists i :: 0 <= i < |xss| && x in xss[i] {
        var i :| 0 <= i < |xss| && x in xss[i];
        if i > 0 {
          assert x in tail[i - 1];
        }
      }
    }
  }

  lemma {:induction false} FlattenSnoc<T>(xss: seq<seq<T>>, xs: seq<T>)
    ensures Flatten(xss + [xs]) == Flatten(xss) + xs
    decreases |xss|
  {
    if xss == [] {
      assert [] + [xs] == [xs];
    } else {
      assert (xss + [xs])[1..] == xss[1..] + [xs];
      FlattenSnoc(xss[1..], xs);
    }
  }

  // ---------------------------------------------------------------------
  // Stage 1: registration of the suspects (the first `.then` callback).
  // ---------------------------------------------------------------------

  /** The entry a blog gets when it is first seen. */
  function NewBlog(days: int): Blog {
    Blog(days, [], 0, 0, [])
  }

  /** One suspect: a new alias gets a new entry; a known alias keeps its entry. */
  function Registered(t: Table, s: Suspect): Table {
    if s.alias in t.blogs then t
    else Table(t.blogs[s.alias := NewBlog(s.lastPostPublished)], t.keys + [s.alias])
  }

  /** The suspects in order. */
  function RegisteredAll(t: Table, ss: seq<Suspect>): Table
    decreases |ss|
  {
    if ss == [] then t else RegisteredAll(Registered(t, ss[0]), ss[1..])
  }

  /** Some suspect has alias `a`. */
  ghost predicate Sighted(ss: seq<Suspect>, a: string) {
    exists i :: 0 <= i < |ss| && ss[i].alias == a
  }

  /** A blog is sighted among the suspects exactly when it is the first
      one's or is sighted among the rest. */
  lemma SightedTail(ss: seq<Suspect>)
    requires ss != []
    ensures forall a :: Sighted(ss, a) <==> a == ss[0].alias || Sighted(ss[1..], a)
  {
    forall a ensures Sighted(ss, a) <==> a == ss[0].alias || Sighted(ss[1..], a) {
      if Sighted(ss, a) && a != ss[0].alias {
        var i :| 0 <= i < |ss| && ss[i].alias == a;
        assert ss[1..][i - 1].alias == a;
      }
      if Sighted(ss[1..], a) {
        var i :| 0 <= i < |ss[1..]| && ss[1..][i].alias == a;
        assert ss[i + 1].alias == a;
      }
    }
  }

  /** The position of the first suspect of the blog `a`, or `|ss|`. */
  function FirstSighting(ss: seq<Suspect>, a: string): (k: nat)
    ensures k <= |ss|
    ensures k < |ss| ==> ss[k].alias == a
    ensures forall j :: 0 <= j < k ==> ss[j].alias != a
    decreases |ss|
  {
    if ss == [] then 0
    else if ss[0].alias == a then 0
    else
      var k := FirstSighting(ss[1..], a);
      assert forall j :: 1 <= j < k + 1 ==> ss[j] == ss[1..][j - 1];
      k + 1
  }

  lemma RegisteredWellFormed(t: Table, s: Suspect)
    requires WellFormed(t)
    ensures WellFormed(Registered(t, s))
  {
  }

  /** Registration keeps the key list a list of the entries without repeats. */
  lemma {:induction false} RegisteredAllWellFormed(t: Table, ss: seq<Suspect>)
    requires WellFormed(t)
    ensures WellFormed(RegisteredAll(t, ss))
    decreases |ss|
  {
    if ss != [] {
      RegisteredWellFormed(t, ss[0]);
      RegisteredAllWellFormed(Registered(t, ss[0]), ss[1..]);
    }
  }

  /** After registration the aliases are those known before and those of the
      suspects; entries known before are unchanged, and the key list only grows
      at its end. */
  lemma {:induction false} RegisteredAllDomain(t: Table, ss: seq<Suspect>)
    ensures var r := RegisteredAll(t, ss);
      && (forall a :: a in r.blogs <==> a in t.blogs || Sighted(ss, a))
      && (forall a :: a in t.blogs ==> r.blogs[a] == t.blogs[a])
      && |t.keys| <= |r.keys| && r.keys[..|t.keys|] == t.keys
    decreases |ss|
  {
    if ss != [] {
      var u := Registered(t, ss[0]);
      RegisteredAllDomain(u, ss[1..]);
      SightedTail(ss);
      var r := RegisteredAll(u, ss[1..]);
      assert r.keys[..|t.keys|] == r.keys[..|u.keys|][..|t.keys|];
    }
  }

  /** Registration only appends keys. */
  lemma {:induction false} RegisteredAllKeysPrefix(t: Table, ss: seq<Suspect>)
    ensures var r := RegisteredAll(t, ss);
      |t.keys| <= |r.keys| && r.keys[..|t.keys|] == t.keys
    decreases |ss|
  {
    if ss != [] {
      var u := Registered(t, ss[0]);
      RegisteredAllKeysPrefix(u, ss[1..]);
      var r := RegisteredAll(u, ss[1..]);
      assert r.keys[..|t.keys|] == r.keys[..|u.keys|][..|t.keys|];
    }
  }

  /** The keys registration appends to those of `t`. */
  ghost function AddedKeys(t: Table, ss: seq<Suspect>): seq<string> {
    RegisteredAllKeysPrefix(t, ss);
    RegisteredAll(t, ss).keys[|t.keys|..]
  }

  /** The first suspect's alias is appended when it is new, before the keys the others append. */
  lemma AddedKeysStep(t: Table, ss: seq<Suspect>)
    requires ss != []
    ensures AddedKeys(t, ss) ==
      (if ss[0].alias in t.blogs then [] else [ss[0].alias]) + AddedKeys(Registered(t, ss[0]), ss[1..])
  {
    var u := Registered(t, ss[0]);
    var r := RegisteredAll(u, ss[1..]);
    RegisteredAllKeysPrefix(u, ss[1..]);
    assert RegisteredAll(t, ss) == r;
    assert r.keys[|t.keys|..] == r.keys[|t.keys|..|u.keys|] + r.keys[|u.keys|..];
    if ss[0].alias !in t.blogs {
      assert r.keys[|t.keys|..|u.keys|] == u.keys[|t.keys|..] == [ss[0].alias];
    }
  }

  /** The keys registration appends are exactly the aliases not known before
      that some suspect has. */
  lemma {:induction false} AddedKeysNew(t: Table, ss: seq<Suspect>)
    ensures forall a :: a in AddedKeys(t, ss) <==> a !in t.blogs && Sighted(ss, a)
    decreases |ss|
  {
    if ss != [] {
      AddedKeysStep(t, ss);
      AddedKeysNew(Registered(t, ss[0]), ss[1..]);
      SightedTail(ss);
    }
  }

  /** The aliases `ks` are listed in the order of their first sightings. */
  ghost predicate InSightingOrder(ss: seq<Suspect>, ks: seq<string>) {
    forall i, j :: 0 <= i < j < |ks| ==> FirstSighting(ss, ks[i]) < FirstSighting(ss, ks[j])
  }

  /** Aliases in sighting order among the later suspects stay in order when
      the first suspect is put in front, and its own alias can go first. */
  lemma SightingOrderCons(ss: seq<Suspect>, ks: seq<string>)
    requires ss != [] && InSightingOrder(ss[1..], ks)
    requires forall k :: 0 <= k < |ks| ==> ks[k] != ss[0].alias
    ensures InSightingOrder(ss, ks) && InSightingOrder(ss, [ss[0].alias] + ks)
  {
    forall k | 0 <= k < |ks| ensures FirstSighting(ss, ks[k]) == FirstSighting(ss[1..], ks[k]) + 1 {
    }
    var longer := [ss[0].alias] + ks;
    forall i, j | 0 <= i < j < |longer| ensures FirstSighting(ss, longer[i]) < FirstSighting(ss, longer[j]) {
      assert longer[j] == ks[j - 1];
      if i > 0 {
        assert longer[i] == ks[i - 1];
      }
    }
  }

  /** The keys registration appends come in the order of their first
      sightings: the order in which `Object.keys` lists them, and so the
      order of the stage 2 and stage 3 requests and of the report. */
  lemma {:induction false} AddedKeysInSightingOrder(t: Table, ss: seq<Suspect>)
    ensures InSightingOrder(ss, AddedKeys(t, ss))
    decreases |ss|
  {
    if ss != [] {
      var u := Registered(t, ss[0]);
      var later := AddedKeys(u, ss[1..]);
      AddedKeysStep(t, ss);
      AddedKeysInSightingOrder(u, ss[1..]);
      AddedKeysNew(u, ss[1..]);
      forall k | 0 <= k < |later| ensures later[k] != ss[0].alias {
        assert later[k] in later;
      }
      SightingOrderCons(ss, later);
      if ss[0].alias in t.blogs {
        assert AddedKeys(t, ss) == later;
      } else {
        assert AddedKeys(t, ss) == [ss[0].alias] + later;
      }
    }
  }

  /** The first sighting of an alias fixes its entry: the days of that
      suspect, no posts, no spam, zero counters. Later sightings change nothing. */
  lemma {:induction false} RegisteredAllFirstSighting(t: Table, ss: seq<Suspect>, i: int)
    requires 0 <= i < |ss| && ss[i].alias !in t.blogs
    requires forall j :: 0 <= j < i ==> ss[j].alias != ss[i].alias
    ensures var r := RegisteredAll(t, ss);
      ss[i].alias in r.blogs && r.blogs[ss[i].alias] == NewBlog(ss[i].lastPostPublished)
    decreases |ss|
  {
    var u := Registered(t, ss[0]);
    var a := ss[i].alias;
    RegisteredAllDomain(u, ss[1..]);
    if i > 0 {
      assert ss[0].alias != a;
      forall j | 0 <= j < i - 1 ensures ss[1..][j].alias != a {
        assert ss[1..][j] == ss[j + 1];
      }
      RegisteredAllFirstSighting(u, ss[1..], i - 1);
    }
  }

  /** Every entry has gone longer than `threshold` days without a post. */
  ghost predicate Abandoned(t: Table, threshold: int) {
    forall a :: a in t.blogs ==> t.blogs[a].lastPostPublished > threshold
  }

  /** Registering suspects that are all abandoned keeps every entry
      abandoned, and the new entries' spam bookkeeping (all empty) is bounded. */
  lemma {:induction false} RegisteredAllAbandoned(t: Table, ss: seq<Suspect>, threshold: int)
    requires Abandoned(t, threshold) && AllBounded(t)
    requires forall k :: 0 <= k < |ss| ==> ss[k].lastPostPublished > threshold
    ensures Abandoned(RegisteredAll(t, ss), threshold)
    ensures AllBounded(RegisteredAll(t, ss))
    decreases |ss|
  {
    if ss != [] {
      assert forall k :: 0 <= k < |ss[1..]| ==> ss[1..][k] == ss[k + 1];
      RegisteredAllAbandoned(Registered(t, ss[0]), ss[1..], threshold);
    }
  }

  // ---------------------------------------------------------------------
  // Stage 2: the post list of each blog (the second `.then` callback).
  // ---------------------------------------------------------------------

  /** One blog's candidate posts: an empty list is ignored; otherwise the
      alias of the first post's address names the entry whose list is
      replaced. `None` where the script throws a TypeError: the alias cannot
      be read, or it has no entry (`undefined.analyzedPosts = ...`). */
  function WithPosts(t: Table, posts: seq<Post>): Option<Table> {
    if posts == [] then Some(t)
    else
      match GetAlias(posts[0].uri)
      case None => None
      case Some(alias) =>
        if alias in t.blogs then Some(t.(blogs := t.blogs[alias := t.blogs[alias].(analyzedPosts := posts)]))
        else None
  }

  /** The post lists in order, stopping at the first that throws. */
  function WithAllPosts(t: Table, lists: seq<seq<Post>>): Option<Table>
    decreases |lists|
  {
    if lists == [] then Some(t)
    else
      match WithPosts(t, lists[0])
      case None => None
      case Some(u) => WithAllPosts(u, lists[1..])
  }

  /** A blog's record apart from its post list. */
  function Unposted(b: Blog): Blog {
    b.(analyzedPosts := [])
  }

  /** `r` has the keys of `t`, and each entry differs from `t`'s at most in its post list. */
  ghost predicate SameButPosts(t: Table, r: Table) {
    && r.keys == t.keys
    && (forall a :: a in r.blogs <==> a in t.blogs)
    && (forall a :: a in t.blogs ==> Unposted(r.blogs[a]) == Unposted(t.blogs[a]))
  }

  /** Assigning post lists changes only post lists. */
  lemma {:induction false} WithAllPostsKeeps(t: Table, lists: seq<seq<Post>>)
    requires WithAllPosts(t, lists).Some?
    ensures SameButPosts(t, WithAllPosts(t, lists).value)
    decreases |lists|
  {
    if lists != [] {
      var u := WithPosts(t, lists[0]).value;
      assert SameButPosts(t, u);
      WithAllPostsKeeps(u, lists[1..]);
    }
  }

  /** What registration established survives the post lists: the keys, the
      days since the last post and the spam bookkeeping. */
  lemma SameButPostsKeeps(t: Table, r: Table, threshold: int)
    requires SameButPosts(t, r)
    ensures WellFormed(t) ==> WellFormed(r)
    ensures Abandoned(t, threshold) ==> Abandoned(r, threshold)
    ensures AllBounded(t) ==> AllBounded(r)
  {
    forall a | a in r.blogs
      ensures r.blogs[a].lastPostPublished == t.blogs[a].lastPostPublished
      ensures SpamBounded(r.blogs[a]) == SpamBounded(t.blogs[a])
    {
      assert Unposted(r.blogs[a]) == Unposted(t.blogs[a]);
    }
  }

  /** A blog that some list names gets that list; one no list names keeps its posts. */
  lemma {:induction false} WithPostsAssigns(t: Table, posts: seq<Post>)
    requires WithPosts(t, posts).Some? && posts != []
    ensures var r := WithPosts(t, posts).value;
      && GetAlias(posts[0].uri).Some? && GetAlias(posts[0].uri).value in t.blogs
      && r.blogs[GetAlias(posts[0].uri).value].analyzedPosts == posts
      && forall a :: a in t.blogs && a != GetAlias(posts[0].uri).value ==> r.blogs[a] == t.blogs[a]
  {
  }

  // ---------------------------------------------------------------------
  // Stage 3: the spam results of the posts (the third `.then` callback).
  // ---------------------------------------------------------------------

  /** The position of the first post with address `uri`, or `|posts|`. */
  function FirstIndex(posts: seq<Post>, uri: string): (idx: nat)
    ensures idx <= |posts|
    ensures idx < |posts| ==> posts[idx].uri == uri
    ensures forall k :: 0 <= k < idx ==> posts[k].uri != uri
    decreases |posts|
  {
    if posts == [] then 0
    else if posts[0].uri == uri then 0
    else
      var k := FirstIndex(posts[1..], uri);
      assert forall j :: 1 <= j < k + 1 ==> posts[j] == posts[1..][j - 1];
      k + 1
  }

  /** The first post with address `uri` marked as spammed. */
  function MarkSpammed(posts: seq<Post>, uri: string): seq<Post> {
    var idx := FirstIndex(posts, uri);
    if idx < |posts| then posts[idx := posts[idx].(spammed := true)] else posts
  }

  /** Marking sets the flag on the first post with the address and on no other. */
  lemma MarkSpammedOnlyFirst(posts: seq<Post>, uri: string)
    ensures var r := MarkSpammed(posts, uri);
      && |r| == |posts|
      && forall k :: 0 <= k < |posts| ==>
        && r[k].uri == posts[k].uri
        && (r[k].spammed <==> posts[k].spammed || (posts[k].uri == uri && forall j :: 0 <= j < k ==> posts[j].uri != uri))
  {
    var idx := FirstIndex(posts, uri);
    forall k | 0 <= k < |posts| && k != idx && posts[k].uri == uri
      ensures exists j :: 0 <= j < k && posts[j].uri == uri
    {
      assert idx < k;
    }
  }

  /** `links` followed by each entry of `added` that is not yet present, in order. */
  function AddMissing(links: seq<string>, added: seq<string>): seq<string>
    decreases |added|
  {
    if added == [] then links
    else AddMissing(if added[0] in links then links else links + [added[0]], added[1..])
  }

  /** Appending missing entries keeps the old list as a prefix, adds at most
      the new entries, and holds exactly the entries of both. */
  lemma {:induction false} AddMissingContents(links: seq<string>, added: seq<string>)
    ensures var r := AddMissing(links, added);
      && |links| <= |r| <= |links| + |added|
      && r[..|links|] == links
      && forall x :: x in r <==> x in links || x in added
    decreases |added|
  {
    if added != [] {
      var next := if added[0] in links then links else links + [added[0]];
      AddMissingContents(next, added[1..]);
      var r := AddMissing(next, added[1..]);
      assert r[..|links|] == r[..|next|][..|links|];
      assert forall x :: x in added <==> x == added[0] || x in added[1..];
    }
  }

  /** A list without repeats stays without repeats. */
  lemma {:induction false} AddMissingNoDuplicates(links: seq<string>, added: seq<string>)
    requires NoDuplicates(links)
    ensures NoDuplicates(AddMissing(links, added))
    decreases |added|
  {
    if added != [] {
      var next := if added[0] in links then links else links + [added[0]];
      AddMissingNoDuplicates(next, added[1..]);
    }
  }

  /** An entry that was absent and is among the new ones is present exactly once afterwards. */
  lemma AddMissingOnce(links: seq<string>, added: seq<string>, x: string)
    requires NoDuplicates(links) && x !in links && x in added
    ensures var r := AddMissing(links, added);
      exists k :: 0 <= k < |r| && r[k] == x && forall j :: 0 <= j < |r| && r[j] == x ==> j == k
  {
    AddMissingContents(links, added);
    AddMissingNoDuplicates(links, added);
    var r := AddMissing(links, added);
    var k :| 0 <= k < |r| && r[k] == x;
    assert forall j :: 0 <= j < |r| && r[j] == x ==> j == k;
  }

  /** One post's result folded into its blog: both counters grow; when the
      post has spam, its first matching post is marked and its spam entries
      are added without repeats. */
  function MergedBlog(b: Blog, result: PostResult): Blog {
    var counted := b.(analyzedComments := b.analyzedComments + result.totalComments,
                      spamComments := b.spamComments + |result.spamLinks|);
    if |result.spamLinks| > 0 then
      counted.(analyzedPosts := MarkSpammed(b.analyzedPosts, result.uri),
               spamLinks := AddMissing(b.spamLinks, result.spamLinks))
    else counted
  }

  /** One post's result: `None` where the alias of its address cannot be read
      (the script throws); a result for an alias without an entry is ignored. */
  function Merged(t: Table, result: PostResult): Option<Table> {
    match GetAlias(result.uri)
    case None => None
    case Some(alias) =>
      if alias in t.blogs then Some(t.(blogs := t.blogs[alias := MergedBlog(t.blogs[alias], result)]))
      else Some(t)
  }

  /** The results in order, stopping at the first that throws. */
  function MergedAll(t: Table, results: seq<PostResult>): Option<Table>
    decreases |results|
  {
    if results == [] then Some(t)
    else
      match Merged(t, results[0])
      case None => None
      case Some(u) => MergedAll(u, results[1..])
  }

  /** The counters grow by exactly the post's comments and spam comments; the
      days, the post addresses and (without spam) everything else stay. */
  lemma MergedBlogCounters(b: Blog, result: PostResult)
    ensures var m := MergedBlog(b, result);
      && m.analyzedComments == b.analyzedComments + result.totalComments
      && m.spamComments == b.spamComments + |result.spamLinks|
      && m.lastPostPublished == b.lastPostPublished
      && |m.analyzedPosts| == |b.analyzedPosts|
      && (forall k :: 0 <= k < |b.analyzedPosts| ==> m.analyzedPosts[k].uri == b.analyzedPosts[k].uri)
      && (|result.spamLinks| == 0 ==> m.analyzedPosts == b.analyzedPosts && m.spamLinks == b.spamLinks)
  {
    MarkSpammedOnlyFirst(b.analyzedPosts, result.uri);
  }

  /** A result for an alias without an entry leaves the dictionary as it is;
      one whose alias cannot be read stops the fold. */
  lemma MergedUnregistered(t: Table, result: PostResult)
    ensures Merged(t, result).None? <==> GetAlias(result.uri).None?
    ensures GetAlias(result.uri).Some? && GetAlias(result.uri).value !in t.blogs ==> Merged(t, result) == Some(t)
  {
  }

  /** Folding in one result changes only the entry of its own blog. */
  lemma MergedOthersUnchanged(t: Table, result: PostResult)
    requires Merged(t, result).Some?
    ensures var r := Merged(t, result).value;
      && r.keys == t.keys
      && (forall a :: a in r.blogs <==> a in t.blogs)
      && forall a :: a in t.blogs && Some(a) != GetAlias(result.uri) ==> r.blogs[a] == t.blogs[a]
  {
  }

  /** A post result reports no more spam comments than comments. */
  ghost predicate Plausible(result: PostResult) {
    |result.spamLinks| <= result.totalComments
  }

  lemma MergedBlogBounded(b: Blog, result: PostResult)
    requires SpamBounded(b) && Plausible(result)
    ensures SpamBounded(MergedBlog(b, result))
  {
    if |result.spamLinks| > 0 {
      AddMissingContents(b.spamLinks, result.spamLinks);
      AddMissingNoDuplicates(b.spamLinks, result.spamLinks);
    }
  }

  /** `r` has the keys of `t`, and each entry's days since the last post. */
  ghost predicate SameBlogs(t: Table, r: Table) {
    && r.keys == t.keys
    && (forall a :: a in r.blogs <==> a in t.blogs)
    && (forall a :: a in t.blogs ==> r.blogs[a].lastPostPublished == t.blogs[a].lastPostPublished)
  }

  /** Across the whole fold the keys and each blog's days stay. */
  lemma {:induction false} MergedAllKeeps(t: Table, results: seq<PostResult>)
    requires MergedAll(t, results).Some?
    ensures SameBlogs(t, MergedAll(t, results).value)
    decreases |results|
  {
    if results != [] {
      var u := Merged(t, results[0]).value;
      MergedOthersUnchanged(t, results[0]);
      var alias := GetAlias(results[0].uri).value;
      if alias in t.blogs {
        MergedBlogCounters(t.blogs[alias], results[0]);
      }
      assert SameBlogs(t, u);
      MergedAllKeeps(u, results[1..]);
    }
  }

  /** Across the whole fold of plausible results every blog keeps
      `spamComments <= analyzedComments`, with its spam entries distinct and
      no more of them than spam comments. */
  lemma {:induction false} MergedAllBounded(t: Table, results: seq<PostResult>)
    requires AllBounded(t) && MergedAll(t, results).Some?
    requires forall k :: 0 <= k < |results| ==> Plausible(results[k])
    ensures AllBounded(MergedAll(t, results).value)
    decreases |results|
  {
    if results != [] {
      var u := Merged(t, results[0]).value;
      MergedOthersUnchanged(t, results[0]);
      var alias := GetAlias(results[0].uri).value;
      if alias in t.blogs {
        MergedBlogBounded(t.blogs[alias], results[0]);
      }
      assert AllBounded(u);
      assert forall k :: 0 <= k < |results[1..]| ==> results[1..][k] == results[k + 1];
      MergedAllBounded(u, results[1..]);
    }
  }

  /** `fewer` pairs up with `more` result by result: the same post, the same
      number of comments, and no more spam entries. */
  ghost predicate FewerSpam(fewer: seq<PostResult>, more: seq<PostResult>) {
    && |fewer| == |more|
    && forall k :: 0 <= k < |fewer| ==>
      && fewer[k].uri == more[k].uri
      && fewer[k].totalComments == more[k].totalComments
      && |fewer[k].spamLinks| <= |more[k].spamLinks|
  }

  /** `l` has the keys and aliases of `s`, and each blog the same days and
      comments analysed but no more spam comments. */
  ghost predicate LessSpam(l: Table, s: Table) {
    && l.keys == s.keys
    && (forall a :: a in l.blogs <==> a in s.blogs)
    && forall a :: a in s.blogs ==>
      && l.blogs[a].lastPostPublished == s.blogs[a].lastPostPublished
      && l.blogs[a].analyzedComments == s.blogs[a].analyzedComments
      && l.blogs[a].spamComments <= s.blogs[a].spamComments
  }

  /** Folding results with fewer spam entries into a dictionary with less
      spam stops at the same result, and otherwise still gives less spam. */
  lemma {:induction false} MergedAllLessSpam(l: Table, s: Table, fewer: seq<PostResult>, more: seq<PostResult>)
    requires LessSpam(l, s) && FewerSpam(fewer, more)
    ensures MergedAll(l, fewer).Some? <==> MergedAll(s, more).Some?
    ensures MergedAll(l, fewer).Some? ==> LessSpam(MergedAll(l, fewer).value, MergedAll(s, more).value)
    decreases |fewer|
  {
    if fewer != [] {
      var f, m := fewer[0], more[0];
      match GetAlias(m.uri)
      case None =>
        assert Merged(l, f).None? && Merged(s, m).None?;
      case Some(alias) =>
        var l', s' := Merged(l, f).value, Merged(s, m).value;
        if alias in s.blogs {
          MergedBlogCounters(l.blogs[alias], f);
          MergedBlogCounters(s.blogs[alias], m);
        }
        assert LessSpam(l', s');
        forall k | 0 <= k < |fewer| - 1
          ensures && fewer[1..][k].uri == more[1..][k].uri
                  && fewer[1..][k].totalComments == more[1..][k].totalComments
                  && |fewer[1..][k].spamLinks| <= |more[1..][k].spamLinks|
        {
          assert fewer[1..][k] == fewer[k + 1] && more[1..][k] == more[k + 1];
        }
        MergedAllLessSpam(l', s', fewer[1..], more[1..]);
    }
  }

  // ---------------------------------------------------------------------
  // The dictionary itself, updated in place by the three callbacks.
  // ---------------------------------------------------------------------

  /** `findspamblogs`'s `suspectiveBlogs` object. */
  class SuspectiveBlogs {
    var blogs: map<string, Blog>
    var keys: seq<string>

    function Model(): Table
      reads this
    {
      Table(blogs, keys)
    }

    ghost predicate Valid()
      reads this
    {
      WellFormed(Model())
    }

    /** `var suspectiveBlogs = {};` */
    constructor()
      ensures Valid() && Model() == Table(map[], [])
    {
      blogs := map[];
      keys := [];
    }

    /** The body of `suspects.forEach`: register a blog the first time it is seen. */
    method Register(s: Suspect)
      requires Valid()
      modifies this
      ensures Valid()
      ensures Model() == Registered(old(Model()), s)
    {
      if s.alias !in blogs {
        blogs := blogs[s.alias := NewBlog(s.lastPostPublished)];
        keys := keys + [s.alias];
      }
    }

    /** `results.forEach(... suspects.forEach(...))`: every page's suspects in order. */
    method RegisterAll(results: seq<seq<Suspect>>)
      requires Valid()
      modifies this
      ensures Valid()
      ensures Model() == RegisteredAll(old(Model()), Flatten(results))
    {
      ghost var goal := RegisteredAll(Model(), Flatten(results));
      for i := 0 to |results|
        invariant Valid()
        invariant RegisteredAll(Model(), Flatten(results[i..])) == goal
      {
        assert results[i..][1..] == results[i + 1..];
        ghost var rest := Flatten(results[i + 1..]);
        var suspects := results[i];
        for j := 0 to |suspects|
          invariant Valid()
          invariant RegisteredAll(Model(), suspects[j..] + rest) == goal
        {
          assert (suspects[j..] + rest)[1..] == suspects[j + 1..] + rest;
          Register(suspects[j]);
        }
        assert suspects[|suspects|..] + rest == rest;
      }
    }

    /** The body of `blogs.forEach` in the second callback. */
    method AssignPosts(posts: seq<Post>) returns (ok: bool)
      requires Valid()
      modifies this
      ensures Valid()
      ensures ok == WithPosts(old(Model()), posts).Some?
      ensures ok ==> Model() == WithPosts(old(Model()), posts).value
      ensures !ok ==> Model() == old(Model())
    {
      ok := true;
      if |posts| > 0 {
        var alias := GetAlias(posts[0].uri);
        if alias.None? || alias.value !in blogs {
          return false;
        }
        blogs := blogs[alias.value := blogs[alias.value].(analyzedPosts := posts)];
      }
    }

    /** `blogs.forEach(...)`: every blog's candidate posts in order. */
    method AssignAllPosts(lists: seq<seq<Post>>) returns (ok: bool)
      requires Valid()
      modifies this
      ensures Valid()
      ensures ok == WithAllPosts(old(Model()), lists).Some?
      ensures ok ==> Model() == WithAllPosts(old(Model()), lists).value
    {
      ghost var goal := WithAllPosts(Model(), lists);
      for i := 0 to |lists|
        invariant Valid()
        invariant WithAllPosts(Model(), lists[i..]) == goal
      {
        assert lists[i..][1..] == lists[i + 1..];
        ok := AssignPosts(lists[i]);
        if !ok {
          return;
        }
      }
      ok := true;
    }

    /** The loop `for (idx...) if (analyzedPosts[idx].uri === post.uri) break;`. */
    static method FindPost(posts: seq<Post>, uri: string) returns (idx: nat)
      ensures idx == FirstIndex(posts, uri)
    {
      idx := 0;
      while idx < |posts| && posts[idx].uri != uri
        invariant idx <= |posts|
        invariant forall k :: 0 <= k < idx ==> posts[k].uri != uri
      {
        idx := idx + 1;
      }
    }

    /** The loop that pushes every spam entry `spamLinks.indexOf` does not find. */
    static method AppendMissing(links: seq<string>, added: seq<string>) returns (r: seq<string>)
      ensures r == AddMissing(links, added)
    {
      r := links;
      for i := 0 to |added|
        invariant AddMissing(r, added[i..]) == AddMissing(links, added)
      {
        assert added[i..][1..] == added[i + 1..];
        if added[i] !in r {
          r := r + [added[i]];
        }
      }
    }

    /** The body of `blogPosts.forEach` in the third callback. */
    method MergePostResult(result: PostResult) returns (ok: bool)
      requires Valid()
      modifies this
      ensures Valid()
      ensures ok == Merged(old(Model()), result).Some?
      ensures ok ==> Model() == Merged(old(Model()), result).value
      ensures !ok ==> Model() == old(Model())
    {
      var alias := GetAlias(result.uri);
      if alias.None? {
        return false;
      }
      ok := true;
      if alias.value in blogs {
        var blog := blogs[alias.value];
        var posts := blog.analyzedPosts;
        var spamLinks := blog.spamLinks;
        if |result.spamLinks| > 0 {
          var idx := FindPost(posts, result.uri);
          if idx < |posts| {
            posts := posts[idx := posts[idx].(spammed := true)];
          }
          spamLinks := AppendMissing(spamLinks, result.spamLinks);
        }
        var merged := Blog(blog.lastPostPublished, posts,
                           blog.analyzedComments + result.totalComments,
                           blog.spamComments + |result.spamLinks|, spamLinks);
        assert merged == MergedBlog(blog, result);
        blogs := blogs[alias.value := merged];
      }
    }

    /** `blogPosts.forEach(...)`: every post's result in order. */
    method MergeAllPostResults(results: seq<PostResult>) returns (ok: bool)
      requires Valid()
      modifies this
      ensures Valid()
      ensures ok == MergedAll(old(Model()), results).Some?
      ensures ok ==> Model() == MergedAll(old(Model()), results).value
    {
      ghost var goal := MergedAll(Model(), results);
      for i := 0 to |results|
        invariant Valid()
        invariant MergedAll(Model(), results[i..]) == goal
      {
        assert results[i..][1..] == results[i + 1..];
        ok := MergePostResult(results[i]);
        if !ok {
          return;
        }
      }
      ok := true;
    }
  }
}
