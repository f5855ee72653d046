/** The whole run: the directory pages give the suspects, they are
    registered, each registered blog's front page gives its candidate posts,
    each candidate post's comment page gives its spam, and the dictionary is
    rendered. What the crawler downloads is given as data: the directory
    pages in order, and each blog page and comment page by its address. */
module Pipeline {
  import opened Wrappers
  import opened JsStrings
  import opened Alias
  import opened Comments
  import opened Pages
  import opened Registry
  import opened Report

  /** The pages the run reads, already reduced to their links. */
  datatype Web = Web(
    directory: seq<seq<StoryLink>>,
    frontLinks: string -> seq<FrontLink>,
    historyLinks: string -> seq<string>,
    commentLinks: string -> seq<CommentLink>)

  /** The front-page address `requestBlogPage` asks for. */
  function BlogUri(alias: string): string {
    "http://" + alias + ".twoday.net/"
  }

  /** Stage 1: the suspects of every directory page, in page order; `None`
      when the analysis of some page throws. */
  ghost function PageSuspects(directory: seq<seq<StoryLink>>, threshold: int): Option<seq<seq<Suspect>>> {
    if forall i :: 0 <= i < |directory| ==> BlogrollSuspects(directory[i], threshold).Some? then
      Some(seq(|directory|, i requires 0 <= i < |directory| => BlogrollSuspects(directory[i], threshold).value))
    else None
  }

  /** Stage 2: the candidate posts of every registered blog, in key order. */
  ghost function BlogPosts(web: Web, keys: seq<string>): seq<seq<Post>> {
    seq(|keys|, k requires 0 <= k < |keys| =>
      RecentPosts(web.frontLinks(BlogUri(keys[k])), web.historyLinks(BlogUri(keys[k]))))
  }

  /** Stage 2 gives every key a list of unspammed posts, no longer than its
      front page's comment links and history links together. */
  lemma BlogPostsUnspammed(web: Web, keys: seq<string>)
    ensures |BlogPosts(web, keys)| == |keys|
    ensures forall k :: 0 <= k < |keys| ==>
      var uri := BlogUri(keys[k]);
      && |BlogPosts(web, keys)[k]| <= |web.frontLinks(uri)| + |web.historyLinks(uri)|
      && forall j :: 0 <= j < |BlogPosts(web, keys)[k]| ==> !BlogPosts(web, keys)[k][j].spammed
  {
    forall k | 0 <= k < |keys|
      ensures var uri := BlogUri(keys[k]);
        && |BlogPosts(web, keys)[k]| <= |web.frontLinks(uri)| + |web.historyLinks(uri)|
        && forall j :: 0 <= j < |BlogPosts(web, keys)[k]| ==> !BlogPosts(web, keys)[k][j].spammed
    {
      var uri := BlogUri(keys[k]);
      RecentPostsUnspammed(web.frontLinks(uri), web.historyLinks(uri));
    }
  }

  /** The front-page address of a key reads back as that key. */
  lemma BlogUriAlias(alias: string)
    requires forall k :: 0 <= k < |alias| ==> !IsLineTerminator(alias[k])
    ensures GetAlias(BlogUri(alias)) == Some(alias)
  {
    var s := BlogUri(alias);
    var b := |Scheme| + |alias|;
    assert s == Scheme + alias + ".twoday.net" + "/";
    assert s[b + 2..b + 8] == "woday.";
    forall j | b < j < LineEnd(s, |Scheme|)
      ensures !TwodayAt(s, j)
    {
      if TwodayAt(s, j) {
        assert false;
      }
    }
    GetAliasOfBlogUri(alias, "/");
  }

  /** What `analyzePostForSpam` returns for the comment page at `uri`. */
  ghost function PostResultOf(whitelist: seq<string>, links: seq<CommentLink>, uri: string): PostResult {
    PostResult(uri, |links|, SpamEntries(whitelist, links))
  }

  /** Stage 3 for one blog: the results of its candidate posts, in post order. */
  ghost function BlogResults(web: Web, whitelist: seq<string>, posts: seq<Post>): seq<PostResult> {
    seq(|posts|, j requires 0 <= j < |posts| => PostResultOf(whitelist, web.commentLinks(posts[j].uri), posts[j].uri))
  }

  /** Stage 3: the results of every blog's candidate posts, blog by blog in key order. */
  ghost function SpamResults(web: Web, whitelist: seq<string>, t: Table): seq<PostResult>
    requires forall k :: 0 <= k < |t.keys| ==> t.keys[k] in t.blogs
  {
    Flatten(seq(|t.keys|, k requires 0 <= k < |t.keys| => BlogResults(web, whitelist, t.blogs[t.keys[k]].analyzedPosts)))
  }

  /** Stages 2 and 3 on the dictionary `t1` left by the registration. */
  ghost function PostStages(web: Web, whitelist: seq<string>, t1: Table): (r: Option<Table>)
    requires WellFormed(t1)
    ensures r.Some? ==> WellFormed(r.value)
  {
    match WithAllPosts(t1, BlogPosts(web, t1.keys))
    case None => None
    case Some(t2) =>
      WithAllPostsKeeps(t1, BlogPosts(web, t1.keys));
      SameButPostsKeeps(t1, t2, 0);
      match MergedAll(t2, SpamResults(web, whitelist, t2))
      case None => None
      case Some(t3) =>
        MergedAllKeeps(t2, SpamResults(web, whitelist, t2));
        Some(t3)
  }

  /** The dictionary at the end of the three stages, or `None` when the run
      stops with an exception. */
  ghost function Crawl(web: Web, whitelist: seq<string>, threshold: int): (r: Option<Table>)
    ensures r.Some? ==> WellFormed(r.value)
  {
    match PageSuspects(web.directory, threshold)
    case None => None
    case Some(pages) =>
      var t1 := RegisteredAll(Table(map[], []), Flatten(pages));
      RegisteredAllWellFormed(Table(map[], []), Flatten(pages));
      PostStages(web, whitelist, t1)
  }

  /** The listed blogs of a run, or `None` when the run stops with an exception. */
  ghost function Run(web: Web, whitelist: seq<string>, threshold: int, minSpam: int): Option<seq<Entry>> {
    match Crawl(web, whitelist, threshold)
    case None => None
    case Some(t) => Some(SpamBlogs(t.blogs, t.keys, minSpam))
  }

  /** The directory pages analysed in order (`fireAllPageRequests` and `q.all`). */
  method AnalyzeDirectory(directory: seq<seq<StoryLink>>, threshold: int) returns (pages: Option<seq<seq<Suspect>>>)
    ensures pages == PageSuspects(directory, threshold)
  {
    var found: seq<seq<Suspect>> := [];
    for i := 0 to |directory|
      invariant |found| == i
      invariant forall k :: 0 <= k < i ==> BlogrollSuspects(directory[k], threshold) == Some(found[k])
    {
      var suspects := AnalyzeBlogrollPage(directory[i], threshold);
      if suspects.None? {
        assert !BlogrollSuspects(directory[i], threshold).Some?;
        return None;
      }
      found := found + [suspects.value];
    }
    assert found == seq(|directory|, i requires 0 <= i < |directory| => BlogrollSuspects(directory[i], threshold).value);
    pages := Some(found);
  }

  /** Every registered blog's front page analysed, in key order
      (`findAllRecentPostsWithComments` and `q.all`). */
  method AnalyzeBlogPages(web: Web, keys: seq<string>) returns (lists: seq<seq<Post>>)
    ensures lists == BlogPosts(web, keys)
  {
    lists := [];
    for k := 0 to |keys|
      invariant |lists| == k
      invariant forall j :: 0 <= j < k ==> lists[j] == BlogPosts(web, keys)[j]
    {
      var uri := BlogUri(keys[k]);
      var posts := AnalyzeRecentPosts(web.frontLinks(uri), web.historyLinks(uri));
      lists := lists + [posts];
    }
  }

  /** Every candidate post's comment page analysed, blog by blog in key order
      and post by post (`inspectPostsForSpam` and `q.all`). */
  method AnalyzeCommentPages(web: Web, whitelist: seq<string>, t: Table) returns (results: seq<PostResult>)
    requires forall k :: 0 <= k < |t.keys| ==> t.keys[k] in t.blogs
    ensures results == SpamResults(web, whitelist, t)
  {
    ghost var perBlog := seq(|t.keys|, k requires 0 <= k < |t.keys| => BlogResults(web, whitelist, t.blogs[t.keys[k]].analyzedPosts));
    results := [];
    for k := 0 to |t.keys|
      invariant results == Flatten(perBlog[..k])
    {
      var posts := t.blogs[t.keys[k]].analyzedPosts;
      ghost var before := results;
      for j := 0 to |posts|
        invariant results == before + BlogResults(web, whitelist, posts)[..j]
      {
        var result := AnalyzePostForSpam(whitelist, web.commentLinks(posts[j].uri), posts[j].uri);
        results := results + [result];
      }
      assert perBlog[..k + 1] == perBlog[..k] + [perBlog[k]];
      FlattenSnoc(perBlog[..k], perBlog[k]);
    }
    assert perBlog[..|t.keys|] == perBlog;
  }

  /** The three `.then` callbacks and the final `.done`, in order. */
  method RunPipeline(web: Web, whitelist: seq<string>, threshold: int, minSpam: int) returns (report: Option<seq<Entry>>)
    ensures report == Run(web, whitelist, threshold, minSpam)
  {
    var pages := AnalyzeDirectory(web.directory, threshold);
    if pages.None? {
      return None;
    }
    var suspectiveBlogs := new SuspectiveBlogs();
    suspectiveBlogs.RegisterAll(pages.value);
    ghost var t1 := suspectiveBlogs.Model();
    assert Crawl(web, whitelist, threshold) == PostStages(web, whitelist, t1);

    var lists := AnalyzeBlogPages(web, suspectiveBlogs.keys);
    var ok := suspectiveBlogs.AssignAllPosts(lists);
    if !ok {
      assert PostStages(web, whitelist, t1).None?;
      return None;
    }
    ghost var t2 := suspectiveBlogs.Model();
    assert PostStages(web, whitelist, t1) == MergedAll(t2, SpamResults(web, whitelist, t2));

    var results := AnalyzeCommentPages(web, whitelist, suspectiveBlogs.Model());
    ok := suspectiveBlogs.MergeAllPostResults(results);
    if !ok {
      return None;
    }
    ghost var t3 := suspectiveBlogs.Model();
    assert Crawl(web, whitelist, threshold) == Some(t3);

    var spamBlogs := RenderSpammedBlogs(suspectiveBlogs.Model(), minSpam);
    report := Some(spamBlogs);
  }

  /** Every post result of stage 3 reports no more spam comments than comments. */
  lemma SpamResultsPlausible(web: Web, whitelist: seq<string>, t: Table)
    requires forall k :: 0 <= k < |t.keys| ==> t.keys[k] in t.blogs
    ensures forall k :: 0 <= k < |SpamResults(web, whitelist, t)| ==> Plausible(SpamResults(web, whitelist, t)[k])
  {
    var perBlog := seq(|t.keys|, k requires 0 <= k < |t.keys| => BlogResults(web, whitelist, t.blogs[t.keys[k]].analyzedPosts));
    var rs := SpamResults(web, whitelist, t);
    assert rs == Flatten(perBlog);
    forall k | 0 <= k < |rs| ensures Plausible(rs[k]) {
      FlattenMembers(perBlog, rs[k]);
      var i :| 0 <= i < |perBlog| && rs[k] in perBlog[i];
      var posts := t.blogs[t.keys[i]].analyzedPosts;
      var j :| 0 <= j < |posts| && perBlog[i][j] == rs[k];
      var links := web.commentLinks(posts[j].uri);
      assert rs[k] == PostResultOf(whitelist, links, posts[j].uri);
    }
  }

  /** Every suspect found on the directory pages is abandoned. */
  lemma PageSuspectsAbandoned(directory: seq<seq<StoryLink>>, threshold: int)
    requires PageSuspects(directory, threshold).Some?
    ensures var ss := Flatten(PageSuspects(directory, threshold).value);
      forall k :: 0 <= k < |ss| ==> ss[k].lastPostPublished > threshold
  {
    var pages := PageSuspects(directory, threshold).value;
    var ss := Flatten(pages);
    forall k | 0 <= k < |ss| ensures ss[k].lastPostPublished > threshold {
      FlattenMembers(pages, ss[k]);
      var i :| 0 <= i < |pages| && ss[k] in pages[i];
      SuspectsOfSound(Readings(directory[i]), threshold);
    }
  }

  /** Registering abandoned suspects leaves every blog abandoned, with empty spam bookkeeping. */
  lemma RegistrationInvariant(ss: seq<Suspect>, threshold: int)
    requires forall k :: 0 <= k < |ss| ==> ss[k].lastPostPublished > threshold
    ensures var t1 := RegisteredAll(Table(map[], []), ss);
      Abandoned(t1, threshold) && AllBounded(t1)
  {
    var empty := Table(map[], []);
    assert Abandoned(empty, threshold) && AllBounded(empty);
    RegisteredAllAbandoned(empty, ss, threshold);
  }

  /** Stages 2 and 3 keep every blog abandoned and its spam bookkeeping bounded. */
  lemma PostStagesInvariant(web: Web, whitelist: seq<string>, t1: Table, threshold: int)
    requires WellFormed(t1) && Abandoned(t1, threshold) && AllBounded(t1)
    requires PostStages(web, whitelist, t1).Some?
    ensures Abandoned(PostStages(web, whitelist, t1).value, threshold)
    ensures AllBounded(PostStages(web, whitelist, t1).value)
  {
    var t2 := WithAllPosts(t1, BlogPosts(web, t1.keys)).value;
    WithAllPostsKeeps(t1, BlogPosts(web, t1.keys));
    SameButPostsKeeps(t1, t2, threshold);
    var rs := SpamResults(web, whitelist, t2);
    SpamResultsPlausible(web, whitelist, t2);
    MergedAllKeeps(t2, rs);
    MergedAllBounded(t2, rs);
  }

  /** At the end of a completed crawl every blog is abandoned for longer than
      the threshold and its spam bookkeeping is bounded. */
  lemma CrawlInvariant(web: Web, whitelist: seq<string>, threshold: int)
    requires Crawl(web, whitelist, threshold).Some?
    ensures Abandoned(Crawl(web, whitelist, threshold).value, threshold)
    ensures AllBounded(Crawl(web, whitelist, threshold).value)
  {
    var pages := PageSuspects(web.directory, threshold).value;
    var t1 := RegisteredAll(Table(map[], []), Flatten(pages));
    RegisteredAllWellFormed(Table(map[], []), Flatten(pages));
    PageSuspectsAbandoned(web.directory, threshold);
    assert forall k :: 0 <= k < |Flatten(pages)| ==> Flatten(pages)[k].lastPostPublished > threshold;
    RegistrationInvariant(Flatten(pages), threshold);
    PostStagesInvariant(web, whitelist, t1, threshold);
  }

  /** What a completed run lists: only blogs abandoned for longer than the
      threshold, only blogs with at least the minimum of spam comments, and,
      when that minimum is at least 1, a dirtiness that is a percentage in 0..100. */
  lemma RunListsAbandonedSpamBlogs(web: Web, whitelist: seq<string>, threshold: int, minSpam: int)
    requires Run(web, whitelist, threshold, minSpam).Some?
    ensures forall e :: e in Run(web, whitelist, threshold, minSpam).value ==>
      && e.lastPostPublished > threshold
      && e.spamComments >= minSpam
      && e.spammedPosts == |e.dirtyPosts| <= e.analyzedPosts
      && (minSpam >= 1 ==> e.dirtiness.Percent? && 0 <= e.dirtiness.value <= 100)
  {
    var t := Crawl(web, whitelist, threshold).value;
    CrawlInvariant(web, whitelist, threshold);
    forall e | e in SpamBlogs(t.blogs, t.keys, minSpam)
      ensures && e.lastPostPublished > threshold
              && e.spamComments >= minSpam
              && e.spammedPosts == |e.dirtyPosts| <= e.analyzedPosts
              && (minSpam >= 1 ==> e.dirtiness.Percent? && 0 <= e.dirtiness.value <= 100)
    {
      SpamBlogsListed(t.blogs, t.keys, minSpam, e);
      var a :| a in t.keys && t.blogs[a].spamComments >= minSpam && e == EntryOf(a, t.blogs[a]);
      EntryFields(a, t.blogs[a]);
    }
  }

  /** The posts whose comment pages stage 3 reads: every blog's posts, in key order. */
  ghost function CandidatePosts(t: Table): seq<Post>
    requires forall k :: 0 <= k < |t.keys| ==> t.keys[k] in t.blogs
  {
    Flatten(seq(|t.keys|, k requires 0 <= k < |t.keys| => t.blogs[t.keys[k]].analyzedPosts))
  }

  lemma BlogResultsAppend(web: Web, whitelist: seq<string>, xs: seq<Post>, ys: seq<Post>)
    ensures BlogResults(web, whitelist, xs + ys) == BlogResults(web, whitelist, xs) + BlogResults(web, whitelist, ys)
  {
  }

  lemma {:induction false} FlattenBlogResults(web: Web, whitelist: seq<string>, pss: seq<seq<Post>>)
    ensures Flatten(seq(|pss|, k requires 0 <= k < |pss| => BlogResults(web, whitelist, pss[k])))
      == BlogResults(web, whitelist, Flatten(pss))
    decreases |pss|
  {
    if pss != [] {
      var rss := seq(|pss|, k requires 0 <= k < |pss| => BlogResults(web, whitelist, pss[k]));
      var tail := pss[1..];
      FlattenBlogResults(web, whitelist, tail);
      assert rss[1..] == seq(|tail|, k requires 0 <= k < |tail| => BlogResults(web, whitelist, tail[k]));
      BlogResultsAppend(web, whitelist, pss[0], Flatten(tail));
    }
  }

  /** Stage 3 gives one result per candidate post, in order. */
  lemma SpamResultsOfPosts(web: Web, whitelist: seq<string>, t: Table)
    requires forall k :: 0 <= k < |t.keys| ==> t.keys[k] in t.blogs
    ensures SpamResults(web, whitelist, t) == BlogResults(web, whitelist, CandidatePosts(t))
  {
    var pss := seq(|t.keys|, k requires 0 <= k < |t.keys| => t.blogs[t.keys[k]].analyzedPosts);
    FlattenBlogResults(web, whitelist, pss);
    assert seq(|pss|, k requires 0 <= k < |pss| => BlogResults(web, whitelist, pss[k]))
      == seq(|t.keys|, k requires 0 <= k < |t.keys| => BlogResults(web, whitelist, t.blogs[t.keys[k]].analyzedPosts));
  }

  /** With a larger whitelist every post reports the same comments and no more spam. */
  lemma BlogResultsWhitelistMonotone(web: Web, small: seq<string>, large: seq<string>, posts: seq<Post>)
    requires forall e :: e in small ==> e in large
    ensures FewerSpam(BlogResults(web, large, posts), BlogResults(web, small, posts))
  {
    var fewer, more := BlogResults(web, large, posts), BlogResults(web, small, posts);
    forall k | 0 <= k < |posts|
      ensures && fewer[k].uri == more[k].uri
              && fewer[k].totalComments == more[k].totalComments
              && |fewer[k].spamLinks| <= |more[k].spamLinks|
    {
      SpamEntriesWhitelistMonotone(small, large, web.commentLinks(posts[k].uri));
    }
  }

  /** Stages 2 and 3 with a larger whitelist stop where they stop with the
      smaller one, and otherwise leave less spam. */
  lemma PostStagesWhitelistMonotone(web: Web, small: seq<string>, large: seq<string>, t1: Table)
    requires forall e :: e in small ==> e in large
    requires WellFormed(t1)
    ensures PostStages(web, small, t1).Some? <==> PostStages(web, large, t1).Some?
    ensures PostStages(web, small, t1).Some? ==> LessSpam(PostStages(web, large, t1).value, PostStages(web, small, t1).value)
  {
    match WithAllPosts(t1, BlogPosts(web, t1.keys))
    case None =>
    case Some(t2) =>
      WithAllPostsKeeps(t1, BlogPosts(web, t1.keys));
      SameButPostsKeeps(t1, t2, 0);
      SpamResultsOfPosts(web, small, t2);
      SpamResultsOfPosts(web, large, t2);
      BlogResultsWhitelistMonotone(web, small, large, CandidatePosts(t2));
      MergedAllLessSpam(t2, t2, SpamResults(web, large, t2), SpamResults(web, small, t2));
  }

  /** A smaller whitelist (an empty one above all) can only keep or raise the
      spam found: stages 1 and 2 do not read the whitelist, so both crawls
      stop at the same point or both complete; a completed crawl with the
      larger whitelist has the same blogs, days and comments analysed, no
      blog with more spam comments, and lists no alias the smaller one omits. */
  lemma CrawlWhitelistMonotone(web: Web, small: seq<string>, large: seq<string>, threshold: int, minSpam: int)
    requires forall e :: e in small ==> e in large
    ensures Crawl(web, small, threshold).Some? <==> Crawl(web, large, threshold).Some?
    ensures Crawl(web, small, threshold).Some? ==>
      var l, s := Crawl(web, large, threshold).value, Crawl(web, small, threshold).value;
      && LessSpam(l, s)
      && forall a :: a in SpamKeys(l.blogs, l.keys, minSpam) ==> a in SpamKeys(s.blogs, s.keys, minSpam)
  {
    match PageSuspects(web.directory, threshold)
    case None =>
    case Some(pages) =>
      var t1 := RegisteredAll(Table(map[], []), Flatten(pages));
      RegisteredAllWellFormed(Table(map[], []), Flatten(pages));
      PostStagesWhitelistMonotone(web, small, large, t1);
      if Crawl(web, small, threshold).Some? {
        var l, s := Crawl(web, large, threshold).value, Crawl(web, small, threshold).value;
        SpamKeysLessSpam(l, s, minSpam);
      }
  }

  /** The report itself: with a smaller whitelist the run completes exactly
      when it does with the larger one, and every blog listed with the larger
      whitelist is listed with the smaller one too, with no fewer spam comments. */
  lemma RunWhitelistMonotone(web: Web, small: seq<string>, large: seq<string>, threshold: int, minSpam: int)
    requires forall e :: e in small ==> e in large
    ensures Run(web, small, threshold, minSpam).Some? <==> Run(web, large, threshold, minSpam).Some?
    ensures Run(web, small, threshold, minSpam).Some? ==>
      forall e :: e in Run(web, large, threshold, minSpam).value ==>
        exists e' :: e' in Run(web, small, threshold, minSpam).value && e'.alias == e.alias && e.spamComments <= e'.spamComments
  {
    CrawlWhitelistMonotone(web, small, large, threshold, minSpam);
    if Crawl(web, small, threshold).Some? {
      var l, s := Crawl(web, large, threshold).value, Crawl(web, small, threshold).value;
      forall e | e in SpamBlogs(l.blogs, l.keys, minSpam)
        ensures exists e' :: e' in SpamBlogs(s.blogs, s.keys, minSpam) && e'.alias == e.alias && e.spamComments <= e'.spamComments
      {
        SpamBlogsListed(l.blogs, l.keys, minSpam, e);
        var a :| a in l.keys && l.blogs[a].spamComments >= minSpam && e == EntryOf(a, l.blogs[a]);
        var e' := EntryOf(a, s.blogs[a]);
        SpamBlogsListed(s.blogs, s.keys, minSpam, e');
        assert e' in SpamBlogs(s.blogs, s.keys, minSpam);
      }
    }
  }
}
