/** Extraction of records from the two kinds of pages the crawler reads
    before the comment pages: the directory ("blogroll") pages, which yield
    the suspect blogs (`analyzeBlogrollPage`), and a blog's front page, which
    yields its candidate posts (`analyzeFrontPostsWithCommments`,
    `analyzeHistoryItems`, `analyzeRecentPosts`). Each page is modelled as
    the sequence of links its selector picks out. */
module Pages {
  import opened Wrappers
  import opened JsStrings
  import opened Alias
  import opened Seqs

  /** A story link of a directory page: its `href` and the text of the
      element that follows it (e.g. "vor 400 Tagen"). */
  datatype StoryLink = StoryLink(href: string, nextText: string)

  /** A blog that looks abandoned: its alias and the days since its last post. */
  datatype Suspect = Suspect(alias: string, lastPostPublished: int)

  /** A `.storyLinks` comment link of a blog's front page: its `href` and its
      text (the comment count). */
  datatype FrontLink = FrontLink(href: string, text: string)

  /** A candidate post of a blog: its comment-page address and whether spam was found on it. */
  datatype Post = Post(uri: string, spammed: bool)

  /** `parseInt(text.split("vor ")[1], 10)`: the day count after "vor ", `None` for NaN. */
  function DaysSinceLastPost(nextText: string): Option<int> {
    ParseIntOrNaN(SecondPiece(nextText, "vor "))
  }

  /** The day count reads back from the text the directory shows. */
  lemma DaysSinceLastPostReads(prefix: string, days: int, suffix: string)
    requires forall p :: !OccursAt(prefix + "vor ", "vor ", p) || p == |prefix|
    requires suffix == [] || !IsDigit(suffix[0])
    requires forall p :: !OccursAt(suffix, "vor ", p)
    ensures DaysSinceLastPost(prefix + "vor " + IntToString(days) + suffix) == Some(days)
  {
    var text := prefix + "vor " + IntToString(days) + suffix;
    var piece := IntToString(days) + suffix;
    assert text == (prefix + "vor ") + piece;
    assert OccursAt(text, "vor ", |prefix|) by {
      assert text[|prefix|..|prefix| + 4] == "vor ";
    }
    var head := prefix + "vor ";
    assert text == head + piece;
    forall p | 0 <= p < |prefix| ensures !OccursAt(text, "vor ", p) {
      assert head[p..p + 4] == text[p..p + 4];
      assert !OccursAt(head, "vor ", p);
    }
    var i := IndexOf(text, "vor ");
    assert i == |prefix|;
    assert text[i + 4..] == piece;
    assert IndexOf(piece, "vor ") == -1 by {
      forall p | OccursAt(piece, "vor ", p) ensures false {
        NoVorInDigits(days, suffix, p);
      }
    }
    assert SecondPiece(text, "vor ") == Some(piece);
    ParseIntOfIntToString(days, suffix);
  }

  /** "vor " cannot occur in a number's text followed by text without "vor ". */
  lemma NoVorInDigits(days: int, suffix: string, p: int)
    requires forall q :: !OccursAt(suffix, "vor ", q)
    ensures !OccursAt(IntToString(days) + suffix, "vor ", p)
  {
    var digits := IntToString(days);
    var piece := digits + suffix;
    NatToStringDigits(if days < 0 then -days else days);
    assert forall k :: 0 <= k < |digits| ==> digits[k] == '-' || IsDigit(digits[k]);
    if |digits| <= p && p + 4 <= |piece| {
      var q := p - |digits|;
      assert piece[|digits|..] == suffix;
      assert piece[p..p + 4] == piece[|digits|..][q..q + 4];
      assert !OccursAt(suffix, "vor ", q);
    } else if 0 <= p < |digits| && p + 4 <= |piece| {
      assert piece[p..p + 4][0] == piece[p] == digits[p];
      assert digits[p] == '-' || IsDigit(digits[p]);
    }
  }

  /** What the script reads off one story link: the blog alias (`None` where
      `getAlias` throws) and the day count (`None` for NaN). */
  datatype Reading = Reading(alias: Option<string>, days: Option<int>)

  function ReadStoryLink(link: StoryLink): Reading {
    Reading(GetAlias(link.href), DaysSinceLastPost(link.nextText))
  }

  ghost function Readings(links: seq<StoryLink>): (rs: seq<Reading>)
    ensures |rs| == |links|
  {
    seq(|links|, i requires 0 <= i < |links| => ReadStoryLink(links[i]))
  }

  /** The suspects found in a run of readings, in order: a reading whose alias
      is that of the reading before it is skipped; any other gives a suspect
      when its day count is above `threshold`. `None` once an alias cannot be
      read, where the script throws. */
  ghost function SuspectsOf(rs: seq<Reading>, threshold: int): Option<seq<Suspect>>
    decreases |rs|
  {
    if rs == [] then Some([])
    else
      var n := |rs| - 1;
      match (SuspectsOf(rs[..n], threshold), rs[n].alias)
      case (Some(suspects), Some(alias)) =>
        if n > 0 && rs[n - 1].alias == Some(alias) then Some(suspects)
        else if rs[n].days.Some? && rs[n].days.value > threshold then Some(suspects + [Suspect(alias, rs[n].days.value)])
        else Some(suspects)
      case _ => None
  }

  /** The suspects of a directory page. */
  ghost function BlogrollSuspects(links: seq<StoryLink>, threshold: int): Option<seq<Suspect>> {
    SuspectsOf(Readings(links), threshold)
  }

  /** Once an alias cannot be read, no later reading helps. */
  lemma {:induction false} SuspectsOfStuck(rs: seq<Reading>, k: nat, threshold: int)
    requires k <= |rs| && SuspectsOf(rs[..k], threshold).None?
    ensures SuspectsOf(rs, threshold).None?
    decreases |rs| - k
  {
    if k < |rs| {
      assert rs[..k + 1][..k] == rs[..k];
      SuspectsOfStuck(rs, k + 1, threshold);
    } else {
      assert rs[..k] == rs;
    }
  }

  /** `analyzeBlogrollPage(body)` on the story links of the page. */
  method AnalyzeBlogrollPage(links: seq<StoryLink>, threshold: int) returns (suspects: Option<seq<Suspect>>)
    ensures suspects == BlogrollSuspects(links, threshold)
  {
    ghost var rs := Readings(links);
    var found: seq<Suspect> := [];
    var lastAlias: Option<string> := None;
    var i := 0;
    while i < |links|
      invariant 0 <= i <= |links|
      invariant SuspectsOf(rs[..i], threshold) == Some(found)
      invariant lastAlias == if i == 0 then None else rs[i - 1].alias
    {
      assert rs[..i + 1][..i] == rs[..i];
      var alias := GetAlias(links[i].href);
      assert alias == rs[i].alias;
      if alias.None? {
        SuspectsOfStuck(rs, i + 1, threshold);
        return None;
      }
      if alias != lastAlias {
        lastAlias := alias;
        var lastPostPublished := DaysSinceLastPost(links[i].nextText);
        assert lastPostPublished == rs[i].days;
        if lastPostPublished.Some? && lastPostPublished.value > threshold {
          found := found + [Suspect(alias.value, lastPostPublished.value)];
        }
      }
      i := i + 1;
    }
    assert rs[..i] == rs;
    suspects := Some(found);
  }

  /** Readings are collected exactly when every alias can be read. */
  lemma {:induction false} SuspectsOfDefined(rs: seq<Reading>, threshold: int)
    ensures SuspectsOf(rs, threshold).Some? <==> forall i :: 0 <= i < |rs| ==> rs[i].alias.Some?
    decreases |rs|
  {
    if rs != [] {
      var n := |rs| - 1;
      SuspectsOfDefined(rs[..n], threshold);
      assert forall i :: 0 <= i < n ==> rs[..n][i] == rs[i];
    }
  }

  /** A directory page is analysed exactly when every link's alias can be read. */
  lemma BlogrollSuspectsDefined(links: seq<StoryLink>, threshold: int)
    ensures BlogrollSuspects(links, threshold).Some? <==>
      forall i :: 0 <= i < |links| ==> GetAlias(links[i].href).Some?
  {
    var rs := Readings(links);
    SuspectsOfDefined(rs, threshold);
    assert forall i :: 0 <= i < |links| ==> rs[i].alias == GetAlias(links[i].href);
  }

  /** Reading `i` is the first of a run of readings of the same blog. */
  ghost predicate StartsRun(rs: seq<Reading>, i: int)
    requires 0 <= i < |rs|
  {
    i == 0 || rs[i - 1].alias != rs[i].alias
  }

  /** Reading `i` yields the suspect `s`: it starts a run of readings of the
      blog `s.alias` and its day count is `s.lastPostPublished`. */
  ghost predicate Yields(rs: seq<Reading>, i: int, s: Suspect) {
    && 0 <= i < |rs|
    && rs[i].alias == Some(s.alias)
    && StartsRun(rs, i)
    && rs[i].days == Some(s.lastPostPublished)
  }

  /** Every suspect is abandoned for longer than the threshold and comes from
      a reading that starts a run of readings of its blog. */
  lemma {:induction false} SuspectsOfSound(rs: seq<Reading>, threshold: int)
    requires SuspectsOf(rs, threshold).Some?
    ensures forall s :: s in SuspectsOf(rs, threshold).value ==>
      s.lastPostPublished > threshold && exists i :: Yields(rs, i, s)
    decreases |rs|
  {
    if rs != [] {
      var n := |rs| - 1;
      var init := rs[..n];
      assert SuspectsOf(init, threshold).Some?;
      SuspectsOfSound(init, threshold);
      forall s | s in SuspectsOf(rs, threshold).value
        ensures s.lastPostPublished > threshold && exists i :: Yields(rs, i, s)
      {
        if s in SuspectsOf(init, threshold).value {
          var i :| Yields(init, i, s);
          assert init[i] == rs[i];
          assert i > 0 ==> init[i - 1] == rs[i - 1];
          assert Yields(rs, i, s);
        } else {
          assert Yields(rs, n, s);
        }
      }
    }
  }

  /** Every reading that starts a run and shows more days than the threshold
      gives a suspect. */
  lemma {:induction false} SuspectsOfComplete(rs: seq<Reading>, threshold: int, i: int)
    requires SuspectsOf(rs, threshold).Some?
    requires 0 <= i < |rs| && StartsRun(rs, i) && rs[i].alias.Some?
    requires rs[i].days.Some? && rs[i].days.value > threshold
    ensures Suspect(rs[i].alias.value, rs[i].days.value) in SuspectsOf(rs, threshold).value
    decreases |rs|
  {
    var n := |rs| - 1;
    var init := rs[..n];
    assert SuspectsOf(init, threshold).Some?;
    var before := SuspectsOf(init, threshold).value;
    if i < n {
      assert init[i] == rs[i];
      assert i > 0 ==> init[i - 1] == rs[i - 1];
      SuspectsOfComplete(init, threshold, i);
      assert SuspectsOf(rs, threshold).value[..|before|] == before;
    } else {
      assert SuspectsOf(rs, threshold).value == before + [Suspect(rs[i].alias.value, rs[i].days.value)];
    }
  }

  /** The suspects of the first `j` readings begin the suspects of all of them. */
  lemma {:induction false} SuspectsOfPrefix(rs: seq<Reading>, j: nat, threshold: int)
    requires j <= |rs| && SuspectsOf(rs, threshold).Some?
    ensures SuspectsOf(rs[..j], threshold).Some?
    ensures var before, out := SuspectsOf(rs[..j], threshold).value, SuspectsOf(rs, threshold).value;
      |before| <= |out| && out[..|before|] == before
    decreases |rs| - j
  {
    if j == |rs| {
      assert rs[..j] == rs;
    } else {
      SuspectsOfPrefix(rs, j + 1, threshold);
      assert rs[..j + 1][..j] == rs[..j];
      var out := SuspectsOf(rs, threshold).value;
      var longer := SuspectsOf(rs[..j + 1], threshold).value;
      var before := SuspectsOf(rs[..j], threshold).value;
      assert out[..|before|] == out[..|longer|][..|before|];
    }
  }

  /** When two readings in a row each add a suspect, the two suspects are
      next to each other in the page's output and belong to different blogs.
      Suspects adjacent in the output need not come from adjacent readings,
      and then they can share a blog (see `AbandonedBlogListedTwice`). */
  lemma ConsecutiveReadingsDiffer(rs: seq<Reading>, i: nat, threshold: int)
    requires 0 < i < |rs| && SuspectsOf(rs, threshold).Some?
    requires SuspectsOf(rs[..i - 1], threshold).Some? && SuspectsOf(rs[..i + 1], threshold).Some?
    requires |SuspectsOf(rs[..i + 1], threshold).value| == |SuspectsOf(rs[..i - 1], threshold).value| + 2
    ensures var out, k := SuspectsOf(rs, threshold).value, |SuspectsOf(rs[..i - 1], threshold).value|;
      && k + 1 < |out|
      && Some(out[k].alias) == rs[i - 1].alias && Some(out[k + 1].alias) == rs[i].alias
      && out[k].alias != out[k + 1].alias
  {
    var before := SuspectsOf(rs[..i - 1], threshold).value;
    assert rs[..i][..i - 1] == rs[..i - 1];
    assert rs[..i + 1][..i] == rs[..i];
    var middle := SuspectsOf(rs[..i], threshold).value;
    var after := SuspectsOf(rs[..i + 1], threshold).value;
    assert |middle| == |before| + 1 && |after| == |middle| + 1;
    assert after == before + [after[|before|], after[|before| + 1]];
    SuspectsOfPrefix(rs, i + 1, threshold);
    var out := SuspectsOf(rs, threshold).value;
    assert out[..|after|] == after;
    assert out[|before|] == after[|before|] && out[|before| + 1] == after[|before| + 1];
  }

  /** A blog whose links are interrupted by another blog's link is listed twice. */
  lemma AbandonedBlogListedTwice(x: string, y: string)
    requires x != y
    ensures
      var rs := [Reading(Some(x), Some(400)), Reading(Some(y), Some(10)), Reading(Some(x), Some(400))];
      SuspectsOf(rs, 365) == Some([Suspect(x, 400), Suspect(x, 400)])
  {
    var r0, r1 := Reading(Some(x), Some(400)), Reading(Some(y), Some(10));
    var one, two, three := [r0], [r0, r1], [r0, r1, r0];
    assert one[..0] == [];
    var none: seq<Suspect> := [];
    assert none + [Suspect(x, 400)] == [Suspect(x, 400)];
    assert SuspectsOf(one, 365) == Some([Suspect(x, 400)]);
    assert two[..1] == one;
    assert SuspectsOf(two, 365) == Some([Suspect(x, 400)]);
    assert three[..2] == two;
    assert [Suspect(x, 400)] + [Suspect(x, 400)] == [Suspect(x, 400), Suspect(x, 400)];
  }

  /** The `#comments` address of a history link: `href.split('#')[0] + '#comments'`. */
  function CommentsUri(href: string): string {
    BeforeFirst(href, '#') + "#comments"
  }

  /** Normalising an address that is already normalised changes nothing. */
  lemma CommentsUriIdempotent(href: string)
    ensures CommentsUri(CommentsUri(href)) == CommentsUri(href)
  {
    var base := BeforeFirst(href, '#');
    var uri := base + "#comments";
    assert uri[|base|] == '#';
    var b2 := BeforeFirst(uri, '#');
    assert b2 == uri[..|b2|];
    assert forall k :: 0 <= k < |base| ==> uri[k] == base[k];
    assert |b2| == |base|;
    assert b2 == base;
  }

  /** `analyzeHistoryItems($)` on the `.historyItem` story links. */
  method AnalyzeHistoryItems(hrefs: seq<string>) returns (postsWithComments: seq<string>)
    ensures |postsWithComments| == |hrefs|
    ensures forall k :: 0 <= k < |hrefs| ==> postsWithComments[k] == CommentsUri(hrefs[k])
  {
    postsWithComments := [];
    for i := 0 to |hrefs|
      invariant |postsWithComments| == i
      invariant forall k :: 0 <= k < i ==> postsWithComments[k] == CommentsUri(hrefs[k])
    {
      postsWithComments := postsWithComments + [CommentsUri(hrefs[i])];
    }
  }

  /** A front-page comment link is kept when its text reads as a comment count above zero. */
  predicate HasComments(link: FrontLink) {
    var comments := ParseInt(link.text);
    comments.Some? && comments.value > 0
  }

  /** The post pushed for a kept comment link: its address, not yet marked as spammed. */
  function Candidate(link: FrontLink): Post {
    Post(link.href, false)
  }

  /** The front-page posts kept, in page order. */
  ghost function FrontPosts(links: seq<FrontLink>): seq<Post> {
    FilterMap(links, HasComments, Candidate)
  }

  /** `analyzeFrontPostsWithCommments($)` on the `.storyLinks` comment links. */
  method AnalyzeFrontPostsWithComments(links: seq<FrontLink>) returns (postsWithComments: seq<Post>)
    ensures postsWithComments == FrontPosts(links)
  {
    postsWithComments := [];
    for i := 0 to |links|
      invariant postsWithComments == FrontPosts(links[..i])
    {
      assert links[..i + 1] == links[..i] + [links[i]];
      FilterMapSnoc(links[..i], links[i], HasComments, Candidate);
      var comments := ParseInt(links[i].text);
      if comments.Some? && comments.value > 0 {
        postsWithComments := postsWithComments + [Post(links[i].href, false)];
      }
    }
    assert links[..|links|] == links;
  }

  /** A front-page post is kept exactly when its comment count is positive;
      no post is marked as spammed yet, and there are no more posts than links. */
  lemma FrontPostsMembership(links: seq<FrontLink>, p: Post)
    ensures p in FrontPosts(links) <==>
      && !p.spammed
      && exists i :: 0 <= i < |links| && links[i].href == p.uri && ParseInt(links[i].text).Some? && ParseInt(links[i].text).value > 0
    ensures |FrontPosts(links)| <= |links|
  {
    FilterMapMembership(links, HasComments, Candidate, p);
    if p in FrontPosts(links) {
      var i :| 0 <= i < |links| && HasComments(links[i]) && Candidate(links[i]) == p;
      assert links[i].href == p.uri;
    }
    if !p.spammed && exists i :: 0 <= i < |links| && links[i].href == p.uri && ParseInt(links[i].text).Some? && ParseInt(links[i].text).value > 0 {
      var i :| 0 <= i < |links| && links[i].href == p.uri && ParseInt(links[i].text).Some? && ParseInt(links[i].text).value > 0;
      assert HasComments(links[i]) && Candidate(links[i]) == p;
    }
  }

  /** The candidate posts of a blog: the front-page posts, then every
      history link as a `#comments` address, none marked as spammed. */
  ghost function RecentPosts(front: seq<FrontLink>, history: seq<string>): seq<Post> {
    FrontPosts(front) + seq(|history|, k requires 0 <= k < |history| => Post(CommentsUri(history[k]), false))
  }

  /** `analyzeRecentPosts(body)`. The source's guard `posts.indexOf(link) < 0`
      looks for a string among `Post` records, so it never finds one and
      every history link is appended. */
  method AnalyzeRecentPosts(front: seq<FrontLink>, history: seq<string>) returns (posts: seq<Post>)
    ensures posts == RecentPosts(front, history)
  {
    posts := AnalyzeFrontPostsWithComments(front);
    var links := AnalyzeHistoryItems(history);
    ghost var n := |posts|;
    for i := 0 to |links|
      invariant |posts| == n + i
      invariant posts[..n] == FrontPosts(front)
      invariant forall k :: 0 <= k < i ==> posts[n + k] == Post(CommentsUri(history[k]), false)
    {
      posts := posts + [Post(links[i], false)];
    }
  }

  /** A story linked both from the front page and from the history list is a
      candidate twice: the list is not free of duplicates. */
  lemma RecentPostsKeepDuplicates(front: seq<FrontLink>, history: seq<string>, i: nat, k: nat)
    requires i < |FrontPosts(front)| && k < |history|
    requires FrontPosts(front)[i].uri == CommentsUri(history[k])
    ensures var posts := RecentPosts(front, history);
      exists a, b :: 0 <= a < b < |posts| && posts[a].uri == posts[b].uri
  {
    var posts := RecentPosts(front, history);
    assert posts[i].uri == posts[|FrontPosts(front)| + k].uri;
  }

  /** No candidate post is marked as spammed yet; there is one per kept
      front-page link and one per history link. */
  lemma RecentPostsUnspammed(front: seq<FrontLink>, history: seq<string>)
    ensures var posts := RecentPosts(front, history);
      && |posts| == |FrontPosts(front)| + |history| <= |front| + |history|
      && forall j :: 0 <= j < |posts| ==> !posts[j].spammed
  {
    var posts, n := RecentPosts(front, history), |FrontPosts(front)|;
    forall j | 0 <= j < n
      ensures !posts[j].spammed
    {
      FrontPostsMembership(front, posts[j]);
    }
    FrontPostsMembership(front, Post("", false));
  }

  /** Some post in `posts` has the address `uri`. */
  predicate HasUri(posts: seq<Post>, uri: string) {
    exists k :: 0 <= k < |posts| && posts[k].uri == uri
  }

  /** The history links appended with the guard compared against the
      addresses already listed: a `#comments` address is pushed only when no
      post has it yet. */
  function AddHistory(posts: seq<Post>, hrefs: seq<string>): seq<Post>
    decreases |hrefs|
  {
    if hrefs == [] then posts
    else
      var uri := CommentsUri(hrefs[0]);
      AddHistory(if HasUri(posts, uri) then posts else posts + [Post(uri, false)], hrefs[1..])
  }

  /** The candidate posts with the deduplicating guard `analyzeRecentPosts`
      evidently intends. */
  ghost function RecentPostsDeduped(front: seq<FrontLink>, history: seq<string>): seq<Post> {
    AddHistory(FrontPosts(front), history)
  }

  /** Every post from position `n` on is unspammed and has an address no
      earlier post has. */
  ghost predicate AppendedFresh(r: seq<Post>, n: nat) {
    forall j :: n <= j < |r| ==> !r[j].spammed && !HasUri(r[..j], r[j].uri)
  }

  /** Every post from position `n` on has the address of a history link. */
  ghost predicate AppendedFromHistory(r: seq<Post>, n: nat, hrefs: seq<string>) {
    forall j :: n <= j < |r| ==> exists k :: 0 <= k < |hrefs| && r[j].uri == CommentsUri(hrefs[k])
  }

  /** The posts already listed stay in front, and every post appended is
      unspammed and has an address no earlier post has. */
  lemma {:induction false} AddHistoryFresh(posts: seq<Post>, hrefs: seq<string>)
    ensures var r := AddHistory(posts, hrefs);
      |posts| <= |r| && r[..|posts|] == posts && AppendedFresh(r, |posts|)
    decreases |hrefs|
  {
    if hrefs != [] {
      var uri := CommentsUri(hrefs[0]);
      var next := if HasUri(posts, uri) then posts else posts + [Post(uri, false)];
      AddHistoryFresh(next, hrefs[1..]);
      var r := AddHistory(next, hrefs[1..]);
      assert r[..|posts|] == posts by {
        assert r[..|next|][..|posts|] == next[..|posts|];
      }
      forall j | |posts| <= j < |r|
        ensures !r[j].spammed && !HasUri(r[..j], r[j].uri)
      {
        if j < |next| {
          assert r[j] == Post(uri, false) && r[..j] == posts;
        }
      }
    }
  }

  /** Every post appended comes from a history link. */
  lemma {:induction false} AddHistorySources(posts: seq<Post>, hrefs: seq<string>)
    ensures AppendedFromHistory(AddHistory(posts, hrefs), |posts|, hrefs)
    decreases |hrefs|
  {
    if hrefs != [] {
      var uri := CommentsUri(hrefs[0]);
      var next := if HasUri(posts, uri) then posts else posts + [Post(uri, false)];
      var tail := hrefs[1..];
      AddHistorySources(next, tail);
      AddHistoryFresh(next, tail);
      var r := AddHistory(next, tail);
      forall j | |posts| <= j < |r|
        ensures exists k :: 0 <= k < |hrefs| && r[j].uri == CommentsUri(hrefs[k])
      {
        if j < |next| {
          assert r[j] == next[j] && r[j].uri == CommentsUri(hrefs[0]);
        } else {
          var k :| 0 <= k < |tail| && r[j].uri == CommentsUri(tail[k]);
          assert tail[k] == hrefs[k + 1];
        }
      }
    }
  }

  /** An address listed stays listed, and every history link's address is listed. */
  lemma {:induction false} AddHistoryCovers(posts: seq<Post>, hrefs: seq<string>, uri: string)
    requires HasUri(posts, uri) || exists k :: 0 <= k < |hrefs| && uri == CommentsUri(hrefs[k])
    ensures HasUri(AddHistory(posts, hrefs), uri)
    decreases |hrefs|
  {
    if hrefs == [] {
    } else {
      var next := if HasUri(posts, CommentsUri(hrefs[0])) then posts else posts + [Post(CommentsUri(hrefs[0]), false)];
      assert HasUri(next, CommentsUri(hrefs[0])) by {
        if !HasUri(posts, CommentsUri(hrefs[0])) {
          assert next[|posts|].uri == CommentsUri(hrefs[0]);
        }
      }
      if HasUri(posts, uri) {
        var k :| 0 <= k < |posts| && posts[k].uri == uri;
        assert next[k] == posts[k];
      } else if uri != CommentsUri(hrefs[0]) {
        var k :| 0 <= k < |hrefs| && uri == CommentsUri(hrefs[k]);
        assert k > 0 && hrefs[k] == hrefs[1..][k - 1];
      }
      AddHistoryCovers(next, hrefs[1..], uri);
    }
  }

  /** With the intended guard no address is appended twice or appended when a
      front-page post has it, so the candidates are free of repeated
      addresses whenever the front-page posts are; and every history link is
      still a candidate. */
  lemma RecentPostsDedupedUnique(front: seq<FrontLink>, history: seq<string>)
    ensures var posts, n := RecentPostsDeduped(front, history), |FrontPosts(front)|;
      && n <= |posts| && posts[..n] == FrontPosts(front)
      && (forall j :: n <= j < |posts| ==> !posts[j].spammed && forall i :: 0 <= i < j ==> posts[i].uri != posts[j].uri)
      && AppendedFromHistory(posts, n, history)
      && (forall k :: 0 <= k < |history| ==> HasUri(posts, CommentsUri(history[k])))
      && ((forall i, j :: 0 <= i < j < n ==> FrontPosts(front)[i].uri != FrontPosts(front)[j].uri) ==>
          forall i, j :: 0 <= i < j < |posts| ==> posts[i].uri != posts[j].uri)
  {
    var posts, n := RecentPostsDeduped(front, history), |FrontPosts(front)|;
    AddHistoryFresh(FrontPosts(front), history);
    AddHistorySources(FrontPosts(front), history);
    forall j, i | n <= j < |posts| && 0 <= i < j
      ensures posts[i].uri != posts[j].uri
    {
      assert posts[..j][i] == posts[i];
    }
    forall k | 0 <= k < |history|
      ensures HasUri(posts, CommentsUri(history[k]))
    {
      AddHistoryCovers(FrontPosts(front), history, CommentsUri(history[k]));
    }
  }
}
