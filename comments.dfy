/** Classification of the comments on one post: the whitelist scan
    (`isWhitelisted`), the guest-author test (`isGuestUser`) and the per-post
    spam analysis (`analyzePostForSpam`). A comment page is modelled as the
    sequence of its comment-author links (`.commentDate>a`), each with its
    `href` and its text. */
module Comments {
  import opened JsStrings
  import opened Seqs

  /** One `.commentDate>a` link: the author's address and the author's name. */
  datatype CommentLink = CommentLink(href: string, text: string)

  /** What `analyzePostForSpam` returns for one post. */
  datatype PostResult = PostResult(uri: string, totalComments: nat, spamLinks: seq<string>)

  /** Some whitelist entry occurs in `href`. */
  ghost predicate OnWhitelist(whitelist: seq<string>, href: string) {
    exists k, p :: 0 <= k < |whitelist| && OccursAt(href, whitelist[k], p)
  }

  /** `isWhitelisted(href)`: scans the whitelist in order and stops at the
      first entry that occurs in `href`. */
  method IsWhitelisted(whitelist: seq<string>, href: string) returns (isOnWhitelist: bool)
    ensures isOnWhitelist <==> OnWhitelist(whitelist, href)
    ensures whitelist == [] ==> !isOnWhitelist
  {
    isOnWhitelist := false;
    var i := 0;
    while i < |whitelist| && !isOnWhitelist
      invariant 0 <= i <= |whitelist|
      invariant isOnWhitelist <==> exists k, p :: 0 <= k < i && OccursAt(href, whitelist[k], p)
    {
      IndexOfFinds(href, whitelist[i]);
      isOnWhitelist := IndexOf(href, whitelist[i]) >= 0;
      i := i + 1;
    }
  }

  /** An empty whitelist entry (as left by a blank line) whitelists every address. */
  lemma EmptyEntryWhitelistsAll(whitelist: seq<string>, href: string)
    requires "" in whitelist
    ensures OnWhitelist(whitelist, href)
  {
    var k :| 0 <= k < |whitelist| && whitelist[k] == "";
    assert OccursAt(href, whitelist[k], 0);
  }

  /** A whitelist whose entries all appear in a second one whitelists no more than it. */
  lemma OnWhitelistMonotone(small: seq<string>, large: seq<string>, href: string)
    requires forall e :: e in small ==> e in large
    ensures OnWhitelist(small, href) ==> OnWhitelist(large, href)
  {
    if OnWhitelist(small, href) {
      var k, p :| 0 <= k < |small| && OccursAt(href, small[k], p);
      assert small[k] in small;
      var k' :| 0 <= k' < |large| && large[k'] == small[k];
      assert OccursAt(href, large[k'], p);
    }
  }

  /** `isGuestUser(user)`: the (lower-cased) name carries a guest marker. */
  function IsGuestUser(user: string): (r: bool)
    ensures r <==> (exists p :: OccursAt(user, "(gast)", p)) || (exists p :: OccursAt(user, "(guest)", p))
  {
    IndexOfFinds(user, "(gast)");
    IndexOfFinds(user, "(guest)");
    IndexOf(user, "(gast)") >= 0 || IndexOf(user, "(guest)") >= 0
  }

  /** A comment counts as spam when its author is a guest and the author's
      address is not whitelisted. */
  ghost predicate IsSpam(whitelist: seq<string>, c: CommentLink) {
    IsGuestUser(ToLower(c.text)) && !OnWhitelist(whitelist, c.href)
  }

  /** The entry recorded for a spam comment: the address, then the name in parentheses. */
  function SpamEntry(c: CommentLink): string {
    c.href + " (" + c.text + ")"
  }

  /** The spam entries of a sequence of comments, in comment order. */
  ghost function SpamEntries(whitelist: seq<string>, links: seq<CommentLink>): seq<string> {
    FilterMap(links, SpamTest(whitelist), SpamEntry)
  }

  /** `IsSpam` for a fixed whitelist, as a test on comments. */
  ghost function SpamTest(whitelist: seq<string>): CommentLink -> bool {
    c => IsSpam(whitelist, c)
  }

  /** `analyzePostForSpam(body, uri)` on the comment links of the page. */
  method AnalyzePostForSpam(whitelist: seq<string>, links: seq<CommentLink>, uri: string)
    returns (result: PostResult)
    ensures result.uri == uri
    ensures result.totalComments == |links|
    ensures result.spamLinks == SpamEntries(whitelist, links)
    ensures |result.spamLinks| <= result.totalComments
  {
    var totalComments := 0;
    var spamLinks := [];
    for i := 0 to |links|
      invariant totalComments == i
      invariant spamLinks == SpamEntries(whitelist, links[..i])
    {
      totalComments := totalComments + 1;
      var link := links[i];
      var guest := IsGuestUser(ToLower(link.text));
      var spam := false;
      if guest {
        var listed := IsWhitelisted(whitelist, link.href);
        spam := !listed;
      }
      if spam {
        spamLinks := spamLinks + [SpamEntry(link)];
      }
      assert links[..i + 1] == links[..i] + [link];
      FilterMapSnoc(links[..i], link, SpamTest(whitelist), SpamEntry);
    }
    assert links[..|links|] == links;
    result := PostResult(uri, totalComments, spamLinks);
  }

  /** The spam entries of two consecutive runs of comments are those of the
      first run followed by those of the second: order is kept. */
  lemma SpamEntriesAppend(whitelist: seq<string>, a: seq<CommentLink>, b: seq<CommentLink>)
    ensures SpamEntries(whitelist, a + b) == SpamEntries(whitelist, a) + SpamEntries(whitelist, b)
  {
    FilterMapAppend(a, b, SpamTest(whitelist), SpamEntry);
  }

  /** The comment at `i` is a spam comment whose entry is `e`. */
  ghost predicate GivesEntry(whitelist: seq<string>, links: seq<CommentLink>, i: int, e: string) {
    0 <= i < |links| && IsSpam(whitelist, links[i]) && SpamEntry(links[i]) == e
  }

  /** Every spam entry comes from a spam comment, and every spam comment gives one. */
  lemma SpamEntriesMembership(whitelist: seq<string>, links: seq<CommentLink>, e: string)
    ensures e in SpamEntries(whitelist, links) <==> exists i :: GivesEntry(whitelist, links, i, e)
  {
    var spam := SpamTest(whitelist);
    FilterMapMembership(links, spam, SpamEntry, e);
    if e in SpamEntries(whitelist, links) {
      var i :| 0 <= i < |links| && spam(links[i]) && SpamEntry(links[i]) == e;
      assert GivesEntry(whitelist, links, i, e);
    }
    if exists i :: GivesEntry(whitelist, links, i, e) {
      var i :| GivesEntry(whitelist, links, i, e);
      assert spam(links[i]) && SpamEntry(links[i]) == e;
    }
  }

  /** Shrinking the whitelist never lowers the number of spam comments found:
      with an empty whitelist a post reports the most spam. */
  lemma SpamEntriesWhitelistMonotone(small: seq<string>, large: seq<string>, links: seq<CommentLink>)
    requires forall e :: e in small ==> e in large
    ensures |SpamEntries(large, links)| <= |SpamEntries(small, links)|
  {
    forall c: CommentLink ensures IsSpam(large, c) ==> IsSpam(small, c) {
      OnWhitelistMonotone(small, large, c.href);
    }
    FilterMapMonotone(links, SpamTest(large), SpamTest(small), SpamEntry);
  }
}
