/** The fields `renderSpammedBlogs` derives for every blog it lists: the
    time since the last post in years and months, the spammed posts, and the
    share of spam comments in percent. Floating-point arithmetic is replaced
    by exact integer arithmetic (see `MonthsPassed` and `DirtinessOf`). */
module Report {
  import opened JsStrings
  import opened Pages
  import opened Registry

  /** `Math.floor(d / 365)`: whole years in `d` days (Dafny's `/` by a
      positive number rounds down, as `Math.floor` does). */
  function YearsPassed(d: int): int {
    d / 365
  }

  /** `Math.round((d / 365 - yearsPassed) * 12)`: the remaining `d % 365`
      days as the nearest whole number of months, a half rounded up
      (`Math.round(x)` is the floor of `x + 1/2`). */
  function MonthsPassed(d: int): int {
    (24 * (d % 365) + 365) / 730
  }

  /** Years and months split `d` days: the years are the whole years, and
      the months are the nearest whole number to twelve times the remaining
      fraction of a year, so they range over 0..12. */
  lemma TimeSplit(d: int)
    ensures var y, m := YearsPassed(d), MonthsPassed(d);
      && 365 * y <= d < 365 * (y + 1)
      && 730 * m <= 24 * (d - 365 * y) + 365 < 730 * (m + 1)
      && m as real - 0.5 <= 12.0 * (d - 365 * y) as real / 365.0 < m as real + 0.5
      && 0 <= m <= 12
  {
  }

  /** 400 days read as one year and one month. */
  lemma FourHundredDays()
    ensures YearsPassed(400) == 1 && MonthsPassed(400) == 1
  {
  }

  /** Just short of two years reads as one year and twelve months. */
  lemma TwelveMonths()
    ensures YearsPassed(715) == 1 && MonthsPassed(715) == 12
  {
  }

  /** Years and months with twelve months carried into a year, the split the
      text "Jahr(e), Monat(e)" suggests: the months then lie in 0..11. */
  function CarriedSplit(d: int): (int, int) {
    var y, m := YearsPassed(d), MonthsPassed(d);
    if m == 12 then (y + 1, 0) else (y, m)
  }

  /** The carried split counts the same months as `YearsPassed` and
      `MonthsPassed`, keeps the months in 0..11, and its total is the nearest
      whole number of months to the time passed, a half rounded up. */
  lemma CarriedSplitMeaning(d: int)
    ensures var (y', m') := CarriedSplit(d);
      && 0 <= m' <= 11
      && 12 * y' + m' == 12 * YearsPassed(d) + MonthsPassed(d)
      && (12 * y' + m') as real - 0.5 <= 12.0 * d as real / 365.0 < (12 * y' + m') as real + 0.5
  {
    TimeSplit(d);
  }

  /** 715 days carry into two years and no month. */
  lemma CarriedTwelveMonths()
    ensures CarriedSplit(715) == (2, 0)
  {
    TwelveMonths();
  }

  /** `n + ' ' + unit + (n === 1 ? '' : 'e')`. */
  function Counted(n: int, unit: string): string {
    IntToString(n) + " " + unit + (if n == 1 then "" else "e")
  }

  /** The `timePassed` text, e.g. "(~ 1 Jahr, 1 Monat)". */
  function TimePassed(d: int): string {
    "(~ " + Counted(YearsPassed(d), "Jahr") + ", " + Counted(MonthsPassed(d), "Monat") + ")"
  }

  /** A unit that does not end in "e" gets the plural ending exactly when the
      number is not 1. */
  lemma PluralSuffix(n: int, unit: string)
    requires unit != [] && unit[|unit| - 1] != 'e'
    ensures var s := Counted(n, unit);
      && |s| == |IntToString(n)| + 1 + |unit| + (if n == 1 then 0 else 1)
      && (s[|s| - 1] == 'e' <==> n != 1)
  {
  }

  lemma TimePassedOfFourHundredDays()
    ensures TimePassed(400) == "(~ 1 Jahr, 1 Monat)"
  {
    FourHundredDays();
    assert IntToString(1) == "1";
  }

  /** `Math.round(spam / analyzed * 100)`: a whole percentage, `NaN` for 0/0
      and `Infinity` for spam over no comments. */
  datatype Dirtiness = Percent(value: int) | NaN | Infinity

  /** The percentage computed exactly, a half rounded up. */
  function DirtinessOf(spam: nat, analyzed: nat): Dirtiness {
    if analyzed == 0 then (if spam == 0 then NaN else Infinity)
    else Percent((200 * spam + analyzed) / (2 * analyzed))
  }

  /** With comments analysed the dirtiness is the percentage of spam rounded
      to the nearest whole number, and it stays in 0..100 when spam comments
      do not outnumber comments. */
  lemma DirtinessRounds(spam: nat, analyzed: nat)
    requires analyzed > 0
    ensures var d := DirtinessOf(spam, analyzed);
      && d.Percent?
      && 2 * analyzed * d.value <= 200 * spam + analyzed < 2 * analyzed * (d.value + 1)
      && d.value as real - 0.5 <= 100.0 * spam as real / analyzed as real < d.value as real + 0.5
      && 0 <= d.value
      && (spam <= analyzed ==> d.value <= 100)
  {
    var n, q := 200 * spam + analyzed, 2 * analyzed;
    var p := n / q;
    var r := n % q;
    assert n == q * p + r && 0 <= r < q;
    if p < 0 {
      MulBelow(q, p, 0);
    }
    if spam <= analyzed && p > 100 {
      MulBelow(q, 100, p);
    }
    ScaledRounding(spam, analyzed, p);
  }

  /** The integer bounds of a half-up rounding, read over the reals. */
  lemma ScaledRounding(spam: nat, analyzed: nat, v: int)
    requires analyzed > 0
    requires 2 * analyzed * v <= 200 * spam + analyzed < 2 * analyzed * (v + 1)
    ensures v as real - 0.5 <= 100.0 * spam as real / analyzed as real < v as real + 0.5
  {
    var a, x, w := analyzed as real, 100.0 * spam as real / analyzed as real, v as real;
    var k := analyzed * v;
    assert 2 * k <= 200 * spam + analyzed < 2 * k + 2 * analyzed;
    RealOfProduct(analyzed, v);
    var kr := a * w;
    assert k as real == kr;
    assert 2.0 * kr <= 200.0 * spam as real + a < 2.0 * kr + 2.0 * a;
    assert x * a == 100.0 * spam as real;
    assert (w - 0.5) * a == kr - 0.5 * a && (w + 0.5) * a == kr + 0.5 * a;
    RealDivideBounds(w - 0.5, x, w + 0.5, a);
  }

  lemma RealOfProduct(a: int, v: int)
    ensures (a * v) as real == a as real * v as real
  {
  }

  /** Bounds on multiples by a positive factor are bounds on the numbers. */
  lemma RealDivideBounds(lo: real, x: real, hi: real, a: real)
    requires a > 0.0 && lo * a <= x * a < hi * a
    ensures lo <= x < hi
  {
  }

  /** Multiplying by a positive number keeps a strict order, with room `q`. */
  lemma MulBelow(q: int, a: int, b: int)
    requires q > 0 && a < b
    ensures q * a + q <= q * b
  {
    var c := b - a;
    assert q * b == q * a + q * c;
    MulAtLeast(q, c);
  }

  lemma {:induction false} MulAtLeast(q: int, c: int)
    requires q >= 0 && c >= 1
    ensures q * c >= q
    decreases c
  {
    if c > 1 {
      MulAtLeast(q, c - 1);
      assert q * c == q * (c - 1) + q;
    }
  }

  /** The addresses of the spammed posts, in post order. */
  function DirtyPosts(posts: seq<Post>): seq<string>
    decreases |posts|
  {
    if posts == [] then []
    else DirtyPosts(posts[..|posts| - 1]) + (if posts[|posts| - 1].spammed then [posts[|posts| - 1].uri] else [])
  }

  /** An address is listed exactly when some spammed post has it, there are
      no more of them than posts, and the order is that of the posts. */
  lemma {:induction false} DirtyPostsMembers(posts: seq<Post>, u: string)
    ensures u in DirtyPosts(posts) <==> exists k :: 0 <= k < |posts| && posts[k].spammed && posts[k].uri == u
    ensures |DirtyPosts(posts)| <= |posts|
    decreases |posts|
  {
    if posts != [] {
      var n := |posts| - 1;
      DirtyPostsMembers(posts[..n], u);
      assert forall k :: 0 <= k < n ==> posts[..n][k] == posts[k];
    }
  }

  lemma {:induction false} DirtyPostsAppend(a: seq<Post>, b: seq<Post>)
    ensures DirtyPosts(a + b) == DirtyPosts(a) + DirtyPosts(b)
    decreases |b|
  {
    if b == [] {
      assert a + b == a;
    } else {
      var b' := b[..|b| - 1];
      assert (a + b)[..|a + b| - 1] == a + b';
      DirtyPostsAppend(a, b');
    }
  }

  /** One element of `mustacheViewModel.spamBlogs`. */
  datatype Entry = Entry(
    alias: string,
    lastPostPublished: int,
    timePassed: string,
    analyzedPosts: nat,
    spammedPosts: nat,
    spamComments: nat,
    dirtiness: Dirtiness,
    dirtyPosts: seq<string>,
    spamLinks: seq<string>)

  /** The entry listed for the blog `alias` with record `b`. */
  function EntryOf(alias: string, b: Blog): Entry {
    var dirty := DirtyPosts(b.analyzedPosts);
    Entry(alias, b.lastPostPublished, TimePassed(b.lastPostPublished), |b.analyzedPosts|, |dirty|,
          b.spamComments, DirtinessOf(b.spamComments, b.analyzedComments), dirty, b.spamLinks)
  }

  /** The aliases listed: in key order, those whose blog has at least
      `minSpam` spam comments. */
  function SpamKeys(blogs: map<string, Blog>, keys: seq<string>, minSpam: int): (r: seq<string>)
    requires forall k :: 0 <= k < |keys| ==> keys[k] in blogs
    ensures forall i :: 0 <= i < |r| ==> r[i] in blogs && blogs[r[i]].spamComments >= minSpam
    decreases |keys|
  {
    if keys == [] then []
    else
      var n := |keys| - 1;
      SpamKeys(blogs, keys[..n], minSpam) + (if blogs[keys[n]].spamComments < minSpam then [] else [keys[n]])
  }

  /** The listed entries, one per listed alias. */
  function SpamBlogs(blogs: map<string, Blog>, keys: seq<string>, minSpam: int): seq<Entry>
    requires forall k :: 0 <= k < |keys| ==> keys[k] in blogs
  {
    var listed := SpamKeys(blogs, keys, minSpam);
    seq(|listed|, i requires 0 <= i < |listed| => EntryOf(listed[i], blogs[listed[i]]))
  }

  /** An alias is listed exactly when it is a key whose blog has enough spam. */
  lemma {:induction false} SpamKeysListed(blogs: map<string, Blog>, keys: seq<string>, minSpam: int, a: string)
    requires forall k :: 0 <= k < |keys| ==> keys[k] in blogs
    ensures a in SpamKeys(blogs, keys, minSpam) <==> a in keys && blogs[a].spamComments >= minSpam
    decreases |keys|
  {
    if keys != [] {
      var n := |keys| - 1;
      SpamKeysListed(blogs, keys[..n], minSpam, a);
      assert keys == keys[..n] + [keys[n]];
    }
  }

  /** Every listed entry is that of a key with enough spam, and every such
      key is listed. */
  lemma SpamBlogsListed(blogs: map<string, Blog>, keys: seq<string>, minSpam: int, e: Entry)
    requires forall k :: 0 <= k < |keys| ==> keys[k] in blogs
    ensures e in SpamBlogs(blogs, keys, minSpam) <==>
      exists a :: a in keys && blogs[a].spamComments >= minSpam && e == EntryOf(a, blogs[a])
  {
    var listed := SpamKeys(blogs, keys, minSpam);
    var r := SpamBlogs(blogs, keys, minSpam);
    if e in r {
      var i :| 0 <= i < |r| && r[i] == e;
      SpamKeysListed(blogs, keys, minSpam, listed[i]);
    }
    if exists a :: a in keys && blogs[a].spamComments >= minSpam && e == EntryOf(a, blogs[a]) {
      var a :| a in keys && blogs[a].spamComments >= minSpam && e == EntryOf(a, blogs[a]);
      SpamKeysListed(blogs, keys, minSpam, a);
      var i :| 0 <= i < |listed| && listed[i] == a;
      assert r[i] == e;
    }
  }

  /** A dictionary with less spam lists no alias the other one omits. */
  lemma SpamKeysLessSpam(l: Table, s: Table, minSpam: int)
    requires WellFormed(s) && LessSpam(l, s)
    ensures forall k :: 0 <= k < |l.keys| ==> l.keys[k] in l.blogs
    ensures forall a :: a in SpamKeys(l.blogs, l.keys, minSpam) ==> a in SpamKeys(s.blogs, s.keys, minSpam)
  {
    forall a | a in SpamKeys(l.blogs, l.keys, minSpam)
      ensures a in SpamKeys(s.blogs, s.keys, minSpam)
    {
      SpamKeysListed(l.blogs, l.keys, minSpam, a);
      SpamKeysListed(s.blogs, s.keys, minSpam, a);
    }
  }

  /** One more key adds its entry at the end when its blog has enough spam. */
  lemma SpamBlogsSnoc(blogs: map<string, Blog>, keys: seq<string>, minSpam: int)
    requires keys != [] && forall k :: 0 <= k < |keys| ==> keys[k] in blogs
    ensures var n := |keys| - 1;
      var b := blogs[keys[n]];
      SpamBlogs(blogs, keys, minSpam) ==
        SpamBlogs(blogs, keys[..n], minSpam) + (if b.spamComments < minSpam then [] else [EntryOf(keys[n], b)])
  {
  }

  /** What is listed for a blog: its counts, its spammed posts and its dirtiness. */
  lemma EntryFields(alias: string, b: Blog)
    ensures var e := EntryOf(alias, b);
      && e.alias == alias && e.lastPostPublished == b.lastPostPublished
      && e.analyzedPosts == |b.analyzedPosts|
      && e.spammedPosts == |e.dirtyPosts| <= e.analyzedPosts
      && (forall u :: u in e.dirtyPosts <==> exists k :: 0 <= k < |b.analyzedPosts| && b.analyzedPosts[k].spammed && b.analyzedPosts[k].uri == u)
      && (SpamBounded(b) && b.analyzedComments > 0 ==> e.dirtiness.Percent? && 0 <= e.dirtiness.value <= 100)
  {
    DirtyPostsMembers(b.analyzedPosts, "");
    forall u {
      DirtyPostsMembers(b.analyzedPosts, u);
    }
    if b.analyzedComments > 0 {
      DirtinessRounds(b.spamComments, b.analyzedComments);
    }
  }

  /** The inner loop of `renderSpammedBlogs` that builds `dirtyPosts`. */
  method CollectDirtyPosts(posts: seq<Post>) returns (dirtyPosts: seq<string>)
    ensures dirtyPosts == DirtyPosts(posts)
  {
    dirtyPosts := [];
    for j := 0 to |posts|
      invariant dirtyPosts == DirtyPosts(posts[..j])
    {
      assert posts[..j + 1][..j] == posts[..j];
      if posts[j].spammed {
        dirtyPosts := dirtyPosts + [posts[j].uri];
      }
    }
    assert posts[..|posts|] == posts;
  }

  /** The loop of `renderSpammedBlogs` over the dictionary's keys. */
  method RenderSpammedBlogs(t: Table, minSpam: int) returns (spamBlogs: seq<Entry>)
    requires forall k :: 0 <= k < |t.keys| ==> t.keys[k] in t.blogs
    ensures spamBlogs == SpamBlogs(t.blogs, t.keys, minSpam)
  {
    spamBlogs := [];
    for i := 0 to |t.keys|
      invariant spamBlogs == SpamBlogs(t.blogs, t.keys[..i], minSpam)
    {
      assert t.keys[..i + 1][..i] == t.keys[..i];
      SpamBlogsSnoc(t.blogs, t.keys[..i + 1], minSpam);
      var alias := t.keys[i];
      var suspect := t.blogs[alias];
      if suspect.spamComments < minSpam {
        continue;
      }
      var yearsPassed := YearsPassed(suspect.lastPostPublished);
      var monthsPassed := MonthsPassed(suspect.lastPostPublished);
      var dirtyPosts := CollectDirtyPosts(suspect.analyzedPosts);
      var timePassed := "(~ " + Counted(yearsPassed, "Jahr") + ", " + Counted(monthsPassed, "Monat") + ")";
      spamBlogs := spamBlogs + [Entry(alias, suspect.lastPostPublished, timePassed, |suspect.analyzedPosts|,
                                     |dirtyPosts|, suspect.spamComments,
                                     DirtinessOf(suspect.spamComments, suspect.analyzedComments),
                                     dirtyPosts, suspect.spamLinks)];
    }
    assert t.keys[..|t.keys|] == t.keys;
  }
}
