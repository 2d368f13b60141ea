/** The `permalink_funcs` table (blog.py:62-66) and the lookup key the blog
    entry handlers build from the three parts of a request path. */
module Permalinks {
  import opened Options
  import opened Text
  import opened Slugs

  /** The two kinds of article the table has an entry for. */
  datatype ArticleType = Article | BlogEntry

  /** The fields of the publication `datetime` a permalink reads. */
  datatype Date = Date(year: nat, month: nat)

  /** `permalink_funcs[kind](title, published)`: an article's permalink is the
      slug of its title; a blog entry's is `str(year)/str(month)/slug`. */
  function Permalink(kind: ArticleType, title: string, published: Date): string {
    match kind
    case Article => FriendlyUrl(title)
    case BlogEntry =>
      Decimal(published.year) + "/" + Decimal(published.month) + "/" + FriendlyUrl(title)
  }

  /** `year + '/' + month + '/' + perm_stem`, the permalink the blog entry
      handlers look up for the path `/<year>/<month>/<perm_stem>`. */
  function EntryKey(year: string, month: string, stem: string): string {
    year + "/" + month + "/" + stem
  }

  /** Reads a blog entry permalink back into its year, month and slug: three
      '/'-separated parts, the first two non-empty runs of digits. */
  function ParseEntryPermalink(p: string): Option<(nat, nat, string)> {
    var parts := Split(p, '/');
    if |parts| == 3 && parts[0] != [] && AllDigits(parts[0]) && parts[1] != [] && AllDigits(parts[1])
    then Some((ParseDecimal(parts[0]), ParseDecimal(parts[1]), parts[2]))
    else None
  }

  /** An entry key is the '/'-join of its three parts. */
  lemma EntryKeyIsJoin(year: string, month: string, stem: string)
    ensures EntryKey(year, month, stem) == Join([year, month, stem], '/')
  {
    assert Join([stem], '/') == stem;
    assert [year, month, stem][1..] == [month, stem];
    assert [month, stem][1..] == [stem];
  }

  /** The parts of an entry key with '/'-free parts are those parts. */
  lemma SplitEntryKey(year: string, month: string, stem: string)
    requires '/' !in year && '/' !in month && '/' !in stem
    ensures Split(EntryKey(year, month, stem), '/') == [year, month, stem]
  {
    EntryKeyIsJoin(year, month, stem);
    SplitJoin([year, month, stem], '/');
  }

  /** The '/'-pieces of an entry key are the pieces of its year, then of its
      month, then of its stem. */
  lemma SplitEntryKeyPieces(year: string, month: string, stem: string)
    ensures Split(EntryKey(year, month, stem), '/') ==
      Split(year, '/') + Split(month, '/') + Split(stem, '/')
  {
    assert EntryKey(year, month, stem) == year + ['/'] + (month + ['/'] + stem);
    SplitAtSep(year, month + ['/'] + stem, '/');
    SplitAtSep(month, stem, '/');
  }

  /** An entry key that splits into exactly three pieces has '/'-free parts. */
  lemma ThreePieces(year: string, month: string, stem: string)
    requires |Split(EntryKey(year, month, stem), '/')| == 3
    ensures '/' !in year && '/' !in month && '/' !in stem
  {
    SplitEntryKeyPieces(year, month, stem);
    OnePiece(year, '/');
    OnePiece(month, '/');
    OnePiece(stem, '/');
  }

  /** A blog entry permalink reads back as its year, its month and the slug of
      its title; the month part carries no leading zero. */
  lemma EntryPermalinkRoundTrip(title: string, published: Date)
    ensures ParseEntryPermalink(Permalink(BlogEntry, title, published))
         == Some((published.year, published.month, FriendlyUrl(title)))
    ensures var month := Split(Permalink(BlogEntry, title, published), '/')[1];
      month == Decimal(published.month) && (published.month > 0 ==> month[0] != '0')
  {
    var y, m, slug := Decimal(published.year), Decimal(published.month), FriendlyUrl(title);
    SlugHasNoSpaceOrSlash(slug);
    assert '/' !in y by { assert forall i :: 0 <= i < |y| ==> IsDigit(y[i]); }
    assert '/' !in m by { assert forall i :: 0 <= i < |m| ==> IsDigit(m[i]); }
    assert Permalink(BlogEntry, title, published) == EntryKey(y, m, slug);
    SplitEntryKey(y, m, slug);
    ParseDecimalOfDecimal(published.year);
    ParseDecimalOfDecimal(published.month);
  }

  /** An article permalink is a slug and holds no '/', so it never reads as a
      blog entry permalink. */
  lemma ArticlePermalinkIsSlug(title: string, published: Date)
    ensures IsSlug(Permalink(Article, title, published))
    ensures '/' !in Permalink(Article, title, published)
    ensures ParseEntryPermalink(Permalink(Article, title, published)).None?
  {
    var p := Permalink(Article, title, published);
    SlugHasNoSpaceOrSlash(p);
    SplitJoin([p], '/');
  }

  /** An article and a blog entry never share a permalink. */
  lemma PermalinkKindsDisjoint(title1: string, date1: Date, title2: string, date2: Date)
    ensures Permalink(Article, title1, date1) != Permalink(BlogEntry, title2, date2)
  {
    ArticlePermalinkIsSlug(title1, date1);
    var e := Permalink(BlogEntry, title2, date2);
    var y := Decimal(date2.year);
    assert e[|y|] == '/';
  }

  /** The blog entry handlers find an entry exactly when the path's year,
      month and stem are the unpadded decimal year, the unpadded decimal month
      and the slug of the title. */
  lemma EntryKeyMatchesPermalink(year: string, month: string, stem: string, title: string, published: Date)
    ensures EntryKey(year, month, stem) == Permalink(BlogEntry, title, published)
        <==> year == Decimal(published.year) && month == Decimal(published.month) && stem == FriendlyUrl(title)
  {
    var y, m, slug := Decimal(published.year), Decimal(published.month), FriendlyUrl(title);
    SlugHasNoSpaceOrSlash(slug);
    assert '/' !in y by { assert forall i :: 0 <= i < |y| ==> IsDigit(y[i]); }
    assert '/' !in m by { assert forall i :: 0 <= i < |m| ==> IsDigit(m[i]); }
    assert Permalink(BlogEntry, title, published) == EntryKey(y, m, slug);
    SplitEntryKey(y, m, slug);
    if EntryKey(year, month, stem) == EntryKey(y, m, slug) {
      ThreePieces(year, month, stem);
      SplitEntryKey(year, month, stem);
    }
  }

  /** A zero-padded month in the path ("2008/03/...") misses the entry, whose
      permalink has the month unpadded. */
  lemma PaddedMonthMisses(year: string, stem: string, title: string, published: Date)
    ensures EntryKey(year, "0" + Decimal(published.month), stem) != Permalink(BlogEntry, title, published)
  {
    var m := Decimal(published.month);
    assert "0" + m != m by {
      assert |"0" + m| == |m| + 1;
    }
    EntryKeyMatchesPermalink(year, "0" + m, stem, title, published);
  }
}
