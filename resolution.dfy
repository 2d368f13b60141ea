/** `ArticleHandler.get` with `render_article` (blog.py:247-265, 207-219): the
    chain that resolves a path below the root to a redirect, an article or a
    404. */
module Resolution {
  import opened Options
  import opened Text
  import opened Permalinks
  import opened Legacy

  /** What the handler answers: a redirect to an alias's target, the rendered
      article, or the 404 page. */
  datatype Outcome<A> = Redirect(target: string) | Found(article: A) | NotFound

  /** `render_article`: a found article is rendered, a missing one is a 404. */
  function RenderArticle<A>(article: Option<A>): (r: Outcome<A>)
    ensures r.NotFound? <==> article.None?
    ensures article.Some? ==> r == Found(article.value)
  {
    match article
    case Some(a) => Found(a)
    case None => NotFound
  }

  /** The index of the first alias, in the table's iteration order, that
      equals `path` ignoring case. */
  function FirstAlias(path: string, redirects: seq<(string, string)>): (r: Option<nat>)
    ensures r.Some? ==>
      && r.value < |redirects|
      && SameIgnoringCase(path, redirects[r.value].0)
      && forall j :: 0 <= j < r.value ==> !SameIgnoringCase(path, redirects[j].0)
    ensures r.None? ==> forall j :: 0 <= j < |redirects| ==> !SameIgnoringCase(path, redirects[j].0)
  {
    if redirects == [] then None
    else if SameIgnoringCase(path, redirects[0].0) then Some(0)
    else match FirstAlias(path, redirects[1..])
      case None => None
      case Some(i) => Some(i + 1)
  }

  /** The resolution chain. An alias equal to the path ignoring case
      redirects, and then no article is looked up; otherwise an article under
      the legacy id wins over one under the permalink; the answer is a 404
      only when both lookups miss. */
  function Resolve<A>(path: string, redirects: seq<(string, string)>, legacyProgram: Option<string>,
                      byLegacyId: map<string, A>, byPermalink: map<string, A>): (r: Outcome<A>)
    ensures r.Redirect? <==> exists j :: 0 <= j < |redirects| && SameIgnoringCase(path, redirects[j].0)
    ensures forall k :: 0 <= k < |redirects| && SameIgnoringCase(path, redirects[k].0)
                        && (forall j :: 0 <= j < k ==> !SameIgnoringCase(path, redirects[j].0))
                     ==> r == Redirect(redirects[k].1)
    ensures !r.Redirect? && LegacyLookup(path, legacyProgram, byLegacyId).Some? ==>
      r == Found(LegacyLookup(path, legacyProgram, byLegacyId).value)
    ensures !r.Redirect? && LegacyLookup(path, legacyProgram, byLegacyId).None? && path in byPermalink ==>
      r == Found(byPermalink[path])
    ensures r.NotFound? <==>
      && !r.Redirect?
      && LegacyLookup(path, legacyProgram, byLegacyId).None?
      && path !in byPermalink
  {
    match FirstAlias(path, redirects)
    case Some(i) => Redirect(redirects[i].1)
    case None =>
      var article := LegacyLookup(path, legacyProgram, byLegacyId);
      var article := if article.None? && path in byPermalink then Some(byPermalink[path]) else article;
      RenderArticle(article)
  }

  /** `ArticleHandler.get(path)`: the alias loop with its early return, then
      the legacy lookup, then the permalink lookup, then `render_article`. */
  method GetArticle<A>(path: string, redirects: seq<(string, string)>, legacyProgram: Option<string>,
                       byLegacyId: map<string, A>, byPermalink: map<string, A>) returns (o: Outcome<A>)
    ensures o == Resolve(path, redirects, legacyProgram, byLegacyId, byPermalink)
  {
    var i := 0;
    while i < |redirects|
      invariant 0 <= i <= |redirects|
      invariant forall j :: 0 <= j < i ==> !SameIgnoringCase(path, redirects[j].0)
    {
      if Lower(path) == Lower(redirects[i].0) {
        return Redirect(redirects[i].1);
      }
      i := i + 1;
    }
    var article := LegacyLookup(path, legacyProgram, byLegacyId);
    if article.None? {
      article := if path in byPermalink then Some(byPermalink[path]) else None;
    }
    o := RenderArticle(article);
  }

  /** A path that carries a legacy id starts with 'n' and holds a '/'. */
  lemma LegacyPathShape(path: string, legacyProgram: Option<string>)
    requires LegacyId(path, legacyProgram).Some?
    ensures |path| > 4 && path[0] == 'n' && path[4] == '/'
  {
    assert path[..5] == "node/";
  }

  /** No permalink both starts with 'n' and has '/' as its fifth character:
      an article permalink has no '/', a blog entry permalink starts with a
      digit. */
  lemma PermalinkShape(path: string, kind: ArticleType, title: string, published: Date)
    requires |path| > 4 && path[0] == 'n' && path[4] == '/'
    ensures path != Permalink(kind, title, published)
  {
    match kind
    case Article =>
      ArticlePermalinkIsSlug(title, published);
      assert '/' in path;
    case BlogEntry =>
      var y := Decimal(published.year);
      assert Permalink(kind, title, published)[0] == y[0];
  }

  /** A path that carries a legacy id is never the permalink of an article or
      a blog entry, so the legacy step never hides a stored permalink. */
  lemma LegacyPathIsNoPermalink(path: string, legacyProgram: Option<string>,
                                kind: ArticleType, title: string, published: Date)
    requires LegacyId(path, legacyProgram).Some?
    ensures path != Permalink(kind, title, published)
  {
    LegacyPathShape(path, legacyProgram);
    PermalinkShape(path, kind, title, published);
  }
}
