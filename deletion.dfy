/** `ArticleHandler.delete(path)` (blog.py:279-309): DELETE on /article or
    /comment deletes the first stored entity of that kind. */
module Deletion {
  import opened Options
  import opened Text

  /** The entity kinds DELETE knows. */
  datatype Kind = ArticleKind | CommentKind

  /** `model_class = path.lower()` compared with 'article' and 'comment'. */
  function KindOf(path: string): Option<Kind> {
    var modelClass := Lower(path);
    if modelClass == "article" then Some(ArticleKind)
    else if modelClass == "comment" then Some(CommentKind)
    else None
  }

  /** The path names articles exactly when it is "article" in any case, and
      comments exactly when it is "comment" in any case; any other path names
      no kind. */
  lemma KindOfMeans(path: string)
    ensures KindOf(path) == Some(ArticleKind) <==> SameIgnoringCase(path, "article")
    ensures KindOf(path) == Some(CommentKind) <==> SameIgnoringCase(path, "comment")
    ensures KindOf(path) == None <==>
      !SameIgnoringCase(path, "article") && !SameIgnoringCase(path, "comment")
  {
    LowerOfLowercase("article");
    LowerOfLowercase("comment");
  }

  /** The kind does not depend on the case of the path. */
  lemma KindIgnoresCase(path: string)
    ensures KindOf(path) == KindOf(Lower(path))
  {
    LowerIdempotent(path);
  }

  /** The answer to a DELETE: the body naming the deleted entity, or 404. */
  datatype DeleteResult = Deleted(body: string) | NotFound

  /** The stored articles and comments, each given by its permalink, in the
      order the unfiltered query returns them. */
  class Datastore {
    var articles: seq<string>
    var comments: seq<string>

    constructor (articles: seq<string>, comments: seq<string>)
      ensures this.articles == articles && this.comments == comments
    {
      this.articles := articles;
      this.comments := comments;
    }

    /** `delete_entity(query)`: the first entity of the query, if any, is
        deleted and named in the response body. */
    static method DeleteFirst(entities: seq<string>) returns (r: DeleteResult, rest: seq<string>)
      ensures entities == [] ==> r == NotFound && rest == []
      ensures entities != [] ==> r == Deleted("Deleted " + entities[0]) && rest == entities[1..]
    {
      if |entities| > 0 {
        var permalink := entities[0];
        rest := entities[1..];
        r := Deleted("Deleted " + permalink);
      } else {
        r := NotFound;
        rest := [];
      }
    }

    /** `ArticleHandler.delete(path)`: a path naming neither kind, or a kind
        with nothing stored, is a 404 and nothing changes; otherwise the first
        entity of that kind, and nothing else, is deleted. */
    method Delete(path: string) returns (r: DeleteResult)
      modifies this
      ensures KindOf(path) == Some(ArticleKind) ==>
        && comments == old(comments)
        && (old(articles) == [] ==> r == NotFound && articles == [])
        && (old(articles) != [] ==>
              r == Deleted("Deleted " + old(articles)[0]) && articles == old(articles)[1..])
      ensures KindOf(path) == Some(CommentKind) ==>
        && articles == old(articles)
        && (old(comments) == [] ==> r == NotFound && comments == [])
        && (old(comments) != [] ==>
              r == Deleted("Deleted " + old(comments)[0]) && comments == old(comments)[1..])
      ensures KindOf(path) == None ==>
        r == NotFound && articles == old(articles) && comments == old(comments)
    {
      var kind := KindOf(path);
      if kind == Some(ArticleKind) {
        r, articles := DeleteFirst(articles);
      } else if kind == Some(CommentKind) {
        r, comments := DeleteFirst(comments);
      } else {
        r := NotFound;
      }
    }
  }
}
