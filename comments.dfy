/** `process_comment_submission` (blog.py:162-205): the article's comment
    counter, the thread label of the new comment and the parent key read from
    the submitted key. */
module Comments {
  import opened Options
  import opened Text

  /** The counter after one more comment: `None` and 0 both count as no
      comment yet, so the new value is always the old count plus one. */
  function NextCount(numComments: Option<int>): (n: int)
    ensures n == (if numComments.Some? then numComments.value else 0) + 1
  {
    if numComments.None? || numComments.value == 0 then 1 else numComments.value + 1
  }

  /** `"%03d" % n`: for a count, a digit string of at least three characters
      that reads back as the count. */
  function ThreadLabel(n: int): (r: string)
    ensures |r| >= 3
    ensures n >= 0 ==> AllDigits(r) && ParseDecimal(r) == n
  {
    FormatZeroPadded(n, 3)
  }

  /** The thread label of a count reads back as that count; it has exactly
      three digits below 1000 and is the plain decimal form from 1000 on. */
  lemma ThreadLabelReadsBack(n: nat)
    ensures AllDigits(ThreadLabel(n)) && ParseDecimal(ThreadLabel(n)) == n
    ensures n < 1000 ==> |ThreadLabel(n)| == 3
    ensures n >= 1000 ==> ThreadLabel(n) == Decimal(n)
  {
    var d := Decimal(n);
    if |d| >= 3 {
      assert ThreadLabel(n) == d;
    }
    if 100 <= n < 1000 {
      assert |d| == 3 by {
        assert d == Decimal(n / 10) + [DigitChar(n % 10)];
        assert Decimal(n / 10) == Decimal(n / 100) + [DigitChar(n / 10 % 10)];
      }
    }
    if n >= 1000 {
      assert |d| >= 3 by {
        assert d == Decimal(n / 10) + [DigitChar(n % 10)];
        assert |Decimal(n / 10)| != 1;
      }
    }
  }

  /** Python's string order: lexicographic on character codes. */
  predicate LexLess(x: string, y: string)
    decreases |x|
  {
    y != [] && (x == [] || x[0] < y[0] || (x[0] == y[0] && LexLess(x[1..], y[1..])))
  }

  /** Below 1000 the label is the three decimal digits of the count. */
  lemma ThreadLabelDigits(n: nat)
    requires n < 1000
    ensures ThreadLabel(n) == [DigitChar(n / 100), DigitChar(n / 10 % 10), DigitChar(n % 10)]
  {
    if n < 10 {
      assert Decimal(n) == [DigitChar(n)];
    } else if n < 100 {
      assert Decimal(n) == [DigitChar(n / 10), DigitChar(n % 10)];
    } else {
      assert n / 10 / 10 == n / 100;
      assert Decimal(n / 10) == [DigitChar(n / 100), DigitChar(n / 10 % 10)];
      assert Decimal(n) == [DigitChar(n / 100), DigitChar(n / 10 % 10), DigitChar(n % 10)];
    }
  }

  /** The value of a three-digit string. */
  lemma ParseThreeDigits(x: string)
    requires |x| == 3 && AllDigits(x)
    ensures ParseDecimal(x) == 100 * DigitValue(x[0]) + 10 * DigitValue(x[1]) + DigitValue(x[2])
  {
    var one, two := x[..1], x[..2];
    assert one[..0] == [] && ParseDecimal(one) == DigitValue(x[0]);
    assert two[..1] == one && ParseDecimal(two) == 10 * DigitValue(x[0]) + DigitValue(x[1]);
    assert x[..2] == two;
  }

  /** Of two three-digit strings, the one of smaller value sorts first. */
  lemma ThreeDigitOrder(x: string, y: string)
    requires |x| == 3 && |y| == 3 && AllDigits(x) && AllDigits(y)
    requires ParseDecimal(x) < ParseDecimal(y)
    ensures LexLess(x, y)
  {
    ParseThreeDigits(x);
    ParseThreeDigits(y);
    if x[0] == y[0] {
      assert x[1..][1..] == [x[2]] && y[1..][1..] == [y[2]];
      if x[1] == y[1] {
        assert LexLess(x[1..][1..], y[1..][1..]);
      }
      assert LexLess(x[1..], y[1..]);
    }
  }

  /** While the count stays below 1000 the zero-padded labels sort, as
      strings, in the order the comments were counted. */
  lemma ThreadLabelsSortByCount(a: nat, b: nat)
    requires a < b < 1000
    ensures LexLess(ThreadLabel(a), ThreadLabel(b))
  {
    ThreadLabelReadsBack(a);
    ThreadLabelReadsBack(b);
    ThreeDigitOrder(ThreadLabel(a), ThreadLabel(b));
  }

  /** The label of the 1000th comment begins with '1'. */
  lemma ThousandthLabel()
    ensures |ThreadLabel(1000)| == 4 && ThreadLabel(1000)[0] == '1'
  {
    assert Decimal(1) == ['1'];
    assert Decimal(10) == ['1', '0'];
    assert Decimal(100) == ['1', '0', '0'];
    assert Decimal(1000) == ['1', '0', '0', '0'];
  }

  /** The label of the 999th comment begins with '9'. */
  lemma NineHundredNinetyNinthLabel()
    ensures |ThreadLabel(999)| == 3 && ThreadLabel(999)[0] == '9'
  {
    assert Decimal(9) == ['9'];
    assert Decimal(99) == ['9', '9'];
    assert Decimal(999) == ['9', '9', '9'];
  }

  /** From 1000 comments on, the order breaks: "1000" sorts before "999". */
  lemma ThreadLabelOrderBreaksAt1000()
    ensures LexLess(ThreadLabel(1000), ThreadLabel(999))
  {
    ThousandthLabel();
    NineHundredNinetyNinthLabel();
  }

  /** The longest prefix of `s` without '#': what a greedy `[^#]+` consumes. */
  function NonHashRun(s: string): (r: string)
    ensures |r| <= |s| && r == s[..|r|] && '#' !in r
    ensures |r| == |s| || s[|r|] == '#'
  {
    if s != [] && s[0] != '#' then [s[0]] + NonHashRun(s[1..]) else []
  }

  /** The longest prefix of `s` made of `\w` characters. */
  function WordRun(s: string): (r: string)
    ensures |r| <= |s| && r == s[..|r|] && AllWordChars(r)
    ensures |r| == |s| || !IsWordChar(s[|r|])
  {
    if s != [] && IsWordChar(s[0]) then [s[0]] + WordRun(s[1..]) else []
  }

  /** The word run of a run of word characters followed by a non-word
      character is that run. */
  lemma {:induction false} WordRunOf(word: string, rest: string)
    requires AllWordChars(word)
    requires rest == [] || !IsWordChar(rest[0])
    ensures WordRun(word + rest) == word
  {
    if word == [] {
      assert word + rest == rest;
    } else {
      assert (word + rest)[1..] == word[1..] + rest;
      WordRunOf(word[1..], rest);
      assert word == [word[0]] + word[1..];
    }
  }

  /** The run before the first '#' of `page + rest` is `page` when `page`
      holds no '#' and `rest` starts with one. */
  lemma {:induction false} NonHashRunOf(page: string, rest: string)
    requires '#' !in page && rest != [] && rest[0] == '#'
    ensures NonHashRun(page + rest) == page
  {
    if page == [] {
      assert page + rest == rest;
    } else {
      assert (page + rest)[1..] == page[1..] + rest;
      NonHashRunOf(page[1..], rest);
      assert page == [page[0]] + page[1..];
    }
  }

  /** The parent comment key captured by `re.match(r'[^#]+#comment-(\w+)', key)`:
      the key must have a non-empty part before its first '#', which must be
      followed by "comment-" and at least one word character. */
  function ParentKey(key: string): (r: Option<string>)
    ensures r.Some? ==> r.value != [] && AllWordChars(r.value)
  {
    var n := |NonHashRun(key)|;
    var rest := key[n..];
    if n >= 1 && |rest| > 9 && rest[..9] == "#comment-" && IsWordChar(rest[9])
    then Some(WordRun(rest[9..]))
    else None
  }

  /** The key has a first '#' at `i >= 1`, followed by "comment-" and a word
      character: the shape the pattern accepts. */
  predicate FragmentAt(key: string, i: int) {
    1 <= i && i + 10 <= |key| && '#' !in key[..i] && key[i..i + 9] == "#comment-"
    && IsWordChar(key[i + 9])
  }

  /** Where the key has that shape, the parent is the word run after "#comment-". */
  lemma ParentKeyAt(key: string, i: int)
    requires FragmentAt(key, i)
    ensures ParentKey(key) == Some(WordRun(key[i + 9..]))
  {
    assert key == key[..i] + key[i..];
    assert key[i] == key[i..i + 9][0] == '#';
    NonHashRunOf(key[..i], key[i..]);
    assert key[i..][..9] == key[i..i + 9] && key[i..][9..] == key[i + 9..];
  }

  /** The pattern matches exactly the keys of that shape, and what it captures
      is the word run after "#comment-". */
  lemma ParentKeyMeans(key: string)
    ensures ParentKey(key).Some? <==> exists i :: FragmentAt(key, i)
    ensures forall i :: FragmentAt(key, i) ==> ParentKey(key) == Some(WordRun(key[i + 9..]))
  {
    forall i | FragmentAt(key, i)
      ensures ParentKey(key) == Some(WordRun(key[i + 9..]))
    {
      ParentKeyAt(key, i);
    }
    if ParentKey(key).Some? {
      var n := |NonHashRun(key)|;
      assert key[n..][..9] == key[n..n + 9];
      assert FragmentAt(key, n);
    }
  }

  /** A run of word characters after "<page>#comment-" is read back as the
      parent key, whatever follows it. */
  lemma ParentKeyOf(page: string, parent: string, rest: string)
    requires page != [] && '#' !in page
    requires parent != [] && AllWordChars(parent)
    requires rest == [] || !IsWordChar(rest[0])
    ensures ParentKey(page + "#comment-" + parent + rest) == Some(parent)
  {
    var tail := "#comment-" + parent + rest;
    var key := page + tail;
    assert key == page + "#comment-" + parent + rest;
    NonHashRunOf(page, tail);
    assert key[|page|..] == tail;
    assert tail[..9] == "#comment-" && tail[9..] == parent + rest;
    WordRunOf(parent, rest);
  }

  /** A key without '#' names no parent. */
  lemma NoParentWithoutFragment(key: string)
    requires '#' !in key
    ensures ParentKey(key) == None
  {
  }

  /** The fields the submission sends (the result of `get_sent_properties`). */
  datatype CommentForm = CommentForm(name: string, email: string, homepage: string,
                                     title: string, body: string, key: string)

  /** The stored comment: the sent fields, the article it belongs to (by
      permalink) and its thread label. */
  datatype Comment = Comment(name: string, email: string, homepage: string, title: string,
                             body: string, article: string, thread: string)

  /** The answer to a submission: 404 when there is no article, otherwise the
      stored comment and the location of the success response. `parent` is
      the parent key read from the form's key; the handler only logs it, so
      it is neither stored in the comment nor part of the response. */
  datatype SubmitResult =
    | ArticleNotFound
    | Posted(comment: Comment, parent: Option<string>, location: string)

  /** The fields of a stored article a submission reads or updates. */
  class ArticleRecord {
    const permalink: string
    var numComments: Option<int>

    constructor (permalink: string, numComments: Option<int>)
      ensures this.permalink == permalink && this.numComments == numComments
    {
      this.permalink := permalink;
      this.numComments := numComments;
    }
  }

  /** `process_comment_submission(handler, article)`. A missing article is a
      404 and nothing changes; otherwise the counter becomes the old count plus
      one and the comment's thread is that count as "%03d", whether or not the
      key names a parent comment. */
  method SubmitComment(article: ArticleRecord?, form: CommentForm) returns (r: SubmitResult)
    modifies article
    ensures article == null ==> r == ArticleNotFound
    ensures article != null ==>
      && article.numComments == Some(NextCount(old(article.numComments)))
      && r == Posted(Comment(form.name, form.email, form.homepage, form.title, form.body,
                             article.permalink, ThreadLabel(NextCount(old(article.numComments)))),
                     ParentKey(form.key), "/" + article.permalink)
  {
    if article == null {
      return ArticleNotFound;
    }
    if article.numComments.None? || article.numComments.value == 0 {
      article.numComments := Some(1);
    } else {
      article.numComments := Some(article.numComments.value + 1);
    }
    var count := article.numComments.value;
    var parent := ParentKey(form.key);
    var thread: string;
    if parent.Some? {
      thread := ThreadLabel(count);
    } else {
      thread := ThreadLabel(count);
    }
    var comment := Comment(form.name, form.email, form.homepage, form.title, form.body,
                           article.permalink, thread);
    r := Posted(comment, parent, "/" + article.permalink);
  }

  /** `ArticleHandler.post(path)` and `BlogEntryHandler.post`: the article
      stored under the exact permalink receives the comment; with no such
      article the answer is a 404 and no counter changes. */
  method PostComment(articles: map<string, ArticleRecord>, permalink: string, form: CommentForm)
    returns (r: SubmitResult)
    requires forall p :: p in articles ==> articles[p].permalink == p
    modifies if permalink in articles then {articles[permalink]} else {}
    ensures permalink !in articles ==> r == ArticleNotFound
    ensures permalink in articles ==>
      var article := articles[permalink];
      && article.numComments == Some(NextCount(old(article.numComments)))
      && r.Posted?
      && r.comment.thread == ThreadLabel(NextCount(old(article.numComments)))
      && r.location == "/" + permalink
  {
    var article: ArticleRecord? := if permalink in articles then articles[permalink] else null;
    r := SubmitComment(article, form);
  }
}
