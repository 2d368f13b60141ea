# A model of the path and string rules of a small App Engine blog

`blog.py` is the request layer of a Google App Engine blog written in Python 2.
It turns titles into permalinks, normalises submitted form fields, and
resolves request paths to articles through three mechanisms: a table of
aliases, ids from an old Drupal site, and permalinks. It also decodes
percent-escaped tags, counts comments and labels them with a thread string.
Finally it edits, fills in and deletes stored entities.

This project states those rules in Dafny and proves what they guarantee.
The datastore is replaced by maps and sequences. Stored entities whose
fields the handlers update become classes:

- `ArticleRecord`, for the comment counter;
- `Entity`, for attributes set with `setattr`;
- `Datastore`, for DELETE.

Python 2 byte-string semantics are used throughout:

- `\s` is a space or `'\t'`..`'\r'`, and `str.strip()` removes the same set;
- `\w` is `[A-Za-z0-9_]` and `\d` is `[0-9]`;
- `str.lower()` folds ASCII letters only;
- `str.split(',')` always yields at least one piece;
- `"%03d"` counts a minus sign towards the width.

Modules, one per file:

- `Options` (options.dfy): the optional value.
- `Text` (text.dfy): character classes, `strip`, `lower`, `split`/`join` and decimal numerals.
- `Slugs` (slugs.dfy): `get_friendly_url`.
- `Permalinks` (permalinks.dfy): `permalink_funcs` and the blog-entry keys built from a path.
- `Inputs` (inputs.dfy): `get_format` and `get_tags`.
- `Legacy` (legacy.dfy): `legacy_id_mapping`.
- `Resolution` (resolution.dfy): `ArticleHandler.get` and `render_article`.
- `TagDecoding` (tagdecoding.dfy): the decoding in `TagHandler.get`.
- `Comments` (comments.dfy): `process_comment_submission` and the comment POST handlers.
- `Properties` (properties.dfy): `fill_optional_properties` and `process_article_edit`.
- `Deletion` (deletion.dfy): `ArticleHandler.delete`.

## Model

| member | source | states |
|---|---|---|
| Text.Strip | blog.py:92 | `str.strip()`: the result starts and ends with no whitespace, is no longer than the input, and is the input itself when the input has no whitespace at either end |
| Text.StripTrimsEnds | blog.py:92 | the stripped string is a slice `s[i..j]` of the input with only whitespace before `i` and after `j` |
| Text.StripAddsNothing | blog.py:92 | stripping never introduces a character absent from the input |
| Text.Lower | blog.py:252 | `str.lower()` keeps the length and folds each character independently |
| Text.LowerIdempotent | blog.py:252 | folding twice is folding once, so a folded string matches the original ignoring case |
| Text.SplitAtSep | blog.py:317-319 | splitting `a + sep + b` gives the pieces of `a` followed by the pieces of `b` |
| Text.Split | blog.py:92 | `split(sep)` yields at least one piece and no piece holds the separator |
| Text.JoinSplit | blog.py:92 | joining the pieces of a split with the separator gives back the original string |
| Text.SplitJoin | blog.py:64-65 | splitting a join of separator-free pieces gives back exactly those pieces |
| Text.Decimal | blog.py:64-65 | `str(n)` is a non-empty digit string with no leading zero, of length 1 exactly when n < 10 |
| Text.ParseDecimalOfDecimal | blog.py:64-65 | reading back `str(n)` gives n |
| Text.DecimalInjective | blog.py:64-65 | two numbers with the same decimal form are equal |
| Text.FormatZeroPadded | blog.py:189 | `"%0*d"`: the length is the larger of the width and the length of the decimal form with its sign; the first character is '-' exactly for a negative number; the rest is all digits and reads back as the number's absolute value |
| Slugs.ReplaceRuns | blog.py:97-99 | `re.sub(run+, rep, s)` never lengthens the string and every output character is `rep` or outside the class; `ReplaceRunsKeepsOthers`, `ReplaceRunsAppend` and `ReplaceWholeRun` state what it keeps and where |
| Slugs.ReplaceRunsKeepsOthers | blog.py:97-99 | when the replacement itself lies in the class, as for the dash collapse `-+` to '-', the characters outside the class come out unchanged and in the same order (the whitespace rewrite, whose '-' is outside its class, is covered by `ReplaceRunsAppend` and `ReplaceWholeRun`) |
| Slugs.ReplaceRunsAppend | blog.py:97-99 | the rewrite works run by run: for a cut that splits no run, rewriting the whole is rewriting each part and concatenating |
| Slugs.ReplaceWholeRun | blog.py:97-99 | a whole non-empty run becomes the single replacement character |
| Slugs.ReplaceRunsSlugChars | blog.py:97-99 | replacing runs by '-' in a string of `\w` and '-' yields only `\w` and '-' |
| Slugs.KeepSlugChars | blog.py:98 | `re.sub('[^\w-]', '', s)` leaves only `\w` and '-', and leaves a string made of those unchanged; with `KeepSlugCharsAppend` and `KeepSlugCharsDrops` this fixes the filter on every string |
| Slugs.KeepSlugCharsAppend | blog.py:98 | the filter works character by character: filtering `x + y` is filtering `x`, then `y` |
| Slugs.KeepSlugCharsDrops | blog.py:98 | a single character other than `\w` and '-' is deleted |
| Slugs.ReplaceRunsNoAdjacent | blog.py:97 | after replacing runs of a class by a member of that class, no two class members are adjacent |
| Slugs.ReplaceRunsUnchanged | blog.py:97-99 | a string whose class members are isolated copies of `rep` is not changed |
| Slugs.FriendlyUrl | blog.py:96-99 | every slug holds only `[A-Za-z0-9_-]` and never two dashes in a row |
| Slugs.SpaceBetweenWords | blog.py:97-99 | the whitespace between two words becomes one dash |
| Slugs.WordsJoinedByDash | blog.py:97-98 | two words joined by one dash survive the last two substitutions unchanged |
| Slugs.FriendlyUrlOfWords | blog.py:96-99 | two words separated by whitespace give the two words joined by a single dash |
| Slugs.SlugHasNoSpaceOrSlash | blog.py:96-99 | a slug holds no whitespace and no '/' |
| Slugs.SlugUnchanged | blog.py:96-99 | a string already of slug shape is its own slug |
| Slugs.FriendlyUrlIdempotent | blog.py:96-99 | making a slug of a slug changes nothing |
| Permalinks.Permalink | blog.py:62-66 | the permalink of each kind; `EntryPermalinkRoundTrip`, `ArticlePermalinkIsSlug` and `PermalinkKindsDisjoint` state its properties |
| Permalinks.EntryKey | blog.py:317-319 | the key the blog-entry handler looks up; `EntryKeyMatchesPermalink` states when it finds an entry |
| Permalinks.ParseEntryPermalink | blog.py:64-65 | the reading of a dated permalink back into year, month and slug, which `EntryPermalinkRoundTrip` proves inverts `Permalink` |
| Permalinks.SplitEntryKeyPieces | blog.py:317-319 | the '/'-pieces of a key are the pieces of its year, then its month, then its stem |
| Permalinks.ThreePieces | blog.py:317-319 | a key of exactly three pieces has '/'-free parts |
| Permalinks.EntryKeyIsJoin | blog.py:319 | the key `year + '/' + month + '/' + stem` is the '/'-join of the three parts |
| Permalinks.SplitEntryKey | blog.py:319 | a key built from '/'-free parts splits back into exactly those parts |
| Permalinks.EntryPermalinkRoundTrip | blog.py:64-65 | a blog entry's permalink reads back as its year, its month and the slug of its title, with the month not zero-padded |
| Permalinks.ArticlePermalinkIsSlug | blog.py:63 | an article's permalink is the slug of its title, holds no '/' and never reads as a dated permalink |
| Permalinks.PermalinkKindsDisjoint | blog.py:62-66 | an article and a blog entry never share a permalink |
| Permalinks.EntryKeyMatchesPermalink | blog.py:317-319 | for any path parts, the blog-entry handlers find an entry exactly when the path's year and month are the decimal forms of its date and the stem is the slug of its title |
| Permalinks.PaddedMonthMisses | blog.py:64-65 | for any year and stem, a path whose month is the entry's month with a '0' in front never equals the entry's permalink |
| Inputs.Format | blog.py:85-88 | `get_format` always returns "html" or "textile", and "textile" exactly when "textile" was sent; a missing, empty or other value gives "html" |
| Inputs.FormatIdempotent | blog.py:85-88 | normalising an already normalised format changes nothing |
| Inputs.NonEmptyPieces | blog.py:92-93 | the comprehension's `if s != ''` keeps no empty piece, never adds pieces, and keeps a list without empty pieces whole |
| Inputs.NonEmptyPiecesOne | blog.py:92-93 | a single piece is kept exactly when it is not empty |
| Inputs.NonEmptyPiecesAppend | blog.py:92-93 | the filter works piece by piece and keeps the order: filtering `p + q` is filtering `p`, then `q` |
| Inputs.StripEach | blog.py:92 | each kept piece is stripped, in order |
| Inputs.Tags | blog.py:90-94 | `get_tags` is `None` exactly for a missing or empty string; otherwise it returns at most as many tags as pieces, each stripped and free of ',' |
| Inputs.TagsOfJoin | blog.py:90-94 | the tags of a comma-joined list are its non-empty pieces, stripped, in order |
| Inputs.TagsRoundTrip | blog.py:90-94 | non-empty, comma-free, stripped tags survive being joined with ',' and read back |
| Inputs.BlankPieceGivesEmptyTag | blog.py:92-93 | the comprehension keeps a whitespace-only piece and strips it to the empty string, while empty pieces are dropped (with `db.Category` taken as the identity; see "## Left out") |
| Inputs.CommasOnlyGiveNoTags | blog.py:90-94 | a string of commas alone gives an empty list of tags, not `None` |
| Legacy.DigitRun | blog.py:72 | `\d+` consumes the longest run of digits at the front |
| Legacy.LegacyId | blog.py:70-73 | an id is extracted exactly when the legacy program is "Drupal" and the path starts with "node/" and a digit; the id is then the whole digit run after "node/" |
| Legacy.LegacyIdOfNodePath | blog.py:70-73 | with "Drupal", "node/" + digits + anything not starting with a digit yields those digits, and with any other program nothing |
| Legacy.LegacyLookup | blog.py:70-77 | the lookup finds an article exactly when an id is extracted and some article carries it |
| Resolution.RenderArticle | blog.py:207-219 | a found article is rendered, a missing one is a 404 |
| Resolution.FirstAlias | blog.py:251-254 | the alias chosen is the first one, in iteration order, that equals the path ignoring case, and there is none only when no alias matches |
| Resolution.Resolve | blog.py:251-265 | a redirect happens exactly when some alias matches, to the target of the first match; otherwise a legacy hit wins over a permalink hit; 404 exactly when both lookups miss |
| Resolution.GetArticle | blog.py:251-265 | the handler's loop with its early return gives the same answer as `Resolve` |
| Resolution.LegacyPathIsNoPermalink | blog.py:62-77 | a path a legacy id is read from is never a permalink, so the two lookups cannot compete |
| TagDecoding.HexPairChar | blog.py:351 | `chr(string.atoi(dd, 16))`: the character whose code is the two digits read in base 16 |
| TagDecoding.DecodeTag | blog.py:350-352 | decoding never lengthens a tag; the lemmas below fix its output on plain text, on a '%' that starts no escape and on each escape form |
| TagDecoding.DecodePlainRun | blog.py:350-352 | a first stretch of `n` characters without '%' is copied unchanged and decoding resumes after it |
| TagDecoding.DecodePlainPrefix | blog.py:350-352 | a prefix without '%' is copied unchanged: decoding `x + y` is `x` followed by decoding `y` |
| TagDecoding.DecodeWithoutPercent | blog.py:350-352 | a tag without '%' comes back unchanged |
| TagDecoding.DecodeLonePercent | blog.py:350-352 | a '%' not followed by two digits stays a '%' and decoding goes on with the next character |
| TagDecoding.DecodeSpaceInTag | blog.py:350-352 | the escaped tag "python%20tips" decodes to "python tips" |
| TagDecoding.DecodeLongEscape | blog.py:350-352 | "%25dd" becomes the character with hex code dd |
| TagDecoding.DecodeShortEscape | blog.py:350-352 | "%dd" becomes the character with hex code dd, unless it starts a "%25dd" |
| TagDecoding.DoubleEscapeSameAsSingle | blog.py:350-352 | "%25dd" and "%dd" decode alike |
| TagDecoding.LoneEscapedPercent | blog.py:350-352 | "%25" not followed by two digits becomes '%' |
| TagDecoding.SinglePass | blog.py:350-352 | decoding is one pass: "%252541" becomes "%41", not "A" |
| TagDecoding.EncodeTag | blog.py:350-352 | the reference encoder's output never starts with a digit |
| TagDecoding.DecodeEscape | blog.py:350-352 | an escape followed by a non-digit decodes to its character, and decoding carries on after it |
| TagDecoding.DecodeEncode | blog.py:350-352 | decoding inverts the reference percent-encoder on every string |
| Comments.NextCount | blog.py:169-172 | the new counter is the old count plus one, with a missing counter counting as 0 |
| Comments.ThreadLabel | blog.py:189 | `"%03d" % n` has at least three characters, and for a count is all digits reading back as the count |
| Comments.ThreadLabelReadsBack | blog.py:189-193 | the thread label is all digits and reads back as the count; it has exactly three digits below 1000 and is the plain decimal form from 1000 on |
| Comments.LexLess | blog.py:189-193 | Python's string order, the order the labels sort in; `ThreeDigitOrder`, `ThreadLabelsSortByCount` and `ThreadLabelOrderBreaksAt1000` state how labels compare |
| Comments.ThreadLabelDigits | blog.py:189-193 | below 1000 the label is the hundreds, tens and units digits of the count |
| Comments.ThreeDigitOrder | blog.py:189-193 | of two three-digit labels, the one of smaller value sorts first as a string |
| Comments.ThreadLabelsSortByCount | blog.py:189-193 | below 1000, labels sort as strings in the order the comments were counted |
| Comments.ThreadLabelOrderBreaksAt1000 | blog.py:189-193 | from 1000 on the order breaks: "1000" sorts before "999" |
| Comments.NonHashRun | blog.py:185 | `[^#]+` consumes everything before the first '#' |
| Comments.WordRun | blog.py:185 | `\w+` consumes the longest run of word characters |
| Comments.ParentKey | blog.py:185-187 | a parent key, when one is found, is a non-empty run of word characters; `ParentKeyMeans` states when it is found |
| Comments.ParentKeyAt | blog.py:185-187 | for a key whose first '#' is at `i >= 1` and is followed by "comment-" and a word character, the parent is the word run after "#comment-" |
| Comments.ParentKeyMeans | blog.py:185-187 | a parent is found exactly when the key has that shape at some `i`, and it is then the word run after "#comment-" |
| Comments.ParentKeyOf | blog.py:185-187 | for "page#comment-key…" with a '#'-free page, the parent key is the whole word run after "#comment-" |
| Comments.NoParentWithoutFragment | blog.py:185-191 | a key without '#' names no parent |
| Comments.SubmitComment | blog.py:162-204 | a missing article is a 404 and nothing changes; otherwise the counter becomes the old count plus one, the comment's thread is that count as "%03d" whether or not a parent is named, and the response points at the article |
| Comments.PostComment | blog.py:267-271 | the article stored under the exact permalink receives the comment; with no such article the answer is a 404 |
| Properties.Filled | blog.py:107-110 | filling never overwrites an attribute, adds only truthy values, and adds every truthy value whose key was absent |
| Properties.FilledIdempotent | blog.py:107-110 | filling in the same properties twice is filling them once |
| Properties.FilledAfterSet | blog.py:107-110 | once every property has been set outright, filling them in changes nothing |
| Properties.FillOptionalProperties | blog.py:107-110 | the `setattr` loop leaves the object's attributes as `Filled` describes |
| Properties.FlattenParams | blog.py:115-117 | every parsed parameter keeps its first value and no parameter is added or lost |
| Properties.SetProperties | blog.py:129-130 | the `setattr` loop overrides each attribute named in the hash and leaves the others alone |
| Properties.EditArticle | blog.py:112-135 | an empty hash is a 400 and changes nothing; a missing article is a server error; otherwise the article receives every sent property and the response points at it |
| Deletion.KindOf | blog.py:289 | the kind `path.lower()` names; `KindOfMeans` and `KindIgnoresCase` state which paths name which kind |
| Deletion.KindOfMeans | blog.py:289-309 | the path names articles exactly when it is "article" in any case, comments exactly when it is "comment" in any case, and nothing otherwise |
| Deletion.KindIgnoresCase | blog.py:289 | the kind a path names does not depend on its case |
| Deletion.Datastore.DeleteFirst | blog.py:291-301 | the first entity of the query is removed and named in the body, or the answer is a 404 when there is none |
| Deletion.Datastore.Delete | blog.py:279-309 | DELETE removes the first stored entity of the kind the path names and nothing else; an unknown kind or an empty kind is a 404 and changes nothing |

## Left out

- `restful.get_sent_properties`, `restful.methods_via_query_allowed` and
  `restful.send_successful_response` are not part of this model.
  - The sent properties enter as parameters: the `CommentForm` and the property hash.
  - A successful response is represented by the location it points at.
- The `authorized.role` decorators are not part of this model. Every handler is modelled as if the caller were authorised.
- Page rendering (`view.ViewPage`) and `view.invalidate_cache` are reduced
  to what the handler answers: `Found`, `NotFound`, `Redirect`, or a location.
- `get_html` calls an external textile library, and `get_datetime` uses
  `strptime` and the clock. Dates enter the model as a year and a month.
- `process_article_submission` is not modelled. Its permalink is
  `Permalink(kind, title, published)`, and the rest of it is
  `get_sent_properties` and the datastore.
- `BlogEntryHandler.delete` (blog.py:339-346) is not modelled: it deletes
  the article found by permalink and raises when there is none.
- `YearHandler` and `MonthHandler` are not modelled because their bounds
  depend on the `datetime` library. `MonthHandler` always asks for day 31,
  which raises for shorter months.
- `AtomHandler`, `SearchHandler`, `NotFoundHandler`, `UnauthorizedHandler`
  and logging are I/O glue and are not modelled.
- The datastore has no single model. Each handler sees its own view:
  - a map from permalink to article, for lookups, edits and comments;
  - a map from legacy id to article;
  - for DELETE, the sequences of permalinks in query order.

  The views are not linked: an edit, a new comment or a DELETE in one view
  is not seen by lookups in another. Writes (`put`, `delete`) are the
  updates of those fields.
- A stored comment's `article` field holds the article's permalink. The
  source stores the key returned by `article.put()` (blog.py:173, blog.py:201).
- Inputs.Tags: models `db.Category` as the identity on strings. The
  datastore's constructor rejects an empty tag and a tag over 500 bytes, so
  where a piece strips to "" (`Inputs.BlankPieceGivesEmptyTag`) the program
  raises `BadValueError` instead of storing an empty tag. The datastore
  library is not part of this model, and `Tags` never reports that error.
- Strings are Python 2 byte strings. The Unicode behaviour of `strip`, `lower` and `\s`/`\w` is not modelled.
- `model.py` is not part of this model. As a result:
  - a comment is given by the value its `permalink` attribute reads as;
  - an article is always truthy;
  - the fields of a stored comment are those `process_comment_submission` passes.
- Properties.FlattenParams: builds a new map of strings. The source
  instead overwrites each list in the same dictionary with its first
  element. It relies on `cgi.parse_qs` never producing an empty list.
- Properties.EditArticle: takes the property hash as already computed. A
  missing article, where the source raises on `None`, is modelled as
  `ServerError`.
- Comments.PostComment: states the counter, thread and location. The other
  comment fields are stated by `SubmitComment`, which it calls.
- `legacy_aliases.redirects` is a dictionary. Its iteration order is
  modelled as the order of a sequence of (alias, target) pairs.
