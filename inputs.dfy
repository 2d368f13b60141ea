/** The normalisers applied to submitted form fields: `get_format`
    (blog.py:85-88) and `get_tags` (blog.py:90-94). */
module Inputs {
  import opened Options
  import opened Text

  /** `get_format(format_string)`: the result is always "html" or "textile",
      and it is "textile" exactly when that is what was sent; a missing, empty
      or unknown format becomes "html". */
  function Format(formatString: Option<string>): (r: string)
    ensures r == "html" || r == "textile"
    ensures r == "textile" <==> formatString == Some("textile")
  {
    if formatString.None? || formatString.value == [] || formatString.value !in ["html", "textile"]
    then "html"
    else formatString.value
  }

  /** Normalising an already normalised format changes nothing. */
  lemma FormatIdempotent(formatString: Option<string>)
    ensures Format(Some(Format(formatString))) == Format(formatString)
  {
  }

  /** The pieces the comprehension keeps (`if s != ''`): the non-empty ones,
      in their order; a list of non-empty pieces is kept whole. */
  function NonEmptyPieces(pieces: seq<string>): (r: seq<string>)
    ensures |r| <= |pieces|
    ensures forall i :: 0 <= i < |r| ==> r[i] != []
    ensures (forall i :: 0 <= i < |pieces| ==> pieces[i] != []) ==> r == pieces
  {
    if pieces == [] then []
    else if pieces[0] == [] then NonEmptyPieces(pieces[1..])
    else [pieces[0]] + NonEmptyPieces(pieces[1..])
  }

  /** One piece is kept exactly when it is not empty. */
  lemma NonEmptyPiecesOne(piece: string)
    ensures NonEmptyPieces([piece]) == if piece == [] then [] else [piece]
  {
    assert [piece][1..] == [];
  }

  /** The filter works piece by piece: it keeps the non-empty pieces of each
      part, in order. */
  lemma {:induction false} NonEmptyPiecesAppend(p: seq<string>, q: seq<string>)
    ensures NonEmptyPieces(p + q) == NonEmptyPieces(p) + NonEmptyPieces(q)
  {
    if p == [] {
      assert p + q == q;
    } else {
      assert (p + q)[0] == p[0] && (p + q)[1..] == p[1..] + q;
      NonEmptyPiecesAppend(p[1..], q);
    }
  }

  /** A character no piece holds is held by no kept piece. */
  lemma {:induction false} NonEmptyPiecesAvoid(pieces: seq<string>, c: char)
    requires forall i :: 0 <= i < |pieces| ==> c !in pieces[i]
    ensures forall i :: 0 <= i < |NonEmptyPieces(pieces)| ==> c !in NonEmptyPieces(pieces)[i]
  {
    if pieces != [] {
      NonEmptyPiecesAvoid(pieces[1..], c);
    }
  }

  /** `[s.strip() for s in pieces]` */
  function StripEach(pieces: seq<string>): (r: seq<string>)
    ensures |r| == |pieces|
    ensures forall i :: 0 <= i < |r| ==> r[i] == Strip(pieces[i])
  {
    if pieces == [] then [] else [Strip(pieces[0])] + StripEach(pieces[1..])
  }

  /** `get_tags(tag_string)`: `None` for a missing or empty string; otherwise
      the stripped non-empty comma-separated pieces, in order. No tag holds a
      comma or has whitespace at either end. `db.Category` is taken as the
      identity on strings: its validation (no empty tag, at most 500 bytes)
      is not modelled. */
  function Tags(tagString: Option<string>): (r: Option<seq<string>>)
    ensures r.None? <==> tagString.None? || tagString.value == []
    ensures r.Some? ==> |r.value| <= |Split(tagString.value, ',')|
    ensures r.Some? ==> forall i :: 0 <= i < |r.value| ==>
      ',' !in r.value[i] && Strip(r.value[i]) == r.value[i]
  {
    if tagString.None? || tagString.value == [] then None
    else
      var tags := StripEach(NonEmptyPieces(Split(tagString.value, ',')));
      assert forall i :: 0 <= i < |tags| ==> ',' !in tags[i] by {
        var kept := NonEmptyPieces(Split(tagString.value, ','));
        NonEmptyPiecesAvoid(Split(tagString.value, ','), ',');
        forall i | 0 <= i < |tags| ensures ',' !in tags[i] {
          StripAddsNothing(kept[i], ',');
        }
      }
      Some(tags)
  }

  /** The tags of a comma-joined list of comma-free pieces are the stripped
      non-empty pieces, in order. */
  lemma TagsOfJoin(pieces: seq<string>)
    requires |pieces| >= 1
    requires forall i :: 0 <= i < |pieces| ==> ',' !in pieces[i]
    requires Join(pieces, ',') != []
    ensures Tags(Some(Join(pieces, ','))) == Some(StripEach(NonEmptyPieces(pieces)))
  {
    SplitJoin(pieces, ',');
  }

  /** Tags that are non-empty, comma-free and already stripped survive being
      joined with commas and parsed again. */
  lemma TagsRoundTrip(tags: seq<string>)
    requires |tags| >= 1
    requires forall i :: 0 <= i < |tags| ==> tags[i] != [] && ',' !in tags[i] && Strip(tags[i]) == tags[i]
    ensures Tags(Some(Join(tags, ','))) == Some(tags)
  {
    JoinStartsWithFirst(tags, ',');
    TagsOfJoin(tags);
    assert NonEmptyPieces(tags) == tags;
    assert StripEach(tags) == tags by {
      assert |StripEach(tags)| == |tags|;
      forall i | 0 <= i < |tags| ensures StripEach(tags)[i] == tags[i] {}
    }
  }

  /** The comma-joined form of the pieces of the example below. */
  lemma JoinOfExample(a: string, blank: string, b: string)
    ensures Join([a, blank, b, [], []], ',') == a + [','] + blank + [','] + b + [','] + [',']
  {
    var e: string := [];
    assert Join([e, e], ',') == [','] by { assert [e, e][1..] == [e]; }
    assert Join([b, e, e], ',') == b + [','] + [','] by { assert [b, e, e][1..] == [e, e]; }
    assert Join([blank, b, e, e], ',') == blank + [','] + b + [','] + [','] by {
      assert [blank, b, e, e][1..] == [b, e, e];
    }
    assert [a, blank, b, e, e][1..] == [blank, b, e, e];
  }

  /** The tags the pieces of the example below give. */
  lemma KeptOfExample(a: string, blank: string, b: string)
    requires a != [] && Strip(a) == a
    requires b != [] && Strip(b) == b
    requires blank != [] && forall i :: 0 <= i < |blank| ==> IsSpace(blank[i])
    ensures StripEach(NonEmptyPieces([a, blank, b, [], []])) == [a, [], b]
  {
    var e: string := [];
    var pieces := [a, blank, b, e, e];
    assert NonEmptyPieces(pieces) == [a, blank, b] by {
      assert NonEmptyPieces([e, e]) == [];
      assert pieces[2..] == [b, e, e] && pieces[1..] == [blank, b, e, e];
      assert NonEmptyPieces(pieces[2..]) == [b];
      assert NonEmptyPieces(pieces[1..]) == [blank, b];
    }
    StripBlank(blank);
    assert StripEach([a, blank, b]) == [a, [], b];
  }

  /** The comprehension keeps a whitespace-only piece and strips it to the
      empty string, while an empty piece is dropped: "a, ,b,," gives "a", ""
      and "b". With `db.Category` taken as the identity this is the list of
      tags; the datastore's own constructor would refuse the empty one. */
  lemma BlankPieceGivesEmptyTag(a: string, blank: string, b: string)
    requires a != [] && ',' !in a && Strip(a) == a
    requires b != [] && ',' !in b && Strip(b) == b
    requires blank != [] && forall i :: 0 <= i < |blank| ==> IsSpace(blank[i])
    ensures Tags(Some(a + [','] + blank + [','] + b + [','] + [','])) == Some([a, [], b])
  {
    var pieces := [a, blank, b, [], []];
    assert ',' !in blank by {
      forall i | 0 <= i < |blank| ensures blank[i] != ',' {
        assert IsSpace(blank[i]);
      }
    }
    JoinOfExample(a, blank, b);
    JoinStartsWithFirst(pieces, ',');
    TagsOfJoin(pieces);
    KeptOfExample(a, blank, b);
  }

  /** A string of commas alone gives an empty list of tags, not `None`. */
  lemma CommasOnlyGiveNoTags()
    ensures Tags(Some(",")) == Some([])
  {
    var pieces := ["", ""];
    assert Join(pieces, ',') == ",";
    TagsOfJoin(pieces);
  }
}
