/** `legacy_id_mapping` (blog.py:70-77): the node id of an old Drupal path,
    and the article stored under that legacy id. */
module Legacy {
  import opened Options
  import opened Text

  /** The longest prefix of `s` made of decimal digits: what a greedy `\d+`
      consumes. */
  function DigitRun(s: string): (r: string)
    ensures |r| <= |s| && r == s[..|r|] && AllDigits(r)
    ensures |r| == |s| || !IsDigit(s[|r|])
  {
    if s != [] && IsDigit(s[0]) then [s[0]] + DigitRun(s[1..]) else []
  }

  /** The digit run of a run of digits followed by a non-digit is that run. */
  lemma {:induction false} DigitRunOf(digits: string, rest: string)
    requires AllDigits(digits)
    requires rest == [] || !IsDigit(rest[0])
    ensures DigitRun(digits + rest) == digits
  {
    if digits == [] {
      assert digits + rest == rest;
    } else {
      assert (digits + rest)[1..] == digits[1..] + rest;
      DigitRunOf(digits[1..], rest);
      assert digits == [digits[0]] + digits[1..];
    }
  }

  /** The id captured by `re.match('node/(\d+)', path)` when the configured
      legacy program is "Drupal": present exactly when the path starts with
      "node/" and a digit, and then the whole digit run after "node/". */
  function LegacyId(path: string, legacyProgram: Option<string>): (r: Option<string>)
    ensures r.Some? <==>
      legacyProgram == Some("Drupal") && |path| > 5 && path[..5] == "node/" && IsDigit(path[5])
    ensures r.Some? ==>
      && r.value != [] && AllDigits(r.value) && 5 + |r.value| <= |path|
      && path[..5 + |r.value|] == "node/" + r.value
      && (|path| == 5 + |r.value| || !IsDigit(path[5 + |r.value|]))
  {
    if legacyProgram == Some("Drupal") && |path| > 5 && path[..5] == "node/" && IsDigit(path[5])
    then
      var id := DigitRun(path[5..]);
      assert path[..5 + |id|] == path[..5] + path[5..][..|id|];
      Some(id)
    else None
  }

  /** "node/<digits><rest>" with a rest that does not start with a digit gives
      exactly those digits, and only when the program is Drupal. */
  lemma LegacyIdOfNodePath(digits: string, rest: string, legacyProgram: Option<string>)
    requires digits != [] && AllDigits(digits)
    requires rest == [] || !IsDigit(rest[0])
    ensures LegacyId("node/" + digits + rest, legacyProgram)
         == if legacyProgram == Some("Drupal") then Some(digits) else None
  {
    var path := "node/" + digits + rest;
    assert path[..5] == "node/" && path[5..] == digits + rest;
    DigitRunOf(digits, rest);
  }

  /** `db.Query(Article).filter('legacy_id =', id).get()` for the extracted id,
      the store being a map from legacy id to article. */
  function LegacyLookup<A>(path: string, legacyProgram: Option<string>, byLegacyId: map<string, A>): (r: Option<A>)
    ensures r.Some? <==> LegacyId(path, legacyProgram).Some? && LegacyId(path, legacyProgram).value in byLegacyId
    ensures r.Some? ==> r.value == byLegacyId[LegacyId(path, legacyProgram).value]
  {
    match LegacyId(path, legacyProgram)
    case None => None
    case Some(id) => if id in byLegacyId then Some(byLegacyId[id]) else None
  }
}
