/**
 * Reading the archive's `tweets.js`: the file is a script that assigns a
 * JSON array to `window.YTD.tweets.part0` (older archives:
 * `window.YTD.tweet.part0`). The assignment prefix and a trailing `;` are
 * stripped and the rest is handed to the JSON decoder, which is a
 * parameter here.
 */
module TweetsJs {

  import opened Wrappers
  import opened Text
  import opened Records

  const TweetsMarker: string := "window.YTD.tweets.part0 = "
  const LegacyMarker: string := "window.YTD.tweet.part0 = "
  const ExtractError: string := "Failed to parse tweets.js file. The file format may be invalid."

  /** The JSON text left once the assignment and the trailing `;` are gone. */
  function JsonText(content: string): string {
    var unassigned :=
      if Includes(content, TweetsMarker) then RemoveFirst(content, TweetsMarker)
      else if Includes(content, LegacyMarker) then RemoveFirst(content, LegacyMarker)
      else content;
    var trimmed := Trim(unassigned);
    if EndsWith(trimmed, ";") then trimmed[..|trimmed| - 1] else trimmed
  }

  /** `extractTweetsFromJS`: strips the script wrapper step by step, then decodes.
      A decoder failure becomes the one error message the source throws. */
  method ExtractTweetsFromJs(content: string, decode: string -> Option<seq<Tweet>>)
    returns (r: Result<seq<Tweet>, string>)
    ensures decode(JsonText(content)).Some? ==> r == Success(decode(JsonText(content)).value)
    ensures decode(JsonText(content)).None? ==> r == Failure(ExtractError)
  {
    var json := content;
    if Includes(content, TweetsMarker) {
      json := RemoveFirst(content, TweetsMarker);
    } else if Includes(content, LegacyMarker) {
      json := RemoveFirst(content, LegacyMarker);
    }
    json := Trim(json);
    if EndsWith(json, ";") {
      json := json[..|json| - 1];
    }
    assert json == JsonText(content);
    match decode(json)
    case Some(tweets) => r := Success(tweets);
    case None => r := Failure(ExtractError);
  }

  /** A text with no surrounding white space, as JSON.stringify writes it. */
  predicate Tight(j: string) {
    j != [] && !IsJsSpace(j[0]) && !IsJsSpace(j[|j| - 1])
  }

  predicate AllSpace(w: string) {
    forall i :: 0 <= i < |w| ==> IsJsSpace(w[i])
  }

  lemma FirstOccurrenceAtStart(s: string, pat: string)
    requires |pat| <= |s| && s[..|pat|] == pat
    ensures IndexOf(s, pat) == Some(0)
  {
  }

  lemma TrimTight(s: string)
    requires s != [] && !IsJsSpace(s[0]) && !IsJsSpace(s[|s| - 1])
    ensures Trim(s) == s
  {
  }

  lemma {:induction false} TrimEndSpace(s: string, w: string)
    requires s != [] && !IsJsSpace(s[|s| - 1]) && AllSpace(w)
    ensures TrimEnd(s + w) == s
    decreases |w|
  {
    if w != [] {
      var w' := w[..|w| - 1];
      assert (s + w)[..|s + w| - 1] == s + w';
      TrimEndSpace(s, w');
    }
  }

  /** The body of `marker + j + ";" + w` comes out as exactly j. */
  lemma UnwrapBody(marker: string, j: string, w: string)
    requires Tight(j) && AllSpace(w)
    ensures Trim(RemoveFirst(marker + j + ";" + w, marker)) == j + ";"
  {
    var s := marker + j + ";" + w;
    FirstOccurrenceAtStart(s, marker);
    assert RemoveFirst(s, marker) == j + ";" + w;
    TrimEndSpace(j + ";", w);
    TrimTight(j + ";");
  }

  /** The file as an archive writes it: the canonical assignment, the array,
      a `;` and optional trailing white space. The decoder sees the array. */
  lemma {:induction false} CanonicalRoundTrip(j: string, w: string)
    requires Tight(j) && AllSpace(w)
    ensures JsonText(TweetsMarker + j + ";" + w) == j
  {
    var s := TweetsMarker + j + ";" + w;
    FirstOccurrenceAtStart(s, TweetsMarker);
    UnwrapBody(TweetsMarker, j, w);
  }

  /** The legacy assignment is stripped the same way, as long as the
      canonical marker does not occur anywhere in the file. */
  lemma {:induction false} LegacyRoundTrip(j: string, w: string)
    requires Tight(j) && AllSpace(w)
    requires !Includes(LegacyMarker + j + ";" + w, TweetsMarker)
    ensures JsonText(LegacyMarker + j + ";" + w) == j
  {
    var s := LegacyMarker + j + ";" + w;
    FirstOccurrenceAtStart(s, LegacyMarker);
    UnwrapBody(LegacyMarker, j, w);
  }

  /** A bare JSON array (no assignment, no `;`) reaches the decoder untouched. */
  lemma {:induction false} BareJsonUntouched(j: string)
    requires Tight(j) && j[|j| - 1] != ';'
    requires !Includes(j, TweetsMarker) && !Includes(j, LegacyMarker)
    ensures JsonText(j) == j
  {
    TrimTight(j);
  }

  /** Only one trailing `;` is removed. */
  lemma {:induction false} OneSemicolonRemoved(j: string)
    requires Tight(j)
    ensures JsonText(TweetsMarker + j + ";;") == j + ";"
  {
    var s := TweetsMarker + j + ";;";
    FirstOccurrenceAtStart(s, TweetsMarker);
    assert RemoveFirst(s, TweetsMarker) == j + ";;";
    var t := j + ";;";
    TrimTight(t);
    assert EndsWith(t, ";");
    assert t[..|t| - 1] == j + ";";
  }
}
