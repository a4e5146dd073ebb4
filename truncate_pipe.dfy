/**
 * The `truncate` display pipe (src/app/pipes/truncate.pipe.ts): shortens a
 * text to at most `limit` characters, marking a cut with an ellipsis.
 */
module TruncatePipe {
  import opened Wrappers

  /** The limit the pipe uses when a template gives none. */
  const DefaultLimit: nat := 30

  /** What the pipe appends to a shortened text. */
  const Ellipsis: string := "..."

  /** The text a pipe input stands for: null, undefined and '' all give ''. */
  function Text(value: Option<string>): string {
    if value.None? then "" else value.value
  }

  /**
   * `transform(value, limit)`: '' for a falsy value, the value itself when it
   * fits in `limit` characters, otherwise its first `limit` characters and "...".
   */
  function Transform(value: Option<string>, limit: nat): (r: string)
    ensures var s := Text(value);
      var cut := |s| > limit;
      r == (if cut then s[..limit] else s) + (if cut then Ellipsis else "")
    ensures |r| <= limit + |Ellipsis|
  {
    if value.None? || value.value == "" then ""
    else if |value.value| <= limit then value.value
    else value.value[..limit] + Ellipsis
  }

  /** The pipe with its default limit, as `{{ text | truncate }}` uses it. */
  function TransformDefault(value: Option<string>): (r: string)
    ensures |r| <= DefaultLimit + |Ellipsis|
  {
    Transform(value, DefaultLimit)
  }

  lemma FalsyGivesEmpty(value: Option<string>, limit: nat)
    requires value.None? || value.value == ""
    ensures Transform(value, limit) == ""
  {
  }

  lemma ShortIsUnchanged(s: string, limit: nat)
    requires |s| <= limit
    ensures Transform(Some(s), limit) == s
  {
  }

  lemma LongIsCutWithEllipsis(s: string, limit: nat)
    requires |s| > limit
    ensures Transform(Some(s), limit) == s[..limit] + Ellipsis
    ensures |Transform(Some(s), limit)| == limit + 3
  {
  }

  /** The output starts with a prefix of the input; the ellipsis follows iff the input was too long. */
  lemma OutputIsPrefixPlusMarker(value: Option<string>, limit: nat)
    ensures var s, r := Text(value), Transform(value, limit);
      (|s| > limit <==> (|r| == limit + 3 && r[limit..] == Ellipsis && r[..limit] == s[..limit]))
      && (|s| <= limit ==> r == s)
  {
  }

  /** Truncating an already truncated text changes nothing. */
  lemma Idempotent(value: Option<string>, limit: nat)
    ensures Transform(Some(Transform(value, limit)), limit) == Transform(value, limit)
  {
  }

  /** A description longer than 30 characters is shown as its first 30 characters and "...". */
  lemma LongDescriptionShowsEllipsis(description: string)
    requires |description| > 30
    ensures var r := TransformDefault(Some(description));
      |r| == 33 && r[..30] == description[..30] && r[30..] == "..."
  {
  }
}
