/** The two separators and the two variants of `secondary_text_combined`: the shared one of
    src/core/util.rs, which the later revisions use, and the local copy inside the first revision. */
module Combine {
  import opened Types
  import opened TextUtil

  /** The text a lookup yields when a language has no entry for an id. */
  const Missing: string := "MISSING"

  /** The compact separator, one character. */
  const SeparatorSlash: string := "/"

  /** The line-break separator of the game's text format: a backslash followed by `n`, two
      characters, not a newline character. */
  const SeparatorNewline: string := "\\n"

  lemma SeparatorShapes()
    ensures |SeparatorSlash| == 1 && SeparatorSlash[0] == '/'
    ensures |SeparatorNewline| == 2 && SeparatorNewline[0] == '\\' && SeparatorNewline[1] == 'n'
    ensures '\n' !in SeparatorNewline
  {
  }

  /** util.rs treats a secondary text as present unless it is the sentinel or empty. */
  predicate Present(secondary: string) {
    secondary != Missing && secondary != ""
  }

  /** `secondary_text_combined` of src/core/util.rs. */
  function CombineShared(primary: string, secondary: string, separator: string): (r: string)
    ensures IsPrefix(primary, r)
    ensures r == primary <==> !Present(secondary)
    ensures Present(secondary) ==>
              |r| == |primary| + |separator| + |secondary| &&
              r[|primary|..|primary| + |separator|] == separator &&
              r[|primary| + |separator|..] == secondary
  {
    if Present(secondary) then primary + separator + secondary else primary
  }

  /** `secondary_text_combined` local to src/core/bilingual_generator.rs: only the sentinel is absent. */
  function CombineLocal(primary: string, secondary: string, separator: string): (r: string)
    ensures IsPrefix(primary, r)
    ensures r == primary <==> (secondary == Missing || separator + secondary == "")
    ensures secondary != Missing ==>
              |r| == |primary| + |separator| + |secondary| &&
              r[|primary|..|primary| + |separator|] == separator &&
              r[|primary| + |separator|..] == secondary
  {
    if secondary != Missing then primary + separator + secondary else primary
  }

  /** The inverse of combining: the secondary text that follows `primary` and `separator`, if any. */
  function SecondaryOf(combined: string, primary: string, separator: string): Option<string> {
    if |combined| <= |primary| || |combined| < |primary| + |separator| then None
    else Some(combined[|primary| + |separator|..])
  }

  /** With a non-empty separator the secondary text can be read back from a combined text. */
  lemma CombineSharedRoundTrip(primary: string, secondary: string, separator: string)
    requires separator != ""
    ensures SecondaryOf(CombineShared(primary, secondary, separator), primary, separator)
            == if Present(secondary) then Some(secondary) else None
  {
  }

  lemma CombineLocalRoundTrip(primary: string, secondary: string, separator: string)
    requires separator != ""
    ensures SecondaryOf(CombineLocal(primary, secondary, separator), primary, separator)
            == if secondary != Missing then Some(secondary) else None
  {
  }

  /** The two variants differ exactly on an empty secondary text, which the local one still
      joins with the separator. */
  lemma CombineVariantsDiffer(primary: string, secondary: string, separator: string)
    ensures CombineLocal(primary, secondary, separator) == CombineShared(primary, secondary, separator)
            <==> (secondary != "" || separator == "")
  {
    if secondary == "" && separator != "" {
      assert |CombineLocal(primary, secondary, separator)| == |primary| + |separator|;
    }
  }
}
