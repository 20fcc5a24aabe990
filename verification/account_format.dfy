/** `formatAccountId` from the front end's credential helpers: long account
    ids are shortened for display to their first and last eight characters
    around an ellipsis. */
module AccountFormat {

  const MaxShown := 20
  const Kept := 8
  const Ellipsis := "..."

  /** `formatAccountId`: ids of at most twenty characters are shown as they
      are; longer ones as their first eight characters, "...", and their last
      eight. */
  function FormatAccountId(id: string): (r: string)
    ensures |r| <= MaxShown
    ensures |id| <= MaxShown ==> r == id
    ensures |id| > MaxShown ==>
      && |r| == 2 * Kept + |Ellipsis|
      && r[..Kept] == id[..Kept]
      && r[Kept..Kept + |Ellipsis|] == Ellipsis
      && r[Kept + |Ellipsis|..] == id[|id| - Kept..]
  {
    if |id| > MaxShown then id[..Kept] + Ellipsis + id[|id| - Kept..] else id
  }

  /** The kept halves of a shortened id do not overlap in it: between them
      lies a stretch longer than the ellipsis that replaces it. */
  lemma ShortenedHalvesDisjoint(id: string)
    requires |id| > MaxShown
    ensures var r := FormatAccountId(id);
      exists middle :: |middle| > |Ellipsis| && id == r[..Kept] + middle + r[Kept + |Ellipsis|..]
  {
    var r := FormatAccountId(id);
    var middle := id[Kept..|id| - Kept];
    assert id == id[..Kept] + middle + id[|id| - Kept..];
  }

  /** Formatting a formatted id changes nothing. */
  lemma FormatAccountIdIdempotent(id: string)
    ensures FormatAccountId(FormatAccountId(id)) == FormatAccountId(id)
  {
  }
}
