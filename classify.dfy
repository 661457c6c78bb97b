/** `guess_type_of_file` (extract.py:143-152): which strategy a page is handed to. */
module Classify {
  import opened Html

  /** The three extraction functions the classifier can return. */
  datatype Strategy = FromElsevier | FromSpringer | FromWiley

  const ElsevierIcon := TagClass("span", "spElsevierPubIcon")
  const SpringerMeta := AttrPrefix("meta", "content", "Springer")

  /** An ordered, first-match-wins choice: the Elsevier icon wins over a
      Springer `meta`, and Wiley is the fallback, so every page gets a strategy. */
  function GuessType(f: seq<Node>): (s: Strategy)
    ensures s == FromElsevier <==> HasMatch(f, ElsevierIcon)
    ensures s == FromSpringer <==> !HasMatch(f, ElsevierIcon) && HasMatch(f, SpringerMeta)
    ensures s == FromWiley <==> !HasMatch(f, ElsevierIcon) && !HasMatch(f, SpringerMeta)
  {
    SelectFirst(f, ElsevierIcon);
    SelectFirst(f, SpringerMeta);
    if |Select(f, ElsevierIcon)| > 0 then FromElsevier
    else if |Select(f, SpringerMeta)| > 0 then FromSpringer
    else FromWiley
  }
}
