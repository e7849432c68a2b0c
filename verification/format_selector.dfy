/**
  The format catalog behind the two format choosers: five formats, each with a
  lower-case identifier, an upper-case display name and a dotted extension.
  A chooser renders one button per entry; clicking a button reports that
  entry's identifier, and the entry whose identifier equals the chooser's
  current selection is highlighted.
 */
module FormatSelector {
  import JsStrings

  datatype Format = Format(id: string, name: string, extension: string)

  /** The catalog, in display order. */
  const Formats: seq<Format> := [
    Format("epub", "EPUB", ".epub"),
    Format("mobi", "MOBI", ".mobi"),
    Format("pdf", "PDF", ".pdf"),
    Format("txt", "TXT", ".txt"),
    Format("fb2", "FB2", ".fb2")
  ]

  /** The identifiers of the catalog, as a set. */
  const CatalogIds: set<string> := set k | 0 <= k < |Formats| :: Formats[k].id

  predicate IsCatalogId(s: string) {
    s in CatalogIds
  }

  /** The catalog has five entries, in the order EPUB, MOBI, PDF, TXT, FB2. */
  lemma CatalogContents()
    ensures |Formats| == 5
    ensures Formats[0].id == "epub" && Formats[1].id == "mobi" && Formats[2].id == "pdf"
    ensures Formats[3].id == "txt" && Formats[4].id == "fb2"
    ensures CatalogIds == {"epub", "mobi", "pdf", "txt", "fb2"}
  {
    assert Formats[0].id in CatalogIds;
    assert Formats[1].id in CatalogIds;
    assert Formats[2].id in CatalogIds;
    assert Formats[3].id in CatalogIds;
    assert Formats[4].id in CatalogIds;
  }

  /** Every entry is consistent: its identifiers are distinct, its extension is
      "." followed by its identifier, and its name is its identifier upper-cased. */
  lemma CatalogWellFormed()
    ensures forall i, j :: 0 <= i < j < |Formats| ==> Formats[i].id != Formats[j].id
    ensures forall i :: 0 <= i < |Formats| ==> Formats[i].extension == "." + Formats[i].id
    ensures forall i :: 0 <= i < |Formats| ==> Formats[i].name == JsStrings.ToUpperCase(Formats[i].id)
    ensures forall i :: 0 <= i < |Formats| ==> JsStrings.IsLowerCase(Formats[i].id) && '.' !in Formats[i].id
  {
  }

  /** The identifier a chooser reports when the button of entry `i` is clicked:
      always a catalog identifier, and the one whose extension the button shows. */
  function ClickEntry(i: nat): (id: string)
    requires i < |Formats|
    ensures IsCatalogId(id)
    ensures Formats[i].extension == "." + id
  {
    Formats[i].id
  }

  /** Whether the button of `f` is drawn as selected when the chooser holds `selectedFormat`. */
  predicate IsHighlighted(selectedFormat: string, f: Format) {
    selectedFormat == f.id
  }

  /** At most one button is highlighted. */
  lemma HighlightUnique(selectedFormat: string, i: nat, j: nat)
    requires i < |Formats| && j < |Formats|
    requires IsHighlighted(selectedFormat, Formats[i]) && IsHighlighted(selectedFormat, Formats[j])
    ensures i == j
  {
    CatalogWellFormed();
  }

  /** Some button is highlighted exactly when the selection is a catalog identifier. */
  lemma HighlightExists(selectedFormat: string)
    ensures IsCatalogId(selectedFormat) <==>
            exists i :: 0 <= i < |Formats| && IsHighlighted(selectedFormat, Formats[i])
  {
  }
}
