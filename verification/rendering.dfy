/** The METADATA section's fixed lines as the text they render to. */
module Rendering {
  import opened Metadata

  /** As written: the first line reads `iCSV_version = 1.0` and the last
      `generator = make_icsv.py (frictionless-based)`. */
  lemma SectionText(s: Settings)
    ensures var md := Section(s);
      && |md| > 0
      && md[0].Text() == "iCSV_version = 1.0"
      && md[|md| - 1].Text() == "generator = make_icsv.py (frictionless-based)"
  {
    SectionEnds(s);
    VersionLine();
    GeneratorLine();
  }

  /** The fixed first line, character for character. */
  lemma VersionLine()
    ensures Entry(Version, "1.0").Text() == "iCSV_version = 1.0"
  {
    assert Version.Name() == "iCSV_version";
  }

  /** The fixed last line, character for character. */
  lemma GeneratorLine()
    ensures Entry(GeneratorKey, Generator).Text() == "generator = make_icsv.py (frictionless-based)"
  {
    assert GeneratorKey.Name() == "generator";
  }
}
