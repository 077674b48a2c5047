/**
 * The requested archive formats: the configured comma-separated string,
 * split as String.split(",") does and each piece trimmed, order and
 * duplicates kept.
 */
module Formats {
  import opened JavaString

  /** The default value of the formats parameter. */
  const DefaultFormats: string := "tar.gz"

  /** Every piece trimmed, one result per piece, in the same order. */
  function TrimEach(pieces: seq<string>): (r: seq<string>)
    ensures |r| == |pieces|
    ensures forall i :: 0 <= i < |pieces| ==> r[i] == Trim(pieces[i])
    decreases |pieces|
  {
    if pieces == [] then [] else [Trim(pieces[0])] + TrimEach(pieces[1..])
  }

  /** The list the goal builds from its formats parameter. */
  function AssemblyFormats(formats: string): seq<string> {
    TrimEach(Split(formats))
  }

  /**
   * Builds the format list with an indexed loop that appends each trimmed
   * piece of the split; the result is a value no caller can change.
   */
  method GetAssemblyFormats(formats: string) returns (list: seq<string>)
    ensures |list| == |Split(formats)|
    ensures forall i :: 0 <= i < |list| ==> list[i] == Trim(Split(formats)[i])
    ensures list == AssemblyFormats(formats)
  {
    var parsedList := Split(formats);
    list := [];
    var size := |parsedList|;
    for i := 0 to size
      invariant |list| == i
      invariant forall k :: 0 <= k < i ==> list[k] == Trim(parsedList[k])
    {
      list := list + [Trim(parsedList[i])];
    }
  }

  /** Trimming a comma-free string leaves it comma-free. */
  lemma TrimKeepsCommaFree(s: string)
    requires ',' !in s
    ensures ',' !in Trim(s)
  {
  }

  /** No format starts or ends with a character at or below U+0020, and none holds a comma. */
  lemma FormatsAreTrimmedTokens(formats: string)
    ensures forall i :: 0 <= i < |AssemblyFormats(formats)| ==>
      var f := AssemblyFormats(formats)[i];
      (f == [] || (!IsTrimmable(f[0]) && !IsTrimmable(f[|f| - 1]))) && ',' !in f
  {
    var pieces := Split(formats);
    forall i | 0 <= i < |pieces|
      ensures ',' !in Trim(pieces[i])
    {
      assert pieces[i] in pieces;
      TrimKeepsCommaFree(pieces[i]);
    }
  }

  /** Every format is the trimmed piece at the same position, and only trailing empty pieces are missing. */
  lemma FormatsFollowPieces(formats: string)
    requires ',' in formats
    ensures |AssemblyFormats(formats)| <= |SplitAll(formats)|
    ensures forall i :: 0 <= i < |AssemblyFormats(formats)| ==>
      AssemblyFormats(formats)[i] == Trim(SplitAll(formats)[i])
    ensures forall k :: |AssemblyFormats(formats)| <= k < |SplitAll(formats)| ==> SplitAll(formats)[k] == ""
  {
  }

  /** There are never more formats than commas plus one. */
  lemma FormatCountBound(formats: string)
    ensures |AssemblyFormats(formats)| <= multiset(formats)[','] + 1
  {
    SplitAllCount(formats);
  }

  /** A string without a comma gives exactly one format: the default gives ["tar.gz"], "" gives [""]. */
  lemma SingleFormat(formats: string)
    requires ',' !in formats
    ensures AssemblyFormats(formats) == [Trim(formats)]
  {
  }

  lemma DefaultAndEmptyFormats()
    ensures AssemblyFormats(DefaultFormats) == ["tar.gz"]
    ensures AssemblyFormats("") == [""]
  {
    SplitWithoutComma();
    TrimKeepsTrimmed("tar.gz");
  }

  /** The trims used by the examples below. */
  lemma TrimSamples()
    ensures Trim("zip") == "zip"
    ensures Trim(" zip ") == "zip"
    ensures Trim(" ") == ""
  {
    TrimKeepsTrimmed("zip");
    assert TrimStart(" zip ") == TrimStart("zip ") == "zip ";
    assert TrimEnd("zip ") == TrimEnd("zip") == "zip";
    assert TrimStart(" ") == TrimStart("") == "";
  }

  lemma SplitDuplicateSample()
    ensures Split(" zip ,zip") == [" zip ", "zip"]
  {
    SplitTwo(" zip ", "zip");
    assert " zip " + [','] + "zip" == " zip ,zip";
  }

  lemma SplitBlankTailSample()
    ensures Split("zip, ") == ["zip", " "]
  {
    SplitTwo("zip", " ");
    assert "zip" + [','] + " " == "zip, ";
  }

  /** Duplicates are kept and surrounding blanks removed. */
  lemma DuplicateFormatsKept(formats: string)
    requires formats == " zip ,zip"
    ensures AssemblyFormats(formats) == ["zip", "zip"]
  {
    var pieces := Split(formats);
    assert pieces == [" zip ", "zip"] by { SplitDuplicateSample(); }
    var r := AssemblyFormats(formats);
    assert |r| == 2 && r[0] == Trim(pieces[0]) && r[1] == Trim(pieces[1]);
    assert r == [r[0], r[1]];
    assert r[0] == "zip" && r[1] == "zip" by { TrimSamples(); }
  }

  /**
   * Trailing empty pieces go before trimming, so a trailing blank piece
   * survives as an empty format, and a lone comma leaves no format at all.
   */
  lemma TrailingPiecesDroppedBeforeTrim(formats: string)
    requires formats == "zip, "
    ensures AssemblyFormats(formats) == ["zip", ""]
  {
    var pieces := Split(formats);
    assert pieces == ["zip", " "] by { SplitBlankTailSample(); }
    var r := AssemblyFormats(formats);
    assert |r| == 2 && r[0] == Trim(pieces[0]) && r[1] == Trim(pieces[1]);
    assert r == [r[0], r[1]];
    assert r[0] == "zip" && r[1] == "" by { TrimSamples(); }
  }

  lemma LoneCommaGivesNoFormat()
    ensures AssemblyFormats(",") == []
  {
    SplitLoneComma();
  }
}
