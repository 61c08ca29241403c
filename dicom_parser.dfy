/** What the viewer itself does with a decoded DICOM data set
    (src/utils/dicomParser.ts): building the metadata record, cutting the
    pixel data to rows × columns, and guessing the body region from text. */
module DicomParser {
  import opened Types
  import opened Strings

  /** The text-valued tags the viewer reads. */
  datatype Tag = PatientName | StudyDate | Modality | BodyPartExamined | SeriesDescription | PixelSpacing

  /** A data set as the DICOM library hands it over. `strings` holds
      `dataSet.string(tag)` for every text element present; `rows`,
      `columns` and `sliceThickness` hold the numbers read from those
      elements (None when absent or not a number); `pixelData` holds the
      16-bit words of element (7FE0,0010), None when that element is absent. */
  datatype DataSet = DataSet(
    strings: map<Tag, string>,
    rows: Option<nat>,
    columns: Option<nat>,
    sliceThickness: Option<real>,
    pixelData: Option<seq<Sample>>)

  /** `getStringValue`: the element's text, or undefined when absent. */
  function StringValue(ds: DataSet, tag: Tag): (r: Option<string>)
    ensures r.Some? <==> tag in ds.strings
    ensures r.Some? ==> r.value == ds.strings[tag]
  {
    if tag in ds.strings then Some(ds.strings[tag]) else None
  }

  /** `parseDicomFile`. `parsed` is None when the library throws, and the
      result is then the empty record. The pixel spacing is set only when its
      text is present and non-empty, split at each backslash. */
  function ParseDicomFile(parsed: Option<DataSet>): (md: DicomMetadata)
    ensures parsed.None? ==> md == EmptyMetadata
    ensures parsed.Some? ==>
      && md.patientName == StringValue(parsed.value, PatientName)
      && md.studyDate == StringValue(parsed.value, StudyDate)
      && md.modality == StringValue(parsed.value, Modality)
      && md.bodyPartExamined == StringValue(parsed.value, BodyPartExamined)
      && md.seriesDescription == StringValue(parsed.value, SeriesDescription)
      && md.rows == parsed.value.rows && md.columns == parsed.value.columns
      && md.sliceThickness == parsed.value.sliceThickness
    ensures md.pixelSpacing.Some? <==>
      parsed.Some? && PixelSpacing in parsed.value.strings && parsed.value.strings[PixelSpacing] != ""
    ensures md.pixelSpacing.Some? ==>
      && |md.pixelSpacing.value| == Occurrences(parsed.value.strings[PixelSpacing], '\\') + 1
      && Join(md.pixelSpacing.value, '\\') == parsed.value.strings[PixelSpacing]
  {
    match parsed
    case None => EmptyMetadata
    case Some(ds) =>
      var spacing := StringValue(ds, PixelSpacing);
      JoinSplit(if spacing.Some? then spacing.value else "", '\\');
      SplitCount(if spacing.Some? then spacing.value else "", '\\');
      DicomMetadata(
        StringValue(ds, PatientName),
        StringValue(ds, StudyDate),
        StringValue(ds, Modality),
        StringValue(ds, BodyPartExamined),
        StringValue(ds, SeriesDescription),
        ds.rows,
        ds.columns,
        ds.sliceThickness,
        if spacing.Some? && spacing.value != "" then Some(Split(spacing.value, '\\')) else None)
  }

  /** `n || 0` for a decoded dimension: absent and zero both give 0. */
  function DimOrZero(d: Option<nat>): nat {
    if d.Some? then d.value else 0
  }

  /** `getPixelData`: None when the library throws or the pixel element is
      absent; otherwise the first rows·columns words (all of them when there
      are fewer), so a missing dimension gives an empty, present array. */
  function GetPixelData(parsed: Option<DataSet>): (r: Option<seq<Sample>>)
    ensures r.None? <==> parsed.None? || parsed.value.pixelData.None?
    ensures r.Some? ==>
      var raw := parsed.value.pixelData.value;
      var n := DimOrZero(parsed.value.rows) * DimOrZero(parsed.value.columns);
      && |r.value| == (if n <= |raw| then n else |raw|)
      && r.value == raw[..|r.value|]
  {
    match parsed
    case None => None
    case Some(ds) =>
      match ds.pixelData
      case None => None
      case Some(raw) =>
        var n := DimOrZero(ds.rows) * DimOrZero(ds.columns);
        Some(if n <= |raw| then raw[..n] else raw)
  }

  // ---------------------------------------------------------------------
  // Body region

  function OrEmpty(s: Option<string>): string {
    if s.Some? then s.value else ""
  }

  /** The text the classifier searches: body part, series description and
      series name joined by spaces, absent fields empty, lower-cased. */
  function SearchText(md: DicomMetadata, seriesName: string): string {
    ToLower(OrEmpty(md.bodyPartExamined) + " " + OrEmpty(md.seriesDescription) + " " + seriesName)
  }

  predicate ContainsAny(text: string, keywords: seq<string>) {
    exists i :: 0 <= i < |keywords| && Contains(text, keywords[i])
  }

  const ChestKeywords: seq<string> := ["chest", "thorax", "lung"]
  const UpperAbdomenKeywords: seq<string> := ["upper abdomen", "upper_abdomen"]
  const AbdomenKeywords: seq<string> := ["abdomen", "abdominal"]
  const NeckKeywords: seq<string> := ["neck", "cervical"]
  const FullBodyKeywords: seq<string> := ["full body", "whole body"]

  /** `detectBodyRegion`: the first keyword group, in priority order, that
      occurs in the search text decides the region. */
  function DetectBodyRegion(md: DicomMetadata, seriesName: string): BodyRegion {
    var text := SearchText(md, seriesName);
    if Contains(text, "chest") || Contains(text, "thorax") || Contains(text, "lung") then Chest
    else if Contains(text, "upper abdomen") || Contains(text, "upper_abdomen") then UpperAbdomen
    else if Contains(text, "abdomen") || Contains(text, "abdominal") then Abdomen
    else if Contains(text, "neck") || Contains(text, "cervical") then HumanNeck
    else if Contains(text, "full body") || Contains(text, "whole body") then FullBody
    else Unknown
  }

  /** The classifier as an ordered table of (keywords, region) rules. */
  const Rules: seq<(seq<string>, BodyRegion)> := [
    (ChestKeywords, Chest),
    (UpperAbdomenKeywords, UpperAbdomen),
    (AbdomenKeywords, Abdomen),
    (NeckKeywords, HumanNeck),
    (FullBodyKeywords, FullBody)
  ]

  /** Reference reading of a rule table: the first rule whose keywords occur
      wins, and `Unknown` when none does. */
  function FirstMatch(rules: seq<(seq<string>, BodyRegion)>, text: string): BodyRegion {
    if |rules| == 0 then Unknown
    else if ContainsAny(text, rules[0].0) then rules[0].1
    else FirstMatch(rules[1..], text)
  }

  lemma ContainsAnyPair(text: string, keywords: seq<string>)
    requires |keywords| == 2
    ensures ContainsAny(text, keywords) <==> Contains(text, keywords[0]) || Contains(text, keywords[1])
  {
    if ContainsAny(text, keywords) {
      var i :| 0 <= i < |keywords| && Contains(text, keywords[i]);
      assert i == 0 || i == 1;
    }
  }

  lemma ContainsAnyTriple(text: string, keywords: seq<string>)
    requires |keywords| == 3
    ensures ContainsAny(text, keywords) <==>
      Contains(text, keywords[0]) || Contains(text, keywords[1]) || Contains(text, keywords[2])
  {
    if ContainsAny(text, keywords) {
      var i :| 0 <= i < |keywords| && Contains(text, keywords[i]);
      assert i == 0 || i == 1 || i == 2;
    }
  }

  /** The if/else chain is exactly the priority rule table. */
  lemma DetectBodyRegionIsFirstMatch(md: DicomMetadata, seriesName: string)
    ensures DetectBodyRegion(md, seriesName) == FirstMatch(Rules, SearchText(md, seriesName))
  {
    var text := SearchText(md, seriesName);
    ContainsAnyTriple(text, ChestKeywords);
    ContainsAnyPair(text, UpperAbdomenKeywords);
    ContainsAnyPair(text, AbdomenKeywords);
    ContainsAnyPair(text, NeckKeywords);
    ContainsAnyPair(text, FullBodyKeywords);
    var r4 := FirstMatch(Rules[4..], text);
    assert Rules[4..] == [(FullBodyKeywords, FullBody)] && Rules[4..][1..] == [];
    assert FirstMatch(Rules[4..][1..], text) == Unknown;
    assert r4 == if ContainsAny(text, FullBodyKeywords) then FullBody else Unknown;
    var r3 := FirstMatch(Rules[3..], text);
    assert Rules[3..][0] == (NeckKeywords, HumanNeck) && Rules[3..][1..] == Rules[4..];
    assert r3 == if ContainsAny(text, NeckKeywords) then HumanNeck else r4;
    var r2 := FirstMatch(Rules[2..], text);
    assert Rules[2..][0] == (AbdomenKeywords, Abdomen) && Rules[2..][1..] == Rules[3..];
    assert r2 == if ContainsAny(text, AbdomenKeywords) then Abdomen else r3;
    var r1 := FirstMatch(Rules[1..], text);
    assert Rules[1..][0] == (UpperAbdomenKeywords, UpperAbdomen) && Rules[1..][1..] == Rules[2..];
    assert r1 == if ContainsAny(text, UpperAbdomenKeywords) then UpperAbdomen else r2;
  }

  /** Each region, characterised both ways by the keyword groups: a group
      decides only when no earlier group occurs, and `Unknown` means that no
      keyword occurs at all. */
  lemma DetectBodyRegionCases(md: DicomMetadata, seriesName: string)
    ensures var text, r := SearchText(md, seriesName), DetectBodyRegion(md, seriesName);
      && (r == Chest <==> ContainsAny(text, ChestKeywords))
      && (r == UpperAbdomen <==> !ContainsAny(text, ChestKeywords) && ContainsAny(text, UpperAbdomenKeywords))
      && (r == Abdomen <==>
            !ContainsAny(text, ChestKeywords) && !ContainsAny(text, UpperAbdomenKeywords)
            && ContainsAny(text, AbdomenKeywords))
      && (r == HumanNeck <==>
            !ContainsAny(text, ChestKeywords) && !ContainsAny(text, UpperAbdomenKeywords)
            && !ContainsAny(text, AbdomenKeywords) && ContainsAny(text, NeckKeywords))
      && (r == FullBody <==>
            !ContainsAny(text, ChestKeywords) && !ContainsAny(text, UpperAbdomenKeywords)
            && !ContainsAny(text, AbdomenKeywords) && !ContainsAny(text, NeckKeywords)
            && ContainsAny(text, FullBodyKeywords))
      && (r == Unknown <==> forall g :: 0 <= g < |Rules| ==> !ContainsAny(text, Rules[g].0))
  {
    var text := SearchText(md, seriesName);
    ContainsAnyTriple(text, ChestKeywords);
    ContainsAnyPair(text, UpperAbdomenKeywords);
    ContainsAnyPair(text, AbdomenKeywords);
    ContainsAnyPair(text, NeckKeywords);
    ContainsAnyPair(text, FullBodyKeywords);
    assert Rules[0].0 == ChestKeywords && Rules[1].0 == UpperAbdomenKeywords && Rules[2].0 == AbdomenKeywords;
    assert Rules[3].0 == NeckKeywords && Rules[4].0 == FullBodyKeywords;
  }

  /** Matching ignores case: inputs whose fields agree once lower-cased are
      classified alike. */
  lemma DetectBodyRegionIgnoresCase(md1: DicomMetadata, name1: string, md2: DicomMetadata, name2: string)
    requires ToLower(OrEmpty(md1.bodyPartExamined)) == ToLower(OrEmpty(md2.bodyPartExamined))
    requires ToLower(OrEmpty(md1.seriesDescription)) == ToLower(OrEmpty(md2.seriesDescription))
    requires ToLower(name1) == ToLower(name2)
    ensures DetectBodyRegion(md1, name1) == DetectBodyRegion(md2, name2)
  {
    var b1, d1 := OrEmpty(md1.bodyPartExamined), OrEmpty(md1.seriesDescription);
    var b2, d2 := OrEmpty(md2.bodyPartExamined), OrEmpty(md2.seriesDescription);
    ToLowerAppend(b1 + " " + d1 + " ", name1);
    ToLowerAppend(b1 + " " + d1, " ");
    ToLowerAppend(b1 + " ", d1);
    ToLowerAppend(b1, " ");
    ToLowerAppend(b2 + " " + d2 + " ", name2);
    ToLowerAppend(b2 + " " + d2, " ");
    ToLowerAppend(b2 + " ", d2);
    ToLowerAppend(b2, " ");
    assert SearchText(md1, name1) == SearchText(md2, name2);
  }
}

module DicomParserExamples {
  import opened Types
  import opened Strings
  import opened DicomParser

  function WithText(bodyPart: Option<string>, description: Option<string>): DicomMetadata {
    EmptyMetadata.(bodyPartExamined := bodyPart, seriesDescription := description)
  }

  /** Keywords meet across field boundaries: body part "UPPER" and
      description "ABDOMEN" read as "upper abdomen". */
  lemma UpperAbdomenAcrossFields()
    ensures DetectBodyRegion(WithText(Some("UPPER"), Some("ABDOMEN")), "CT") == UpperAbdomen
  {
    var text := SearchText(WithText(Some("UPPER"), Some("ABDOMEN")), "CT");
    assert text == "upper abdomen ct";
    MissingCharNotContained(text, "chest", 1);
    MissingCharNotContained(text, "thorax", 1);
    MissingCharNotContained(text, "lung", 0);
    assert OccursAt(text, "upper abdomen", 0);
  }

  /** Chest keywords outrank every other group. */
  lemma ChestOutranksAbdomen()
    ensures DetectBodyRegion(EmptyMetadata, "chest abdomen") == Chest
  {
    var text := SearchText(EmptyMetadata, "chest abdomen");
    assert text == "  chest abdomen";
    assert OccursAt(text, "chest", 2);
  }

  /** A series name alone decides when the metadata has no text. */
  lemma SeriesNameAlone()
    ensures DetectBodyRegion(EmptyMetadata, "Chest CT Thorax") == Chest
  {
    var text := SearchText(EmptyMetadata, "Chest CT Thorax");
    assert text == "  chest ct thorax";
    assert OccursAt(text, "chest", 2);
  }

  /** Upper- and lower-case spellings classify alike. */
  lemma UpperAndLowerCaseAgree()
    ensures DetectBodyRegion(EmptyMetadata, "CHEST CT") == Chest
    ensures DetectBodyRegion(EmptyMetadata, "chest ct") == Chest
  {
    assert SearchText(EmptyMetadata, "CHEST CT") == "  chest ct";
    assert SearchText(EmptyMetadata, "chest ct") == "  chest ct";
    assert OccursAt("  chest ct", "chest", 2);
  }

  /** "upper abdomen" is tested before the plain abdomen keywords. */
  lemma UpperAbdomenBeforeAbdomen()
    ensures DetectBodyRegion(WithText(Some("abdomen"), None), "upper abdomen") == UpperAbdomen
  {
    var text := SearchText(WithText(Some("abdomen"), None), "upper abdomen");
    UpperAbdomenText();
    MissingCharNotContained(text, "chest", 0);
    MissingCharNotContained(text, "thorax", 1);
    MissingCharNotContained(text, "lung", 0);
    assert OccursAt(text, "upper abdomen", 9);
  }

  lemma UpperAbdomenText()
    ensures SearchText(WithText(Some("abdomen"), None), "upper abdomen") == "abdomen  upper abdomen"
  {
    var raw := "abdomen" + " " + "" + " " + "upper abdomen";
    assert raw == "abdomen  upper abdomen";
    ToLowerNoCapitals(raw);
  }

  /** The neck keywords decide when no chest or abdomen keyword occurs. */
  lemma NeckWithoutTrunkKeywords()
    ensures DetectBodyRegion(WithText(Some("NECK"), None), "CT") == HumanNeck
  {
    var text := SearchText(WithText(Some("NECK"), None), "CT");
    assert text == "neck  ct";
    MissingCharNotContained(text, "chest", 1);
    MissingCharNotContained(text, "thorax", 1);
    MissingCharNotContained(text, "lung", 0);
    MissingCharNotContained(text, "upper abdomen", 0);
    MissingCharNotContained(text, "upper_abdomen", 0);
    MissingCharNotContained(text, "abdomen", 0);
    MissingCharNotContained(text, "abdominal", 0);
    assert OccursAt(text, "neck", 0);
  }

  /** Whole-body keywords are the last rule before `Unknown`. */
  lemma WholeBodyLast()
    ensures DetectBodyRegion(EmptyMetadata, "Whole Body PET") == FullBody
  {
    var text := SearchText(EmptyMetadata, "Whole Body PET");
    assert text == "  whole body pet";
    WholeBodyTextMisses();
    assert OccursAt(text, "whole body", 2);
  }

  lemma WholeBodyTextMisses()
    ensures var text := "  whole body pet";
      && !Contains(text, "chest") && !Contains(text, "thorax") && !Contains(text, "lung")
      && !Contains(text, "upper abdomen") && !Contains(text, "upper_abdomen")
      && !Contains(text, "abdomen") && !Contains(text, "abdominal")
      && !Contains(text, "neck") && !Contains(text, "cervical")
  {
    WholeBodyTextMissesTrunk();
    var text := "  whole body pet";
    MissingCharNotContained(text, "neck", 0);
    MissingCharNotContained(text, "cervical", 0);
  }

  lemma WholeBodyTextMissesTrunk()
    ensures var text := "  whole body pet";
      && !Contains(text, "chest") && !Contains(text, "thorax") && !Contains(text, "lung")
      && !Contains(text, "upper abdomen") && !Contains(text, "upper_abdomen")
      && !Contains(text, "abdomen") && !Contains(text, "abdominal")
  {
    var text := "  whole body pet";
    MissingCharNotContained(text, "chest", 0);
    MissingCharNotContained(text, "thorax", 5);
    MissingCharNotContained(text, "lung", 1);
    MissingCharNotContained(text, "upper abdomen", 0);
    MissingCharNotContained(text, "upper_abdomen", 0);
    MissingCharNotContained(text, "abdomen", 0);
    MissingCharNotContained(text, "abdominal", 0);
  }


  /** Text with no keyword at all gives `Unknown`. */
  lemma NoKeywordUnknown()
    ensures DetectBodyRegion(WithText(Some("BRAIN"), None), "MRI") == Unknown
  {
    var text := SearchText(WithText(Some("BRAIN"), None), "MRI");
    assert text == "brain  mri";
    MissingCharNotContained(text, "chest", 0);
    MissingCharNotContained(text, "thorax", 0);
    MissingCharNotContained(text, "lung", 0);
    MissingCharNotContained(text, "upper abdomen", 0);
    MissingCharNotContained(text, "upper_abdomen", 0);
    MissingCharNotContained(text, "abdomen", 2);
    MissingCharNotContained(text, "abdominal", 2);
    MissingCharNotContained(text, "neck", 1);
    MissingCharNotContained(text, "cervical", 0);
    MissingCharNotContained(text, "full body", 0);
    MissingCharNotContained(text, "whole body", 0);
  }

  /** Pixel spacing "0.7\\0.7" is split into two fields; an empty spacing
      text leaves the field unset. */
  lemma PixelSpacingFields()
    ensures ParseDicomFile(Some(DataSet(map[PixelSpacing := "0.7\\0.7"], None, None, None, None))).pixelSpacing
      == Some(["0.7", "0.7"])
    ensures ParseDicomFile(Some(DataSet(map[PixelSpacing := ""], None, None, None, None))).pixelSpacing == None
  {
    var fields := ["0.7", "0.7"];
    assert Join(fields, '\\') == "0.7\\0.7";
    SplitJoin(fields, '\\');
  }

  /** Missing rows or columns give an empty but present pixel array; a pixel
      element shorter than rows × columns is kept whole. */
  lemma PixelDataTruncation(raw: seq<Sample>)
    requires |raw| == 6
    ensures GetPixelData(Some(DataSet(map[], None, Some(2), None, Some(raw)))) == Some([])
    ensures GetPixelData(Some(DataSet(map[], Some(2), Some(2), None, Some(raw)))) == Some(raw[..4])
    ensures GetPixelData(Some(DataSet(map[], Some(4), Some(2), None, Some(raw)))) == Some(raw)
    ensures GetPixelData(Some(DataSet(map[], Some(4), Some(2), None, None))) == None
  {
  }
}
