/** The text-building parts of scripts/generate_final_report.py:
    `short_excerpt` and the one-line integrity summary per asset that
    `build_report` writes before the per-asset sections. PDF layout is left
    out. */
module FinalReport {
  import opened Wrappers
  import opened Strings
  import Decimal
  import Excerpts

  /** `short_excerpt(big_text, terms)`, whose context is 200 characters. */
  function ShortExcerpt(text: string, terms: seq<string>): (r: Option<string>)
    ensures r.None? <==> forall j :: 0 <= j < |terms| ==> !Excerpts.Found(text, terms[j])
    ensures r.Some? ==> Contains(text, r.value)
    ensures r.Some? ==> exists j :: 0 <= j < |terms| && Excerpts.Found(text, terms[j])
                                    && |r.value| <= |terms[j]| + 400
  {
    Excerpts.TermExcerpt(text, terms, 200)
  }

  /** The fields of a mapping the integrity line reads; `None` is a missing
      key or a JSON null. */
  datatype Mapping = Mapping(
    assetId: Option<string>,
    txtSha256: Option<string>,
    txtSizeBytes: Option<int>,
    pdfSha256: Option<string>,
    pdfSizeBytes: Option<int>)

  /** A checksum is shown when it is truthy: present and not empty. */
  predicate ShowSha(o: Option<string>) {
    o.Some? && o.value != ""
  }

  /** A size is shown whenever it is not `None`, zero included. */
  predicate ShowSize(o: Option<int>) {
    o.Some?
  }

  /** The checksum part after the given lead text, when it is shown. */
  function ShaPart(lead: string, o: Option<string>): (r: seq<string>)
    ensures |r| == if ShowSha(o) then 1 else 0
    ensures ShowSha(o) ==> r[0] == lead + o.value
  {
    if ShowSha(o) then [lead + o.value] else []
  }

  /** The size part after the given lead text, when it is shown. */
  function SizePart(lead: string, o: Option<int>): (r: seq<string>)
    ensures |r| == if ShowSize(o) then 1 else 0
    ensures ShowSize(o) ==> r[0] == lead + Decimal.IntToDecimal(o.value) + " bytes"
  {
    if ShowSize(o) then [lead + Decimal.IntToDecimal(o.value) + " bytes"] else []
  }

  /** The `parts` list, in the fixed order TXT sha, TXT size, PDF sha, PDF size. */
  function IntegrityParts(m: Mapping): (r: seq<string>)
    ensures |r| == (if ShowSha(m.txtSha256) then 1 else 0) + (if ShowSize(m.txtSizeBytes) then 1 else 0)
                 + (if ShowSha(m.pdfSha256) then 1 else 0) + (if ShowSize(m.pdfSizeBytes) then 1 else 0)
    ensures r == [] <==> !ShowSha(m.txtSha256) && !ShowSize(m.txtSizeBytes)
                         && !ShowSha(m.pdfSha256) && !ShowSize(m.pdfSizeBytes)
    ensures ShowSha(m.txtSha256) ==> r[0] == "TXT sha256: " + m.txtSha256.value
    ensures ShowSize(m.txtSizeBytes) ==>
              r[if ShowSha(m.txtSha256) then 1 else 0]
              == "TXT size: " + Decimal.IntToDecimal(m.txtSizeBytes.value) + " bytes"
    ensures ShowSha(m.pdfSha256) ==>
              r[(if ShowSha(m.txtSha256) then 1 else 0) + (if ShowSize(m.txtSizeBytes) then 1 else 0)]
              == "PDF sha256: " + m.pdfSha256.value
    ensures ShowSize(m.pdfSizeBytes) ==> r[|r| - 1] == "PDF size: " + Decimal.IntToDecimal(m.pdfSizeBytes.value) + " bytes"
    ensures forall i :: 0 <= i < |r| ==> |r[i]| > 4 && (r[i][..4] == "TXT " || r[i][..4] == "PDF ")
  {
    var a := ShaPart("TXT sha256: ", m.txtSha256);
    var b := SizePart("TXT size: ", m.txtSizeBytes);
    var c := ShaPart("PDF sha256: ", m.pdfSha256);
    var d := SizePart("PDF size: ", m.pdfSizeBytes);
    var r := a + b + c + d;
    assert forall i :: 0 <= i < |r| ==> r[i] in a || r[i] in b || r[i] in c || r[i] in d;
    r
  }

  /** How Python formats an optional value in an f-string. */
  function Display(o: Option<string>): string {
    if o.None? then "None" else o.value
  }

  const NoMetadata := "no integrity metadata available"

  /** The integrity line of one asset: its id, an em dash, then the parts
      joined by ` | `, or the fallback text when there are none. */
  function IntegrityLine(m: Mapping): (r: string)
    ensures var head := Display(m.assetId) + " \U{2014} ";
            && |head| <= |r| && r[..|head|] == head
            && (r[|head|..] == NoMetadata <==> !ShowSha(m.txtSha256) && !ShowSize(m.txtSizeBytes)
                                                && !ShowSha(m.pdfSha256) && !ShowSize(m.pdfSizeBytes))
            && (IntegrityParts(m) != [] ==> r[|head|..] == Join(" | ", IntegrityParts(m)))
  {
    var parts := IntegrityParts(m);
    var head := Display(m.assetId) + " \U{2014} ";
    var tail := if parts != [] then Join(" | ", parts) else NoMetadata;
    assert parts != [] ==> tail != [] && tail[0] != NoMetadata[0] by {
      if parts != [] {
        JoinStartsWithFirst(" | ", parts);
      }
    }
    var r := head + tail;
    assert r[..|head|] == head && r[|head|..] == tail;
    r
  }

  /** A join starts with its first part. */
  lemma JoinStartsWithFirst(sep: string, parts: seq<string>)
    requires parts != [] && parts[0] != []
    ensures Join(sep, parts) != [] && Join(sep, parts)[0] == parts[0][0]
  {
  }

  /** Every checksum or size that counts as present appears in the line. */
  lemma IntegrityLineShowsPresentFields(m: Mapping)
    ensures ShowSha(m.txtSha256) ==> Contains(IntegrityLine(m), "TXT sha256: " + m.txtSha256.value)
    ensures ShowSha(m.pdfSha256) ==> Contains(IntegrityLine(m), "PDF sha256: " + m.pdfSha256.value)
    ensures ShowSize(m.txtSizeBytes) ==>
              Contains(IntegrityLine(m), "TXT size: " + Decimal.IntToDecimal(m.txtSizeBytes.value) + " bytes")
    ensures ShowSize(m.pdfSizeBytes) ==>
              Contains(IntegrityLine(m), "PDF size: " + Decimal.IntToDecimal(m.pdfSizeBytes.value) + " bytes")
  {
    var parts := IntegrityParts(m);
    var head := Display(m.assetId) + " \U{2014} ";
    var line := IntegrityLine(m);
    if parts != [] {
      var J := Join(" | ", parts);
      assert line == head + J;
      assert line[|head|..|line|] == J;
      forall i | 0 <= i < |parts|
        ensures Contains(line, parts[i])
      {
        JoinContainsPart(" | ", parts, i);
        ContainsSlice(line, |head|, |line|, parts[i]);
      }
      var a := ShaPart("TXT sha256: ", m.txtSha256);
      var b := SizePart("TXT size: ", m.txtSizeBytes);
      var c := ShaPart("PDF sha256: ", m.pdfSha256);
      var d := SizePart("PDF size: ", m.pdfSizeBytes);
      assert parts == a + b + c + d;
      assert ShowSha(m.txtSha256) ==> parts[0] == a[0];
      assert ShowSize(m.txtSizeBytes) ==> parts[|a|] == b[0];
      assert ShowSha(m.pdfSha256) ==> parts[|a| + |b|] == c[0];
      assert ShowSize(m.pdfSizeBytes) ==> parts[|a| + |b| + |c|] == d[0];
    }
  }

  /** A size of zero bytes still counts, while an empty checksum does not. */
  lemma ZeroSizeCountsEmptyShaDoesNot(aid: Option<string>)
    ensures IntegrityParts(Mapping(aid, Some(""), Some(0), None, None)) == ["TXT size: 0 bytes"]
  {
    assert Decimal.IntToDecimal(0) == "0";
    ZeroBytesLiteral();
  }

  lemma ZeroBytesLiteral()
    ensures "TXT size: " + "0" + " bytes" == "TXT size: 0 bytes"
  {
  }
}
