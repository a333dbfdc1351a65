/** The text logic of scripts/generate_diff_report.py: flattening the
    processed results into one text, the case-insensitive excerpt around a
    pattern, and the heuristics that pick the excerpt to diff against a
    source. The unified diff and the PDF layout are left out. */
module DiffReport {
  import opened Wrappers
  import opened Strings
  import opened Decimal
  import opened Sorting

  // ---------------------------------------------------------------------
  // Loading the processed results

  /** A value of the top-level JSON object: only strings are kept. */
  datatype JsonValue = JsonString(s: string) | JsonOther

  /** What reading `processed_results.json` yields: a JSON object, some other
      JSON document (with its `json.dumps(..., indent=2)` text), or a file
      that is not JSON at all (with its raw text). The entries of a loaded
      object come from a Python dict, so their keys are distinct; the
      contracts below hold whether or not they are. */
  datatype Loaded =
    | JsonObject(entries: seq<(string, JsonValue)>)
    | JsonNonObject(dumped: string)
    | NotJson(raw: string)

  /** Python's `<=` on strings: code point by code point, a prefix first. */
  predicate LexLe(a: string, b: string)
    decreases |a|
  {
    a == [] || (b != [] && (a[0] < b[0] || (a[0] == b[0] && LexLe(a[1..], b[1..]))))
  }

  lemma {:induction false} LexLeTotal(a: string, b: string)
    ensures LexLe(a, b) || LexLe(b, a)
    decreases |a|
  {
    if a != [] && b != [] && a[0] == b[0] {
      LexLeTotal(a[1..], b[1..]);
    }
  }

  lemma {:induction false} LexLeTrans(a: string, b: string, c: string)
    requires LexLe(a, b) && LexLe(b, c)
    ensures LexLe(a, c)
    decreases |a|
  {
    if a != [] && a[0] == b[0] && b[0] == c[0] {
      LexLeTrans(a[1..], b[1..], c[1..]);
    }
  }

  lemma {:induction false} LexLeAntisymmetric(a: string, b: string)
    requires LexLe(a, b) && LexLe(b, a)
    ensures a == b
    decreases |a|
  {
    if a != [] {
      LexLeAntisymmetric(a[1..], b[1..]);
      assert a == [a[0]] + a[1..] && b == [b[0]] + b[1..];
    }
  }

  /** Entries ordered by key, as `sorted(data.keys())` orders them. */
  predicate EntryLe(x: (string, JsonValue), y: (string, JsonValue)) {
    LexLe(x.0, y.0)
  }

  predicate KeyLe(x: (string, string), y: (string, string)) {
    LexLe(x.0, y.0)
  }

  lemma EntryLeTotalPreorder()
    ensures TotalPreorder(EntryLe)
  {
    forall a: (string, JsonValue), b: (string, JsonValue)
      ensures EntryLe(a, b) || EntryLe(b, a)
    {
      LexLeTotal(a.0, b.0);
    }
    forall a: (string, JsonValue), b: (string, JsonValue), c: (string, JsonValue) | EntryLe(a, b) && EntryLe(b, c)
      ensures EntryLe(a, c)
    {
      LexLeTrans(a.0, b.0, c.0);
    }
  }

  /** The string-valued entries, in order, with their keys. */
  function StringEntries(entries: seq<(string, JsonValue)>): (r: seq<(string, string)>)
    ensures |r| <= |entries|
    ensures forall p :: p in r <==> (p.0, JsonString(p.1)) in entries
    ensures Sorted(entries, EntryLe) ==> Sorted(r, KeyLe)
    decreases |entries|
  {
    if entries == [] then []
    else
      var rest := StringEntries(entries[1..]);
      var e := entries[0];
      var r := if e.1.JsonString? then [(e.0, e.1.s)] + rest else rest;
      assert forall p :: p in r <==> (p.0, JsonString(p.1)) in entries by {
        assert forall x :: x in entries <==> x == e || x in entries[1..];
      }
      assert Sorted(entries, EntryLe) ==> Sorted(r, KeyLe) by {
        if Sorted(entries, EntryLe) {
          assert Sorted(entries[1..], EntryLe);
          assert forall x :: x in entries[1..] ==> EntryLe(e, x);
        }
      }
      r
  }

  /** Each key and text occurs in the result as often as the entry with
      that key and string value occurs in the input. */
  lemma {:induction false} StringEntriesCounts(entries: seq<(string, JsonValue)>)
    ensures forall p :: multiset(StringEntries(entries))[p] == multiset(entries)[(p.0, JsonString(p.1))]
    decreases |entries|
  {
    if entries != [] {
      StringEntriesCounts(entries[1..]);
      assert entries == [entries[0]] + entries[1..];
      StringEntriesCount(entries[0], entries[1..], StringEntries(entries[1..]));
    }
  }

  /** How often each key and text occurs, kept by one step of StringEntries. */
  lemma StringEntriesCount(e: (string, JsonValue), tail: seq<(string, JsonValue)>, rest: seq<(string, string)>)
    requires forall p :: multiset(rest)[p] == multiset(tail)[(p.0, JsonString(p.1))]
    ensures var r := if e.1.JsonString? then [(e.0, e.1.s)] + rest else rest;
            forall p :: multiset(r)[p] == multiset([e] + tail)[(p.0, JsonString(p.1))]
  {
    assert multiset([e] + tail) == multiset([e]) + multiset(tail);
    if e.1.JsonString? {
      assert multiset([(e.0, e.1.s)] + rest) == multiset([(e.0, e.1.s)]) + multiset(rest);
    }
  }

  /** The strings of two runs of entries, one after the other; with the
      one-entry case this fixes the order and multiplicity of the result. */
  lemma {:induction false} StringEntriesAppend(a: seq<(string, JsonValue)>, b: seq<(string, JsonValue)>)
    ensures StringEntries(a + b) == StringEntries(a) + StringEntries(b)
    decreases |a|
  {
    if a == [] {
      assert a + b == b;
    } else {
      assert (a + b)[0] == a[0] && (a + b)[1..] == a[1..] + b;
      StringEntriesAppend(a[1..], b);
    }
  }

  /** One entry gives its key and text when its value is a string, and
      nothing otherwise. */
  lemma StringEntriesOne(e: (string, JsonValue))
    ensures StringEntries([e]) == if e.1.JsonString? then [(e.0, e.1.s)] else []
  {
    assert [e][1..] == [];
  }

  function Values(items: seq<(string, string)>): (r: seq<string>)
    ensures |r| == |items|
    ensures forall i :: 0 <= i < |items| ==> r[i] == items[i].1
    decreases |items|
  {
    if items == [] then [] else [items[0].1] + Values(items[1..])
  }

  /** `r` is the string values of `entries`, each as often as it occurs,
      taken in key order and separated by blank lines. */
  ghost predicate IsObjectText(r: string, entries: seq<(string, JsonValue)>) {
    exists items: seq<(string, string)> ::
      && Sorted(items, KeyLe)
      && (forall p :: p in items <==> (p.0, JsonString(p.1)) in entries)
      && (forall p :: multiset(items)[p] == multiset(entries)[(p.0, JsonString(p.1))])
      && r == Join("\n\n", Values(items))
  }

  /** The text of a JSON object: its string values, taken in key order and
      separated by blank lines. */
  function ObjectText(entries: seq<(string, JsonValue)>): (r: string)
    ensures IsObjectText(r, entries)
  {
    EntryLeTotalPreorder();
    var sorted := SortBy(entries, EntryLe);
    assert forall x :: x in sorted <==> x in entries by {
      assert forall x :: x in sorted <==> x in multiset(sorted);
      assert forall x :: x in entries <==> x in multiset(entries);
    }
    var items := StringEntries(sorted);
    StringEntriesCounts(sorted);
    Join("\n\n", Values(items))
  }

  /** `load_processed_text`. */
  function LoadProcessedText(doc: Loaded): (r: string)
    ensures doc.JsonObject? ==> IsObjectText(r, doc.entries)
    ensures doc.JsonNonObject? ==> r == doc.dumped
    ensures doc.NotJson? ==> r == doc.raw
  {
    match doc
    case JsonObject(entries) => ObjectText(entries)
    case JsonNonObject(dumped) => dumped
    case NotJson(raw) => raw
  }

  /** Inserting an entry that is not a string adds nothing to the strings. */
  lemma {:induction false} InsertOtherAddsNothing(x: (string, JsonValue), s: seq<(string, JsonValue)>)
    requires TotalPreorder(EntryLe) && Sorted(s, EntryLe) && !x.1.JsonString?
    ensures StringEntries(Insert(x, s, EntryLe)) == StringEntries(s)
    decreases |s|
  {
    if s != [] && EntryLe(s[0], x) {
      InsertOtherAddsNothing(x, s[1..]);
      var r := Insert(x, s, EntryLe);
      assert r == [s[0]] + Insert(x, s[1..], EntryLe);
      assert r[0] == s[0] && r[1..] == Insert(x, s[1..], EntryLe);
    } else {
      var r := Insert(x, s, EntryLe);
      assert r == [x] + s;
      assert r[1..] == s;
    }
  }

  /** A value that is not a string is skipped: adding one to the object
      leaves the text unchanged. */
  lemma NonStringValueIgnored(entries: seq<(string, JsonValue)>, key: string)
    ensures ObjectText(entries + [(key, JsonOther)]) == ObjectText(entries)
  {
    EntryLeTotalPreorder();
    var all := entries + [(key, JsonOther)];
    assert all[..|all| - 1] == entries;
    assert SortBy(all, EntryLe) == Insert((key, JsonOther), SortBy(entries, EntryLe), EntryLe);
    InsertOtherAddsNothing((key, JsonOther), SortBy(entries, EntryLe));
  }

  /** An object with one string value yields exactly that value. */
  lemma SingleStringValue(key: string, v: string)
    ensures LoadProcessedText(JsonObject([(key, JsonString(v))])) == v
  {
    EntryLeTotalPreorder();
    var e := [(key, JsonString(v))];
    assert e[..0] == [];
    assert SortBy(e, EntryLe) == e;
    assert StringEntries(e) == [(key, v)];
  }

  // ---------------------------------------------------------------------
  // Excerpts

  /** `excerpt_around(text, pat, chars)`: the case-insensitive first
      occurrence of `pat`, with `chars // 3` characters before it and `chars`
      characters from its start on, clamped to the text. */
  function ExcerptAround(text: string, pat: string, chars: nat): (r: Option<string>)
    ensures r.None? <==> !Contains(Lower(text), Lower(pat))
    ensures r.Some? ==> Contains(text, r.value) && |r.value| <= chars / 3 + chars
    ensures r.Some? && |pat| <= chars ==> Contains(Lower(r.value), Lower(pat))
    ensures r.Some? && chars > 0 ==> (r.value == "" <==> text == "")
    ensures r.Some? ==>
              var idx := Find(Lower(text), Lower(pat));
              var before := if idx < chars / 3 then idx else chars / 3;
              var after := if idx + chars <= |text| then chars else |text| - idx;
              0 <= idx <= |text| && |r.value| == before + after && OccursAt(text, r.value, idx - before)
  {
    var idx := Find(Lower(text), Lower(pat));
    if idx == -1 then None
    else
      var start := if idx >= chars / 3 then idx - chars / 3 else 0;
      var end := if idx + chars <= |text| then idx + chars else |text|;
      assert OccursAt(text, text[start..end], start);
      WindowKeepsPattern(text, pat, idx, start, end);
      FirstOccurrenceInside(Lower(text), Lower(pat));
      Some(text[start..end])
  }

  /** A window around an occurrence in the lower-cased text holds that
      occurrence, case aside. */
  lemma WindowKeepsPattern(text: string, pat: string, idx: nat, start: nat, end: nat)
    requires start <= idx <= end <= |text|
    requires OccursAt(Lower(text), Lower(pat), idx)
    ensures idx + |pat| <= end ==> Contains(Lower(text[start..end]), Lower(pat))
  {
    if idx + |pat| <= end {
      LowerSlice(text, start, end);
      OccurrenceInWindow(Lower(text), Lower(pat), idx, start, end);
    }
  }

  /** A slice that spans an occurrence contains it. */
  lemma OccurrenceInWindow(s: string, p: string, idx: nat, start: nat, end: nat)
    requires start <= idx && idx + |p| <= end <= |s|
    requires OccursAt(s, p, idx)
    ensures Contains(s[start..end], p)
  {
    var w := s[start..end];
    var off := idx - start;
    var m := w[off..off + |p|];
    assert forall k :: 0 <= k < |p| ==> m[k] == s[idx + k];
    assert s[idx..idx + |p|] == p;
    assert OccursAt(w, p, off);
  }

  /** The first occurrence in a non-empty text starts inside it. */
  lemma FirstOccurrenceInside(s: string, p: string)
    ensures s != "" && Find(s, p) >= 0 ==> Find(s, p) < |s|
  {
    var f := Find(s, p);
    if s != "" && p == "" {
      assert s[0..0] == p;
      assert OccursAt(s, p, 0);
    }
  }

  /** `if e:` on an excerpt: found and not empty. */
  predicate Hit(text: string, pat: string) {
    var e := ExcerptAround(text, pat, 800);
    e.Some? && e.value != ""
  }

  lemma HitIff(text: string, pat: string)
    ensures Hit(text, pat) <==> text != "" && Contains(Lower(text), Lower(pat))
  {
  }

  /** `''.join(re.findall(r"\d+", s))`: all the digits of `s`, in order. */
  function Digits(s: string): (r: string)
    ensures AllDigits(r) && |r| <= |s|
    ensures r == "" <==> forall i :: 0 <= i < |s| ==> !IsDigit(s[i])
    ensures AllDigits(s) ==> r == s
    decreases |s|
  {
    if s == [] then []
    else
      var rest := Digits(s[1..]);
      assert forall i :: 1 <= i < |s| ==> s[i] == s[1..][i - 1];
      if IsDigit(s[0]) then [s[0]] + rest else rest
  }

  lemma {:induction false} DigitsAppend(a: string, b: string)
    ensures Digits(a + b) == Digits(a) + Digits(b)
    decreases |a|
  {
    if a == [] {
      assert a + b == b;
    } else {
      assert (a + b)[0] == a[0];
      assert (a + b)[1..] == a[1..] + b;
      DigitsAppend(a[1..], b);
    }
  }

  /** The contract heading searched for: `Contract #` and the digits,
      zero-padded to three characters (`f"{int(digits):03d}"`) when there
      are at most three of them and kept as they are otherwise. */
  function ContractPattern(digits: string): (r: string)
    requires AllDigits(digits) && digits != ""
    ensures r == "Contract #" + ZeroPad(digits, 3)
  {
    if |digits| <= 3 then
      Format03OfDigits(digits);
      "Contract #" + Format03(DigitsValue(digits))
    else "Contract #" + digits
  }

  /** `source_text.strip().splitlines()[0]`, or `''` for a blank source. */
  function FirstLine(source: string): (r: string)
    ensures r == "" <==> AllSpace(source)
    ensures NoLineBreak(r)
    ensures Contains(Strip(source), r)
    ensures !AllSpace(source) ==>
              && OccursAt(Strip(source), r, 0)
              && (|r| == |Strip(source)| || IsLineBreak(Strip(source)[|r|]))
  {
    var t := Strip(source);
    if t == "" then
      assert OccursAt(t, "", 0);
      ""
    else
      var lines := SplitLines(t);
      FirstLineIsPrefix(t);
      lines[0]
  }

  lemma FirstLineIsPrefix(t: string)
    requires t != []
    ensures Contains(t, SplitLines(t)[0])
  {
    var i := NextBreak(t, 0);
    if i < |t| {
      assert SplitLines(t)[0] == t[..i];
    }
    assert OccursAt(t, SplitLines(t)[0], 0);
  }

  /** The patterns `find_best_excerpt` tries, in order: the contract
      heading when the asset id holds digits, the asset id itself, and the
      first 80 characters of the source's first line when there is one. */
  function Candidates(assetId: string, source: string): (r: seq<string>)
    ensures 1 <= |r| <= 3
  {
    var d := Digits(assetId);
    var line := FirstLine(source);
    (if d != "" then [ContractPattern(d)] else [])
    + ([assetId] + (if line != "" then [Slice(line, 0, 80)] else []))
  }

  /** The excerpt of the first pattern that hits, as an independent
      reference for the heuristics. */
  function FirstHit(text: string, pats: seq<string>): (r: Option<string>)
    ensures r.None? <==> forall i :: 0 <= i < |pats| ==> !Hit(text, pats[i])
    ensures r.Some? ==> exists i :: 0 <= i < |pats| && Hit(text, pats[i])
                          && r.value == ExcerptAround(text, pats[i], 800).value
                          && forall j :: 0 <= j < i ==> !Hit(text, pats[j])
    decreases |pats|
  {
    if pats == [] then None
    else if Hit(text, pats[0]) then Some(ExcerptAround(text, pats[0], 800).value)
    else
      var rest := FirstHit(text, pats[1..]);
      assert forall i :: 1 <= i < |pats| ==> pats[i] == pats[1..][i - 1];
      rest
  }

  /** `find_best_excerpt(processed_text, asset_id, source_text)`. */
  function FindBestExcerpt(processed: string, assetId: string, source: string): (r: string)
    ensures Contains(processed, r) && |r| <= 1200
    ensures r == "" <==> processed == ""
  {
    var d := Digits(assetId);
    var line := FirstLine(source);
    assert OccursAt(processed, Slice(processed, 0, 1200), 0);
    if d != "" && Hit(processed, ContractPattern(d)) then
      ExcerptAround(processed, ContractPattern(d), 800).value
    else if Hit(processed, assetId) then
      ExcerptAround(processed, assetId, 800).value
    else if line != "" && Hit(processed, Slice(line, 0, 80)) then
      ExcerptAround(processed, Slice(line, 0, 80), 800).value
    else
      Slice(processed, 0, 1200)
  }

  lemma FirstHitCons(text: string, a: string, rest: seq<string>)
    ensures FirstHit(text, [a] + rest)
            == if Hit(text, a) then Some(ExcerptAround(text, a, 800).value) else FirstHit(text, rest)
  {
    assert ([a] + rest)[0] == a && ([a] + rest)[1..] == rest;
  }

  /** The heuristics take the excerpt of the first candidate pattern that
      hits, and the first 1200 characters when none does. */
  lemma FindBestIsFirstHit(processed: string, assetId: string, source: string)
    ensures FirstHit(processed, Candidates(assetId, source)).Some? ==>
              FindBestExcerpt(processed, assetId, source) == FirstHit(processed, Candidates(assetId, source)).value
    ensures FirstHit(processed, Candidates(assetId, source)).None? ==>
              FindBestExcerpt(processed, assetId, source) == Slice(processed, 0, 1200)
  {
    var d := Digits(assetId);
    var line := FirstLine(source);
    var tail := if line != "" then [Slice(line, 0, 80)] else [];
    var cs := Candidates(assetId, source);
    FirstHitCons(processed, assetId, tail);
    if line != "" {
      FirstHitCons(processed, Slice(line, 0, 80), []);
    }
    if d != "" {
      assert cs == [ContractPattern(d)] + ([assetId] + tail);
      FirstHitCons(processed, ContractPattern(d), [assetId] + tail);
    } else {
      assert cs == [assetId] + tail;
    }
  }

  /** An asset id with digits is first looked up by its contract heading:
      when that heading occurs, case aside, the excerpt is taken around it. */
  lemma ContractHeadingPreferred(processed: string, assetId: string, source: string)
    requires Digits(assetId) != "" && processed != ""
    requires Contains(Lower(processed), Lower("Contract #" + ZeroPad(Digits(assetId), 3)))
    ensures FindBestExcerpt(processed, assetId, source)
            == ExcerptAround(processed, "Contract #" + ZeroPad(Digits(assetId), 3), 800).value
  {
    assert Hit(processed, ContractPattern(Digits(assetId)));
  }

  /** When nothing is found, the first 1200 characters are used. */
  lemma NothingFoundGivesHead(processed: string, assetId: string, source: string)
    requires forall i :: 0 <= i < |Candidates(assetId, source)| ==>
               !Contains(Lower(processed), Lower(Candidates(assetId, source)[i]))
    ensures FindBestExcerpt(processed, assetId, source) == Slice(processed, 0, 1200)
  {
    FindBestIsFirstHit(processed, assetId, source);
  }
}
