/** The per-entry derivations of `build_mappings` in
    scripts/generate_milestone_links.py: which index a mapping comes from,
    the relative source file, the expected PDF path, the search terms and
    the excerpt search. Reading files, hashing and stat calls are left out. */
module MilestoneLinks {
  import opened Wrappers
  import opened Strings
  import opened Paths
  import Excerpts

  /** `find_excerpt(big_text, terms)`, whose context is 120 characters. */
  function FindExcerpt(text: string, terms: seq<string>): (r: Option<string>)
    ensures r.None? <==> forall j :: 0 <= j < |terms| ==> !Excerpts.Found(text, terms[j])
    ensures r.Some? ==> Contains(text, r.value)
    ensures r.Some? ==> exists j :: 0 <= j < |terms| && Excerpts.Found(text, terms[j])
                                    && |r.value| <= |terms[j]| + 240
  {
    Excerpts.TermExcerpt(text, terms, 120)
  }

  /** The fields of an index entry the mapping reads; `None` is a missing
      key or a JSON null. */
  datatype IndexEntry = IndexEntry(
    file: Option<string>,
    filePath: Option<string>,
    title: Option<string>,
    name: Option<string>)

  /** Python truthiness of an optional string: present and not empty. */
  predicate Truthy(o: Option<string>) {
    o.Some? && o.value != ""
  }

  /** `a or b or ''` over optional strings. */
  function FirstTruthy(a: Option<string>, b: Option<string>): (r: string)
    ensures r != "" <==> Truthy(a) || Truthy(b)
    ensures Truthy(a) ==> r == a.value
    ensures !Truthy(a) && Truthy(b) ==> r == b.value
  {
    if Truthy(a) then a.value else if Truthy(b) then b.value else ""
  }

  /** `meta.get('file') or meta.get('file_path') or ''`. */
  function FileRel(e: IndexEntry): (r: string)
    ensures r != "" <==> Truthy(e.file) || Truthy(e.filePath)
    ensures Truthy(e.file) ==> r == e.file.value
    ensures !Truthy(e.file) && Truthy(e.filePath) ==> r == e.filePath.value
  {
    FirstTruthy(e.file, e.filePath)
  }

  /** `[key, basename, meta.get('title') or meta.get('name') or '']`. */
  function Terms(key: string, e: IndexEntry): (r: seq<string>)
    ensures |r| == 3 && r[0] == key
    ensures r[1] == Name(Parse(FileRel(e)))
    ensures r[2] != "" <==> Truthy(e.title) || Truthy(e.name)
  {
    [key, Name(Parse(FileRel(e))), FirstTruthy(e.title, e.name)]
  }

  /** `repo_root / <dir> / 'contracts_index.json'`. */
  function IndexPath(root: PurePath, dir: string): (r: PurePath)
    requires Valid(root) && IsComponent(dir)
    ensures Valid(r) && |r.parts| >= 2
    ensures r.parts == root.parts + [dir, "contracts_index.json"]
  {
    JoinPath(root, PurePath(false, [dir, "contracts_index.json"]))
  }

  /** `source_name` as the code computes it: `'data'` whenever the text of
      the index path contains `data` anywhere, otherwise `'Dataset'`. */
  function SourceNameAsWritten(idxPath: PurePath): (r: string)
    ensures r == "data" <==> Contains(Render(idxPath), "data")
    ensures r == "data" || r == "Dataset"
  {
    if Contains(Render(idxPath), "data") then "data" else "Dataset"
  }

  /** `source_name` as intended: the directory that holds the index. */
  function SourceName(idxPath: PurePath): (r: string)
    requires |idxPath.parts| >= 2
    ensures r == idxPath.parts[|idxPath.parts| - 2]
  {
    idxPath.parts[|idxPath.parts| - 2]
  }

  /** The intended labelling names each index after its own directory,
      wherever the repository lies. */
  lemma SourceNameNamesDirectory(root: PurePath, dir: string)
    requires Valid(root) && IsComponent(dir)
    ensures SourceName(IndexPath(root, dir)) == dir
  {
  }

  /** As written, the `data` index is always labelled `data`. */
  lemma AsWrittenLabelsDataIndex(root: PurePath)
    requires Valid(root)
    ensures SourceNameAsWritten(IndexPath(root, "data")) == "data"
  {
    var p := IndexPath(root, "data");
    var J := Join("/", p.parts);
    assert p.parts[|root.parts|] == "data";
    JoinContainsPart("/", p.parts, |root.parts|);
    if p.absolute {
      assert Render(p) == "/" + J;
      assert Render(p)[1..|Render(p)|] == J;
      ContainsSlice(Render(p), 1, |Render(p)|, "data");
    }
  }

  /** As written, a repository root whose path contains `data` (here the
      relative root `mydata`) makes the `Dataset` index be labelled `data`,
      so its source and PDF paths point into the wrong tree. */
  lemma AsWrittenMislabelsDatasetIndex()
    ensures SourceNameAsWritten(IndexPath(PurePath(false, ["mydata"]), "Dataset")) == "data"
    ensures SourceName(IndexPath(PurePath(false, ["mydata"]), "Dataset")) == "Dataset"
  {
    var p := IndexPath(PurePath(false, ["mydata"]), "Dataset");
    assert p.parts == ["mydata", "Dataset", "contracts_index.json"];
    JoinContainsPart("/", p.parts, 0);
    var J := Join("/", p.parts);
    assert OccursAt("mydata", "data", 2);
    ContainsTransitive(J, "mydata", "data");
  }

  /** `str(Path(source_name) / file_rel)`. */
  function SourceTxt(sourceName: string, fileRel: string): (r: string)
    requires IsComponent(sourceName)
    ensures !Parse(fileRel).absolute && Parse(fileRel).parts != [] ==>
              r == sourceName + "/" + Join("/", Parse(fileRel).parts)
    ensures Parse(fileRel).parts == [] && !Parse(fileRel).absolute ==> r == sourceName
  {
    ParseComponent(sourceName);
    var p := JoinPath(Parse(sourceName), Parse(fileRel));
    assert !Parse(fileRel).absolute ==> p.parts == [sourceName] + Parse(fileRel).parts;
    assert !Parse(fileRel).absolute ==> p.parts[1..] == Parse(fileRel).parts;
    Render(p)
  }

  lemma PdfOutputIsComponent()
    ensures IsComponent("pdf_output")
    ensures "pdf_output" + "/" == "pdf_output/"
  {
  }

  /** `str(Path(a) / b / q)` for single components `a` and `b`. */
  lemma RenderUnder(a: string, b: string, q: PurePath)
    requires IsComponent(a) && IsComponent(b) && Valid(q)
    ensures !q.absolute && q.parts != [] ==>
              Render(JoinPath(JoinPath(Parse(a), Parse(b)), q)) == a + "/" + b + "/" + Join("/", q.parts)
    ensures q.absolute ==> Render(JoinPath(JoinPath(Parse(a), Parse(b)), q)) == Render(q)
  {
    ParseComponent(a);
    ParseComponent(b);
    var pa, pb := PurePath(false, [a]), PurePath(false, [b]);
    RenderJoin(pa, pb);
    RenderJoin(JoinPath(pa, pb), q);
  }

  /** `str(Path('pdf_output') / source_name / Path(file_rel).with_suffix('.pdf'))`.
      A `file_rel` with an empty name, such as the `''` fallback, makes
      `with_suffix` raise ValueError. */
  function PdfPath(sourceName: string, fileRel: string): (r: Result<string, string>)
    requires IsComponent(sourceName)
    ensures r.Err? <==> Parse(fileRel).parts == []
    ensures r.Ok? && !Parse(fileRel).absolute ==>
              r.value == "pdf_output/" + sourceName + "/" + Join("/", WithSuffix(Parse(fileRel), ".pdf").value.parts)
    ensures r.Ok? && Parse(fileRel).absolute ==>
              r.value == Render(WithSuffix(Parse(fileRel), ".pdf").value)
  {
    var rel := Parse(fileRel);
    assert SimpleSuffix(".pdf");
    var w := WithSuffix(rel, ".pdf");
    if w.Err? then Err(w.error)
    else
      PdfOutputIsComponent();
      RenderUnder("pdf_output", sourceName, w.value);
      Ok(Render(JoinPath(JoinPath(Parse("pdf_output"), Parse(sourceName)), w.value)))
  }

  /** An entry with neither `file` nor `file_path` aborts the mapping: the
      empty fallback has no name to change the suffix of. */
  lemma MissingFileAborts(sourceName: string, e: IndexEntry)
    requires IsComponent(sourceName) && !Truthy(e.file) && !Truthy(e.filePath)
    ensures PdfPath(sourceName, FileRel(e)).Err?
  {
    ParseEmpty();
  }

  lemma ContractsLiterals()
    ensures IsComponent("contracts") && '/' !in ".txt"
    ensures "contracts" + "/" == "contracts/"
    ensures "/" + "contracts/" == "/contracts/"
  {
  }

  lemma ContractRelParses(stem: string)
    requires stem != [] && '/' !in stem
    ensures IsComponent(stem + ".txt")
    ensures Parse("contracts/" + stem + ".txt") == PurePath(false, ["contracts", stem + ".txt"])
  {
    ContractsLiterals();
    var name := stem + ".txt";
    assert IsComponent(name) by {
      assert name[|name| - 1] == 't';
    }
    var parts := ["contracts", name];
    assert "contracts/" + name == Join("/", parts);
    assert "contracts/" + stem + ".txt" == "contracts/" + name;
    SplitJoinChar(parts, '/');
    ComponentsOfValid(parts);
  }

  lemma ContractPdfParts(stem: string)
    requires stem != [] && IsComponent(stem + ".txt")
    ensures WithSuffix(PurePath(false, ["contracts", stem + ".txt"]), ".pdf")
            == Ok(PurePath(false, ["contracts", stem + ".pdf"]))
  {
    ContractsLiterals();
    var rel := PurePath(false, ["contracts", stem + ".txt"]);
    assert SimpleSuffix(".txt");
    SuffixOfStemPlus(stem, ".txt");
    assert rel.parts[..1] == ["contracts"];
    assert SimpleSuffix(".pdf");
    var w := WithSuffix(rel, ".pdf");
    assert w == Ok(PurePath(false, rel.parts[..1] + [Stem(stem + ".txt") + ".pdf"]));
    assert ["contracts"] + [stem + ".pdf"] == ["contracts", stem + ".pdf"];
  }

  /** A relative `contracts/<stem>.txt` maps to `pdf_output/<source>/contracts/<stem>.pdf`. */
  lemma PdfPathOfContract(sourceName: string, stem: string)
    requires IsComponent(sourceName) && stem != [] && '/' !in stem
    ensures PdfPath(sourceName, "contracts/" + stem + ".txt")
            == Ok("pdf_output/" + sourceName + "/contracts/" + stem + ".pdf")
  {
    ContractsLiterals();
    ContractRelParses(stem);
    ContractPdfParts(stem);
    var y := stem + ".pdf";
    assert Join("/", ["contracts", y]) == "contracts/" + y;
    var x := "pdf_output/" + sourceName;
    var r := PdfPath(sourceName, "contracts/" + stem + ".txt");
    assert r.Ok?;
    assert r.value == x + "/" + Join("/", ["contracts", y]);
    ConcatAssoc(x + "/", "contracts/", y);
    ConcatAssoc(x, "/", "contracts/");
    ConcatAssoc(x + "/contracts/", stem, ".pdf");
  }

  lemma ConcatAssoc(a: string, b: string, c: string)
    ensures a + (b + c) == (a + b) + c
  {
  }
}
