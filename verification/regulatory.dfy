/** The regulatory compliance tracker engine of Regulatory.py/regulatory.py:
    regulation records, the contract registry (`contracts_index.json`) with
    its document store (the `contracts/` text files), the relevance scorer
    and the amendment applier. Files are modelled as in-memory maps from a
    relative handle to their content. */
module Regulatory {
  import opened Strings
  import Decimal
  import opened Sequences

  datatype Regulation = Regulation(
    id: string,
    title: string,
    jurisdiction: string,
    summary: string,
    keywords: seq<string>)

  /** One entry of the contract registry, keyed by contract id. */
  datatype ContractMeta = ContractMeta(
    name: string,
    jurisdiction: string,
    version: int,
    file: string,
    applied: seq<string>)

  type Registry = map<string, ContractMeta>

  /** Contract texts by handle (`contracts/<id>-v<n>.txt`). */
  type Documents = map<string, string>

  /** The registry together with the texts it points to. */
  datatype Store = Store(index: Registry, docs: Documents)

  /** A relevance score and the matches that produced it. */
  datatype Assessment = Assessment(score: int, matches: seq<string>)

  // ---------------------------------------------------------------------
  // Relevance scorer

  /** The keywords that occur verbatim in `text`, in declaration order. */
  function MatchedKeywords(keywords: seq<string>, text: string): (r: seq<string>)
    ensures IsSubsequence(r, keywords)
    ensures forall k :: k in r ==> Contains(text, k)
    ensures forall i :: 0 <= i < |keywords| && Contains(text, keywords[i]) ==> keywords[i] in r
    ensures forall k :: multiset(r)[k] == if Contains(text, k) then multiset(keywords)[k] else 0
    ensures |r| <= |keywords|
    decreases |keywords|
  {
    if keywords == [] then []
    else
      var rest := MatchedKeywords(keywords[1..], text);
      var r := if Contains(text, keywords[0]) then [keywords[0]] + rest else rest;
      FilterStep(keywords, rest, k => Contains(text, k));
      FilterMembers(r, keywords, k => Contains(text, k));
      assert forall i :: 0 <= i < |keywords| ==> keywords[i] in keywords;
      r
  }

  /** The keyword loop of `relevance`: each keyword found adds 2 to the score
      and is appended to the matches. */
  function KeywordScan(keywords: seq<string>, text: string, acc: Assessment): (r: Assessment)
    ensures r.matches == acc.matches + MatchedKeywords(keywords, text)
    ensures r.score == acc.score + 2 * |MatchedKeywords(keywords, text)|
    decreases |keywords|
  {
    if keywords == [] then acc
    else if Contains(text, keywords[0]) then
      var found := MatchedKeywords(keywords[1..], text);
      assert MatchedKeywords(keywords, text) == [keywords[0]] + found;
      assert acc.matches + [keywords[0]] + found == acc.matches + ([keywords[0]] + found);
      KeywordScan(keywords[1..], text, Assessment(acc.score + 2, acc.matches + [keywords[0]]))
    else
      assert MatchedKeywords(keywords, text) == MatchedKeywords(keywords[1..], text);
      KeywordScan(keywords[1..], text, acc)
  }

  /** The jurisdiction test of `relevance`: the regulation is global or from
      the contract's jurisdiction, compared case-insensitively. */
  predicate JurisdictionApplies(reg: Regulation, meta: ContractMeta) {
    Lower(reg.jurisdiction) in ["global", Lower(meta.jurisdiction)]
  }

  function JurisdictionToken(reg: Regulation): string {
    "jurisdiction:" + reg.jurisdiction
  }

  /** `relevance(reg, meta, text)`. `text` is the contract text as
      `read_contract` returns it, already lower-cased; keywords are matched
      as written. */
  function Relevance(reg: Regulation, meta: ContractMeta, text: string): (r: Assessment)
    ensures var found := MatchedKeywords(reg.keywords, text);
            r.matches == found + (if JurisdictionApplies(reg, meta) then [JurisdictionToken(reg)] else [])
    ensures var found := MatchedKeywords(reg.keywords, text);
            r.score == 2 * |found| + (if JurisdictionApplies(reg, meta) then 3 else 0)
    ensures r.score >= 0
    ensures r.score == 0 <==> r.matches == []
  {
    var scanned := KeywordScan(reg.keywords, text, Assessment(0, []));
    if JurisdictionApplies(reg, meta) then
      Assessment(scanned.score + 3, scanned.matches + [JurisdictionToken(reg)])
    else
      scanned
  }

  /** A worked case: an EU regulation with keywords `consent` and `logging`
      against an EU contract whose text mentions consent only scores
      2 + 3 = 5, with matches `consent` then the jurisdiction token. */
  lemma ScoringExample()
    ensures var reg := Regulation("REG-X", "T", "EU", "S", ["consent", "logging"]);
            var meta := ContractMeta("N", "EU", 1, "contracts/X-v1.txt", []);
            Relevance(reg, meta, "consent handled by customer.")
              == Assessment(5, ["consent", "jurisdiction:EU"])
  {
    var text := "consent handled by customer.";
    var reg := Regulation("REG-X", "T", "EU", "S", ["consent", "logging"]);
    var meta := ContractMeta("N", "EU", 1, "contracts/X-v1.txt", []);
    assert OccursAt(text, "consent", 0);
    assert 'g' !in text;
    MissingCharNotContained(text, "logging", 'g');
    assert reg.keywords[1..] == ["logging"];
    assert MatchedKeywords(["logging"], text) == [];
    assert MatchedKeywords(reg.keywords, text) == ["consent"];
    assert Lower("U") == "u";
    assert Lower("EU") == "eu";
    assert JurisdictionApplies(reg, meta);
    var r := Relevance(reg, meta, text);
    assert JurisdictionToken(reg) == "jurisdiction:EU";
    assert r.score == 5;
    assert r.matches == ["consent", "jurisdiction:EU"];
  }

  /** A worked case of "no influence": an Indian regulation whose keyword
      does not occur in the text of an EU contract scores 0 with no matches. */
  lemma NoInfluenceExample()
    ensures var reg := Regulation("REG-Y", "T", "IN", "S", ["localisation"]);
            var meta := ContractMeta("N", "EU", 1, "contracts/X-v1.txt", []);
            Relevance(reg, meta, "consent handled by customer.") == Assessment(0, [])
  {
    var text := "consent handled by customer.";
    var reg := Regulation("REG-Y", "T", "IN", "S", ["localisation"]);
    var meta := ContractMeta("N", "EU", 1, "contracts/X-v1.txt", []);
    assert 'i' !in text;
    MissingCharNotContained(text, "localisation", 'i');
    assert MatchedKeywords(reg.keywords, text) == [];
    assert Lower("N") == "n" && Lower("U") == "u";
    assert Lower("IN") == "in" && Lower("EU") == "eu";
    assert !JurisdictionApplies(reg, meta);
  }

  // ---------------------------------------------------------------------
  // Amendment applier

  /** The handle of version `version` of contract `cid`. */
  function VersionHandle(cid: string, version: int): string {
    "contracts/" + cid + "-v" + Decimal.IntToDecimal(version) + ".txt"
  }

  /** The amendment footer; `stamp` is the ISO timestamp the clock supplies. */
  function Footer(stamp: string, reg: Regulation): string {
    "\n\n--- Amendment on " + stamp + " ---\n"
    + "Applied Regulation: " + reg.title + "\n"
    + "Summary: " + reg.summary + "\n"
  }

  datatype ApplyResult =
    | Amended(store: Store)
    | AlreadyApplied
      /** `read_contract` cannot open the current text: the exception propagates. */
    | TextMissing(handle: string)

  /** `apply_regulation(reg, cid)`. The caller must pass a registered contract
      id: the code looks it up with `index[cid]`. */
  function ApplyRegulation(reg: Regulation, cid: string, s: Store, stamp: string): (r: ApplyResult)
    requires cid in s.index
    ensures r.AlreadyApplied? <==> reg.id in s.index[cid].applied
    ensures r.TextMissing? <==> reg.id !in s.index[cid].applied && s.index[cid].file !in s.docs
    ensures r.Amended? ==> r.store.index.Keys == s.index.Keys
    ensures r.Amended? ==> forall c :: c in s.index && c != cid ==> r.store.index[c] == s.index[c]
    ensures r.Amended? ==>
              var m := s.index[cid];
              var m' := r.store.index[cid];
              && m'.version == m.version + 1
              && m'.file == VersionHandle(cid, m.version + 1)
              && m'.applied == m.applied + [reg.id]
              && m'.name == m.name && m'.jurisdiction == m.jurisdiction
    ensures r.Amended? ==>
              var m := s.index[cid];
              var m' := r.store.index[cid];
              && r.store.docs.Keys == s.docs.Keys + {m'.file}
              && r.store.docs[m'.file] == Lower(s.docs[m.file]) + Footer(stamp, reg)
              && (forall h :: h in s.docs && h != m'.file ==> r.store.docs[h] == s.docs[h])
  {
    var meta := s.index[cid];
    if reg.id in meta.applied then AlreadyApplied
    else if meta.file !in s.docs then TextMissing(meta.file)
    else
      var text := Lower(s.docs[meta.file]);
      var newVersion := meta.version + 1;
      var newFile := VersionHandle(cid, newVersion);
      var docs := s.docs[newFile := text + Footer(stamp, reg)];
      var meta' := meta.(version := newVersion, file := newFile, applied := meta.applied + [reg.id]);
      Amended(Store(s.index[cid := meta'], docs))
  }

  /** How often `x` occurs in `s`. */
  function Count<T(==)>(x: T, s: seq<T>): nat
    decreases |s|
  {
    if s == [] then 0 else (if s[0] == x then 1 else 0) + Count(x, s[1..])
  }

  lemma {:induction false} CountAppend<T>(x: T, a: seq<T>, b: seq<T>)
    ensures Count(x, a + b) == Count(x, a) + Count(x, b)
    decreases |a|
  {
    if a == [] {
      assert a + b == b;
    } else {
      assert (a + b)[1..] == a[1..] + b;
      CountAppend(x, a[1..], b);
    }
  }

  lemma {:induction false} CountAbsent<T>(x: T, s: seq<T>)
    requires x !in s
    ensures Count(x, s) == 0
    decreases |s|
  {
    if s != [] {
      CountAbsent(x, s[1..]);
    }
  }

  /** Applying the same regulation twice amends once: the second call reports
      it as already applied, the version has gone up by exactly one and the
      regulation id is recorded exactly once. */
  lemma ApplyTwiceAmendsOnce(reg: Regulation, cid: string, s: Store, stamp1: string, stamp2: string)
    requires cid in s.index && reg.id !in s.index[cid].applied
    requires ApplyRegulation(reg, cid, s, stamp1).Amended?
    ensures var s1 := ApplyRegulation(reg, cid, s, stamp1).store;
            && cid in s1.index
            && ApplyRegulation(reg, cid, s1, stamp2).AlreadyApplied?
            && s1.index[cid].version == s.index[cid].version + 1
            && Count(reg.id, s1.index[cid].applied) == 1
  {
    var s1 := ApplyRegulation(reg, cid, s, stamp1).store;
    CountAbsent(reg.id, s.index[cid].applied);
    CountAppend(reg.id, s.index[cid].applied, [reg.id]);
  }

  predicate NoDuplicates<T(==)>(s: seq<T>) {
    forall i, j :: 0 <= i < j < |s| ==> s[i] != s[j]
  }

  /** The registry invariant: versions start at 1, the current file is the
      handle of the current version, every earlier version's text is kept,
      and a regulation is recorded as applied at most once. */
  ghost predicate ContractWellFormed(cid: string, m: ContractMeta, docs: Documents) {
    && m.version >= 1
    && m.file == VersionHandle(cid, m.version)
    && NoDuplicates(m.applied)
    && forall v :: 1 <= v <= m.version ==> VersionHandle(cid, v) in docs
  }

  ghost predicate WellFormed(s: Store) {
    forall c :: c in s.index ==> ContractWellFormed(c, s.index[c], s.docs)
  }

  /** Applying a regulation to a well-formed store never fails to find the
      text and keeps the store well-formed. */
  lemma ApplyPreservesWellFormed(reg: Regulation, cid: string, s: Store, stamp: string)
    requires WellFormed(s) && cid in s.index
    ensures !ApplyRegulation(reg, cid, s, stamp).TextMissing?
    ensures ApplyRegulation(reg, cid, s, stamp).Amended? ==>
              WellFormed(ApplyRegulation(reg, cid, s, stamp).store)
  {
    var r := ApplyRegulation(reg, cid, s, stamp);
    assert ContractWellFormed(cid, s.index[cid], s.docs);
    if r.Amended? {
      var s' := r.store;
      forall c | c in s'.index
        ensures ContractWellFormed(c, s'.index[c], s'.docs)
      {
        assert ContractWellFormed(c, s.index[c], s.docs);
        if c == cid {
          var m := s.index[cid];
          var m' := s'.index[cid];
          forall v | 1 <= v <= m'.version
            ensures VersionHandle(cid, v) in s'.docs
          {
            if v <= m.version {
              assert VersionHandle(cid, v) in s.docs;
            }
          }
        } else {
          var m := s.index[c];
          forall v | 1 <= v <= m.version
            ensures VersionHandle(c, v) in s'.docs
          {
            assert VersionHandle(c, v) in s.docs;
          }
        }
      }
    }
  }

  function Ids(regs: seq<Regulation>): seq<string>
    decreases |regs|
  {
    if regs == [] then [] else [regs[0].id] + Ids(regs[1..])
  }

  /** Menu option 4 issued once for each regulation of `regs` on the same
      contract, with the clock reading `stamps[i]` at the i-th call. */
  function ApplyAll(regs: seq<Regulation>, cid: string, s: Store, stamps: seq<string>): (r: Store)
    requires cid in s.index && |stamps| == |regs|
    ensures cid in r.index
    decreases |regs|
  {
    if regs == [] then s
    else
      var next := match ApplyRegulation(regs[0], cid, s, stamps[0])
        case Amended(t) => t
        case _ => s;
      ApplyAll(regs[1..], cid, next, stamps[1..])
  }

  /** One successful step of `ApplyAll` on a well-formed store: the
      lower-cased text of the new version extends the lower-cased old text. */
  lemma ApplyStep(reg: Regulation, cid: string, s: Store, stamp: string)
    requires WellFormed(s) && cid in s.index && reg.id !in s.index[cid].applied
    ensures ApplyRegulation(reg, cid, s, stamp).Amended?
    ensures var s1 := ApplyRegulation(reg, cid, s, stamp).store;
            && WellFormed(s1)
            && Lower(s.docs[s.index[cid].file]) <= Lower(s1.docs[s1.index[cid].file])
  {
    ApplyPreservesWellFormed(reg, cid, s, stamp);
    var s1 := ApplyRegulation(reg, cid, s, stamp).store;
    var text0 := s.docs[s.index[cid].file];
    LowerAppend(Lower(text0), Footer(stamp, reg));
    LowerIdempotent(text0);
    assert Lower(s1.docs[s1.index[cid].file]) == Lower(text0) + Lower(Footer(stamp, reg));
  }

  lemma IdsCons(applied: seq<string>, regs: seq<Regulation>)
    requires regs != []
    ensures applied + [regs[0].id] + Ids(regs[1..]) == applied + Ids(regs)
  {
    assert Ids(regs) == [regs[0].id] + Ids(regs[1..]);
  }

  /** No two regulations of `regs` share an id. */
  predicate DistinctIds(regs: seq<Regulation>) {
    forall i, j :: 0 <= i < j < |regs| ==> regs[i].id != regs[j].id
  }

  /** The side conditions of `MonotonicVersioning` pass from `regs` to its tail. */
  lemma DistinctTail(regs: seq<Regulation>, applied: seq<string>)
    requires regs != [] && DistinctIds(regs)
    requires forall i :: 0 <= i < |regs| ==> regs[i].id !in applied
    ensures DistinctIds(regs[1..])
    ensures forall i :: 0 <= i < |regs[1..]| ==> regs[1..][i].id !in applied + [regs[0].id]
  {
    forall i | 0 <= i < |regs[1..]|
      ensures regs[1..][i].id !in applied + [regs[0].id]
    {
      assert regs[1..][i] == regs[i + 1];
    }
    forall i, j | 0 <= i < j < |regs[1..]|
      ensures regs[1..][i].id != regs[1..][j].id
    {
      assert regs[1..][i] == regs[i + 1] && regs[1..][j] == regs[j + 1];
    }
  }

  /** Repeated applications to one contract leave every other contract alone. */
  lemma {:induction false} ApplyAllKeepsOthers(regs: seq<Regulation>, cid: string, s: Store, stamps: seq<string>)
    requires cid in s.index && |stamps| == |regs|
    ensures var r := ApplyAll(regs, cid, s, stamps);
            && r.index.Keys == s.index.Keys
            && (forall c :: c in s.index && c != cid ==> r.index[c] == s.index[c])
    decreases |regs|
  {
    if regs != [] {
      var next := match ApplyRegulation(regs[0], cid, s, stamps[0])
        case Amended(t) => t
        case _ => s;
      ApplyAllKeepsOthers(regs[1..], cid, next, stamps[1..]);
    }
  }

  /** Repeated applications of regulations not yet applied keep a
      well-formed store well-formed, and the lower-cased original text stays
      a prefix of every later version. */
  lemma {:induction false} ApplyAllKeepsHistory(regs: seq<Regulation>, cid: string, s: Store, stamps: seq<string>)
    requires WellFormed(s) && cid in s.index && |stamps| == |regs|
    requires DistinctIds(regs)
    requires forall i :: 0 <= i < |regs| ==> regs[i].id !in s.index[cid].applied
    ensures var r := ApplyAll(regs, cid, s, stamps);
            && WellFormed(r)
            && Lower(s.docs[s.index[cid].file]) <= Lower(r.docs[r.index[cid].file])
    decreases |regs|
  {
    if regs != [] {
      ApplyStep(regs[0], cid, s, stamps[0]);
      var s1 := ApplyRegulation(regs[0], cid, s, stamps[0]).store;
      var r := ApplyAll(regs[1..], cid, s1, stamps[1..]);
      assert ApplyAll(regs, cid, s, stamps) == r;
      DistinctTail(regs, s.index[cid].applied);
      ApplyAllKeepsHistory(regs[1..], cid, s1, stamps[1..]);
      PrefixTransitive(Lower(s.docs[s.index[cid].file]), Lower(s1.docs[s1.index[cid].file]), Lower(r.docs[r.index[cid].file]));
    }
  }

  /** Monotonic versioning: applying N pairwise distinct regulations not yet
      applied to a contract of a well-formed store raises its version by
      exactly N and records their ids, in order, after the earlier ones. */
  lemma {:induction false} MonotonicVersioning(regs: seq<Regulation>, cid: string, s: Store, stamps: seq<string>)
    requires WellFormed(s) && cid in s.index && |stamps| == |regs|
    requires DistinctIds(regs)
    requires forall i :: 0 <= i < |regs| ==> regs[i].id !in s.index[cid].applied
    ensures var r := ApplyAll(regs, cid, s, stamps);
            && r.index[cid].version == s.index[cid].version + |regs|
            && r.index[cid].applied == s.index[cid].applied + Ids(regs)
    decreases |regs|
  {
    if regs != [] {
      ApplyStep(regs[0], cid, s, stamps[0]);
      var s1 := ApplyRegulation(regs[0], cid, s, stamps[0]).store;
      var r := ApplyAll(regs[1..], cid, s1, stamps[1..]);
      assert ApplyAll(regs, cid, s, stamps) == r;
      DistinctTail(regs, s.index[cid].applied);
      MonotonicVersioning(regs[1..], cid, s1, stamps[1..]);
      IdsCons(s.index[cid].applied, regs);
    }
  }

  // ---------------------------------------------------------------------
  // Regulation store

  /** The record `fetch_mock_regulation` synthesises; `suffix` stands for
      `uuid4().hex[:6]`. */
  function MockRegulation(suffix: string): Regulation {
    Regulation(
      "REG-MOCK-" + suffix,
      "Global Privacy Profiling Disclosure",
      "GLOBAL",
      "Requires organisations to notify users of automated profiling.",
      ["profiling", "notice", "transparency"])
  }

  /** `fetch_mock_regulation`: appends one global record at the end of the
      regulation store and changes nothing else. */
  function FetchMockRegulation(regs: seq<Regulation>, suffix: string): (r: seq<Regulation>)
    ensures |r| == |regs| + 1
    ensures r[..|regs|] == regs
    ensures r[|regs|].jurisdiction == "GLOBAL"
    ensures "REG-MOCK-" <= r[|regs|].id && r[|regs|].id[9..] == suffix
  {
    regs + [MockRegulation(suffix)]
  }

  // ---------------------------------------------------------------------
  // Seed data (`init_sample_data`)

  const EuConsent := Regulation(
    "REG-EU-001", "GDPR Consent Logging", "EU",
    "Requires timestamp-based consent tracking.",
    ["consent", "personal data", "logging"])

  const InLocalisation := Regulation(
    "REG-IN-001", "India Data Localisation", "IN",
    "Requires sensitive personal data stored within India.",
    ["localisation", "cross-border", "personal data"])

  const SeedRegulations := [EuConsent, InLocalisation]

  const SeedStore := Store(
    map[
      "CT001" := ContractMeta("EU SaaS Service Agreement", "EU", 1, "contracts/CT001-v1.txt", []),
      "CT002" := ContractMeta("India Hosting Contract", "IN", 1, "contracts/CT002-v1.txt", [])
    ],
    map[
      "contracts/CT001-v1.txt" := "Processing of personal data is allowed. Consent handled by customer.",
      "contracts/CT002-v1.txt" := "Data stored in India. Cross-border transfer allowed with safeguards."
    ])

  /** The seed store satisfies the registry invariant. */
  lemma SeedWellFormed()
    ensures WellFormed(SeedStore)
  {
    assert Decimal.IntToDecimal(1) == "1";
    assert VersionHandle("CT001", 1) == "contracts/CT001-v1.txt";
    assert VersionHandle("CT002", 1) == "contracts/CT002-v1.txt";
  }
}
