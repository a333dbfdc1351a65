/** The interactive menu of Regulatory.py/regulatory.py (`main`): the
    relevance report of option 3, the validated apply of option 4, and the
    state each option changes. Console input arrives as already-read
    strings; printing is left out. */
module Menu {
  import opened Wrappers
  import opened Strings
  import opened Regulatory
  import Scheduler

  /** `next((x for x in regs if x["id"] == rid), None)`: the first record
      with that id. */
  function FindRegulation(regs: seq<Regulation>, rid: string): (r: Option<Regulation>)
    ensures r.None? <==> forall i :: 0 <= i < |regs| ==> regs[i].id != rid
    ensures r.Some? ==> exists i :: 0 <= i < |regs| && regs[i] == r.value
                                    && forall j :: 0 <= j < i ==> regs[j].id != rid
    ensures r.Some? ==> r.value.id == rid
    decreases |regs|
  {
    if regs == [] then None
    else if regs[0].id == rid then Some(regs[0])
    else
      var r := FindRegulation(regs[1..], rid);
      if r.Some? then
        var i :| 0 <= i < |regs[1..]| && regs[1..][i] == r.value
                 && forall j :: 0 <= j < i ==> regs[1..][j].id != rid;
        assert regs[i + 1] == r.value;
        assert forall j :: 1 <= j < i + 1 ==> regs[j].id == regs[1..][j - 1].id;
        r
      else
        assert forall i :: 1 <= i < |regs| ==> regs[i] == regs[1..][i - 1];
        r
  }

  datatype ApplyOutcome =
    | InvalidRegulation
    | InvalidContract
    | Attempted(result: ApplyResult)

  /** Option 4: the regulation id is read and validated first; only then is
      the contract id read and checked against the registry; only a valid
      pair reaches `apply_regulation`. Both ids are stripped of surrounding
      whitespace. */
  function MenuApply(regs: seq<Regulation>, s: Store, rawRid: string, rawCid: string, stamp: string): (r: ApplyOutcome)
    ensures r.InvalidRegulation? <==> forall i :: 0 <= i < |regs| ==> regs[i].id != Strip(rawRid)
    ensures r.InvalidContract? <==>
              (exists i :: 0 <= i < |regs| && regs[i].id == Strip(rawRid)) && Strip(rawCid) !in s.index
    ensures r.Attempted? ==>
              var reg := FindRegulation(regs, Strip(rawRid)).value;
              && reg.id == Strip(rawRid)
              && Strip(rawCid) in s.index
              && r.result == ApplyRegulation(reg, Strip(rawCid), s, stamp)
  {
    var rid := Strip(rawRid);
    match FindRegulation(regs, rid)
    case None => InvalidRegulation
    case Some(reg) =>
      var cid := Strip(rawCid);
      if cid !in s.index then InvalidContract
      else Attempted(ApplyRegulation(reg, cid, s, stamp))
  }

  /** One line of the option 3 report for one regulation. */
  datatype Verdict =
    | Influence(rid: string, score: int, matches: seq<string>)
    | NoInfluence(rid: string)

  /** The option 3 report for one contract: one verdict per regulation, in
      store order; `text` is the lower-cased contract text. */
  function ContractReport(regs: seq<Regulation>, meta: ContractMeta, text: string): (r: seq<Verdict>)
    ensures |r| == |regs|
    ensures forall i :: 0 <= i < |regs| ==> r[i] == RegulationVerdict(regs[i], meta, text)
    ensures forall i :: 0 <= i < |regs| ==> r[i].rid == regs[i].id
    ensures forall i :: 0 <= i < |regs| ==>
              (r[i].NoInfluence? <==> MatchedKeywords(regs[i].keywords, text) == [] && !JurisdictionApplies(regs[i], meta))
    ensures forall i :: 0 <= i < |regs| && r[i].Influence? ==>
              r[i].score > 0 && r[i] == Influence(regs[i].id, Relevance(regs[i], meta, text).score, Relevance(regs[i], meta, text).matches)
    decreases |regs|
  {
    if regs == [] then []
    else
      var rest := ContractReport(regs[1..], meta, text);
      var r := [RegulationVerdict(regs[0], meta, text)] + rest;
      forall i | 0 <= i < |regs|
        ensures r[i] == RegulationVerdict(regs[i], meta, text)
      {
        if i > 0 {
          assert r[i] == rest[i - 1] && regs[i] == regs[1..][i - 1];
        }
      }
      r
  }

  /** The report line of one regulation: its score and matches when the
      score is positive, "no influence" otherwise. */
  function RegulationVerdict(reg: Regulation, meta: ContractMeta, text: string): (v: Verdict)
    ensures v.rid == reg.id
    ensures v.NoInfluence? <==> MatchedKeywords(reg.keywords, text) == [] && !JurisdictionApplies(reg, meta)
    ensures v.Influence? ==>
              v.score > 0 && v == Influence(reg.id, Relevance(reg, meta, text).score, Relevance(reg, meta, text).matches)
  {
    var a := Relevance(reg, meta, text);
    if a.score > 0 then Influence(reg.id, a.score, a.matches) else NoInfluence(reg.id)
  }

  /** The whole tracker: regulation store, contract store and poller. */
  datatype Tracker = Tracker(regs: seq<Regulation>, store: Store, poller: Scheduler.Poller)

  /** The menu choices after `strip()`; `Other` is any unrecognised input.
      The inputs option 4 reads and the values the clock and the random
      generator supply travel with the command. */
  datatype Command =
    | ViewRegulations
    | ViewContracts
    | Analyse
    | ApplyCommand(rawRid: string, rawCid: string, stamp: string)
    | FetchCommand(suffix: string)
    | ToggleCommand
    | ExitCommand
    | Other

  /** The tracker state after one menu choice. A failed apply (unknown id or
      missing text) leaves it unchanged; the exception a missing text raises
      is not modelled beyond that. Option 0 also ends the menu loop; what a
      caller does with the tracker after `ExitCommand` is not modelled. */
  function Step(t: Tracker, c: Command): (r: Tracker)
    ensures c.ViewRegulations? || c.ViewContracts? || c.Analyse? || c.Other? ==> r == t
    ensures r.regs != t.regs ==> c.FetchCommand?
    ensures r.store != t.store ==> c.ApplyCommand?
    ensures r.poller != t.poller ==> c.ToggleCommand? || c.ExitCommand?
    ensures c.FetchCommand? ==> r.regs == FetchMockRegulation(t.regs, c.suffix)
    ensures c.ApplyCommand? && r.store != t.store ==>
              MenuApply(t.regs, t.store, c.rawRid, c.rawCid, c.stamp) == Attempted(Amended(r.store))
    ensures c.ExitCommand? ==> r.poller.stopSet
    ensures c.ToggleCommand? ==> r.poller == Scheduler.Toggle(t.poller)
    ensures c.ExitCommand? ==> r.poller == Scheduler.Exit(t.poller)
    ensures c.ApplyCommand? ==>
              var o := MenuApply(t.regs, t.store, c.rawRid, c.rawCid, c.stamp);
              if o.Attempted? && o.result.Amended? then r == t.(store := o.result.store) else r == t
  {
    match c
    case ApplyCommand(rawRid, rawCid, stamp) =>
      (match MenuApply(t.regs, t.store, rawRid, rawCid, stamp)
       case Attempted(Amended(s')) => t.(store := s')
       case _ => t)
    case FetchCommand(suffix) => t.(regs := FetchMockRegulation(t.regs, suffix))
    case ToggleCommand => t.(poller := Scheduler.Toggle(t.poller))
    case ExitCommand => t.(poller := Scheduler.Exit(t.poller))
    case _ => t
  }

  /** Unknown ids never reach the applier: the contract store is untouched. */
  lemma InvalidIdsChangeNothing(t: Tracker, rawRid: string, rawCid: string, stamp: string)
    requires (forall i :: 0 <= i < |t.regs| ==> t.regs[i].id != Strip(rawRid)) || Strip(rawCid) !in t.store.index
    ensures Step(t, ApplyCommand(rawRid, rawCid, stamp)) == t
  {
  }

  /** Entering the same valid pair twice amends the contract once: the second
      attempt finds the regulation already applied. */
  lemma RepeatedApplyAmendsOnce(t: Tracker, rawRid: string, rawCid: string, stamp1: string, stamp2: string)
    requires Step(t, ApplyCommand(rawRid, rawCid, stamp1)).store != t.store
    ensures var t1 := Step(t, ApplyCommand(rawRid, rawCid, stamp1));
            Step(t1, ApplyCommand(rawRid, rawCid, stamp2)) == t1
  {
    var t1 := Step(t, ApplyCommand(rawRid, rawCid, stamp1));
    var reg := FindRegulation(t.regs, Strip(rawRid)).value;
    var cid := Strip(rawCid);
    ApplyTwiceAmendsOnce(reg, cid, t.store, stamp1, stamp2);
  }
}
