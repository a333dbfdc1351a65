/** The excerpt finder shared by `find_excerpt`
    (scripts/generate_milestone_links.py) and `short_excerpt`
    (scripts/generate_final_report.py): the two functions are the same loop
    over search terms and differ only in the context width. */
module Excerpts {
  import opened Wrappers
  import opened Strings

  /** Term `t` is tried and found: it is not empty and occurs in `text`. */
  predicate Found(text: string, t: string) {
    t != "" && Contains(text, t)
  }

  /** The index of the first term, from `k` on, that is tried and found. */
  function FirstFoundFrom(text: string, terms: seq<string>, k: nat): (r: Option<nat>)
    requires k <= |terms|
    ensures r.None? <==> forall j :: k <= j < |terms| ==> !Found(text, terms[j])
    ensures r.Some? ==> k <= r.value < |terms| && Found(text, terms[r.value])
                        && forall j :: k <= j < r.value ==> !Found(text, terms[j])
    decreases |terms| - k
  {
    if k == |terms| then None
    else if Found(text, terms[k]) then Some(k)
    else FirstFoundFrom(text, terms, k + 1)
  }

  /** The index of the first term in list order that is tried and found;
      empty terms are skipped. */
  function FirstFound(text: string, terms: seq<string>): (r: Option<nat>)
    ensures r.None? <==> forall j :: 0 <= j < |terms| ==> !Found(text, terms[j])
    ensures r.Some? ==> r.value < |terms| && Found(text, terms[r.value])
                        && forall j :: 0 <= j < r.value ==> !Found(text, terms[j])
  {
    FirstFoundFrom(text, terms, 0)
  }

  /** `text[max(0, i - context):min(len(text), i + len + context)]`: the
      slice around the `len` characters at `i`, clamped to the text. */
  function Window(text: string, i: nat, len: nat, context: nat): (r: string)
    requires i + len <= |text|
    ensures |r| <= len + 2 * context
    ensures Contains(text, r)
    ensures Contains(r, text[i..i + len])
    ensures var before := if i < context then i else context;
            var after := if i + len + context <= |text| then context else |text| - i - len;
            |r| == before + len + after && OccursAt(text, r, i - before)
  {
    var start := if i >= context then i - context else 0;
    var end := if i + len + context <= |text| then i + len + context else |text|;
    var r := text[start..end];
    assert OccursAt(text, r, start);
    var m := text[i..i + len];
    var off := i - start;
    assert off + len <= |r|;
    assert forall k :: 0 <= k < len ==> r[off..off + len][k] == m[k];
    assert OccursAt(r, m, off);
    r
  }

  /** The loop body of `find_excerpt` and `short_excerpt`: the stripped
      window around the first occurrence of the first term that is found,
      or `None` when no term is. */
  function TermExcerpt(text: string, terms: seq<string>, context: nat): (r: Option<string>)
    ensures r.None? <==> forall j :: 0 <= j < |terms| ==> !Found(text, terms[j])
    ensures r.Some? ==>
              var k := FirstFound(text, terms).value;
              var i := Find(text, terms[k]);
              && 0 <= i
              && r.value == Strip(Window(text, i, |terms[k]|, context))
              && Contains(text, r.value)
              && |r.value| <= |terms[k]| + 2 * context
  {
    match FirstFound(text, terms)
    case None => None
    case Some(k) =>
      var t := terms[k];
      var i := Find(text, t);
      var w := Window(text, i, |t|, context);
      StripIsSubstring(w);
      ContainsTransitive(text, w, Strip(w));
      Some(Strip(w))
  }

  /** A term that is empty or absent is skipped: putting it in front of the
      list changes nothing. */
  lemma SkippedTermChangesNothing(text: string, t: string, terms: seq<string>, context: nat)
    requires !Found(text, t)
    ensures TermExcerpt(text, [t] + terms, context) == TermExcerpt(text, terms, context)
  {
    var ts := [t] + terms;
    assert forall j :: 1 <= j < |ts| ==> ts[j] == terms[j - 1];
    var a := FirstFound(text, ts);
    var b := FirstFound(text, terms);
    if b.Some? {
      assert Found(text, ts[b.value + 1]);
      assert a.Some?;
      assert a.value == b.value + 1;
    } else {
      assert a.None?;
    }
  }

  /** The first term wins when it is found, whatever follows it. */
  lemma FirstTermWins(text: string, t: string, terms: seq<string>, context: nat)
    requires Found(text, t)
    ensures TermExcerpt(text, [t] + terms, context) == Some(Strip(Window(text, Find(text, t), |t|, context)))
  {
  }
}
