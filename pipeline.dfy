/**
 * The main loop of generate.py (lines 228-263): records are deduplicated by their
 * cleaned content (the first occurrence wins, later ones are dropped before any
 * check), the cleaned title, author and content are moderated in that order up to
 * the first failure, and a surviving record keeps only the tags whose cleaned form
 * passes.
 */
module Pipeline {
  import opened Seqs
  import opened Text
  import opened Moderation

  /** One extracted prompt: the dict built by the fetchers. */
  datatype Prompt = Prompt(title: string, author: string, tags: seq<string>, content: string)

  /** The texts moderated for a record, in order (generate.py:238-242). */
  function Fields(p: Prompt): (r: seq<string>)
  {
    [CleanText(p.title), CleanText(p.author), CleanText(p.content)]
  }

  predicate PassesGate(p: Prompt, verdict: string -> bool)
  {
    CheckText(CleanText(p.title), verdict) && CheckText(CleanText(p.author), verdict)
    && CheckText(CleanText(p.content), verdict)
  }

  /** The texts handed to `check_text` by the loop over `checks`, which breaks at the first failure. */
  function GateChecks(texts: seq<string>, verdict: string -> bool): (r: seq<string>)
  {
    if texts == [] then []
    else [texts[0]] + (if CheckText(texts[0], verdict) then GateChecks(texts[1..], verdict) else [])
  }

  /**
   * The checks stop at the first failure: they are a non-empty prefix of the
   * texts, every text checked before the last one passed, and the last one
   * failed unless every text was checked and passed.
   */
  lemma {:induction false} GateChecksSpec(texts: seq<string>, verdict: string -> bool)
    requires texts != []
    ensures var c := GateChecks(texts, verdict);
      && 1 <= |c| <= |texts| && c == texts[..|c|]
      && (forall k :: 0 <= k < |c| - 1 ==> CheckText(c[k], verdict))
      && (AllFieldsPass(texts, verdict) <==> c == texts && CheckText(c[|c| - 1], verdict))
    decreases |texts|
  {
    if |texts| > 1 && CheckText(texts[0], verdict) {
      GateChecksSpec(texts[1..], verdict);
    }
  }

  predicate AllFieldsPass(texts: seq<string>, verdict: string -> bool)
  {
    forall k :: 0 <= k < |texts| ==> CheckText(texts[k], verdict)
  }

  lemma GateChecksStep(texts: seq<string>, i: nat, verdict: string -> bool, before: seq<string>)
    requires i < |texts|
    ensures before + GateChecks(texts[i..], verdict)
         == (before + [texts[i]]) + (if CheckText(texts[i], verdict) then GateChecks(texts[i + 1..], verdict) else [])
  {
    assert texts[i..][1..] == texts[i + 1..];
  }

  /**
   * The inner loop over `checks` (generate.py:244-249): `ok` is the record's
   * verdict and `checked` the texts moderated, up to the first failure.
   */
  method CheckFields(p: Prompt, verdict: string -> bool) returns (ok: bool, checked: seq<string>)
    ensures ok == PassesGate(p, verdict)
    ensures checked == GateChecks(Fields(p), verdict)
  {
    var checks := Fields(p);
    ok := true;
    checked := [];
    var i := 0;
    while i < |checks|
      invariant 0 <= i <= |checks|
      invariant ok && checked == checks[..i]
      invariant forall k :: 0 <= k < i ==> CheckText(checks[k], verdict)
      invariant GateChecks(checks, verdict) == checked + GateChecks(checks[i..], verdict)
    {
      var text := checks[i];
      GateChecksStep(checks, i, verdict, checked);
      checked := checked + [text];
      if !CheckText(text, verdict) {
        ok := false;
        break;
      }
      i := i + 1;
    }
    assert checks[0] == CleanText(p.title) && checks[1] == CleanText(p.author) && checks[2] == CleanText(p.content);
  }

  /** The tags whose cleaned form passes, in their original order and uncleaned (generate.py:254-261). */
  function FilterTags(tags: seq<string>, verdict: string -> bool): (r: seq<string>)
  {
    if tags == [] then []
    else
      var t := tags[|tags| - 1];
      FilterTags(tags[..|tags| - 1], verdict) + (if CheckText(CleanText(t), verdict) then [t] else [])
  }

  function CleanAll(tags: seq<string>): (r: seq<string>)
    ensures |r| == |tags| && forall k :: 0 <= k < |r| ==> r[k] == CleanText(tags[k])
  {
    if tags == [] then [] else CleanAll(tags[..|tags| - 1]) + [CleanText(tags[|tags| - 1])]
  }

  /** The tag filter keeps an order-preserving subsequence of the tags, each unchanged. */
  lemma {:induction false} FilterTagsSubsequence(tags: seq<string>, verdict: string -> bool)
    ensures IsSubsequence(FilterTags(tags, verdict), tags)
    decreases |tags|
  {
    if tags != [] {
      var init := tags[..|tags| - 1];
      var t := tags[|tags| - 1];
      FilterTagsSubsequence(init, verdict);
      FilterTagsMembers(init, verdict);
      var r := FilterTags(tags, verdict);
      if !CheckText(CleanText(t), verdict) {
        assert r == FilterTags(init, verdict);
        if r != [] {
          assert r[|r| - 1] in FilterTags(init, verdict);
          assert CheckText(CleanText(r[|r| - 1]), verdict);
        }
      } else {
        assert r[..|r| - 1] == FilterTags(init, verdict);
      }
    }
  }

  /** The tags kept are exactly those whose cleaned form passes. */
  lemma {:induction false} FilterTagsMembers(tags: seq<string>, verdict: string -> bool)
    ensures forall t :: t in FilterTags(tags, verdict) <==> t in tags && CheckText(CleanText(t), verdict)
    decreases |tags|
  {
    if tags != [] {
      var init := tags[..|tags| - 1];
      FilterTagsMembers(init, verdict);
      assert tags == init + [tags[|tags| - 1]];
    }
  }

  /**
   * The tag filter keeps every copy of a passing tag and no copy of a failing one:
   * each tag occurs in the result as often as in the input, or not at all.
   */
  lemma {:induction false} FilterTagsCopies(tags: seq<string>, verdict: string -> bool)
    ensures forall t ::
      multiset(FilterTags(tags, verdict))[t] == (if CheckText(CleanText(t), verdict) then multiset(tags)[t] else 0)
    decreases |tags|
  {
    if tags != [] {
      var init := tags[..|tags| - 1];
      FilterTagsCopies(init, verdict);
      assert tags == init + [tags[|tags| - 1]];
    }
  }

  /**
   * The tag loop (generate.py:254-261): every tag's cleaned form is moderated, in
   * order, and the tags that pass are kept as they were.
   */
  method FilterTagsLoop(tags: seq<string>, verdict: string -> bool) returns (kept: seq<string>, checked: seq<string>)
    ensures kept == FilterTags(tags, verdict)
    ensures checked == CleanAll(tags)
  {
    kept := [];
    checked := [];
    for i := 0 to |tags|
      invariant kept == FilterTags(tags[..i], verdict)
      invariant checked == CleanAll(tags[..i])
    {
      var tag := tags[i];
      var cleanTag := CleanText(tag);
      checked := checked + [cleanTag];
      if CheckText(cleanTag, verdict) {
        kept := kept + [tag];
      }
      assert tags[..i + 1][..i] == tags[..i];
    }
    assert tags[..|tags|] == tags;
  }

  /** A record as it is written out: its tags filtered, everything else as it was. */
  function Filtered(p: Prompt, verdict: string -> bool): (r: Prompt)
  {
    p.(tags := FilterTags(p.tags, verdict))
  }

  /** No earlier record has the same cleaned content. */
  predicate IsFirstOccurrence(ps: seq<Prompt>, j: nat)
    requires j < |ps|
  {
    forall i :: 0 <= i < j ==> CleanText(ps[i].content) != CleanText(ps[j].content)
  }

  /** Record `j` is written out: it is the first with its cleaned content, and it passes moderation. */
  predicate Admitted(ps: seq<Prompt>, j: nat, verdict: string -> bool)
    requires j < |ps|
  {
    IsFirstOccurrence(ps, j) && PassesGate(ps[j], verdict)
  }

  /** The cleaned contents of `ps`: the set `cleaned_prompts` after processing `ps`. */
  function SeenSet(ps: seq<Prompt>): (r: set<string>)
  {
    set j | 0 <= j < |ps| :: CleanText(ps[j].content)
  }

  /** `compliant_prompts` after processing `ps`. */
  function Output(ps: seq<Prompt>, verdict: string -> bool): (r: seq<Prompt>)
  {
    if ps == [] then []
    else
      var n := |ps| - 1;
      Output(ps[..n], verdict) + (if Admitted(ps, n, verdict) then [Filtered(ps[n], verdict)] else [])
  }

  /** The texts moderated while processing `ps`, in order. */
  function Checked(ps: seq<Prompt>, verdict: string -> bool): (r: seq<string>)
  {
    if ps == [] then []
    else
      var n := |ps| - 1;
      var p := ps[n];
      Checked(ps[..n], verdict)
      + (if !IsFirstOccurrence(ps, n) then []
         else GateChecks(Fields(p), verdict) + (if PassesGate(p, verdict) then CleanAll(p.tags) else []))
  }

  lemma ProcessStep(ps: seq<Prompt>, i: nat, verdict: string -> bool)
    requires i < |ps|
    ensures SeenSet(ps[..i + 1]) == SeenSet(ps[..i]) + {CleanText(ps[i].content)}
    ensures IsFirstOccurrence(ps[..i + 1], i) <==> CleanText(ps[i].content) !in SeenSet(ps[..i])
    ensures Output(ps[..i + 1], verdict) == Output(ps[..i], verdict)
      + (if IsFirstOccurrence(ps[..i + 1], i) && PassesGate(ps[i], verdict) then [Filtered(ps[i], verdict)] else [])
    ensures Checked(ps[..i + 1], verdict) == Checked(ps[..i], verdict)
      + (if !IsFirstOccurrence(ps[..i + 1], i) then []
         else GateChecks(Fields(ps[i]), verdict) + (if PassesGate(ps[i], verdict) then CleanAll(ps[i].tags) else []))
  {
    var done := ps[..i + 1];
    assert done[..i] == ps[..i];
    assert done[i] == ps[i];
    if CleanText(ps[i].content) in SeenSet(ps[..i]) {
      var j :| 0 <= j < i && CleanText(ps[..i][j].content) == CleanText(ps[i].content);
      assert done[j] == ps[..i][j];
    }
  }

  // One step of the main loop, one lemma per way a record can go.

  lemma DuplicateStep(ps: seq<Prompt>, i: nat, verdict: string -> bool)
    requires i < |ps| && CleanText(ps[i].content) in SeenSet(ps[..i])
    ensures SeenSet(ps[..i + 1]) == SeenSet(ps[..i])
    ensures Output(ps[..i + 1], verdict) == Output(ps[..i], verdict)
    ensures Checked(ps[..i + 1], verdict) == Checked(ps[..i], verdict)
  {
    ProcessStep(ps, i, verdict);
  }

  lemma RejectedStep(ps: seq<Prompt>, i: nat, verdict: string -> bool)
    requires i < |ps| && CleanText(ps[i].content) !in SeenSet(ps[..i]) && !PassesGate(ps[i], verdict)
    ensures SeenSet(ps[..i + 1]) == SeenSet(ps[..i]) + {CleanText(ps[i].content)}
    ensures Output(ps[..i + 1], verdict) == Output(ps[..i], verdict)
    ensures Checked(ps[..i + 1], verdict) == Checked(ps[..i], verdict) + GateChecks(Fields(ps[i]), verdict)
  {
    ProcessStep(ps, i, verdict);
    assert GateChecks(Fields(ps[i]), verdict) + [] == GateChecks(Fields(ps[i]), verdict);
  }

  lemma AdmittedStep(ps: seq<Prompt>, i: nat, verdict: string -> bool)
    requires i < |ps| && CleanText(ps[i].content) !in SeenSet(ps[..i]) && PassesGate(ps[i], verdict)
    ensures SeenSet(ps[..i + 1]) == SeenSet(ps[..i]) + {CleanText(ps[i].content)}
    ensures Output(ps[..i + 1], verdict) == Output(ps[..i], verdict) + [ps[i].(tags := FilterTags(ps[i].tags, verdict))]
    ensures Checked(ps[..i + 1], verdict)
         == Checked(ps[..i], verdict) + (GateChecks(Fields(ps[i]), verdict) + CleanAll(ps[i].tags))
  {
    ProcessStep(ps, i, verdict);
  }

  /**
   * The main loop (generate.py:228-263). `compliant` is the list written to the
   * output file; `checked` lists every text moderated, in order.
   */
  method Generate(prompts: seq<Prompt>, verdict: string -> bool) returns (compliant: seq<Prompt>, checked: seq<string>)
    ensures compliant == Output(prompts, verdict)
    ensures checked == Checked(prompts, verdict)
  {
    var cleanedPrompts: set<string> := {};
    compliant := [];
    checked := [];
    for i := 0 to |prompts|
      invariant cleanedPrompts == SeenSet(prompts[..i])
      invariant compliant == Output(prompts[..i], verdict)
      invariant checked == Checked(prompts[..i], verdict)
    {
      var prompt := prompts[i];
      var cleanContent := CleanText(prompt.content);
      if cleanContent in cleanedPrompts {
        DuplicateStep(prompts, i, verdict);
        continue;
      }
      cleanedPrompts := cleanedPrompts + {cleanContent};
      var isCompliant, gateChecked := CheckFields(prompt, verdict);
      if !isCompliant {
        RejectedStep(prompts, i, verdict);
        checked := checked + gateChecked;
        continue;
      }
      AdmittedStep(prompts, i, verdict);
      var compliantTags, tagsChecked := FilterTagsLoop(prompt.tags, verdict);
      checked := checked + (gateChecked + tagsChecked);
      compliant := compliant + [prompt.(tags := compliantTags)];
    }
    assert prompts[..|prompts|] == prompts;
  }

  /** The positions of the records written out, in order. */
  function Kept(ps: seq<Prompt>, verdict: string -> bool): (r: seq<nat>)
  {
    if ps == [] then []
    else
      var n := |ps| - 1;
      Kept(ps[..n], verdict) + (if Admitted(ps, n, verdict) then [n] else [])
  }

  lemma AdmittedPrefix(ps: seq<Prompt>, n: nat, j: nat, verdict: string -> bool)
    requires j < n <= |ps|
    ensures Admitted(ps[..n], j, verdict) == Admitted(ps, j, verdict)
  {
    assert forall i :: 0 <= i <= j ==> ps[..n][i] == ps[i];
  }

  /**
   * The positions kept are increasing, and a position is kept exactly when its
   * record is the first with its cleaned content and passes moderation.
   */
  lemma {:induction false} KeptSpec(ps: seq<Prompt>, verdict: string -> bool)
    ensures var kept := Kept(ps, verdict);
      && (forall k :: 0 <= k < |kept| ==> kept[k] < |ps|)
      && (forall k1, k2 :: 0 <= k1 < k2 < |kept| ==> kept[k1] < kept[k2])
      && (forall j :: 0 <= j < |ps| ==> (j in kept <==> Admitted(ps, j, verdict)))
    decreases |ps|
  {
    if ps != [] {
      var n := |ps| - 1;
      KeptSpec(ps[..n], verdict);
      var init := Kept(ps[..n], verdict);
      var kept := init + (if Admitted(ps, n, verdict) then [n] else []);
      assert Kept(ps, verdict) == kept;
      forall j | 0 <= j < |ps| ensures j in kept <==> Admitted(ps, j, verdict) {
        if j < n {
          AdmittedPrefix(ps, n, j, verdict);
          assert j in kept <==> j in init;
        }
      }
    }
  }

  /**
   * The output is the input's order-preserving subsequence of admitted records:
   * the `k`-th record written is record `Kept[k]` with its tags filtered.
   */
  lemma {:induction false} OutputSpec(ps: seq<Prompt>, verdict: string -> bool)
    ensures |Output(ps, verdict)| == |Kept(ps, verdict)|
    ensures forall k :: 0 <= k < |Kept(ps, verdict)| ==>
      Kept(ps, verdict)[k] < |ps| && Output(ps, verdict)[k] == Filtered(ps[Kept(ps, verdict)[k]], verdict)
    decreases |ps|
  {
    if ps != [] {
      var n := |ps| - 1;
      var init := ps[..n];
      OutputSpec(init, verdict);
      var out, kept := Output(init, verdict), Kept(init, verdict);
      forall k | 0 <= k < |kept| ensures Output(ps, verdict)[k] == Filtered(ps[kept[k]], verdict) {
        assert ps[kept[k]] == init[kept[k]];
      }
    }
  }

  /**
   * A record whose cleaned content was seen before is never written out, even
   * when the earlier record was rejected.
   */
  lemma DuplicateNeverWritten(ps: seq<Prompt>, i: nat, j: nat, verdict: string -> bool)
    requires i < j < |ps| && CleanText(ps[i].content) == CleanText(ps[j].content)
    ensures j !in Kept(ps, verdict)
  {
    KeptSpec(ps, verdict);
  }

  /** No two records written out have the same cleaned content. */
  lemma OutputContentsDistinct(ps: seq<Prompt>, verdict: string -> bool)
    ensures forall k1, k2 :: 0 <= k1 < k2 < |Output(ps, verdict)| ==>
      CleanText(Output(ps, verdict)[k1].content) != CleanText(Output(ps, verdict)[k2].content)
  {
    OutputSpec(ps, verdict);
    KeptSpec(ps, verdict);
    var out, kept := Output(ps, verdict), Kept(ps, verdict);
    forall k1, k2 | 0 <= k1 < k2 < |out| ensures CleanText(out[k1].content) != CleanText(out[k2].content) {
      assert kept[k2] in kept;
      assert IsFirstOccurrence(ps, kept[k2]);
    }
  }

  /**
   * Every record written out passed moderation of its cleaned title, author and
   * content; its title, author and content are those of the input record, and
   * its tags are the input tags whose cleaned form passes, in their order.
   */
  lemma OutputRecordsPass(ps: seq<Prompt>, verdict: string -> bool, k: nat)
    requires k < |Output(ps, verdict)|
    ensures var r := Output(ps, verdict)[k];
      && PassesGate(r, verdict)
      && (exists j :: 0 <= j < |ps| && IsFirstOccurrence(ps, j)
           && r.title == ps[j].title && r.author == ps[j].author && r.content == ps[j].content
           && IsSubsequence(r.tags, ps[j].tags))
      && (forall t :: t in r.tags ==> CheckText(CleanText(t), verdict))
  {
    OutputSpec(ps, verdict);
    KeptSpec(ps, verdict);
    var j := Kept(ps, verdict)[k];
    assert j in Kept(ps, verdict);
    FilterTagsSubsequence(ps[j].tags, verdict);
    FilterTagsMembers(ps[j].tags, verdict);
  }

  /** A record whose cleaned content was already seen changes nothing: no output, no moderation call. */
  lemma DuplicateSkipped(ps: seq<Prompt>, p: Prompt, verdict: string -> bool)
    requires CleanText(p.content) in SeenSet(ps)
    ensures Output(ps + [p], verdict) == Output(ps, verdict)
    ensures Checked(ps + [p], verdict) == Checked(ps, verdict)
  {
    var all := ps + [p];
    ProcessStep(all, |ps|, verdict);
    assert all[..|ps|] == ps && all[..|ps| + 1] == all;
  }
}
