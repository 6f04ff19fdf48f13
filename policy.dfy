/** The decision of polite_back/routes/comment.py, apart from its storage: given a
    post's policy mode and threshold, the classifier and the rewriter as oracles, and
    the submitted texts, which comment row `add_comment` writes and what `suggest`
    previews. Every oracle call is recorded, in order, so that which calls happen
    can be stated. */
module Policy {
  import opened Wrappers
  import opened Seqs
  import opened Model
  import opened Schemas
  import opened BertModel

  /** `predict(text, threshold=th)` as the engine sees it. */
  type ClassifyOracle = (string, real) -> Prediction

  /** `refine_text(text)`. */
  type Rewriter = string -> string

  datatype OracleCall = ClassifyCall(text: string, threshold: real) | RewriteCall(text: string)

  /** A submission's stored outcome together with the oracle calls made to reach it. */
  datatype Run = Run(outcome: Outcome, calls: seq<OracleCall>)

  /** A preview together with the oracle calls made to reach it. */
  datatype Preview = Preview(res: SuggestRes, calls: seq<OracleCall>)

  predicate IsRewrite(c: OracleCall) { c.RewriteCall? }
  predicate IsClassify(c: OracleCall) { c.ClassifyCall? }

  /** The provenance rules every stored outcome obeys. */
  predicate Consistent(o: Outcome) {
    && o.attemptsCount == 1
    && o.textOriginal.Some? && o.originalLogit.Some? && o.thresholdApplied.Some?
    && (o.wasEdited <==> o.finalSource == UserEdit)
    && (!o.submitSuccess <==> o.finalSource == Blocked)
    && (o.finalSource == Blocked ==> o.textFinal.None? && o.finalLogit.None?)
    && (o.finalSource != Blocked ==> o.textFinal.Some? && o.finalLogit.Some?)
    && (o.finalSource == Original || o.finalSource == NoFilterSource ==> o.textFinal == o.textOriginal)
    && (o.finalSource == UserEdit ==> o.textFinal == o.textUserEdit && o.finalLogit == o.editLogit)
    && (o.finalSource == Polite ==> o.textFinal == o.textGeneratedPolite)
  }

  /** The final sources a policy mode can produce. */
  predicate ModeAllows(mode: PolicyMode, source: FinalSource) {
    match mode
    case Block => source == Original || source == Blocked
    case NoFilter => source == NoFilterSource
    case PoliteOneEdit => source == Original || source == UserEdit || source == Polite
  }

  /** The decision table, one disjunct per row: mode, original over threshold, an edit
      given, the edit over threshold, and the resulting source. */
  predicate InTable(mode: PolicyMode, originalOver: bool, editGiven: bool, editOver: bool, source: FinalSource) {
    || (mode == Block && !originalOver && source == Original)
    || (mode == Block && originalOver && source == Blocked)
    || (mode == NoFilter && source == NoFilterSource)
    || (mode == PoliteOneEdit && !originalOver && source == Original)
    || (mode == PoliteOneEdit && originalOver && !editGiven && source == Polite)
    || (mode == PoliteOneEdit && originalOver && editGiven && !editOver && source == UserEdit)
    || (mode == PoliteOneEdit && originalOver && editGiven && editOver && source == Polite)
  }

  /** The table gives exactly one source for each combination of inputs. */
  lemma TableIsAFunction(mode: PolicyMode, originalOver: bool, editGiven: bool, editOver: bool, s1: FinalSource, s2: FinalSource)
    ensures exists s :: InTable(mode, originalOver, editGiven, editOver, s)
    ensures InTable(mode, originalOver, editGiven, editOver, s1) && InTable(mode, originalOver, editGiven, editOver, s2) ==> s1 == s2
  {
    match mode
    case Block =>
      assert InTable(mode, originalOver, editGiven, editOver, if originalOver then Blocked else Original);
    case NoFilter =>
      assert InTable(mode, originalOver, editGiven, editOver, NoFilterSource);
    case PoliteOneEdit =>
      assert InTable(mode, originalOver, editGiven, editOver,
                     if !originalOver then Original else if editGiven && !editOver then UserEdit else Polite);
  }

  /** `generated_polite_text or refine_text(text_original)`. */
  function PoliteText(rewrite: Rewriter, original: string, generated: Option<string>): string {
    if Given(generated) then generated.value else rewrite(original)
  }

  /** A submission that passes unchanged (`original` or `nofilter`). */
  function Passed(original: string, source: FinalSource, prob: real, th: real): Outcome {
    Outcome(Some(original), None, None, Some(original), source, false,
            Some(prob), None, Some(prob), Some(th), 1, true)
  }

  /** `add_comment`'s decision for a post with policy `mode` and threshold `th`. */
  function Decide(mode: PolicyMode, th: real, classify: ClassifyOracle, rewrite: Rewriter,
                  original: string, edit: Option<string>, generated: Option<string>): (run: Run)
    ensures Consistent(run.outcome)
    ensures run.outcome.textOriginal == Some(original) && run.outcome.thresholdApplied == Some(th)
    ensures run.outcome.originalLogit == Some(classify(original, th).prob)
    ensures ModeAllows(mode, run.outcome.finalSource)
    ensures 1 <= |run.calls| <= 4 && run.calls[0] == ClassifyCall(original, th)
    ensures forall i :: 0 <= i < |run.calls| && run.calls[i].ClassifyCall? ==> run.calls[i].threshold == th
  {
    var p := classify(original, th);
    var first := [ClassifyCall(original, th)];
    match mode
    case Block =>
      if p.over then
        Run(Outcome(Some(original), None, None, None, Blocked, false,
                    Some(p.prob), None, None, Some(th), 1, false), first)
      else
        Run(Passed(original, Original, p.prob, th), first)
    case NoFilter =>
      Run(Passed(original, NoFilterSource, p.prob, th), first)
    case PoliteOneEdit =>
      if !p.over then
        Run(Passed(original, Original, p.prob, th), first)
      else
        var politeText := PoliteText(rewrite, original, generated);
        var rewritten := first + (if Given(generated) then [] else [RewriteCall(original)]);
        if Given(edit) then
          var e := classify(edit.value, th);
          var scored := rewritten + [ClassifyCall(edit.value, th)];
          if !e.over then
            Run(Outcome(Some(original), Some(politeText), edit, edit, UserEdit, true,
                        Some(p.prob), Some(e.prob), Some(e.prob), Some(th), 1, true), scored)
          else
            var q := classify(politeText, th);
            Run(Outcome(Some(original), Some(politeText), edit, Some(politeText), Polite, false,
                        Some(p.prob), Some(e.prob), Some(q.prob), Some(th), 1, true),
                scored + [ClassifyCall(politeText, th)])
        else
          var q := classify(politeText, th);
          Run(Outcome(Some(original), Some(politeText), None, Some(politeText), Polite, false,
                      Some(p.prob), None, Some(q.prob), Some(th), 1, true),
              rewritten + [ClassifyCall(politeText, th)])
  }

  /** The stored source is the one the decision table gives. */
  lemma DecideFollowsTable(mode: PolicyMode, th: real, classify: ClassifyOracle, rewrite: Rewriter,
                           original: string, edit: Option<string>, generated: Option<string>)
    ensures InTable(mode, classify(original, th).over, Given(edit),
                    Given(edit) && classify(edit.value, th).over,
                    Decide(mode, th, classify, rewrite, original, edit, generated).outcome.finalSource)
  {
  }

  /** Block mode: an over-threshold text is still stored, but hidden and without final text;
      otherwise the original is stored with its own score. The rewriter is never called. */
  lemma BlockMode(th: real, classify: ClassifyOracle, rewrite: Rewriter,
                  original: string, edit: Option<string>, generated: Option<string>)
    ensures var run := Decide(Block, th, classify, rewrite, original, edit, generated);
      var p := classify(original, th);
      && run.calls == [ClassifyCall(original, th)]
      && (p.over ==> run.outcome.finalSource == Blocked && run.outcome.textFinal.None?
                     && !run.outcome.submitSuccess && run.outcome.finalLogit.None?)
      && (!p.over ==> run.outcome.finalSource == Original && run.outcome.textFinal == Some(original)
                      && run.outcome.submitSuccess && run.outcome.finalLogit == Some(p.prob))
  {
  }

  /** No-filter mode stores the original as `nofilter` whatever the classifier says. */
  lemma NoFilterMode(th: real, classify: ClassifyOracle, rewrite: Rewriter,
                     original: string, edit: Option<string>, generated: Option<string>)
    ensures var run := Decide(NoFilter, th, classify, rewrite, original, edit, generated);
      && run.calls == [ClassifyCall(original, th)]
      && run.outcome == Passed(original, NoFilterSource, classify(original, th).prob, th)
      && run.outcome.submitSuccess && run.outcome.textFinal == Some(original)
  {
  }

  /** Unless the post is polite_one_edit and the original is over threshold, the edit and the
      pre-generated text are ignored and the rewriter is not called. */
  lemma NoInterventionIgnoresEdits(mode: PolicyMode, th: real, classify: ClassifyOracle, rewrite: Rewriter,
                                   original: string, edit: Option<string>, generated: Option<string>,
                                   edit': Option<string>, generated': Option<string>)
    requires mode != PoliteOneEdit || !classify(original, th).over
    ensures Decide(mode, th, classify, rewrite, original, edit, generated)
         == Decide(mode, th, classify, rewrite, original, edit', generated')
    ensures Decide(mode, th, classify, rewrite, original, edit, generated).calls == [ClassifyCall(original, th)]
    ensures mode == PoliteOneEdit ==>
      Decide(mode, th, classify, rewrite, original, edit, generated).outcome
        == Passed(original, Original, classify(original, th).prob, th)
  {
  }

  /** In polite_one_edit over threshold the oracle calls are, in order: the original's score,
      a rewrite unless a non-empty text was pre-generated, the edit's score if an edit was
      given, and the polite text's score unless the edit was accepted. */
  lemma InterventionTrace(th: real, classify: ClassifyOracle, rewrite: Rewriter,
                          original: string, edit: Option<string>, generated: Option<string>)
    requires classify(original, th).over
    ensures var run := Decide(PoliteOneEdit, th, classify, rewrite, original, edit, generated);
      var politeText := PoliteText(rewrite, original, generated);
      var accepted := Given(edit) && !classify(edit.value, th).over;
      && run.outcome.textGeneratedPolite == Some(politeText)
      && run.calls == [ClassifyCall(original, th)]
                      + (if Given(generated) then [] else [RewriteCall(original)])
                      + (if Given(edit) then [ClassifyCall(edit.value, th)] else [])
                      + (if accepted then [] else [ClassifyCall(politeText, th)])
  {
  }

  /** An edit that is not over threshold is accepted verbatim with its own score. */
  lemma EditAccepted(th: real, classify: ClassifyOracle, rewrite: Rewriter,
                     original: string, edit: Option<string>, generated: Option<string>)
    requires classify(original, th).over
    requires Given(edit) && !classify(edit.value, th).over
    ensures var o := Decide(PoliteOneEdit, th, classify, rewrite, original, edit, generated).outcome;
      && o.finalSource == UserEdit && o.wasEdited
      && o.textFinal == edit && o.textUserEdit == edit
      && o.editLogit == Some(classify(edit.value, th).prob)
      && o.finalLogit == o.editLogit
  {
  }

  /** With no edit, or an edit over threshold, the polite text is stored with its own score,
      and the row does not count as edited. */
  lemma PoliteFallback(th: real, classify: ClassifyOracle, rewrite: Rewriter,
                       original: string, edit: Option<string>, generated: Option<string>)
    requires classify(original, th).over
    requires !Given(edit) || classify(edit.value, th).over
    ensures var o := Decide(PoliteOneEdit, th, classify, rewrite, original, edit, generated).outcome;
      var politeText := PoliteText(rewrite, original, generated);
      && o.finalSource == Polite && !o.wasEdited
      && o.textFinal == Some(politeText)
      && o.finalLogit == Some(classify(politeText, th).prob)
      && (Given(edit) ==> o.textUserEdit == edit)
      && (!Given(edit) ==> o.textUserEdit.None?)
  {
  }

  /** `edit_logit` is recorded exactly when an edit was scored, and it is that score. */
  lemma EditLogitIffEvaluated(mode: PolicyMode, th: real, classify: ClassifyOracle, rewrite: Rewriter,
                              original: string, edit: Option<string>, generated: Option<string>)
    ensures var o := Decide(mode, th, classify, rewrite, original, edit, generated).outcome;
      && (o.editLogit.Some? <==> mode == PoliteOneEdit && classify(original, th).over && Given(edit))
      && (o.editLogit.Some? ==> o.editLogit == Some(classify(edit.value, th).prob))
  {
  }

  /** A submission calls the classifier at most three times and the rewriter at most once;
      the rewriter exactly once when the post is polite_one_edit, the original is over
      threshold and no non-empty polite text was pre-generated. */
  lemma CallBounds(mode: PolicyMode, th: real, classify: ClassifyOracle, rewrite: Rewriter,
                   original: string, edit: Option<string>, generated: Option<string>)
    ensures var calls := Decide(mode, th, classify, rewrite, original, edit, generated).calls;
      && Count(calls, IsClassify) <= 3
      && Count(calls, IsRewrite)
         == if mode == PoliteOneEdit && classify(original, th).over && !Given(generated) then 1 else 0
  {
    var calls := Decide(mode, th, classify, rewrite, original, edit, generated).calls;
    var c0 := ClassifyCall(original, th);
    CountAtMostOne([c0], IsClassify);
    CountAtMostOne([c0], IsRewrite);
    if mode == PoliteOneEdit && classify(original, th).over {
      InterventionTrace(th, classify, rewrite, original, edit, generated);
      var politeText := PoliteText(rewrite, original, generated);
      var r := if Given(generated) then [] else [RewriteCall(original)];
      var s := if Given(edit) then [ClassifyCall(edit.value, th)] else [];
      var accepted := Given(edit) && !classify(edit.value, th).over;
      var t := if accepted then [] else [ClassifyCall(politeText, th)];
      assert calls == [c0] + r + s + t;
      CountOfFour([c0], r, s, t, IsClassify);
      CountOfFour([c0], r, s, t, IsRewrite);
      CountAtMostOne(r, IsClassify);
      CountAtMostOne(r, IsRewrite);
      CountAtMostOne(s, IsClassify);
      CountAtMostOne(s, IsRewrite);
      CountAtMostOne(t, IsClassify);
      CountAtMostOne(t, IsRewrite);
    } else {
      NoInterventionIgnoresEdits(mode, th, classify, rewrite, original, edit, generated, edit, generated);
    }
  }

  lemma CountOfFour(a: seq<OracleCall>, b: seq<OracleCall>, c: seq<OracleCall>, d: seq<OracleCall>, p: OracleCall -> bool)
    ensures Count(a + b + c + d, p) == Count(a, p) + Count(b, p) + Count(c, p) + Count(d, p)
  {
    FilterConcat(a + b + c, d, p);
    FilterConcat(a + b, c, p);
    FilterConcat(a, b, p);
  }

  lemma CountAtMostOne(s: seq<OracleCall>, p: OracleCall -> bool)
    requires |s| <= 1
    ensures Count(s, p) == if |s| == 1 && p(s[0]) then 1 else 0
  {
    if |s| == 1 {
      assert s == [] + [s[0]];
      CountAppend([], s[0], p);
    }
  }

  // ---------------------------------------------------------------- preview

  /** `suggest`: the read-only preview of the same decision for one text. */
  function Suggest(mode: PolicyMode, th: real, classify: ClassifyOracle, rewrite: Rewriter, text: string): (pv: Preview)
    ensures pv.res.policyMode == mode && pv.res.thresholdApplied == th
    ensures pv.res.overThreshold == classify(text, th).over
    ensures |pv.calls| >= 1 && pv.calls[0] == ClassifyCall(text, th)
    ensures pv.res.politeText.Some? <==> mode == PoliteOneEdit && classify(text, th).over
    ensures pv.res.logit.Some? <==> mode == NoFilter
  {
    var p := classify(text, th);
    var first := [ClassifyCall(text, th)];
    match mode
    case Block =>
      if p.over then Preview(SuggestRes(Block, true, th, None, Some(BlockedRetry), None), first)
      else Preview(SuggestRes(Block, false, th, None, Some(Passable), None), first)
    case NoFilter =>
      Preview(SuggestRes(NoFilter, p.over, th, None, Some(NoFilterNotice), Some(p.prob)), first)
    case PoliteOneEdit =>
      if p.over then
        Preview(SuggestRes(PoliteOneEdit, true, th, Some(rewrite(text)), None, None),
                first + [RewriteCall(text)])
      else Preview(SuggestRes(PoliteOneEdit, false, th, None, Some(Passable), None), first)
  }

  /** The preview foretells the submission of the same text without an edit: block mode
      previews exactly the texts it would block, polite mode previews the polite text it
      would store, and no-filter mode reports the score it would record. */
  lemma SuggestPreviewsDecide(mode: PolicyMode, th: real, classify: ClassifyOracle, rewrite: Rewriter, text: string)
    ensures var pv := Suggest(mode, th, classify, rewrite, text);
      var o := Decide(mode, th, classify, rewrite, text, None, None).outcome;
      && (mode == Block ==> (pv.res.overThreshold <==> o.finalSource == Blocked))
      && (mode == PoliteOneEdit && pv.res.overThreshold ==> pv.res.politeText == o.textFinal)
      && (mode == PoliteOneEdit && !pv.res.overThreshold ==> o.finalSource == Original)
      && (mode == NoFilter ==> pv.res.logit == o.originalLogit)
  {
  }

  /** Submitting the previewed polite text as `generated_polite_text` stores the same row as
      letting the submission rewrite, and skips the rewrite call. */
  lemma PreviewedTextSubstitutes(th: real, classify: ClassifyOracle, rewrite: Rewriter, text: string, edit: Option<string>)
    requires classify(text, th).over && rewrite(text) != ""
    ensures var pv := Suggest(PoliteOneEdit, th, classify, rewrite, text);
      var reused := Decide(PoliteOneEdit, th, classify, rewrite, text, edit, pv.res.politeText);
      var rewritten := Decide(PoliteOneEdit, th, classify, rewrite, text, edit, None);
      && reused.outcome == rewritten.outcome
      && Count(reused.calls, IsRewrite) == 0
      && Count(rewritten.calls, IsRewrite) == 1
  {
    var pv := Suggest(PoliteOneEdit, th, classify, rewrite, text);
    CallBounds(PoliteOneEdit, th, classify, rewrite, text, edit, pv.res.politeText);
    CallBounds(PoliteOneEdit, th, classify, rewrite, text, edit, None);
  }

  // ---------------------------------------------------------------- with the real classifier

  /** With `predict` as the classifier, a text containing a block-listed word is blocked in
      block mode and is never accepted as a user edit, whatever the threshold. */
  lemma BlockListedNeverPasses(words: seq<string>, score: string -> real, th: real, rewrite: Rewriter,
                               original: string, edit: Option<string>, generated: Option<string>)
    ensures var classify := (t: string, thr: real) => Predicted(words, t, thr, score(t));
      && (BlockListed(words, original) ==>
            Decide(Block, th, classify, rewrite, original, edit, generated).outcome.finalSource == Blocked)
      && (Given(edit) && BlockListed(words, edit.value) ==>
            Decide(PoliteOneEdit, th, classify, rewrite, original, edit, generated).outcome.finalSource != UserEdit)
  {
  }
}
