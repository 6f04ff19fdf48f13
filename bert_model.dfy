/** The classifier front end of polite_back/models/bert_model.py: a lexical
    block list checked before the network, the strict `prob > threshold` rule,
    and the lazily loaded global tokenizer and network. The network itself is an
    oracle `infer`; what loading yields is passed in as handles. */
module BertModel {
  import opened Wrappers

  /** What `predict` returns: `pred` (1 or 0, here a bool) and the probability. */
  datatype Prediction = Prediction(over: bool, prob: real)

  /** The score reported for a block-listed text. */
  const BLOCK_LIST_PROB: real := 0.9

  /** `predict`'s default threshold. */
  const DEFAULT_THRESHOLD: real := 0.5

  /** Python's `word in text` on strings. */
  function Contains(text: string, word: string): bool
    decreases |text|
  {
    if |word| > |text| then false
    else if text[..|word|] == word then true
    else Contains(text[1..], word)
  }

  /** `word` occurs in `text` starting at index `i`. */
  predicate OccursAt(text: string, word: string, i: int) {
    0 <= i <= |text| - |word| && text[i..i + |word|] == word
  }

  /** `Contains` is substring search: some window of `text` equals `word`. */
  lemma {:induction false} ContainsIsSubstring(text: string, word: string)
    ensures Contains(text, word) <==> exists i :: OccursAt(text, word, i)
    decreases |text|
  {
    if |word| > |text| {
    } else if text[..|word|] == word {
      assert OccursAt(text, word, 0);
    } else {
      ContainsIsSubstring(text[1..], word);
      if Contains(text[1..], word) {
        var i :| OccursAt(text[1..], word, i);
        assert text[1..][i..i + |word|] == text[i + 1..i + 1 + |word|];
        assert OccursAt(text, word, i + 1);
      } else {
        forall i | OccursAt(text, word, i)
          ensures false
        {
          if i > 0 {
            assert text[1..][i - 1..i - 1 + |word|] == text[i..i + |word|];
            assert OccursAt(text[1..], word, i - 1);
          }
        }
      }
    }
  }

  /** Some word of the block list occurs in `text`. */
  predicate BlockListed(words: seq<string>, text: string) {
    exists i :: 0 <= i < |words| && Contains(text, words[i])
  }

  /** `predict(text, threshold)` when the network scores `text` with `prob`. */
  function Predicted(words: seq<string>, text: string, threshold: real, prob: real): Prediction {
    if BlockListed(words, text) then Prediction(true, BLOCK_LIST_PROB)
    else Prediction(prob > threshold, prob)
  }

  /** Off the block list the decision is the strict comparison; a score equal to the
      threshold is not over it. */
  lemma StrictThreshold(words: seq<string>, text: string, threshold: real, prob: real)
    requires !BlockListed(words, text)
    ensures Predicted(words, text, threshold, prob).over <==> prob > threshold
    ensures Predicted(words, text, threshold, prob).prob == prob
    ensures prob == threshold ==> !Predicted(words, text, threshold, prob).over
  {
  }

  /** A block-listed text is over whatever the threshold, even one at or above the
      reported 0.9, so `over` and `prob > threshold` can disagree. */
  lemma BlockListOverridesThreshold(words: seq<string>, text: string, threshold: real, prob: real)
    requires BlockListed(words, text)
    ensures Predicted(words, text, threshold, prob) == Prediction(true, BLOCK_LIST_PROB)
    ensures threshold >= BLOCK_LIST_PROB ==>
      Predicted(words, text, threshold, prob).over && !(Predicted(words, text, threshold, prob).prob > threshold)
  {
  }

  /** Lowering the threshold never turns an over-threshold text into a passing one. */
  lemma OverIsMonotone(words: seq<string>, text: string, lower: real, higher: real, prob: real)
    requires lower <= higher
    requires Predicted(words, text, higher, prob).over
    ensures Predicted(words, text, lower, prob).over
    ensures Predicted(words, text, lower, prob).prob == Predicted(words, text, higher, prob).prob
  {
  }

  /** A loaded resource (the tokenizer or the network weights). */
  datatype Handle = Handle(id: nat)

  /** The module's global state: the block list and the lazily loaded singletons. */
  class Classifier {
    const badwords: seq<string>
    var tokenizer: Option<Handle>
    var model: Option<Handle>
    /** How many times the weights were loaded. */
    ghost var loads: nat

    ghost predicate Valid()
      reads this
    {
      && (model.Some? ==> tokenizer.Some?)
      && loads == (if model.Some? then 1 else 0)
    }

    /** At import time the block list is read and nothing is loaded. */
    constructor (words: seq<string>)
      ensures Valid() && badwords == words
      ensures tokenizer.None? && model.None? && loads == 0
    {
      badwords := words;
      tokenizer := None;
      model := None;
      loads := 0;
    }

    /** `_ensure_loaded`: load only while `_model` is None; once set it is never replaced. */
    method EnsureLoaded(loadedTokenizer: Handle, loadedModel: Handle)
      requires Valid()
      modifies this
      ensures Valid()
      ensures old(model).Some? ==> model == old(model) && tokenizer == old(tokenizer) && loads == old(loads)
      ensures old(model).None? ==> model == Some(loadedModel) && tokenizer == Some(loadedTokenizer) && loads == 1
    {
      if model.None? {
        tokenizer := Some(loadedTokenizer);
        model := Some(loadedModel);
        loads := loads + 1;
      }
    }

    /** `predict`: the block list first, then the network, loading it on first use. */
    method Predict(text: string, threshold: real, loadedTokenizer: Handle, loadedModel: Handle,
                   infer: (Handle, Handle, string) -> real) returns (p: Prediction)
      requires Valid()
      modifies this
      ensures Valid()
      ensures BlockListed(badwords, text) ==>
        p == Prediction(true, BLOCK_LIST_PROB) && model == old(model) && tokenizer == old(tokenizer)
      ensures !BlockListed(badwords, text) ==>
        && model.Some? && tokenizer.Some?
        && (old(model).Some? ==> model == old(model) && tokenizer == old(tokenizer))
        && (old(model).None? ==> model == Some(loadedModel) && tokenizer == Some(loadedTokenizer))
        && p == Predicted(badwords, text, threshold, infer(tokenizer.value, model.value, text))
      ensures loads <= 1
    {
      for i := 0 to |badwords|
        invariant forall j :: 0 <= j < i ==> !Contains(text, badwords[j])
        invariant model == old(model) && tokenizer == old(tokenizer)
      {
        if Contains(text, badwords[i]) {
          return Prediction(true, BLOCK_LIST_PROB);
        }
      }
      EnsureLoaded(loadedTokenizer, loadedModel);
      var prob := infer(tokenizer.value, model.value, text);
      p := Prediction(prob > threshold, prob);
    }
  }
}
