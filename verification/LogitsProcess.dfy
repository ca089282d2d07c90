/** Bad-word masking: `NoBadWordsLogitsProcessor` of vllm/logits_process.py.

    A logit is a finite real or minus infinity. */
module LogitsProcess {
  import opened Wrappers

  datatype Logit = NegInf | Finite(value: real)

  type Token = int
  type Word = seq<Token>

  datatype Error = ValueError(invalid: seq<Token>) | IndexError | RuntimeError

  const NEUTRAL: Logit := Finite(0.0)

  function Plus(a: Logit, b: Logit): Logit {
    if a.NegInf? || b.NegInf? then NegInf else Finite(a.value + b.value)
  }

  // ----- what masking should do

  /** Choosing `t` after `past` would finish the word. */
  predicate Completes(word: Word, past: seq<Token>, t: Token) {
    word != [] && |word| <= |past| + 1 && (past + [t])[|past| + 1 - |word|..] == word
  }

  predicate Blocked(words: seq<Word>, past: seq<Token>, t: Token) {
    exists w | w in words :: Completes(w, past, t)
  }

  /** A blocked token is impossible, any other keeps its logit. */
  function Masked(words: seq<Word>, past: seq<Token>, logits: seq<Logit>): seq<Logit> {
    seq(|logits|, t requires 0 <= t < |logits| => if Blocked(words, past, t) then NegInf else logits[t])
  }

  function InvalidIds(word: Word, vocabSize: nat): seq<Token> {
    if word == [] then []
    else
      var init, last := InvalidIds(word[..|word| - 1], vocabSize), word[|word| - 1];
      if 0 <= last < vocabSize then init else init + [last]
  }

  function AllInvalidIds(words: seq<Word>, vocabSize: nat): seq<Token> {
    if words == [] then []
    else AllInvalidIds(words[..|words| - 1], vocabSize) + InvalidIds(words[|words| - 1], vocabSize)
  }

  predicate InVocabulary(words: seq<Word>, vocabSize: nat) {
    forall w | w in words :: forall t | t in w :: 0 <= t < vocabSize
  }

  lemma {:induction false} NoInvalidIds(word: Word, vocabSize: nat)
    ensures InvalidIds(word, vocabSize) == [] <==> forall t | t in word :: 0 <= t < vocabSize
  {
    if word != [] {
      var init, last := word[..|word| - 1], word[|word| - 1];
      NoInvalidIds(init, vocabSize);
      assert word == init + [last];
      assert last in word && forall t | t in init :: t in word;
    }
  }

  lemma {:induction false} NoInvalidIdsAtAll(words: seq<Word>, vocabSize: nat)
    ensures AllInvalidIds(words, vocabSize) == [] <==> InVocabulary(words, vocabSize)
  {
    if words != [] {
      var init, last := words[..|words| - 1], words[|words| - 1];
      NoInvalidIdsAtAll(init, vocabSize);
      NoInvalidIds(last, vocabSize);
      assert words == init + [last];
      assert last in words && forall w | w in init :: w in words;
    }
  }

  /** All tokens of all words, in order. */
  function AllTokens(words: seq<Word>): seq<Token> {
    if words == [] then [] else words[0] + AllTokens(words[1..])
  }

  function Outside(tokens: seq<Token>, vocabSize: nat): seq<Token> {
    if tokens == [] then []
    else (if 0 <= tokens[0] < vocabSize then [] else [tokens[0]]) + Outside(tokens[1..], vocabSize)
  }

  lemma {:induction false} OutsideConcat(a: seq<Token>, b: seq<Token>, vocabSize: nat)
    ensures Outside(a + b, vocabSize) == Outside(a, vocabSize) + Outside(b, vocabSize)
  {
    if a == [] {
      assert a + b == b;
    } else {
      assert (a + b)[1..] == a[1..] + b;
      OutsideConcat(a[1..], b, vocabSize);
    }
  }

  lemma {:induction false} AllTokensSnoc(words: seq<Word>, word: Word)
    ensures AllTokens(words + [word]) == AllTokens(words) + word
  {
    if words == [] {
      assert words + [word] == [word] && [word][1..] == [];
    } else {
      assert (words + [word])[1..] == words[1..] + [word];
      AllTokensSnoc(words[1..], word);
    }
  }

  lemma {:induction false} InvalidIdsAreOutside(word: Word, vocabSize: nat)
    ensures InvalidIds(word, vocabSize) == Outside(word, vocabSize)
  {
    if word != [] {
      var init, last := word[..|word| - 1], word[|word| - 1];
      assert word == init + [last] && [last][1..] == [];
      InvalidIdsAreOutside(init, vocabSize);
      OutsideConcat(init, [last], vocabSize);
    }
  }

  /** The ids reported as invalid are exactly those outside the vocabulary, in the order of the words and
      with their repetitions. */
  lemma {:induction false} InvalidIdsExact(words: seq<Word>, vocabSize: nat)
    ensures AllInvalidIds(words, vocabSize) == Outside(AllTokens(words), vocabSize)
  {
    if words != [] {
      var init, last := words[..|words| - 1], words[|words| - 1];
      assert words == init + [last];
      InvalidIdsExact(init, vocabSize);
      InvalidIdsAreOutside(last, vocabSize);
      AllTokensSnoc(init, last);
      OutsideConcat(AllTokens(init), last, vocabSize);
    }
  }

  // ----- the processor

  /** The bias for one-token words: the cached `word_bias`. */
  ghost predicate IsWordBias(words: seq<Word>, bias: seq<Logit>) {
    && InVocabulary(words, |bias|)
    && forall t | 0 <= t < |bias| :: bias[t] == if [t] in words then NegInf else NEUTRAL
  }

  /** The bias for longer words whose prefix was just generated. */
  ghost predicate IsLastTokenBias(words: seq<Word>, past: seq<Token>, bias: seq<Logit>) {
    forall t | 0 <= t < |bias| :: bias[t] == if BlockedByLonger(words, past, t) then NegInf else NEUTRAL
  }

  ghost predicate BlockedByLonger(words: seq<Word>, past: seq<Token>, t: Token) {
    exists w | w in words :: |w| > 1 && Completes(w, past, t)
  }

  // ----- logits whose size differs from the cached bias

  /** The word has no last token, or fits after `past` and ends in a token that is no logit. */
  predicate Unreachable(word: Word, past: seq<Token>, size: nat) {
    word == [] || (1 < |word| <= |past| + 1 && word[|word| - 1] >= size)
  }

  predicate OutOfReach(words: seq<Word>, past: seq<Token>, size: nat) {
    exists w | w in words :: Unreachable(w, past, size)
  }

  lemma OutOfReachSnoc(words: seq<Word>, word: Word, past: seq<Token>, size: nat)
    ensures OutOfReach(words + [word], past, size) <==> OutOfReach(words, past, size) || Unreachable(word, past, size)
  {
    assert word in words + [word] && forall w | w in words :: w in words + [word];
  }

  lemma InVocabularyReaches(words: seq<Word>, past: seq<Token>, size: nat)
    requires InVocabulary(words, size)
    ensures OutOfReach(words, past, size) <==> [] in words
  {
    forall w | w in words && w != [] ensures !Unreachable(w, past, size) {
      assert w[|w| - 1] in w;
    }
    assert [] in words ==> Unreachable([], past, size);
  }

  /** Two vectors can be added: equal sizes, or one of size 1 that is repeated. */
  predicate Broadcasts(m: nat, n: nat) {
    m == n || m == 1 || n == 1
  }

  function Place(size: nat, t: nat): nat {
    if size == 1 then 0 else t
  }

  /** What masking gives when the cached bias has `cached` places. */
  ghost function Spread(words: seq<Word>, past: seq<Token>, logits: seq<Logit>, cached: nat): seq<Logit>
    requires Broadcasts(|logits|, cached)
  {
    seq(if |logits| == 1 then cached else |logits|, t requires 0 <= t < (if |logits| == 1 then cached else |logits|) =>
      var u := Place(|logits|, t);
      if [Place(cached, t)] in words || BlockedByLonger(words, past, u) then NegInf else logits[u])
  }

  /** The result of one call once the bias is cached. */
  ghost function Called(words: seq<Word>, past: seq<Token>, logits: seq<Logit>, cached: nat)
    : Result<seq<Logit>, Error>
  {
    if OutOfReach(words, past, |logits|) then Err(IndexError)
    else if |logits| == cached then Ok(Masked(words, past, logits))
    else if Broadcasts(|logits|, cached) then Ok(Spread(words, past, logits, cached))
    else Err(RuntimeError)
  }

  class NoBadWordsLogitsProcessor {
    const badWordsIds: seq<Word>
    var wordBias: array?<Logit>

    constructor (badWordsIds: seq<Word>)
      ensures this.badWordsIds == badWordsIds && wordBias == null
    {
      this.badWordsIds, wordBias := badWordsIds, null;
    }

    ghost predicate CacheValid()
      reads this, wordBias
    {
      wordBias != null ==> IsWordBias(badWordsIds, wordBias[..])
    }

    /** `_check_token_ids_bounds` */
    method CheckTokenIdsBounds(vocabSize: nat) returns (invalid: seq<Token>)
      ensures invalid == AllInvalidIds(badWordsIds, vocabSize)
    {
      invalid := [];
      for i := 0 to |badWordsIds|
        invariant invalid == AllInvalidIds(badWordsIds[..i], vocabSize)
      {
        var word := badWordsIds[i];
        ghost var before := invalid;
        for j := 0 to |word|
          invariant invalid == before + InvalidIds(word[..j], vocabSize)
        {
          assert word[..j + 1][..j] == word[..j];
          if word[j] < 0 || word[j] >= vocabSize {
            invalid := invalid + [word[j]];
          }
        }
        assert word[..|word|] == word && badWordsIds[..i + 1][..i] == badWordsIds[..i];
      }
      assert badWordsIds[..|badWordsIds|] == badWordsIds;
    }

    /** `_init_word_bias` */
    method InitWordBias(vocabSize: nat) returns (r: Option<Error>)
      requires wordBias == null
      modifies this
      ensures r == if InVocabulary(badWordsIds, vocabSize) then None
                   else Some(ValueError(AllInvalidIds(badWordsIds, vocabSize)))
      ensures r.Some? ==> wordBias == null
      ensures r.None? ==>
        wordBias != null && fresh(wordBias) && wordBias.Length == vocabSize && IsWordBias(badWordsIds, wordBias[..])
    {
      var invalid := CheckTokenIdsBounds(vocabSize);
      NoInvalidIdsAtAll(badWordsIds, vocabSize);
      if |invalid| > 0 {
        return Some(ValueError(invalid));
      }
      var bias := new Logit[vocabSize](_ => NEUTRAL);
      for i := 0 to |badWordsIds|
        invariant forall t | 0 <= t < vocabSize :: bias[t] == if [t] in badWordsIds[..i] then NegInf else NEUTRAL
      {
        var word := badWordsIds[i];
        assert word in badWordsIds && badWordsIds[..i + 1] == badWordsIds[..i] + [word];
        if |word| == 1 {
          assert word == [word[0]] && word[0] in word;
          bias[word[0]] := NegInf;
        }
      }
      assert badWordsIds[..|badWordsIds|] == badWordsIds;
      wordBias := bias;
      r := None;
    }

    /** The loop body of `__call__` for one bad word. */
    method MaskLastToken(word: Word, past: seq<Token>, bias: array<Logit>)
      requires word != [] && 0 <= word[|word| - 1]
      requires 1 < |word| <= |past| + 1 ==> word[|word| - 1] < bias.Length
      modifies bias
      ensures forall t | 0 <= t < bias.Length ::
        bias[t] == if |word| > 1 && Completes(word, past, t) then NegInf else old(bias[t])
    {
      if |word| == 1 || |word| > |past| + 1 {
        return;
      }
      var prefixLength, lastTokenId := |word| - 1, word[|word| - 1];
      var isMatch := past[|past| - prefixLength..] == word[..prefixLength];
      bias[lastTokenId] := Plus(bias[lastTokenId], if isMatch then NegInf else NEUTRAL);
      forall t ensures Completes(word, past, t) <==> isMatch && t == lastTokenId {
        PrefixMatches(word, past, t);
      }
    }

    /** The loop of `__call__` over the longer bad words; not ok stands for the IndexError of a missing
        token. */
    method LastTokenBias(past: seq<Token>, vocabSize: nat) returns (bias: array<Logit>, ok: bool)
      requires forall w | w in badWordsIds :: forall t | t in w :: 0 <= t
      ensures fresh(bias) && bias.Length == vocabSize
      ensures ok <==> !OutOfReach(badWordsIds, past, vocabSize)
      ensures ok ==> IsLastTokenBias(badWordsIds, past, bias[..])
    {
      bias := new Logit[vocabSize](_ => NEUTRAL);
      ok := true;
      for i := 0 to |badWordsIds|
        invariant !OutOfReach(badWordsIds[..i], past, vocabSize)
        invariant IsLastTokenBias(badWordsIds[..i], past, bias[..])
      {
        var word := badWordsIds[i];
        assert word in badWordsIds && badWordsIds[..i + 1] == badWordsIds[..i] + [word];
        OutOfReachSnoc(badWordsIds[..i], word, past, vocabSize);
        if word == [] || (1 < |word| <= |past| + 1 && word[|word| - 1] >= vocabSize) {
          assert Unreachable(word, past, vocabSize);
          return bias, false;
        }
        assert word[|word| - 1] in word;
        ghost var before := bias[..];
        MaskLastToken(word, past, bias);
        OneMoreWord(badWordsIds[..i], word, past, before, bias[..]);
      }
      assert badWordsIds[..|badWordsIds|] == badWordsIds;
    }

    /** `__call__`: every step masks exactly the tokens that would finish a bad word, whether the cached
        bias is new or reused.  Logits of another size than the cached bias are broadcast or refused. */
    method Call(past: seq<Token>, logits: seq<Logit>) returns (r: Result<seq<Logit>, Error>)
      requires CacheValid()
      modifies this
      ensures CacheValid()
      ensures wordBias == null <==> old(wordBias) == null && !InVocabulary(badWordsIds, |logits|)
      ensures old(wordBias) != null ==> wordBias == old(wordBias)
      ensures old(wordBias) == null && wordBias != null ==> wordBias.Length == |logits|
      ensures r == if wordBias == null then Err(ValueError(AllInvalidIds(badWordsIds, |logits|)))
                   else Called(badWordsIds, past, logits, wordBias.Length)
    {
      if wordBias == null {
        var error := InitWordBias(|logits|);
        if error.Some? {
          return Err(error.value);
        }
      }
      var lastTokenBias, ok := LastTokenBias(past, |logits|);
      if !ok {
        return Err(IndexError);
      }
      r := AddBiases(logits, lastTokenBias, past);
    }

    /** The sum at the end of `__call__`. */
    method AddBiases(logits: seq<Logit>, lastTokenBias: array<Logit>, ghost past: seq<Token>)
      returns (r: Result<seq<Logit>, Error>)
      requires wordBias != null && CacheValid() && !OutOfReach(badWordsIds, past, |logits|)
      requires lastTokenBias.Length == |logits| && IsLastTokenBias(badWordsIds, past, lastTokenBias[..])
      ensures r == Called(badWordsIds, past, logits, wordBias.Length)
    {
      var n, cached := |logits|, wordBias.Length;
      if !Broadcasts(n, cached) {
        return Err(RuntimeError);
      }
      var size := if n == 1 then cached else n;
      ghost var word, last := wordBias[..], lastTokenBias[..];
      var sum: seq<Logit> := [];
      for t := 0 to size
        invariant |sum| == t && wordBias[..] == word && lastTokenBias[..] == last
        invariant forall k | 0 <= k < t :: sum[k] == Biased(logits, word, last, k)
      {
        var u := Place(n, t);
        sum := sum + [Plus(Plus(logits[u], wordBias[Place(cached, t)]), lastTokenBias[u])];
      }
      BiasesSpread(badWordsIds, past, logits, word, last);
      assert sum == Spread(badWordsIds, past, logits, cached);
      if n == cached {
        SpreadIsMasked(badWordsIds, past, logits);
      }
      r := Ok(sum);
    }
  }

  lemma PrefixMatches(word: Word, past: seq<Token>, t: Token)
    requires 0 < |word| <= |past| + 1
    ensures
      var p := |word| - 1;
      Completes(word, past, t) <==> past[|past| - p..] == word[..p] && t == word[p]
  {
    var p := |word| - 1;
    assert (past + [t])[|past| + 1 - |word|..] == past[|past| - p..] + [t];
    assert word == word[..p] + [word[p]];
  }

  lemma OneMoreWord(words: seq<Word>, word: Word, past: seq<Token>, before: seq<Logit>, after: seq<Logit>)
    requires IsLastTokenBias(words, past, before) && |before| == |after|
    requires forall t | 0 <= t < |after| ::
      after[t] == if |word| > 1 && Completes(word, past, t) then NegInf else before[t]
    ensures IsLastTokenBias(words + [word], past, after)
  {
    forall t | 0 <= t < |after|
      ensures BlockedByLonger(words + [word], past, t) <==>
              BlockedByLonger(words, past, t) || (|word| > 1 && Completes(word, past, t))
    {
      assert forall w | w in words + [word] :: w in words || w == word;
      if |word| > 1 && Completes(word, past, t) {
        assert word in words + [word];
      } else if BlockedByLonger(words, past, t) {
        var w :| w in words && |w| > 1 && Completes(w, past, t);
        assert w in words + [word];
      }
    }
  }

  /** Entry `k` of the sum of logits and both biases. */
  function Biased(logits: seq<Logit>, word: seq<Logit>, last: seq<Logit>, k: nat): Logit
    requires |last| == |logits| && Broadcasts(|logits|, |word|) && k < (if |logits| == 1 then |word| else |logits|)
  {
    var u := Place(|logits|, k);
    Plus(Plus(logits[u], word[Place(|word|, k)]), last[u])
  }

  lemma BiasesSpread(words: seq<Word>, past: seq<Token>, logits: seq<Logit>, word: seq<Logit>, last: seq<Logit>)
    requires |last| == |logits| && Broadcasts(|logits|, |word|)
    requires IsWordBias(words, word) && IsLastTokenBias(words, past, last)
    ensures
      var spread := Spread(words, past, logits, |word|);
      forall k | 0 <= k < |spread| :: spread[k] == Biased(logits, word, last, k)
  {}

  lemma SpreadIsMasked(words: seq<Word>, past: seq<Token>, logits: seq<Logit>)
    ensures Spread(words, past, logits, |logits|) == Masked(words, past, logits)
  {
    forall t | 0 <= t < |logits|
      ensures Blocked(words, past, t) <==> [t] in words || BlockedByLonger(words, past, t)
    {
      if [t] in words {
        assert Completes([t], past, t);
      }
      if Blocked(words, past, t) {
        var w :| w in words && Completes(w, past, t);
        assert |w| == 1 ==> w == [t];
      }
    }
  }

  // ----- whole generation runs

  predicate OccursAt(word: Word, tokens: seq<Token>, i: nat) {
    i + |word| <= |tokens| && tokens[i..i + |word|] == word
  }

  ghost predicate Occurs(word: Word, tokens: seq<Token>) {
    exists i: nat :: OccursAt(word, tokens, i)
  }

  /** One vocabulary-sized logit vector per step, and tokens chosen from it. */
  predicate IsRun(tokens: seq<Token>, logits: seq<seq<Logit>>) {
    |logits| == |tokens| && forall k | 0 <= k < |tokens| :: 0 <= tokens[k] < |logits[k]|
  }

  /** Token `k` of the run is possible after masking. */
  predicate Allowed(words: seq<Word>, tokens: seq<Token>, logits: seq<seq<Logit>>, k: nat)
    requires IsRun(tokens, logits) && k < |tokens|
  {
    Masked(words, tokens[..k], logits[k])[tokens[k]] != NegInf
  }

  /** A word occurs exactly when some step completes it. */
  lemma OccursWhenCompleted(word: Word, tokens: seq<Token>)
    requires word != []
    ensures Occurs(word, tokens) <==> exists k: nat | k < |tokens| :: Completes(word, tokens[..k], tokens[k])
  {
    if Occurs(word, tokens) {
      var i: nat :| OccursAt(word, tokens, i);
      var k := i + |word| - 1;
      assert tokens[..k] + [tokens[k]] == tokens[..k + 1];
      assert tokens[..k + 1][i..] == tokens[i..i + |word|];
      assert Completes(word, tokens[..k], tokens[k]);
    }
    forall k: nat | k < |tokens| && Completes(word, tokens[..k], tokens[k]) ensures Occurs(word, tokens) {
      var i := k + 1 - |word|;
      assert tokens[..k] + [tokens[k]] == tokens[..k + 1];
      assert tokens[..k + 1][i..] == tokens[i..i + |word|];
      assert OccursAt(word, tokens, i);
    }
  }

  /** Generation safety, exactly: every token of a run is possible after masking if and only if every
      token was possible before and no bad word occurs in the run. */
  lemma RunExact(words: seq<Word>, tokens: seq<Token>, logits: seq<seq<Logit>>)
    requires [] !in words && IsRun(tokens, logits)
    ensures
      (forall k | 0 <= k < |tokens| :: Allowed(words, tokens, logits, k)) <==>
      && (forall k | 0 <= k < |tokens| :: logits[k][tokens[k]] != NegInf)
      && (forall w | w in words :: !Occurs(w, tokens))
  {
    forall w | w in words
      ensures Occurs(w, tokens) <==> exists k: nat | k < |tokens| :: Completes(w, tokens[..k], tokens[k])
    {
      OccursWhenCompleted(w, tokens);
    }
    forall k | 0 <= k < |tokens|
      ensures Allowed(words, tokens, logits, k) <==>
              logits[k][tokens[k]] != NegInf && !Blocked(words, tokens[..k], tokens[k])
    {}
  }

  /** Drive one processor over a run, as generation does: its cached bias is built in the first step and
      reused in all others.  The run goes through exactly when it contains no bad word and no token
      that was impossible to begin with. */
  method DriveRun(words: seq<Word>, tokens: seq<Token>, logits: seq<seq<Logit>>, vocabSize: nat) returns (through: bool)
    requires [] !in words && InVocabulary(words, vocabSize) && IsRun(tokens, logits)
    requires forall k | 0 <= k < |logits| :: |logits[k]| == vocabSize
    ensures through <==>
      && (forall k | 0 <= k < |tokens| :: logits[k][tokens[k]] != NegInf)
      && (forall w | w in words :: !Occurs(w, tokens))
  {
    var processor := new NoBadWordsLogitsProcessor(words);
    RunExact(words, tokens, logits);
    for k := 0 to |tokens|
      invariant fresh(processor) && processor.badWordsIds == words && processor.CacheValid()
      invariant processor.wordBias != null ==> processor.wordBias.Length == vocabSize
      invariant forall j | 0 <= j < k :: Allowed(words, tokens, logits, j)
    {
      InVocabularyReaches(words, tokens[..k], vocabSize);
      var masked := processor.Call(tokens[..k], logits[k]);
      if masked.value[tokens[k]] == NegInf {
        assert !Allowed(words, tokens, logits, k);
        return false;
      }
    }
    through := true;
  }
}
