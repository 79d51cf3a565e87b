/**
 `WordCounter::count_words`: tokenize the input with `split_whitespace` and
 count the tokens that every filter of the configured chain accepts.
 */
module WordCounter {
  import opened Tokenizer
  import opened WordFilter

  /** The source's `WordCount` result record. */
  datatype WordCount = WordCount(count: nat)

  /** `fs.iter().all(|f| f.filter(w))`, evaluated left to right; `all` over
      an empty chain is true. */
  function AcceptsAll(fs: seq<Filter>, w: string): (b: bool)
    ensures b <==> forall i :: 0 <= i < |fs| ==> Accepts(fs[i], w)
    decreases |fs|
  {
    if |fs| == 0 then true
    else if !Accepts(fs[0], w) then false
    else
      var rest := AcceptsAll(fs[1..], w);
      assert forall i :: 1 <= i < |fs| ==> fs[i] == fs[1..][i - 1];
      rest
  }

  /** `tokens.into_iter().filter(all filters accept).count()`, peeling off
      the last token. */
  function CountAccepted(ts: seq<string>, fs: seq<Filter>): (c: nat)
    ensures c <= |ts|
    decreases |ts|
  {
    if |ts| == 0 then 0
    else
      CountAccepted(ts[..|ts| - 1], fs) + (if AcceptsAll(fs, ts[|ts| - 1]) then 1 else 0)
  }

  /** The count `count_words` reports for `input` under the chain `fs`: at
      most the number of tokens, and at most half the input length rounded
      up, so the source's `usize` cannot overflow. */
  function Count(input: string, fs: seq<Filter>): (r: nat)
    ensures r <= |Tokenize(input)|
    ensures 2 * r <= |input| + 1
  {
    TokenCountBound(input);
    CountAccepted(Tokenize(input), fs)
  }

  /** `WordCounter::count_words`. It has no precondition and no error
      outcome: the source's `Result` is always `Ok`. */
  method CountWords(input: string, fs: seq<Filter>) returns (wc: WordCount)
    ensures wc.count == Count(input, fs)
    ensures wc.count <= |Tokenize(input)|
  {
    var tokens := Tokenize(input);
    var count := 0;
    var i := 0;
    while i < |tokens|
      invariant i <= |tokens|
      invariant count == CountAccepted(tokens[..i], fs)
    {
      var accepted := true;
      var j := 0;
      while j < |fs| && accepted
        invariant j <= |fs|
        invariant accepted <==> forall k :: 0 <= k < j ==> Accepts(fs[k], tokens[i])
      {
        accepted := Accepts(fs[j], tokens[i]);
        j := j + 1;
      }
      if accepted {
        count := count + 1;
      }
      assert tokens[..i + 1][..i] == tokens[..i];
      i := i + 1;
    }
    assert tokens[..i] == tokens;
    wc := WordCount(count);
  }

  // ---------------------------------------------------------------------
  // Reference: the count is the number of token positions the whole chain
  // accepts.
  // ---------------------------------------------------------------------

  /** Positions of the tokens in `ts` that every filter of `fs` accepts. */
  ghost function AcceptedPositions(ts: seq<string>, fs: seq<Filter>): set<nat> {
    set i: nat | i < |ts| && AcceptsAll(fs, ts[i])
  }

  /** A token is counted iff every filter accepts it. */
  lemma {:induction false} CountIsAcceptedPositions(ts: seq<string>, fs: seq<Filter>)
    ensures CountAccepted(ts, fs) == |AcceptedPositions(ts, fs)|
    decreases |ts|
  {
    if |ts| > 0 {
      var n := |ts| - 1;
      var init := ts[..n];
      CountIsAcceptedPositions(init, fs);
      var last := if AcceptsAll(fs, ts[n]) then {n} else {};
      assert AcceptedPositions(ts, fs) == AcceptedPositions(init, fs) + last;
      assert n !in AcceptedPositions(init, fs);
    }
  }

  /** Counting depends on the chain only through which tokens it accepts. */
  lemma {:induction false} CountAcceptedMonotone(ts: seq<string>, fs: seq<Filter>, gs: seq<Filter>)
    requires forall i :: 0 <= i < |ts| ==> AcceptsAll(fs, ts[i]) ==> AcceptsAll(gs, ts[i])
    ensures CountAccepted(ts, fs) <= CountAccepted(ts, gs)
    decreases |ts|
  {
    if |ts| > 0 {
      CountAcceptedMonotone(ts[..|ts| - 1], fs, gs);
    }
  }

  lemma CountAcceptedSame(ts: seq<string>, fs: seq<Filter>, gs: seq<Filter>)
    requires forall i :: 0 <= i < |ts| ==> AcceptsAll(fs, ts[i]) == AcceptsAll(gs, ts[i])
    ensures CountAccepted(ts, fs) == CountAccepted(ts, gs)
  {
    CountAcceptedMonotone(ts, fs, gs);
    CountAcceptedMonotone(ts, gs, fs);
  }

  // ---------------------------------------------------------------------
  // Bounds and edge cases.
  // ---------------------------------------------------------------------

  /** The count reaches the number of tokens exactly when the chain accepts
      every token. */
  lemma {:induction false} CountAcceptedAllIff(ts: seq<string>, fs: seq<Filter>)
    ensures CountAccepted(ts, fs) == |ts| <==> forall i :: 0 <= i < |ts| ==> AcceptsAll(fs, ts[i])
    decreases |ts|
  {
    if |ts| > 0 {
      var n := |ts| - 1;
      CountAcceptedAllIff(ts[..n], fs);
      assert forall i :: 0 <= i < n ==> ts[..n][i] == ts[i];
    }
  }

  /** The count is 0 exactly when the chain accepts no token. */
  lemma {:induction false} CountAcceptedZeroIff(ts: seq<string>, fs: seq<Filter>)
    ensures CountAccepted(ts, fs) == 0 <==> forall i :: 0 <= i < |ts| ==> !AcceptsAll(fs, ts[i])
    decreases |ts|
  {
    if |ts| > 0 {
      var n := |ts| - 1;
      CountAcceptedZeroIff(ts[..n], fs);
      assert forall i :: 0 <= i < n ==> ts[..n][i] == ts[i];
    }
  }

  /** With an empty chain every token is counted. */
  lemma EmptyChainCountsTokens(input: string)
    ensures Count(input, []) == |Tokenize(input)|
  {
    CountAcceptedAllIff(Tokenize(input), []);
  }

  /** No chain counts more than the empty chain, and the count never exceeds
      half the input length rounded up, so the source's `usize` cannot
      overflow. */
  lemma CountBounds(input: string, fs: seq<Filter>)
    ensures Count(input, fs) <= Count(input, [])
    ensures 2 * Count(input, fs) <= |input| + 1
  {
    EmptyChainCountsTokens(input);
    TokenCountBound(input);
  }

  /** Empty or all-whitespace input counts 0 under every chain. */
  lemma WhitespaceInputCountsZero(input: string, fs: seq<Filter>)
    requires AllWhitespace(input)
    ensures Count(input, fs) == 0
  {
    TokenizeEmptyIff(input);
  }

  /** The count is 0 exactly when no token passes the whole chain. */
  lemma CountZeroIff(input: string, fs: seq<Filter>)
    ensures Count(input, fs) == 0 <==>
      forall i :: 0 <= i < |Tokenize(input)| ==> !AcceptsAll(fs, Tokenize(input)[i])
  {
    var ts := Tokenize(input);
    CountAcceptedZeroIff(ts, fs);
    if Count(input, fs) == 0 {
      forall i | 0 <= i < |ts| ensures !AcceptsAll(fs, ts[i]) {
      }
    } else {
      var i :| 0 <= i < |ts| && AcceptsAll(fs, ts[i]);
      assert 0 <= i < |Tokenize(input)| && AcceptsAll(fs, Tokenize(input)[i]);
    }
  }

  /** The count equals the number of tokens exactly when every token passes
      the whole chain. */
  lemma CountAllIff(input: string, fs: seq<Filter>)
    ensures Count(input, fs) == |Tokenize(input)| <==>
      forall i :: 0 <= i < |Tokenize(input)| ==> AcceptsAll(fs, Tokenize(input)[i])
  {
    CountAcceptedAllIff(Tokenize(input), fs);
  }

  /** A filter in the chain that rejects every token of the input forces the
      count to 0. */
  lemma RejectingFilterCountsZero(input: string, fs: seq<Filter>, k: nat)
    requires k < |fs|
    requires forall i :: 0 <= i < |Tokenize(input)| ==> !Accepts(fs[k], Tokenize(input)[i])
    ensures Count(input, fs) == 0
  {
    CountZeroIff(input, fs);
  }

  // ---------------------------------------------------------------------
  // Conjunction laws of the chain.
  // ---------------------------------------------------------------------

  /** The chain `fs + gs` accepts what both parts accept. */
  lemma AcceptsAllAppend(fs: seq<Filter>, gs: seq<Filter>, w: string)
    ensures AcceptsAll(fs + gs, w) <==> AcceptsAll(fs, w) && AcceptsAll(gs, w)
  {
    var hs := fs + gs;
    assert forall i :: 0 <= i < |fs| ==> hs[i] == fs[i];
    assert forall i :: 0 <= i < |gs| ==> hs[|fs| + i] == gs[i];
  }

  /** Reordering (or duplicating) the filters of a chain does not change
      the count. */
  lemma ChainOrderIrrelevant(input: string, fs: seq<Filter>, gs: seq<Filter>)
    requires forall f :: f in fs <==> f in gs
    ensures Count(input, fs) == Count(input, gs)
  {
    var ts := Tokenize(input);
    forall i | 0 <= i < |ts| ensures AcceptsAll(fs, ts[i]) == AcceptsAll(gs, ts[i]) {
      if AcceptsAll(fs, ts[i]) {
        forall j | 0 <= j < |gs| ensures Accepts(gs[j], ts[i]) {
          assert gs[j] in fs;
        }
      }
      if AcceptsAll(gs, ts[i]) {
        forall j | 0 <= j < |fs| ensures Accepts(fs[j], ts[i]) {
          assert fs[j] in gs;
        }
      }
    }
    CountAcceptedSame(ts, fs, gs);
  }

  /** In particular a permutation of the chain gives the same count. */
  lemma ChainPermutation(input: string, fs: seq<Filter>, gs: seq<Filter>)
    requires multiset(fs) == multiset(gs)
    ensures Count(input, fs) == Count(input, gs)
  {
    forall f ensures f in fs <==> f in gs {
      assert f in fs <==> f in multiset(fs);
      assert f in gs <==> f in multiset(gs);
    }
    ChainOrderIrrelevant(input, fs, gs);
  }

  /** Adding filters to a chain never increases the count. */
  lemma AppendNeverIncreases(input: string, fs: seq<Filter>, gs: seq<Filter>)
    ensures Count(input, fs + gs) <= Count(input, fs)
    ensures Count(input, fs + gs) <= Count(input, gs)
  {
    var ts := Tokenize(input);
    forall i | 0 <= i < |ts| ensures AcceptsAll(fs + gs, ts[i]) <==> AcceptsAll(fs, ts[i]) && AcceptsAll(gs, ts[i]) {
      AcceptsAllAppend(fs, gs, ts[i]);
    }
    CountAcceptedMonotone(ts, fs + gs, fs);
    CountAcceptedMonotone(ts, fs + gs, gs);
  }

  /** An always-true filter is neutral in a chain. */
  lemma AlwaysTrueIsNeutral(input: string, fs: seq<Filter>)
    ensures Count(input, fs + [Const(true)]) == Count(input, fs)
  {
    var ts := Tokenize(input);
    forall i | 0 <= i < |ts| ensures AcceptsAll(fs + [Const(true)], ts[i]) == AcceptsAll(fs, ts[i]) {
      AcceptsAllAppend(fs, [Const(true)], ts[i]);
    }
    CountAcceptedSame(ts, fs + [Const(true)], fs);
  }

  // ---------------------------------------------------------------------
  // Scenarios.
  // ---------------------------------------------------------------------

  /** Empty and blank input count 0. */
  lemma BlankScenarios(fs: seq<Filter>)
    ensures Count("", fs) == 0 && Count(" ", fs) == 0
  {
    WhitespaceInputCountsZero("", fs);
    WhitespaceInputCountsZero(" ", fs);
  }

  /** "Hello" counts 1 under the shape filter. */
  lemma HelloScenario()
    ensures Count("Hello", [Shape]) == 1
  {
    LeadingToken("Hello", "");
    assert "Hello" + "" == "Hello";
    assert Tokenize("Hello") == ["Hello"];
    assert Accepts(Shape, "Hello");
    assert ["Hello"][..0] == [];
  }

  /** A two-token line splits at its one space. */
  lemma TwoTokens(a: string, b: string)
    requires IsToken(a) && IsToken(b)
    ensures Tokenize(a + " " + b) == [a, b]
  {
    LeadingToken(b, "");
    assert b + "" == b;
    LeadingToken(a, " " + b);
    assert a + " " + b == a + (" " + b);
  }

  /** Two tokens are counted according to the chain's verdict on each. */
  lemma CountTwo(a: string, b: string, fs: seq<Filter>)
    ensures CountAccepted([a, b], fs) ==
      (if AcceptsAll(fs, a) then 1 else 0) + (if AcceptsAll(fs, b) then 1 else 0)
  {
    var ts := [a, b];
    assert ts[..1] == [a] && ts[..1][..0] == [];
  }

  /** The two `count_words` tests: two always-true filters count both
      tokens of "word1 word2", an always-true and an always-false filter
      count none. */
  lemma CounterTestCases()
    ensures Count("word1 word2", [Const(true), Const(true)]) == 2
    ensures Count("word1 word2", [Const(true), Const(false)]) == 0
  {
    assert IsToken("word1") && IsToken("word2");
    TwoTokens("word1", "word2");
    assert "word1" + " " + "word2" == "word1 word2";
    CountTwo("word1", "word2", [Const(true), Const(true)]);
    CountTwo("word1", "word2", [Const(true), Const(false)]);
  }

  /** A string the shape filter accepts survives tokenization whole. */
  lemma ShapeWordIsOneToken(w: string)
    requires Accepts(Shape, w)
    ensures Tokenize(w) == [w]
  {
    LeadingToken(w, "");
    assert w + "" == w;
  }

  /** "Hello1 World" counts only "World" under the shape filter. */
  lemma PartialMatchScenario()
    ensures Count("Hello1 World", [Shape]) == 1
  {
    assert IsToken("Hello1") && IsToken("World");
    TwoTokens("Hello1", "World");
    assert "Hello1" + " " + "World" == "Hello1 World";
    CountTwo("Hello1", "World", [Shape]);
    assert !AcceptsAll([Shape], "Hello1") by { ShapeFilterCases(); }
    assert AcceptsAll([Shape], "World");
  }

  /** "word stopword" counts 1 with the stopword set {"stopword"}. */
  lemma StopwordScenario()
    ensures Count("word stopword", [Stop({"stopword"})]) == 1
  {
    assert IsToken("word") && IsToken("stopword");
    TwoTokens("word", "stopword");
    assert "word" + " " + "stopword" == "word stopword";
    CountTwo("word", "stopword", [Stop({"stopword"})]);
    assert "word" != "stopword" by { assert |"word"| != |"stopword"|; }
    assert AcceptsAll([Stop({"stopword"})], "word");
    assert !AcceptsAll([Stop({"stopword"})], "stopword");
  }
}
