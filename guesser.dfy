/** The `Guesser` object: a word corpus of one word length, the candidate pool left by the
    last `find_candidates` call, and the operations that read and update them. */
module WordGuesser {
  import opened Values
  import opened Filtering
  import opened Conditions
  import opened WordLists

  /** What `random_guess` returns: one word when a single guess is asked for, else a list. */
  datatype Guess = One(word: string) | Many(words: seq<string>)

  /** The words a guess suggests. */
  function Suggested(g: Guess): (ws: seq<string>)
  {
    match g
    case One(w) => [w]
    case Many(ws) => ws
  }

  class Guesser {
    /** `self.words`: the corpus after length trimming. */
    var words: seq<string>
    /** `self._cands`: None until the first `find_candidates` call. */
    var cands: Option<seq<string>>

    /** The corpus is non-empty with words of one length; the pool is drawn from it. */
    ghost predicate Valid()
      reads this
    {
      && words != []
      && Uniform(words, |words[0]|)
      && (cands.Some? ==> IsSubsequence(cands.value, words))
    }

    /** `Guesser(words)` for a word list already loaded (explicitly or from the word
        file); `answers` are the replies the length prompt would receive, None for one
        that is not an integer. The source keeps prompting until a reply is accepted,
        so it returns only when the list has one length or some reply is accepted. */
    constructor (loaded: seq<string>, answers: seq<Option<int>>)
      requires Resolvable(loaded, answers)
      ensures Valid()
      ensures words == Settle(loaded, answers)
      ensures cands == None
    {
      words := loaded;
      cands := None;
      new;
      CheckLen(answers);
      SettleMeaning(loaded, answers);
      var n :| n in Lengths(loaded) && Uniform(words, n) && words == OfLength(loaded, n);
      assert |words[0]| == n;
    }

    /** `_check_len`: when the words have several lengths, read replies until one names
        a length present, then keep only the words of that length. */
    method CheckLen(answers: seq<Option<int>>)
      requires Resolvable(words, answers)
      modifies this`words
      ensures words == Settle(old(words), answers)
    {
      var lens := Lengths(words);
      if |lens| != 1 {
        var k := 0;
        while true
          invariant 0 <= k < |answers|
          invariant forall j :: 0 <= j < k ==> !Accepts(lens, answers[j])
          invariant words == old(words)
          decreases |answers| - k
        {
          var length := answers[k];
          if length.Some? && length.value in lens {
            words := OfLength(words, length.value);
            return;
          }
          k := k + 1;
          assert k < |answers| by {
            var i :| 0 <= i < |answers| && Accepts(lens, answers[i]);
          }
        }
      }
    }

    /** `do(cond, incl)`: read a truthy argument as a list of conditions and chain one
        filter per condition onto the pool. Reports the first malformed condition, and
        whether consuming the chain would raise IndexError. */
    method ApplyConditions(cond: PyValue, incl: bool) returns (failure: Option<Error>, fault: bool)
      requires Truthy(cond) && cands.Some?
      modifies this`cands
      ensures failure == ParseArg(cond, incl).failure
      ensures cands == Some(Select(old(cands).value, ParseArg(cond, incl).tests))
      ensures fault == RaisesIndexError(old(cands).value, ParseArg(cond, incl).tests)
    {
      ghost var start := cands.value;
      SelectNone(start);
      var items: seq<PyValue>;
      if cond.PyStr? || cond.PyTuple? {
        items := [cond];
      } else if cond.PyList? {
        items := cond.items;
      } else {
        return Some(TypeError), false;
      }
      ghost var tests: seq<Test> := [];
      fault := false;
      var i := 0;
      while i < |items|
        invariant 0 <= i <= |items| && |tests| == i
        invariant forall k :: 0 <= k < i ==>
                    ParseCondition(items[k]) == Ok(tests[k].cond) && tests[k].incl == incl
        invariant cands == Some(Select(start, tests))
        invariant fault == RaisesIndexError(start, tests)
      {
        var c := ParseCondition(items[i]);
        if c.Err? {
          ParsedPrefixUnique(items, incl, tests);
          return Some(c.error), fault;
        }
        var t := Test(c.value, incl);
        var pool := cands.value;
        SelectSnoc(start, tests, t);
        fault := fault || exists w :: w in pool && Faults(w, t);
        cands := Some(Filter(pool, w => Passes(w, t)));
        tests := tests + [t];
        i := i + 1;
      }
      ParsedPrefixUnique(items, incl, tests);
      failure := None;
    }

    /** `find_candidates(include, exclude)`: restart from the whole corpus, apply the
        inclusion conditions, then the exclusion conditions, and keep the result as the
        new pool. The corpus itself is never changed. */
    method FindCandidates(inc: PyValue, exc: PyValue) returns (r: Result<seq<string>>)
      requires Valid()
      modifies this`cands
      ensures Valid()
      ensures r == Candidates(words, inc, exc)
      ensures cands == PoolAfter(old(cands), words, inc, exc)
      ensures r.Ok? ==> cands == Some(r.value)
    {
      if !Truthy(inc) && !Truthy(exc) {
        return Err(AssertionError);
      }
      var failure, fault := RunChain(inc, exc);
      assert cands == PoolAfter(old(cands), words, inc, exc);
      r := if failure.Some? then Err(failure.value)
           else if fault then Err(IndexError)
           else Ok(cands.value);
    }

    /** The body of `find_candidates` after its assertion: the pool restarts as a copy of
        the corpus, `include` chains its filters onto it and then, unless reading
        `include` failed, `exclude` does. Reports the first malformed condition and
        whether consuming the chain would raise IndexError. */
    method RunChain(inc: PyValue, exc: PyValue) returns (failure: Option<Error>, fault: bool)
      modifies this`cands
      ensures failure == ParseArgs(inc, exc).failure
      ensures cands == Some(Select(words, ParseArgs(inc, exc).tests))
      ensures failure.None? ==> fault == RaisesIndexError(words, ParseArgs(inc, exc).tests)
    {
      cands := Some(words);
      SelectNone(words);
      failure, fault := None, false;
      if Truthy(inc) {
        failure, fault := ApplyConditions(inc, true);
      }
      if failure.None? && Truthy(exc) {
        var more;
        failure, more := ApplyConditions(exc, false);
        fault := fault || more;
      } else if failure.None? {
        SelectNone(cands.value);
      }
      CandidatesInSteps(words, inc, exc);
    }

    /** `__call__`: the same as `find_candidates`. */
    method Call(inc: PyValue, exc: PyValue) returns (r: Result<seq<string>>)
      requires Valid()
      modifies this`cands
      ensures Valid()
      ensures r == Candidates(words, inc, exc)
      ensures cands == PoolAfter(old(cands), words, inc, exc)
    {
      r := FindCandidates(inc, exc);
    }

    /** `exclusive(words)`: the words without a repeated letter, in order, taken from the
        argument, or from the corpus when the argument is None or empty. */
    function Exclusive(ws: Option<seq<string>>): (r: seq<string>)
      reads this
      ensures var source := if ws.None? || ws.value == [] then words else ws.value;
              && r == Filter(source, NoRepeats)
              && IsSubsequence(r, source)
              && forall w :: w in r <==> w in source && NoRepeats(w)
    {
      var source := if ws.None? || ws.value == [] then words else ws.value;
      DistinctOnlyMeaning(source);
      DistinctOnly(source)
    }

    /** `random_guess(out_num)`: the pool is `exclusive(_cands)`. One guess is one word of
        the pool (an empty pool makes `sample` raise ValueError); a request larger than
        the pool returns the whole pool; otherwise `out_num` words are drawn without
        replacement. Which words are drawn is left open. */
    method RandomGuess(outNum: int) returns (r: Result<Guess>)
      requires Valid()
      ensures var pool := Exclusive(cands);
              && (outNum == 1 && pool == [] ==> r == Err(ValueError))
              && (outNum == 1 && pool != [] ==> r.Ok? && r.value.One? && r.value.word in pool)
              && (outNum != 1 && outNum > |pool| ==> r == Ok(Many(pool)))
              && (outNum < 0 ==> r == Err(ValueError))
              && (outNum != 1 && 0 <= outNum <= |pool| ==>
                    r.Ok? && r.value.Many? && |r.value.words| == outNum &&
                    multiset(r.value.words) <= multiset(pool))
      ensures r.Ok? ==> forall w :: w in Suggested(r.value) ==> w in words && NoRepeats(w)
    {
      var pool := Exclusive(cands);
      PoolFromCorpus(this);
      if outNum == 1 {
        var drawn := Sample(pool, 1);
        r := if drawn.Err? then Err(drawn.error) else Ok(One(drawn.value[0]));
      } else if outNum > |pool| {
        r := Ok(Many(pool));
      } else {
        var drawn := Sample(pool, outNum);
        r := if drawn.Err? then Err(drawn.error) else Ok(Many(drawn.value));
      }
    }
  }

  /** `random.sample(pool, k)`: ValueError unless `0 <= k <= len(pool)`, otherwise `k`
      words of the pool drawn without replacement. Which words are drawn is left open. */
  method Sample(pool: seq<string>, k: int) returns (r: Result<seq<string>>)
    ensures r.Ok? <==> 0 <= k <= |pool|
    ensures r.Err? ==> r.error == ValueError
    ensures r.Ok? ==> |r.value| == k && multiset(r.value) <= multiset(pool)
    ensures r.Ok? ==> forall w :: w in r.value ==> w in pool
  {
    if !(0 <= k <= |pool|) {
      return Err(ValueError);
    }
    assert pool == pool[..k] + pool[k..];
    var drawn :| |drawn| == k && multiset(drawn) <= multiset(pool);
    forall w | w in drawn
      ensures w in pool
    {
      assert w in multiset(drawn);
    }
    r := Ok(drawn);
  }

  /** Every word `random_guess` can draw is a corpus word with no repeated letter. */
  lemma PoolFromCorpus(g: Guesser)
    requires g.Valid()
    ensures forall w :: w in g.Exclusive(g.cands) ==> w in g.words && NoRepeats(w)
  {
    var source := if g.cands.None? || g.cands.value == [] then g.words else g.cands.value;
    forall w | w in g.Exclusive(g.cands)
      ensures w in g.words && NoRepeats(w)
    {
      SubsequenceMembers(g.Exclusive(g.cands), source, w);
      if source != g.words {
        SubsequenceMembers(source, g.words, w);
      }
    }
  }

  /** Each `find_candidates` call restarts from the corpus: two guessers over the same
      corpus agree on a call whatever their pools were, and the result is no longer
      than the corpus. */
  lemma CandidatesIgnorePool(words: seq<string>, inc: PyValue, exc: PyValue, r: seq<string>)
    requires Candidates(words, inc, exc) == Ok(r)
    ensures |r| <= |words|
    ensures forall p1, p2 :: PoolAfter(p1, words, inc, exc) == PoolAfter(p2, words, inc, exc) == Some(r)
  {
  }

  /** `exclusive` applied to its own result gives that result again, except when the
      result is empty: an empty argument makes `exclusive` fall back to the corpus. */
  lemma ExclusiveTwice(g: Guesser, ws: Option<seq<string>>)
    ensures g.Exclusive(ws) != [] ==> g.Exclusive(Some(g.Exclusive(ws))) == g.Exclusive(ws)
    ensures g.Exclusive(ws) == [] ==> g.Exclusive(Some(g.Exclusive(ws))) == DistinctOnly(g.words)
  {
    var source := if ws.None? || ws.value == [] then g.words else ws.value;
    DistinctOnlyIdempotent(source);
  }
}
