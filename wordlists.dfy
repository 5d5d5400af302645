/** Whole-corpus filters of the guesser: trimming the word list to one word length
    (`_check_len`) and keeping the words without a repeated letter (`exclusive`). */
module WordLists {
  import opened Values
  import opened Filtering

  // ---------------------------------------------------------------------------
  // Word lengths

  /** The set of word lengths present, Python's `set(len(w) for w in words)`. */
  function Lengths(ws: seq<string>): (lens: set<int>)
  {
    set w | w in ws :: |w|
  }

  /** Every word has length `n`. */
  predicate Uniform(ws: seq<string>, n: int)
  {
    forall k :: 0 <= k < |ws| ==> |ws[k]| == n
  }

  /** `list(filter(lambda x: len(x) == length, words))`. */
  function OfLength(ws: seq<string>, n: int): (r: seq<string>)
    ensures Uniform(r, n)
    ensures |r| <= |ws|
  {
    Filter(ws, w => |w| == n)
  }

  /** An answer to the length prompt is accepted when it is an integer among the
      lengths present; None stands for input that `int()` cannot parse. */
  predicate Accepts(lens: set<int>, answer: Option<int>)
  {
    answer.Some? && answer.value in lens
  }

  /** The prompt loop ends: the lengths are already uniform or some answer is accepted. */
  predicate Resolvable(ws: seq<string>, answers: seq<Option<int>>)
  {
    |Lengths(ws)| == 1 || exists k :: 0 <= k < |answers| && Accepts(Lengths(ws), answers[k])
  }

  /** The length given by the first accepted answer. */
  ghost function FirstAccepted(lens: set<int>, answers: seq<Option<int>>): (n: int)
    requires exists k :: 0 <= k < |answers| && Accepts(lens, answers[k])
    ensures n in lens
    ensures exists k :: 0 <= k < |answers| && answers[k] == Some(n) &&
                        forall j :: 0 <= j < k ==> !Accepts(lens, answers[j])
  {
    if Accepts(lens, answers[0]) then answers[0].value
    else
      var k :| 0 <= k < |answers| && Accepts(lens, answers[k]);
      assert answers[1..][k - 1] == answers[k];
      var n := FirstAccepted(lens, answers[1..]);
      var i :| 0 <= i < |answers| - 1 && answers[1..][i] == Some(n) &&
               forall j :: 0 <= j < i ==> !Accepts(lens, answers[1..][j]);
      assert answers[i + 1] == Some(n);
      n
  }

  /** The word list `_check_len` leaves behind: untouched when all words share a length,
      otherwise trimmed to the first accepted length. */
  ghost function Settle(ws: seq<string>, answers: seq<Option<int>>): (r: seq<string>)
    requires Resolvable(ws, answers)
    ensures |Lengths(ws)| == 1 ==> r == ws
    ensures exists n :: n in Lengths(ws) && r == OfLength(ws, n)
  {
    if |Lengths(ws)| == 1 then
      SingleLengthUntouched(ws);
      var n :| Lengths(ws) == {n} && Uniform(ws, n) && OfLength(ws, n) == ws;
      assert n in Lengths(ws);
      ws
    else OfLength(ws, FirstAccepted(Lengths(ws), answers))
  }

  /** Trimming keeps, in order, exactly the words of the chosen length. */
  lemma OfLengthMeaning(ws: seq<string>, n: int)
    ensures Uniform(OfLength(ws, n), n)
    ensures IsSubsequence(OfLength(ws, n), ws)
    ensures forall w :: w in OfLength(ws, n) <==> w in ws && |w| == n
    ensures n in Lengths(ws) ==> OfLength(ws, n) != [] && Lengths(OfLength(ws, n)) == {n}
  {
    FilterIsSubsequence(ws, w => |w| == n);
    forall w
      ensures w in OfLength(ws, n) <==> w in ws && |w| == n
    {
      FilterMembers(ws, w => |w| == n, w);
    }
    if n in Lengths(ws) {
      var w :| w in ws && |w| == n;
      assert w in OfLength(ws, n);
    }
  }

  /** A list whose words share one length is left as it is by trimming to that length,
      so skipping the prompt when there is a single length loses nothing. */
  lemma SingleLengthUntouched(ws: seq<string>)
    requires |Lengths(ws)| == 1
    ensures ws != []
    ensures exists n :: Lengths(ws) == {n} && Uniform(ws, n) && OfLength(ws, n) == ws
  {
    var n :| n in Lengths(ws);
    assert Lengths(ws) == {n} by {
      forall m | m in Lengths(ws)
        ensures m == n
      {
        if m != n {
          assert {m, n} <= Lengths(ws);
          assert |{m, n}| == 2;
          SubsetSize({m, n}, Lengths(ws));
        }
      }
    }
    forall k | 0 <= k < |ws|
      ensures |ws[k]| == n
    {
      assert |ws[k]| in Lengths(ws);
    }
    FilterKeepsAll(ws, w => |w| == n);
  }

  lemma SubsetSize(a: set<int>, b: set<int>)
    requires a <= b
    ensures |a| <= |b|
  {
    assert b == a + (b - a);
  }

  /** After `_check_len` the corpus is non-empty, its words share one of the original
      lengths, and it is an order-preserving selection of the original list. */
  lemma SettleMeaning(ws: seq<string>, answers: seq<Option<int>>)
    requires Resolvable(ws, answers)
    ensures Settle(ws, answers) != []
    ensures IsSubsequence(Settle(ws, answers), ws)
    ensures exists n :: n in Lengths(ws) && Uniform(Settle(ws, answers), n) && Settle(ws, answers) == OfLength(ws, n)
  {
    var n :| n in Lengths(ws) && Settle(ws, answers) == OfLength(ws, n);
    OfLengthMeaning(ws, n);
  }

  // ---------------------------------------------------------------------------
  // Distinct letters

  /** Python's `len(x) == len(set(x))`. */
  predicate HasDistinctChars(w: string)
  {
    |w| == |set c | c in w|
  }

  /** No letter occurs twice in the word. */
  predicate NoRepeats(w: string)
  {
    forall i, j :: 0 <= i < j < |w| ==> w[i] != w[j]
  }

  /** A word has no repeated letter when its first letter does not recur and the rest
      has no repeated letter. */
  lemma NoRepeatsCons(w: string)
    requires w != []
    ensures NoRepeats(w) <==> w[0] !in w[1..] && NoRepeats(w[1..])
  {
  }

  /** The letters of a word are its first letter and the letters of the rest. */
  lemma CharSetCons(w: string)
    requires w != []
    ensures (set c | c in w) == {w[0]} + (set c | c in w[1..])
  {
  }

  /** The size test of `exclusive` means exactly that no letter repeats. */
  lemma {:induction false} DistinctCharsMeansNoRepeats(w: string)
    ensures |set c | c in w| <= |w|
    ensures HasDistinctChars(w) <==> NoRepeats(w)
  {
    if w != [] {
      var rest := w[1..];
      DistinctCharsMeansNoRepeats(rest);
      CharSetCons(w);
      NoRepeatsCons(w);
      if w[0] in rest {
        assert (set c | c in w) == (set c | c in rest);
      } else {
        assert |set c | c in w| == 1 + |set c | c in rest|;
      }
    }
  }

  /** The words of `ws` without a repeated letter, in order (the filter of `exclusive`). */
  function DistinctOnly(ws: seq<string>): (r: seq<string>)
    ensures r == Filter(ws, NoRepeats)
  {
    forall w
      ensures HasDistinctChars(w) == NoRepeats(w)
    {
      DistinctCharsMeansNoRepeats(w);
    }
    FilterAgree(ws, HasDistinctChars, NoRepeats);
    Filter(ws, HasDistinctChars)
  }

  /** `exclusive` keeps, in order, exactly the words whose letters are pairwise distinct,
      each occurrence of such a word as often as it occurs in `ws`. */
  lemma DistinctOnlyMeaning(ws: seq<string>)
    ensures DistinctOnly(ws) == Filter(ws, NoRepeats)
    ensures IsSubsequence(DistinctOnly(ws), ws)
    ensures forall w :: w in DistinctOnly(ws) <==> w in ws && NoRepeats(w)
  {
    FilterIsSubsequence(ws, HasDistinctChars);
    forall w
      ensures w in DistinctOnly(ws) <==> w in ws && NoRepeats(w)
    {
      FilterMembers(ws, HasDistinctChars, w);
      DistinctCharsMeansNoRepeats(w);
    }
  }

  /** Applying the distinct-letter filter twice is applying it once. */
  lemma DistinctOnlyIdempotent(ws: seq<string>)
    ensures DistinctOnly(DistinctOnly(ws)) == DistinctOnly(ws)
  {
    FilterKeepsAll(DistinctOnly(ws), HasDistinctChars);
  }
}
