/** Inclusion and exclusion conditions of `Guesser.find_candidates`: how the dynamically
    typed `include` and `exclude` arguments are read as conditions, how a condition tests
    a word, and, declaratively, which words (or which exception) a call produces. */
module Conditions {
  import opened Values
  import opened Filtering

  /** One test on a word. `Substring(s)` is Python's `s in word`. `Positional(s, i)` is
      `word[i] == s`; `s` may have any length, and only a one-character `s` can match. */
  datatype Condition = Substring(text: string) | Positional(text: string, index: int)

  /** A condition with its polarity: `incl` for an inclusion condition, else exclusion. */
  datatype Test = Test(cond: Condition, incl: bool)

  /** Python's `w[i]`: a negative index counts from the end; None stands for IndexError. */
  function CharAt(w: string, i: int): (r: Option<char>)
    ensures r.Some? <==> -|w| <= i < |w|
    ensures r.Some? ==> r.value in w
    ensures 0 <= i < |w| ==> r == Some(w[i])
    ensures 0 < i <= |w| ==> CharAt(w, -i) == Some(w[|w| - i])
  {
    if 0 <= i < |w| then Some(w[i])
    else if -|w| <= i < 0 then Some(w[|w| + i])
    else None
  }

  /** Python's `s in w` on strings, by scanning the suffixes of `w`. */
  predicate Contains(w: string, s: string)
    decreases |w|
  {
    s <= w || (w != [] && Contains(w[1..], s))
  }

  /** `s` occurs in `w` starting at position `i`. */
  predicate OccursAt(w: string, s: string, i: nat)
  {
    i + |s| <= |w| && w[i..i + |s|] == s
  }

  /** Where the scan finds `s`, it occurs. */
  lemma {:induction false} ContainsWitness(w: string, s: string) returns (i: nat)
    requires Contains(w, s)
    ensures OccursAt(w, s, i)
    decreases |w|
  {
    if s <= w {
      i := 0;
    } else {
      var j := ContainsWitness(w[1..], s);
      assert w[1..][j..j + |s|] == w[j + 1..j + 1 + |s|];
      i := j + 1;
    }
  }

  /** Where `s` occurs, the scan finds it. */
  lemma {:induction false} OccursContains(w: string, s: string, i: nat)
    requires OccursAt(w, s, i)
    ensures Contains(w, s)
    decreases i
  {
    if i != 0 {
      assert w[1..][i - 1..i - 1 + |s|] == w[i..i + |s|];
      OccursContains(w[1..], s, i - 1);
    }
  }

  /** Substring containment means an occurrence at some position. */
  lemma ContainsMeansOccurs(w: string, s: string)
    ensures Contains(w, s) <==> exists i: nat :: OccursAt(w, s, i)
  {
    if Contains(w, s) {
      var i := ContainsWitness(w, s);
    }
    if exists i: nat :: OccursAt(w, s, i) {
      var i: nat :| OccursAt(w, s, i);
      OccursContains(w, s, i);
    }
  }

  /** The value a condition's lambda gives for a word; None when evaluating it raises IndexError. */
  function Eval(c: Condition, w: string): (r: Option<bool>)
    ensures r.None? <==> c.Positional? && !(-|w| <= c.index < |w|)
    ensures c.Positional? && r == Some(true) ==> |c.text| == 1
  {
    match c
    case Substring(s) => Some(Contains(w, s))
    case Positional(s, i) =>
      match CharAt(w, i)
      case None => None
      case Some(x) => Some(s == [x])
  }

  /** The filter of one test lets the word through (and does not raise). */
  predicate Passes(w: string, t: Test)
  {
    Eval(t.cond, w) == Some(t.incl)
  }

  predicate PassesAll(w: string, tests: seq<Test>)
  {
    forall k :: 0 <= k < |tests| ==> Passes(w, tests[k])
  }

  /** Evaluating the test on the word raises IndexError. */
  predicate Faults(w: string, t: Test)
  {
    Eval(t.cond, w).None?
  }

  /** The words that pass every filter of the chain, in corpus order. */
  function Select(words: seq<string>, tests: seq<Test>): (r: seq<string>)
  {
    Filter(words, w => PassesAll(w, tests))
  }

  /** Consuming the lazy filter chain raises IndexError: some word passes the filters
      before test `k` and then faults on test `k`. */
  predicate RaisesIndexError(words: seq<string>, tests: seq<Test>)
  {
    exists w, k :: w in words && 0 <= k < |tests| && PassesAll(w, tests[..k]) && Faults(w, tests[k])
  }

  /** The condition holds of the word, in the plain sense of "contains" / "has at index". */
  predicate Holds(c: Condition, w: string)
  {
    Eval(c, w) == Some(true)
  }

  /** An inclusion test is met when its condition holds, an exclusion test when it does not. */
  predicate Meets(w: string, t: Test)
  {
    if t.incl then Holds(t.cond, w) else !Holds(t.cond, w)
  }

  predicate MeetsAll(w: string, tests: seq<Test>)
  {
    forall k :: 0 <= k < |tests| ==> Meets(w, tests[k])
  }

  /** `_find`'s reading of one condition: a str is a substring condition; a tuple must be
      a (str, int) pair, else its assertion fails; anything else is a TypeError. */
  function ParseCondition(v: PyValue): (r: Result<Condition>)
    ensures r.Ok? <==> v.PyStr? || (v.PyTuple? && |v.items| == 2 && v.items[0].PyStr? && v.items[1].PyInt?)
    ensures r.Err? ==> r.error == (if v.PyTuple? then AssertionError else TypeError)
    ensures r.Ok? && v.PyStr? ==> r.value == Substring(v.s)
    ensures r.Ok? && v.PyTuple? ==> r.value == Positional(v.items[0].s, v.items[1].n)
  {
    match v
    case PyStr(s) => Ok(Substring(s))
    case PyTuple(items) =>
      if |items| == 2 && items[0].PyStr? && items[1].PyInt? then Ok(Positional(items[0].s, items[1].n))
      else Err(AssertionError)
    case _ => Err(TypeError)
  }

  /** The tests read before the first failure, and that failure if there is one. */
  datatype Parsed = Parsed(tests: seq<Test>, failure: Option<Error>)

  /** Reading a list of conditions in order, stopping at the first malformed one. */
  function ParseItems(items: seq<PyValue>, incl: bool): (p: Parsed)
    ensures |p.tests| <= |items|
    ensures forall k :: 0 <= k < |p.tests| ==>
              ParseCondition(items[k]) == Ok(p.tests[k].cond) && p.tests[k].incl == incl
    ensures p.failure.None? ==> |p.tests| == |items|
    ensures p.failure.Some? ==>
              |p.tests| < |items| && ParseCondition(items[|p.tests|]) == Err(p.failure.value)
  {
    if items == [] then Parsed([], None)
    else
      match ParseCondition(items[0])
      case Err(e) => Parsed([], Some(e))
      case Ok(c) =>
        var rest := ParseItems(items[1..], incl);
        Parsed([Test(c, incl)] + rest.tests, rest.failure)
  }

  /** Any read that satisfies the contract of ParseItems is the one ParseItems gives. */
  lemma ParsedPrefixUnique(items: seq<PyValue>, incl: bool, tests: seq<Test>)
    requires |tests| <= |items|
    requires forall k :: 0 <= k < |tests| ==>
               ParseCondition(items[k]) == Ok(tests[k].cond) && tests[k].incl == incl
    requires |tests| < |items| ==> ParseCondition(items[|tests|]).Err?
    ensures ParseItems(items, incl).tests == tests
    ensures ParseItems(items, incl).failure ==
              if |tests| == |items| then None else Some(ParseCondition(items[|tests|]).error)
  {
  }

  /** `do(cond, incl)` for one truthy argument: a str or tuple is one condition, a list
      is a list of conditions, anything else is a TypeError. A falsy argument is skipped. */
  function ParseArg(v: PyValue, incl: bool): (p: Parsed)
    ensures !Truthy(v) ==> p == Parsed([], None)
    ensures Truthy(v) && !(v.PyStr? || v.PyTuple? || v.PyList?) ==> p == Parsed([], Some(TypeError))
    ensures Truthy(v) && v.PyStr? ==> p == Parsed([Test(Substring(v.s), incl)], None)
    ensures forall k :: 0 <= k < |p.tests| ==> p.tests[k].incl == incl
  {
    if !Truthy(v) then Parsed([], None)
    else
      match v
      case PyStr(_) => ParseItems([v], incl)
      case PyTuple(_) => ParseItems([v], incl)
      case PyList(items) => ParseItems(items, incl)
      case _ => Parsed([], Some(TypeError))
  }

  /** The inclusion tests, then the exclusion tests; exclusions are not read after a failure. */
  function ParseArgs(inc: PyValue, exc: PyValue): (p: Parsed)
    ensures p.failure == if ParseArg(inc, true).failure.Some? then ParseArg(inc, true).failure
                         else ParseArg(exc, false).failure
    ensures ParseArg(inc, true).tests <= p.tests
    ensures forall k :: 0 <= k < |p.tests| ==> p.tests[k].incl == (k < |ParseArg(inc, true).tests|)
  {
    var a := ParseArg(inc, true);
    if a.failure.Some? then a
    else
      var b := ParseArg(exc, false);
      Parsed(a.tests + b.tests, b.failure)
  }

  /** What `find_candidates(include, exclude)` returns or raises for a corpus. */
  function Candidates(words: seq<string>, inc: PyValue, exc: PyValue): (r: Result<seq<string>>)
    ensures !Truthy(inc) && !Truthy(exc) ==> r == Err(AssertionError)
    ensures ParseArgs(inc, exc).failure.Some? && (Truthy(inc) || Truthy(exc)) ==>
              r == Err(ParseArgs(inc, exc).failure.value)
    ensures r.Ok? ==> |r.value| <= |words| && forall k :: 0 <= k < |r.value| ==> PassesAll(r.value[k], ParseArgs(inc, exc).tests)
  {
    if !Truthy(inc) && !Truthy(exc) then Err(AssertionError)
    else
      var p := ParseArgs(inc, exc);
      if p.failure.Some? then Err(p.failure.value)
      else if RaisesIndexError(words, p.tests) then Err(IndexError)
      else Ok(Select(words, p.tests))
  }

  /** The candidate pool `_cands` after the call, as a list of words. */
  function PoolAfter(pool: Option<seq<string>>, words: seq<string>, inc: PyValue, exc: PyValue)
    : (p: Option<seq<string>>)
    ensures !Truthy(inc) && !Truthy(exc) ==> p == pool
    ensures Truthy(inc) || Truthy(exc) ==> p.Some? && IsSubsequence(p.value, words)
    ensures Candidates(words, inc, exc).Ok? ==> p == Some(Candidates(words, inc, exc).value)
  {
    if !Truthy(inc) && !Truthy(exc) then pool
    else
      FilterIsSubsequence(words, w => PassesAll(w, ParseArgs(inc, exc).tests));
      Some(Select(words, ParseArgs(inc, exc).tests))
  }

  // ---------------------------------------------------------------------------
  // The chain of filters, one test at a time

  /** Passing the concatenation of two chains is passing both. */
  lemma PassesAllAppend(w: string, a: seq<Test>, b: seq<Test>)
    ensures PassesAll(w, a + b) <==> PassesAll(w, a) && PassesAll(w, b)
  {
    if PassesAll(w, a) && PassesAll(w, b) {
      forall k | 0 <= k < |a + b|
        ensures Passes(w, (a + b)[k])
      {
        if k >= |a| {
          assert (a + b)[k] == b[k - |a|];
        }
      }
    }
    if PassesAll(w, a + b) {
      forall k | 0 <= k < |a|
        ensures Passes(w, a[k])
      {
        assert (a + b)[k] == a[k];
      }
      forall k | 0 <= k < |b|
        ensures Passes(w, b[k])
      {
        assert (a + b)[|a| + k] == b[k];
      }
    }
  }

  /** The empty chain keeps the whole pool. */
  lemma SelectNone(words: seq<string>)
    ensures Select(words, []) == words
  {
    FilterKeepsAll(words, w => PassesAll(w, []));
  }

  /** Filtering the result of one chain by a second chain is filtering by both. */
  lemma SelectAppend(words: seq<string>, a: seq<Test>, b: seq<Test>)
    ensures Select(Select(words, a), b) == Select(words, a + b)
  {
    forall w
      ensures PassesAll(w, a + b) == (PassesAll(w, a) && PassesAll(w, b))
    {
      PassesAllAppend(w, a, b);
    }
    FilterOfFilter(words, w => PassesAll(w, a), w => PassesAll(w, b), w => PassesAll(w, a + b));
  }

  /** A chain `a + b` raises when `a` raises or when `b` raises on what `a` lets through. */
  lemma RaisesAppend(words: seq<string>, a: seq<Test>, b: seq<Test>)
    ensures RaisesIndexError(words, a + b) <==>
              RaisesIndexError(words, a) || RaisesIndexError(Select(words, a), b)
  {
    if RaisesIndexError(words, a + b) {
      RaisesAppendSplit(words, a, b);
    }
    if RaisesIndexError(words, a) {
      RaisesPrefix(words, a, b);
    }
    if RaisesIndexError(Select(words, a), b) {
      RaisesSuffix(words, a, b);
    }
  }

  lemma RaisesAppendSplit(words: seq<string>, a: seq<Test>, b: seq<Test>)
    requires RaisesIndexError(words, a + b)
    ensures RaisesIndexError(words, a) || RaisesIndexError(Select(words, a), b)
  {
    var ab := a + b;
    var w, k :| w in words && 0 <= k < |ab| && PassesAll(w, ab[..k]) && Faults(w, ab[k]);
    if k < |a| {
      assert ab[..k] == a[..k];
      assert RaisesIndexError(words, a);
    } else {
      assert ab[..k] == a + b[..k - |a|];
      PassesAllAppend(w, a, b[..k - |a|]);
      FilterMembers(words, w => PassesAll(w, a), w);
      assert ab[k] == b[k - |a|];
      assert RaisesIndexError(Select(words, a), b);
    }
  }

  lemma RaisesPrefix(words: seq<string>, a: seq<Test>, b: seq<Test>)
    requires RaisesIndexError(words, a)
    ensures RaisesIndexError(words, a + b)
  {
    var ab := a + b;
    var w, k :| w in words && 0 <= k < |a| && PassesAll(w, a[..k]) && Faults(w, a[k]);
    assert ab[..k] == a[..k] && ab[k] == a[k];
  }

  lemma RaisesSuffix(words: seq<string>, a: seq<Test>, b: seq<Test>)
    requires RaisesIndexError(Select(words, a), b)
    ensures RaisesIndexError(words, a + b)
  {
    var ab := a + b;
    var w, k :| w in Select(words, a) && 0 <= k < |b| && PassesAll(w, b[..k]) && Faults(w, b[k]);
    FilterMembers(words, w => PassesAll(w, a), w);
    assert ab[..|a| + k] == a + b[..k];
    PassesAllAppend(w, a, b[..k]);
    assert ab[|a| + k] == b[k];
  }

  /** One more test at the end of the chain: filter once more, and raise if any word
      still in the pool faults on it. */
  lemma SelectSnoc(words: seq<string>, tests: seq<Test>, t: Test)
    ensures Select(words, tests + [t]) == Filter(Select(words, tests), w => Passes(w, t))
    ensures RaisesIndexError(words, tests + [t]) <==>
              RaisesIndexError(words, tests) || exists w :: w in Select(words, tests) && Faults(w, t)
  {
    SelectAppend(words, tests, [t]);
    var pool := Select(words, tests);
    forall k | 0 <= k < |pool|
      ensures PassesAll(pool[k], [t]) == Passes(pool[k], t)
    {
      assert [t][0] == t;
    }
    FilterAgree(pool, w => PassesAll(w, [t]), w => Passes(w, t));
    RaisesAppend(words, tests, [t]);
    if exists w :: w in pool && Faults(w, t) {
      var w :| w in pool && Faults(w, t);
      assert [t][..0] == [];
      assert RaisesIndexError(pool, [t]);
    }
  }

  /** `find_candidates` step by step: the inclusion chain runs on the corpus, then the
      exclusion chain on what it lets through; a malformed inclusion condition stops the
      call before `exclude` is read. */
  lemma CandidatesInSteps(words: seq<string>, inc: PyValue, exc: PyValue)
    ensures var a, b := ParseArg(inc, true), ParseArg(exc, false);
            && (a.failure.Some? ==> ParseArgs(inc, exc).tests == a.tests)
            && (a.failure.None? ==>
                  && Select(words, ParseArgs(inc, exc).tests) == Select(Select(words, a.tests), b.tests)
                  && (RaisesIndexError(words, ParseArgs(inc, exc).tests) <==>
                        RaisesIndexError(words, a.tests) || RaisesIndexError(Select(words, a.tests), b.tests)))
  {
    var a, b := ParseArg(inc, true), ParseArg(exc, false);
    if a.failure.None? {
      SelectAppend(words, a.tests, b.tests);
      RaisesAppend(words, a.tests, b.tests);
    }
  }

  // ---------------------------------------------------------------------------
  // What the result means

  /** A word that reaches no faulting test passes the chain exactly when it meets
      every test (inclusions hold, exclusions do not). */
  lemma {:induction false} PassesIffMeets(w: string, tests: seq<Test>, n: nat)
    requires n <= |tests|
    requires forall k :: 0 <= k < |tests| && PassesAll(w, tests[..k]) ==> !Faults(w, tests[k])
    ensures (forall k :: 0 <= k < n ==> Passes(w, tests[k])) <==> (forall k :: 0 <= k < n ==> Meets(w, tests[k]))
  {
    if n > 0 {
      PassesIffMeets(w, tests, n - 1);
      if forall k :: 0 <= k < n ==> Meets(w, tests[k]) {
        assert PassesAll(w, tests[..n - 1]);
        assert !Faults(w, tests[n - 1]);
      }
    }
  }

  /** When consuming the chain does not raise, the chain selects exactly the words that
      meet every test. */
  lemma SelectMeaning(words: seq<string>, tests: seq<Test>)
    requires !RaisesIndexError(words, tests)
    ensures Select(words, tests) == Filter(words, w => MeetsAll(w, tests))
  {
    forall k | 0 <= k < |words|
      ensures PassesAll(words[k], tests) == MeetsAll(words[k], tests)
    {
      var w := words[k];
      forall j | 0 <= j < |tests| && PassesAll(w, tests[..j])
        ensures !Faults(w, tests[j])
      {
        if Faults(w, tests[j]) {
          assert w in words;
          assert RaisesIndexError(words, tests);
        }
      }
      PassesIffMeets(w, tests, |tests|);
    }
    FilterAgree(words, w => PassesAll(w, tests), w => MeetsAll(w, tests));
  }

  /** The tests of a well-formed call are the inclusion tests read from `include`
      followed by the exclusion tests read from `exclude`. */
  lemma ParseArgsSplit(inc: PyValue, exc: PyValue)
    requires ParseArgs(inc, exc).failure.None?
    ensures ParseArgs(inc, exc).tests == ParseArg(inc, true).tests + ParseArg(exc, false).tests
    ensures forall t :: t in ParseArg(inc, true).tests ==> t.incl
    ensures forall t :: t in ParseArg(exc, false).tests ==> !t.incl
  {
  }

  /** The key property of `find_candidates`: a successful result is exactly the words
      of the corpus, in corpus order, on which every inclusion condition holds and every
      exclusion condition fails (the split into inclusions and exclusions is ParseArgsSplit). */
  lemma CandidatesMeaning(words: seq<string>, inc: PyValue, exc: PyValue, r: seq<string>)
    requires Candidates(words, inc, exc) == Ok(r)
    ensures r == Filter(words, w => MeetsAll(w, ParseArgs(inc, exc).tests))
    ensures forall w :: w in r <==> w in words && MeetsAll(w, ParseArgs(inc, exc).tests)
    ensures IsSubsequence(r, words)
  {
    var tests := ParseArgs(inc, exc).tests;
    SelectMeaning(words, tests);
    forall w
      ensures w in r <==> w in words && MeetsAll(w, tests)
    {
      FilterMembers(words, w => MeetsAll(w, tests), w);
    }
    FilterIsSubsequence(words, w => PassesAll(w, tests));
  }

  /** Tests that occur with the same conditions, in any order and any number of times,
      select the same words. */
  lemma SameTestsSameSelection(words: seq<string>, t1: seq<Test>, t2: seq<Test>)
    requires forall t :: t in t1 <==> t in t2
    ensures Select(words, t1) == Select(words, t2)
  {
    forall k | 0 <= k < |words|
      ensures PassesAll(words[k], t1) == PassesAll(words[k], t2)
    {
      if PassesAll(words[k], t1) {
        forall j | 0 <= j < |t2| ensures Passes(words[k], t2[j]) {
          assert t2[j] in t1;
          var i :| 0 <= i < |t1| && t1[i] == t2[j];
        }
      }
      if PassesAll(words[k], t2) {
        forall j | 0 <= j < |t1| ensures Passes(words[k], t1[j]) {
          assert t1[j] in t2;
          var i :| 0 <= i < |t2| && t2[i] == t1[j];
        }
      }
    }
    FilterAgree(words, w => PassesAll(w, t1), w => PassesAll(w, t2));
  }

  /** Every test read from a well-formed list is read from any well-formed list that
      holds all of its conditions. */
  lemma TestsIncluded(a: seq<PyValue>, b: seq<PyValue>, incl: bool)
    requires forall x :: x in a ==> x in b
    requires ParseItems(a, incl).failure.None? && ParseItems(b, incl).failure.None?
    ensures forall t :: t in ParseItems(a, incl).tests ==> t in ParseItems(b, incl).tests
  {
    var pa, pb := ParseItems(a, incl), ParseItems(b, incl);
    forall t | t in pa.tests
      ensures t in pb.tests
    {
      var i :| 0 <= i < |pa.tests| && pa.tests[i] == t;
      assert a[i] in b;
      var j :| 0 <= j < |b| && b[j] == a[i];
      assert pb.tests[j] == t;
    }
  }

  /** Two lists holding the same conditions read into the same tests, up to order. */
  lemma PermutedItemsSameTests(a: seq<PyValue>, b: seq<PyValue>, incl: bool)
    requires multiset(a) == multiset(b)
    requires ParseItems(a, incl).failure.None?
    ensures ParseItems(b, incl).failure.None?
    ensures forall t :: t in ParseItems(a, incl).tests <==> t in ParseItems(b, incl).tests
  {
    forall x | x in a
      ensures x in b
    {
      assert x in multiset(a);
    }
    forall x | x in b
      ensures x in a && ParseCondition(x).Ok?
    {
      assert x in multiset(b);
      var i :| 0 <= i < |a| && a[i] == x;
    }
    TestsIncluded(a, b, incl);
    TestsIncluded(b, a, incl);
  }

  /** Reordering the conditions inside the `include` and `exclude` lists of a successful
      call gives the same result or IndexError: the filters are chained conjunctively, and
      no malformed condition can appear. (Whether IndexError is raised can depend on the
      order; see ReorderingCanExposeIndexError.) */
  lemma ReorderedConditionsSameResult(words: seq<string>, ia: seq<PyValue>, ib: seq<PyValue>,
                                      ea: seq<PyValue>, eb: seq<PyValue>)
    requires multiset(ia) == multiset(ib) && multiset(ea) == multiset(eb)
    requires Candidates(words, PyList(ia), PyList(ea)).Ok?
    ensures Candidates(words, PyList(ib), PyList(eb)) in
              {Candidates(words, PyList(ia), PyList(ea)), Err(IndexError)}
  {
    assert |ia| == |multiset(ia)| == |ib|;
    assert |ea| == |multiset(ea)| == |eb|;
    var ta, tb := ParseArgs(PyList(ia), PyList(ea)).tests, ParseArgs(PyList(ib), PyList(eb)).tests;
    var iA, iB := ParseArg(PyList(ia), true).tests, ParseArg(PyList(ib), true).tests;
    var eA, eB := ParseArg(PyList(ea), false).tests, ParseArg(PyList(eb), false).tests;
    if ia != [] {
      PermutedItemsSameTests(ia, ib, true);
    }
    if ea != [] {
      PermutedItemsSameTests(ea, eb, false);
    }
    assert ta == iA + eA && tb == iB + eB;
    forall t
      ensures t in ta <==> t in tb
    {
      assert t in ta <==> t in iA || t in eA;
      assert t in tb <==> t in iB || t in eB;
    }
    SameTestsSameSelection(words, ta, tb);
  }

  /** The two orders of the conditions `("a", 0)` and `("b", 5)` read as two inclusion tests. */
  lemma TwoPositionalConditions()
    ensures var va, vb := PyTuple([PyStr("a"), PyInt(0)]), PyTuple([PyStr("b"), PyInt(5)]);
            var a, b := Test(Positional("a", 0), true), Test(Positional("b", 5), true);
            && ParseArgs(PyList([va, vb]), PyNone) == Parsed([a, b], None)
            && ParseArgs(PyList([vb, va]), PyNone) == Parsed([b, a], None)
  {
    var a, b := Test(Positional("a", 0), true), Test(Positional("b", 5), true);
    var va, vb := PyTuple([PyStr("a"), PyInt(0)]), PyTuple([PyStr("b"), PyInt(5)]);
    assert ParseCondition(va) == Ok(a.cond) && ParseCondition(vb) == Ok(b.cond);
    assert [va, vb][1..] == [vb] && [vb, va][1..] == [va];
    assert ParseItems([vb], true) == Parsed([b], None);
    assert ParseItems([va], true) == Parsed([a], None);
  }

  /** The lazy chain raises IndexError only for words that reach the faulting filter, so
      the order of conditions decides whether it is raised: `[("a", 0), ("b", 5)]`
      keeps no word of `["xbc"]`, while `[("b", 5), ("a", 0)]` indexes position 5 of "xbc". */
  lemma ReorderingCanExposeIndexError()
    ensures Candidates(["xbc"], PyList([PyTuple([PyStr("a"), PyInt(0)]), PyTuple([PyStr("b"), PyInt(5)])]), PyNone)
            == Ok([])
    ensures Candidates(["xbc"], PyList([PyTuple([PyStr("b"), PyInt(5)]), PyTuple([PyStr("a"), PyInt(0)])]), PyNone)
            == Err(IndexError)
  {
    TwoPositionalConditions();
    ExampleChains();
  }

  /** On `["xbc"]`, the chain `("a", 0)` then `("b", 5)` drops the word before it can
      fault, while the chain `("b", 5)` then `("a", 0)` faults on it. */
  lemma ExampleChains()
    ensures var a, b := Test(Positional("a", 0), true), Test(Positional("b", 5), true);
            && Select(["xbc"], [a, b]) == []
            && !RaisesIndexError(["xbc"], [a, b])
            && RaisesIndexError(["xbc"], [b, a])
  {
    var a, b := Test(Positional("a", 0), true), Test(Positional("b", 5), true);
    assert [a, b][0] == a && !Passes("xbc", a);
    assert !PassesAll("xbc", [a, b]);
    assert ["xbc"][1..] == [];
    assert [b, a][..0] == [] && [b, a][0] == b;
    assert "xbc" in ["xbc"] && Faults("xbc", b);
  }

  /** A single str or tuple condition behaves as the one-element list holding it, both
      as `include` and as `exclude`, for the result and for the pool left behind. */
  lemma SingleConditionAsList(words: seq<string>, v: PyValue, other: PyValue, pool: Option<seq<string>>)
    requires Truthy(v) && (v.PyStr? || v.PyTuple?)
    ensures Candidates(words, v, other) == Candidates(words, PyList([v]), other)
    ensures Candidates(words, other, v) == Candidates(words, other, PyList([v]))
    ensures PoolAfter(pool, words, v, other) == PoolAfter(pool, words, PyList([v]), other)
    ensures PoolAfter(pool, words, other, v) == PoolAfter(pool, words, other, PyList([v]))
  {
    assert ParseArg(v, true) == ParseArg(PyList([v]), true);
    assert ParseArg(v, false) == ParseArg(PyList([v]), false);
  }

  /** The error cases of `find_candidates` that do not depend on the corpus. */
  lemma ArgumentErrors(words: seq<string>, inc: PyValue, exc: PyValue)
    ensures !Truthy(inc) && !Truthy(exc) ==> Candidates(words, inc, exc) == Err(AssertionError)
    ensures Truthy(inc) && !(inc.PyStr? || inc.PyTuple? || inc.PyList?) ==>
              Candidates(words, inc, exc) == Err(TypeError)
    ensures ParseArg(inc, true).failure.None? && Truthy(exc) && !(exc.PyStr? || exc.PyTuple? || exc.PyList?) ==>
              Candidates(words, inc, exc) == Err(TypeError)
    ensures Truthy(inc) && inc.PyTuple? &&
            !(|inc.items| == 2 && inc.items[0].PyStr? && inc.items[1].PyInt?) ==>
              Candidates(words, inc, exc) == Err(AssertionError)
    ensures ParseArg(inc, true).failure.None? && Truthy(exc) && exc.PyTuple? &&
            !(|exc.items| == 2 && exc.items[0].PyStr? && exc.items[1].PyInt?) ==>
              Candidates(words, inc, exc) == Err(AssertionError)
  {
  }

  /** In an `include` list, the first condition that is neither a str nor a (str, int)
      pair decides the exception, whatever follows it and whatever `exclude` is. */
  lemma FirstBadIncludeFails(words: seq<string>, items: seq<PyValue>, exc: PyValue, k: nat)
    requires k < |items|
    requires forall j :: 0 <= j < k ==> ParseCondition(items[j]).Ok?
    requires ParseCondition(items[k]).Err?
    ensures Candidates(words, PyList(items), exc) == Err(ParseCondition(items[k]).error)
  {
  }

  /** On a corpus of words of one length `n`, positional indices in `[-n, n)` never raise,
      so a well-formed call succeeds. */
  lemma UniformCorpusNeverRaises(words: seq<string>, n: nat, inc: PyValue, exc: PyValue)
    requires forall j :: 0 <= j < |words| ==> |words[j]| == n
    requires Truthy(inc) || Truthy(exc)
    requires ParseArgs(inc, exc).failure.None?
    requires forall t :: t in ParseArgs(inc, exc).tests && t.cond.Positional? ==>
               -(n as int) <= t.cond.index < n
    ensures Candidates(words, inc, exc) == Ok(Select(words, ParseArgs(inc, exc).tests))
  {
  }
}
